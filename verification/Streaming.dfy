/** The sending session: NAL units are collected and packetised in one fixed buffer, in place. */
module Streaming {
  import opened Common
  import opened RtpPayload
  import opened Packetizer
  import opened AnnexB

  const RTP_HEADER: nat := 12
  const RTP_MAX_PACKET_LENGTH: nat := 2048

  class Session {
    const mtu: nat
    const buffer: array<byte>
    /** video_buffer_ptr, as an offset into the buffer. */
    var ptr: nat
    /** An 8-bit counter. */
    var bufferedNals: nat
    var sequence: nat
    /** The packets handed to the network, oldest first, and the sequence number of each. */
    var sent: seq<Packet>
    var numbers: seq<nat>
    ghost var pending: seq<Nal>
    ghost var groups: seq<nat>

    ghost predicate Valid()
      reads this, buffer
    {
      && Workable(mtu) && buffer.Length == RTP_MAX_PACKET_LENGTH
      && Fitting(mtu, pending) && Sizable(pending) && BufferedSize(pending) <= mtu
      && ptr == RTP_HEADER + BufferedSize(pending)
      && Body() == (if pending == [] then [] else Aggregate(pending))
      && bufferedNals == |pending| % 256
      && Numbered()
    }

    /** Sequence numbers count up from 123 and wrap after 16 bits. */
    ghost predicate Numbered()
      reads this`numbers, this`sent, this`sequence
    {
      && |numbers| == |sent| && sequence == (123 + |sent|) % 0x1_0000
      && forall i :: 0 <= i < |numbers| ==> numbers[i] == (123 + i) % 0x1_0000
    }

    /** What has been written behind the header. */
    ghost function Body(): seq<byte>
      requires RTP_HEADER <= ptr <= buffer.Length
      reads this, buffer
    {
      buffer[RTP_HEADER..ptr]
    }

    ghost function St(): State
      reads this
    {
      State(pending, sent, groups)
    }

    constructor (mtu: nat)
      requires Workable(mtu)
      ensures Valid() && St() == EMPTY && this.mtu == mtu && fresh(buffer)
    {
      this.mtu := mtu;
      buffer := new byte[RTP_MAX_PACKET_LENGTH](_ => 0);
      ptr, bufferedNals, sequence := RTP_HEADER, 0, 123;
      sent, numbers, pending, groups := [], [], [], [];
    }

    /** session_send_data: what lies behind the header goes out, unless there is nothing. */
    method SendData(last: bool)
      requires buffer.Length == RTP_MAX_PACKET_LENGTH && RTP_HEADER <= ptr <= buffer.Length
      requires Numbered()
      modifies this`ptr, this`sequence, this`sent, this`numbers
      ensures ptr == RTP_HEADER && Numbered()
      ensures sent == old(sent) + (if old(ptr) == RTP_HEADER then [] else [Packet(old(Body()), last)])
    {
      if ptr <= RTP_HEADER {
        return;
      }
      numbers := numbers + [sequence];
      sequence := (sequence + 1) % 0x1_0000;
      sent := sent + [Packet(buffer[RTP_HEADER..ptr], last)];
      ptr := RTP_HEADER;
    }

    /** session_flush_buffered */
    method FlushBuffered(last: bool)
      requires Valid()
      modifies this, buffer
      ensures Valid() && pending == [] && St() == Flush(old(St()), last)
    {
      var size := ptr;
      if size == 0 {
        return;
      }
      if bufferedNals == 1 {
        CutHeader(pending);
        DropHeader();
      }
      SendData(last);
      bufferedNals := 0;
      if pending != [] {
        groups := groups + [|pending|];
      }
      pending := [];
    }

    /** Take the aggregate header and the first size field out of the buffer. */
    method DropHeader()
      requires buffer.Length == RTP_MAX_PACKET_LENGTH && RTP_HEADER + 3 <= ptr && ptr + RTP_HEADER <= buffer.Length
      modifies this`ptr, buffer
      ensures ptr == old(ptr) - 3 && Body() == old(Body())[3..]
    {
      var size := ptr;
      ghost var b, agg := buffer[..], Body();
      MoveDown(size - 3);
      ptr := ptr - 3;
      assert b[RTP_HEADER..size] == agg;
      assert Body() == agg[3..];
    }

    /** The memmove of session_flush_buffered: `n` bytes move three places down, to just behind the header. */
    method MoveDown(n: nat)
      requires buffer.Length == RTP_MAX_PACKET_LENGTH && RTP_HEADER + 3 + n <= buffer.Length
      modifies buffer
      ensures forall j :: RTP_HEADER <= j < RTP_HEADER + n ==> buffer[j] == old(buffer[..])[j + 3]
    {
      ghost var b := buffer[..];
      for i := 0 to n
        invariant forall j :: RTP_HEADER <= j < RTP_HEADER + i ==> buffer[j] == b[j + 3]
        invariant forall j :: RTP_HEADER + i <= j < buffer.Length ==> buffer[j] == b[j]
      {
        buffer[RTP_HEADER + i] := buffer[RTP_HEADER + 3 + i];
      }
    }

    /** memcpy of `data` to the write position. */
    method Put(data: seq<byte>)
      requires RTP_HEADER <= ptr && ptr + |data| <= buffer.Length
      modifies this`ptr, buffer
      ensures ptr == old(ptr) + |data| && Body() == old(Body()) + data
    {
      for i := 0 to |data|
        invariant ptr == old(ptr) && Body() == old(Body())
        invariant buffer[ptr..ptr + i] == data[..i]
      {
        buffer[ptr + i] := data[i];
      }
      ptr := ptr + |data|;
    }

    /** session_send_nal */
    method SendNal(nal: Nal, last: bool)
      requires Valid()
      modifies this, buffer
      ensures Valid() && St() == Packetizer.SendNal(mtu, old(St()), nal, last)
    {
      hide RtpPayload.Aggregate, RtpPayload.Fragments, FlushPayload;
      if |nal| <= mtu {
        var bufferedSize := ptr - RTP_HEADER;
        if bufferedSize + 2 + |nal| > mtu {
          FlushBuffered(false);
          bufferedSize := 0;
        }
        if bufferedSize + 3 + |nal| <= mtu {
          Buffer(nal);
        } else {
          SendAlone(nal, last);
        }
      } else {
        FlushBuffered(false);
        SendFragments(nal, last);
      }
    }

    /** Send what is buffered and then one NAL unit in a packet of its own. */
    method SendAlone(nal: Nal, last: bool)
      requires Valid() && |nal| <= mtu
      modifies this, buffer
      ensures Valid()
      ensures var st := Flush(old(St()), false); St() == st.(out := st.out + Emit(nal, last))
    {
      FlushBuffered(false);
      hide Flush, Fitting, RtpPayload.Sizable, RtpPayload.Aggregate;
      Put(nal);
      assert Body() == nal;
      SendData(last);
    }

    method WriteUnit(nal: Nal)
      requires RTP_HEADER <= ptr && ptr + 3 + |nal| <= buffer.Length
      modifies this`ptr, buffer
      ensures RTP_HEADER <= ptr <= buffer.Length
      ensures Body() == (if old(ptr) == RTP_HEADER then [STAP_A] else old(Body())) + [|nal| / 256 % 256, |nal| % 256]
        + nal
    {
      if ptr == RTP_HEADER {
        Put([STAP_A]);
      }
      Put([|nal| / 256 % 256, |nal| % 256]);
      Put(nal);
    }

    /** Append one NAL unit to the aggregate in the buffer. */
    method Buffer(nal: Nal)
      requires Valid() && BufferedSize(pending) + 3 + |nal| <= mtu
      modifies this, buffer
      ensures Valid() && St() == old(St()).(pending := old(pending) + [nal])
    {
      AggregateAppend(pending, nal);
      assert Fitting(mtu, pending + [nal]);
      hide Numbered, RtpPayload.Aggregate, RtpPayload.Unit, Fitting, RtpPayload.Sizable;
      WriteUnit(nal);
      CounterStep(|pending|);
      bufferedNals := (bufferedNals + 1) % 256;
      pending := pending + [nal];
    }

    /** The fragmentation loop of session_send_nal. */
    method SendFragments(nal: Nal, last: bool)
      requires Valid() && pending == [] && |nal| > mtu
      modifies this, buffer
      ensures Valid() && St() == old(St()).(out := old(sent) + Fragments(nal, nal[1..], mtu - 2, true, last))
    {
      hide Numbered, RtpPayload.Fragment;
      var data := nal[1..];
      var room, first := mtu - 2, true;
      while |data| > room
        invariant Valid() && pending == [] && groups == old(groups)
        invariant sent + Fragments(nal, data, room, first, last)
          == old(sent) + Fragments(nal, nal[1..], room, true, last)
        decreases |data|
      {
        SendFragment(nal, first, false, data[..room], false);
        data, first := data[room..], false;
      }
      SendFragment(nal, false, true, data, last);
    }

    /** Two bytes of fragment header and the data, in a packet of their own. */
    method SendFragment(nal: Nal, start: bool, end: bool, data: seq<byte>, last: bool)
      requires Valid() && pending == [] && nal != [] && |data| <= mtu - 2
      modifies this, buffer
      ensures Valid() && St() == old(St()).(out := old(sent) + [Packet(Fragment(nal, start, end, data), last)])
    {
      ptr := RTP_HEADER;
      Put([NriOf(nal[0]) + FU_A, (if start then 128 else 0) + (if end then 64 else 0) + TypeOf(nal[0])]);
      Put(data);
      assert Body() == Fragment(nal, start, end, data);
      hide RtpPayload.Fragment;
      SendData(last);
    }

    /** The NAL loop of stream_task for one session, from the first start code of a frame to the final flush. */
    method SendFrame(frame: seq<byte>)
      requires Valid() && pending == []
      modifies this, buffer
      ensures Valid() && pending == []
      ensures sent == old(sent) + Packets(mtu, NalsOf(frame))
    {
      hide Numbered, StartAt, NextStart, Packetizer.SendNal, Fitting, RtpPayload.Sizable, Flush, RtpPayload.Aggregate,
           BufferedSize;
      var pos := FindNalStart(frame, 0);
      ghost var nals, n := NalsFrom(frame, pos), 0;
      ghost var sent0, groups0 := sent, groups;
      while pos < |frame|
        invariant pos <= |frame| && (pos < |frame| ==> StartAt(frame, pos))
        invariant n <= |nals| && NalsFrom(frame, pos) == nals[n..]
        invariant Valid() && St() == Behind(sent0, groups0, After(mtu, nals, n))
        decreases |frame| - pos
      {
        pos := SendNext(frame, pos, nals, n, sent0, groups0);
        n := n + 1;
      }
      assert n == |nals|;
      BehindFlush(sent0, groups0, After(mtu, nals, n), true);
      FlushBuffered(true);
    }

    /** One turn of the NAL loop: skip the start code, find the end of the NAL unit, send it. */
    method SendNext(frame: seq<byte>, pos: nat, ghost nals: seq<Nal>, ghost n: nat,
                    ghost sent0: seq<Packet>, ghost groups0: seq<nat>) returns (next: nat)
      requires Valid() && pos < |frame| && StartAt(frame, pos)
      requires n <= |nals| && NalsFrom(frame, pos) == nals[n..]
      requires St() == Behind(sent0, groups0, After(mtu, nals, n))
      modifies this, buffer
      ensures pos < next <= |frame| && (next < |frame| ==> StartAt(frame, next))
      ensures n < |nals| && NalsFrom(frame, next) == nals[n + 1..]
      ensures Valid() && St() == Behind(sent0, groups0, After(mtu, nals, n + 1))
    {
      hide Numbered, StartAt, NextStart, Packetizer.SendNal, Fitting, RtpPayload.Sizable, RtpPayload.Aggregate,
        BufferedSize;
      var b := pos + (if frame[pos + 2] == 1 then 3 else 4);
      next := FindNalStart(frame, b);
      NextUnit(frame, pos, nals, n);
      BehindSend(mtu, sent0, groups0, After(mtu, nals, n), nals[n], n + 1 == |nals|);
      SendNal(frame[b..next], next == |frame|);
    }
  }

  /** The next NAL unit of the frame is the next one to send, and it is the last one when it ends the frame. */
  lemma NextUnit(frame: seq<byte>, pos: nat, nals: seq<Nal>, n: nat)
    requires pos < |frame| && StartAt(frame, pos) && n <= |nals| && NalsFrom(frame, pos) == nals[n..]
    ensures var b := pos + (if frame[pos + 2] == 1 then 3 else 4); var next := NextStart(frame, b);
      && n < |nals| && nals[n] == frame[b..next] && NalsFrom(frame, next) == nals[n + 1..]
      && (next == |frame| <==> n + 1 == |nals|)
  {
    var b := pos + (if frame[pos + 2] == 1 then 3 else 4);
    var next := NextStart(frame, b);
    assert nals[n..] == [frame[b..next]] + NalsFrom(frame, next);
    assert nals[n] == nals[n..][0] && nals[n + 1..] == nals[n..][1..];
  }

  /** A state whose packets come behind earlier ones. */
  function Behind(sent: seq<Packet>, groups: seq<nat>, st: State): State {
    State(st.pending, sent + st.out, groups + st.groups)
  }

  lemma BehindFlush(sent: seq<Packet>, groups: seq<nat>, st: State, last: bool)
    requires Sizable(st.pending)
    ensures Flush(Behind(sent, groups, st), last) == Behind(sent, groups, Flush(st, last))
  {
    if st.pending != [] {
      var p, g := Emit(FlushPayload(st.pending), last), [|st.pending|];
      assert sent + st.out + p == sent + (st.out + p);
      assert groups + st.groups + g == groups + (st.groups + g);
    }
  }

  lemma BehindSend(mtu: nat, sent: seq<Packet>, groups: seq<nat>, st: State, nal: Nal, last: bool)
    requires Workable(mtu) && Sizable(st.pending)
    ensures Packetizer.SendNal(mtu, Behind(sent, groups, st), nal, last)
      == Behind(sent, groups, Packetizer.SendNal(mtu, st, nal, last))
  {
    hide RtpPayload.Fragments, RtpPayload.Aggregate, FlushPayload;
    var st1 := Flush(st, false);
    assert st1.pending == [];
    hide Flush;
    BehindFlush(sent, groups, st, false);
    BehindFlush(sent, groups, st1, false);
    BehindOut(sent, groups, st, Emit(nal, last));
    BehindOut(sent, groups, st1, Emit(nal, last));
    BehindOut(sent, groups, Flush(st1, false), Emit(nal, last));
    if |nal| > mtu {
      BehindOut(sent, groups, st1, Fragments(nal, nal[1..], mtu - 2, true, last));
    }
  }

  lemma BehindOut(sent: seq<Packet>, groups: seq<nat>, st: State, ps: seq<Packet>)
    ensures Behind(sent, groups, st).(out := Behind(sent, groups, st).out + ps)
      == Behind(sent, groups, st.(out := st.out + ps))
  {
    assert sent + st.out + ps == sent + (st.out + ps);
  }

  /** From the bytes an encoder emits to the NAL units a receiver recovers: a frame of tight, plain NAL units with any
      mix of start codes is received exactly, if and only if the buffered-unit counter never wraps. */
  lemma FrameRoundTrip(mtu: nat, nals: seq<Nal>, long: seq<bool>)
    requires Workable(mtu) && |long| == |nals| && AllPlain(nals)
    requires forall i :: 0 <= i < |nals| ==> Tight(nals[i])
    ensures var frame := Encode(nals, long);
      && NalsOf(frame) == nals
      && (ReceiveAll(START, Packets(mtu, NalsOf(frame))).nals == nals <==> NoWrap(Groups(mtu, nals)))
  {
    var frame := Encode(nals, long);
    SplitEncode([], nals, long);
    assert [] + frame == frame;
    assert frame != [] ==> StartAt(frame, 0);
    RoundTrip(mtu, nals);
  }

  /** One more NAL unit in the aggregate: header if it is the first, two bytes of size, then the unit. */
  lemma AggregateAppend(pending: seq<Nal>, nal: Nal)
    requires Sizable(pending) && |nal| < 0x1_0000
    ensures Sizable(pending + [nal]) && |nal| / 256 < 256
    ensures Aggregate(pending + [nal])
         == (if pending == [] then [STAP_A] else Aggregate(pending)) + [|nal| / 256 % 256, |nal| % 256] + nal
    ensures pending != [] ==> |Aggregate(pending)| >= 1
  {
    UnitsAppend(pending, nal);
    assert pending == [] ==> Units(pending) == [];
    hide RtpPayload.Units, RtpPayload.Sizable;
    var size := [|nal| / 256 % 256, |nal| % 256];
    assert Unit(nal) == size + nal;
    hide RtpPayload.Unit;
    assert [STAP_A] + (Units(pending) + (size + nal)) == [STAP_A] + Units(pending) + size + nal;
  }

  lemma CounterStep(n: nat)
    ensures (n % 256 + 1) % 256 == (n + 1) % 256
  {
  }

  /** With one NAL unit buffered, the aggregate is three bytes of header and that unit. */
  lemma CutHeader(pending: seq<Nal>)
    requires Sizable(pending) && |pending| % 256 == 1
    ensures |Aggregate(pending)| >= 3
  {
    assert |Unit(pending[0])| >= 2;
  }
}
