/** How an access unit is cut into RTP packets: small NAL units are collected into aggregates,
    large ones are fragmented, and the last packet of the access unit carries the marker. */
module Packetizer {
  import opened Common
  import opened RtpPayload

  /** `pending` are the NAL units sitting in the video buffer, `out` the packets handed to the network,
      `groups` the number of NAL units in each buffer flushed so far. */
  datatype State = State(pending: seq<Nal>, out: seq<Packet>, groups: seq<nat>)

  const EMPTY: State := State([], [], [])

  /** The MTU leaves room for a fragment header and for the packet in the 2048-byte buffer. */
  predicate Workable(mtu: nat) { 3 <= mtu <= 2024 }

  /** NAL units that RFC 6184 allows to be sent as they are. */
  ghost predicate AllPlain(nals: seq<Nal>) { forall i :: 0 <= i < |nals| ==> Plain(nals[i]) }

  ghost predicate Fitting(mtu: nat, nals: seq<Nal>) { forall i :: 0 <= i < |nals| ==> |nals[i]| <= mtu }

  /** session_send_data: an empty payload is not sent. */
  function Emit(payload: seq<byte>, last: bool): seq<Packet> {
    if payload == [] then [] else [Packet(payload, last)]
  }

  function BufferedSize(pending: seq<Nal>): nat
    requires Sizable(pending)
  {
    if pending == [] then 0 else |Aggregate(pending)|
  }

  /** What session_flush_buffered sends: when the 8-bit counter of buffered NAL units reads one, the aggregate
      header and the first size field are cut off. */
  function FlushPayload(pending: seq<Nal>): seq<byte>
    requires Sizable(pending) && pending != []
  {
    if |pending| % 256 == 1 then Aggregate(pending)[3..] else Aggregate(pending)
  }

  function Flush(st: State, last: bool): State
    requires Sizable(st.pending)
  {
    if st.pending == [] then st
    else State([], st.out + Emit(FlushPayload(st.pending), last), st.groups + [|st.pending|])
  }

  /** session_send_nal */
  function SendNal(mtu: nat, st: State, nal: Nal, last: bool): State
    requires Workable(mtu) && Sizable(st.pending)
  {
    if |nal| <= mtu then
      var st1 := if BufferedSize(st.pending) + 2 + |nal| > mtu then Flush(st, false) else st;
      if BufferedSize(st1.pending) + 3 + |nal| <= mtu
      then st1.(pending := st1.pending + [nal])
      else
        var st2 := Flush(st1, false);
        st2.(out := st2.out + Emit(nal, last))
    else
      var st1 := Flush(st, false);
      st1.(out := st1.out + Fragments(nal, nal[1..], mtu - 2, true, last))
  }

  /** The state after the first `n` NAL units of an access unit; the last one is sent with the marker. */
  function After(mtu: nat, nals: seq<Nal>, n: nat): (st: State)
    requires Workable(mtu) && n <= |nals|
    ensures Fitting(mtu, st.pending) && Sizable(st.pending) && BufferedSize(st.pending) <= mtu
  {
    if n == 0 then EMPTY
    else
      SendNalFits(mtu, After(mtu, nals, n - 1), nals[n - 1], n == |nals|);
      SendNal(mtu, After(mtu, nals, n - 1), nals[n - 1], n == |nals|)
  }

  /** All packets of an access unit. */
  function Packets(mtu: nat, nals: seq<Nal>): seq<Packet>
    requires Workable(mtu)
  {
    Flush(After(mtu, nals, |nals|), true).out
  }

  /** The sizes of the buffers flushed for an access unit. */
  function Groups(mtu: nat, nals: seq<Nal>): seq<nat>
    requires Workable(mtu)
  {
    Flush(After(mtu, nals, |nals|), true).groups
  }

  lemma SendNalFits(mtu: nat, st: State, nal: Nal, last: bool)
    requires Workable(mtu) && Fitting(mtu, st.pending)
    requires Sizable(st.pending) && BufferedSize(st.pending) <= mtu
    ensures var st' := SendNal(mtu, st, nal, last);
      && Fitting(mtu, st'.pending) && Sizable(st'.pending) && BufferedSize(st'.pending) <= mtu
      && (AllPlain(st.pending) && Plain(nal) ==> AllPlain(st'.pending))
  {
    if |nal| <= mtu {
      var st1 := if BufferedSize(st.pending) + 2 + |nal| > mtu then Flush(st, false) else st;
      UnitsAppend(st1.pending, nal);
    }
  }

  // ---------- what the receiver gets

  /** The counter of buffered NAL units has wrapped round to one. */
  predicate Wrapped(c: nat) { c % 256 == 1 && c > 1 }

  ghost predicate NoWrap(groups: seq<nat>) { forall i :: 0 <= i < |groups| ==> !Wrapped(groups[i]) }

  /** NAL units that disappear because their aggregate goes out headless. */
  function Lost(groups: seq<nat>): nat {
    if groups == [] then 0
    else
      var c := groups[|groups| - 1];
      Lost(groups[..|groups| - 1]) + (if Wrapped(c) then c - 1 else 0)
  }

  lemma {:induction false} LostNothing(groups: seq<nat>)
    ensures Lost(groups) == 0 <==> NoWrap(groups)
  {
    if groups != [] {
      LostNothing(groups[..|groups| - 1]);
    }
  }

  /** The receiver has made sense of every packet and holds no unfinished fragment. */
  ghost predicate Clean(out: seq<Packet>) {
    var r := ReceiveAll(START, out);
    r.ok && r.partial.None?
  }

  ghost function Got(out: seq<Packet>): seq<Nal> { ReceiveAll(START, out).nals }

  /** Everything accounted for: received, still pending, or lost in a wrapped aggregate. */
  ghost predicate Balance(st: State, sent: seq<Nal>) {
    && Clean(st.out)
    && |Got(st.out)| + |st.pending| + Lost(st.groups) == |sent|
    && (NoWrap(st.groups) ==> Got(st.out) + st.pending == sent)
  }

  lemma FlushBalance(st: State, sent: seq<Nal>, last: bool)
    requires AllPlain(st.pending) && Sizable(st.pending) && Balance(st, sent)
    ensures Balance(Flush(st, last), sent)
  {
    if st.pending != [] {
      var p, r := Packet(FlushPayload(st.pending), last), ReceiveAll(START, st.out);
      FlushedOnce(st, last);
      FlushReceived(r, st.pending);
      hide FlushPayload, RtpPayload.Receive, Flush;
      ReceiveConcat(START, st.out, [p]);
      ReceiveOne(r, p);
      OneGroup(st.groups, |st.pending|);
      hide NoWrap, Lost, Wrapped, RtpPayload.ReceiveAll;
    }
  }

  lemma FlushedOnce(st: State, last: bool)
    requires Sizable(st.pending) && st.pending != [] && FlushPayload(st.pending) != []
    ensures Flush(st, last)
      == State([], st.out + [Packet(FlushPayload(st.pending), last)], st.groups + [|st.pending|])
  {
  }

  lemma OneGroup(groups: seq<nat>, n: nat)
    ensures Lost(groups + [n]) == Lost(groups) + if Wrapped(n) then n - 1 else 0
    ensures NoWrap(groups + [n]) <==> NoWrap(groups) && !Wrapped(n)
  {
    var more := groups + [n];
    assert more[..|more| - 1] == groups;
    assert forall i | 0 <= i < |groups| :: more[i] == groups[i];
    assert more[|groups|] == n;
  }

  /** One flushed buffer: all of it arrives, unless the counter wrapped, and then one wrong NAL unit does. */
  lemma FlushReceived(r: Receiver, pending: seq<Nal>)
    requires r.ok && r.partial.None? && Sizable(pending) && pending != [] && Plain(pending[0])
    ensures var r' := Receive(r, FlushPayload(pending));
      && FlushPayload(pending) != [] && r'.ok && r'.partial.None?
      && (if Wrapped(|pending|) then |r'.nals| == |r.nals| + 1 else r'.nals == r.nals + pending)
  {
    if |pending| % 256 == 1 {
      Headless(pending);
      var nal, rest := pending[0], Units(pending[1..]);
      hide FlushPayload, RtpPayload.Split;
      assert (nal + rest)[0] == nal[0];
      if |pending| == 1 {
        assert rest == [] && nal + rest == nal && pending == [nal];
      }
    } else {
      ReceiveAggregate(r, pending);
    }
  }

  /** Without header and first size field, an aggregate begins with its first NAL unit. */
  lemma Headless(pending: seq<Nal>)
    requires Sizable(pending) && |pending| % 256 == 1
    ensures FlushPayload(pending) == pending[0] + Units(pending[1..])
  {
    var nal, rest := pending[0], Units(pending[1..]);
    assert Aggregate(pending) == [STAP_A] + (([|nal| / 256, |nal| % 256] + nal) + rest);
    DropThree(STAP_A, |nal| / 256, |nal| % 256, nal, rest);
  }

  lemma DropThree(x: byte, y: byte, z: byte, nal: Nal, rest: seq<byte>)
    ensures ([x] + (([y, z] + nal) + rest))[3..] == nal + rest
  {
  }

  lemma SendNalBalance(mtu: nat, st: State, sent: seq<Nal>, nal: Nal, last: bool)
    requires Workable(mtu) && AllPlain(st.pending) && Sizable(st.pending) && Balance(st, sent) && Plain(nal)
    ensures Balance(SendNal(mtu, st, nal, last), sent + [nal])
  {
    assert Emit(nal, last) == [Packet(nal, last)];
    hide Balance, RtpPayload.Plain, RtpPayload.Fragments, FlushPayload, Emit;
    FlushBalance(st, sent, false);
    if |nal| <= mtu {
      var st1 := if BufferedSize(st.pending) + 2 + |nal| > mtu then Flush(st, false) else st;
      if BufferedSize(st1.pending) + 3 + |nal| <= mtu {
        BufferBalance(st1, sent, nal);
      } else {
        FlushBalance(st1, sent, false);
        SendSingle(Flush(st1, false), sent, nal, last);
      }
    } else {
      SendLarge(mtu, Flush(st, false), sent, nal, last);
    }
  }

  lemma BufferBalance(st: State, sent: seq<Nal>, nal: Nal)
    requires Balance(st, sent)
    ensures Balance(st.(pending := st.pending + [nal]), sent + [nal])
  {
    hide Clean, Got, NoWrap, Lost;
    assert Got(st.out) + (st.pending + [nal]) == (Got(st.out) + st.pending) + [nal];
  }

  lemma SendSingle(st: State, sent: seq<Nal>, nal: Nal, last: bool)
    requires Balance(st, sent) && st.pending == [] && Plain(nal)
    ensures Balance(st.(out := st.out + [Packet(nal, last)]), sent + [nal])
  {
    var r := ReceiveAll(START, st.out);
    ReceiveConcat(START, st.out, [Packet(nal, last)]);
    ReceiveOne(r, Packet(nal, last));
    ReceiveSingle(r, nal);
  }

  lemma SendLarge(mtu: nat, st: State, sent: seq<Nal>, nal: Nal, last: bool)
    requires Workable(mtu) && Balance(st, sent) && st.pending == [] && Plain(nal) && |nal| > mtu
    ensures Balance(st.(out := st.out + Fragments(nal, nal[1..], mtu - 2, true, last)), sent + [nal])
  {
    hide RtpPayload.Fragments, RtpPayload.Receive;
    var r, fs := ReceiveAll(START, st.out), Fragments(nal, nal[1..], mtu - 2, true, last);
    ReceiveConcat(START, st.out, fs);
    ReceiveFragments(r, nal, nal[1..], mtu - 2, true, last);
  }

  lemma EmptyBalance()
    ensures Balance(EMPTY, [])
  {
    assert Got([]) == [];
  }

  lemma {:induction false} AfterBalance(mtu: nat, nals: seq<Nal>, n: nat)
    requires Workable(mtu) && n <= |nals| && AllPlain(nals)
    ensures Balance(After(mtu, nals, n), nals[..n]) && AllPlain(After(mtu, nals, n).pending)
  {
    hide SendNal, Balance, Fitting, BufferedSize, RtpPayload.Sizable, RtpPayload.Plain;
    if n == 0 {
      EmptyBalance();
      assert nals[..0] == [];
    } else {
      AfterBalance(mtu, nals, n - 1);
      SendNalFits(mtu, After(mtu, nals, n - 1), nals[n - 1], n == |nals|);
      SendNalBalance(mtu, After(mtu, nals, n - 1), nals[..n - 1], nals[n - 1], n == |nals|);
      assert nals[..n - 1] + [nals[n - 1]] == nals[..n];
    }
  }

  /** The receiver recovers exactly the NAL units of the access unit if and only if no flushed buffer held a number of
      them that the 8-bit counter shows as one although it is more. */
  lemma RoundTrip(mtu: nat, nals: seq<Nal>)
    requires Workable(mtu) && AllPlain(nals)
    ensures ReceiveAll(START, Packets(mtu, nals)).ok && ReceiveAll(START, Packets(mtu, nals)).partial.None?
    ensures ReceiveAll(START, Packets(mtu, nals)).nals == nals <==> NoWrap(Groups(mtu, nals))
  {
    AfterBalance(mtu, nals, |nals|);
    assert nals[..|nals|] == nals;
    FlushBalance(After(mtu, nals, |nals|), nals, true);
    LostNothing(Groups(mtu, nals));
  }

  // ---------- when the counter cannot wrap

  lemma {:induction false} UnitsSize(nals: seq<Nal>)
    requires Sizable(nals) && forall i :: 0 <= i < |nals| ==> nals[i] != []
    ensures |Units(nals)| >= 3 * |nals|
  {
    if nals != [] {
      UnitsSize(nals[1..]);
    }
  }

  /** A buffer with two or more units leaves at least one byte of the MTU free. */
  ghost predicate Slack(mtu: nat, pending: seq<Nal>) {
    Sizable(pending) && BufferedSize(pending) + (if |pending| >= 2 then 1 else 0) <= mtu
  }

  lemma {:induction false} AfterNoWrap(mtu: nat, nals: seq<Nal>, n: nat)
    requires Workable(mtu) && mtu <= 772 && n <= |nals| && AllPlain(nals)
    ensures var st := After(mtu, nals, n); NoWrap(st.groups) && AllPlain(st.pending) && Slack(mtu, st.pending)
  {
    hide SendNal, Fitting, NoWrap, Slack, RtpPayload.Sizable, RtpPayload.Plain;
    if n > 0 {
      AfterNoWrap(mtu, nals, n - 1);
      SendNalFits(mtu, After(mtu, nals, n - 1), nals[n - 1], n == |nals|);
      SendNalNoWrap(mtu, After(mtu, nals, n - 1), nals[n - 1], n == |nals|);
    } else {
      NothingPending(mtu);
    }
  }

  lemma NothingPending(mtu: nat)
    ensures NoWrap(EMPTY.groups) && AllPlain(EMPTY.pending) && Slack(mtu, EMPTY.pending)
  {
  }

  lemma SendNalNoWrap(mtu: nat, st: State, nal: Nal, last: bool)
    requires Workable(mtu) && mtu <= 772 && AllPlain(st.pending) && Slack(mtu, st.pending) && NoWrap(st.groups)
    ensures var st' := SendNal(mtu, st, nal, last); NoWrap(st'.groups) && Slack(mtu, st'.pending)
  {
    hide NoWrap, AllPlain, RtpPayload.Fragments, FlushPayload, Emit;
    FlushNoWrap(mtu, st, false);
    if |nal| <= mtu {
      var st1 := if BufferedSize(st.pending) + 2 + |nal| > mtu then Flush(st, false) else st;
      UnitsAppend(st1.pending, nal);
    }
  }

  lemma FlushNoWrap(mtu: nat, st: State, last: bool)
    requires mtu <= 772 && AllPlain(st.pending) && Slack(mtu, st.pending) && NoWrap(st.groups)
    ensures NoWrap(Flush(st, last).groups)
  {
    UnitsSize(st.pending);
    hide RtpPayload.Units, FlushPayload, Emit;
  }

  /** Up to 772 bytes of MTU no aggregate is large enough for the counter to wrap, so every access unit survives. */
  lemma SmallMtuRoundTrip(mtu: nat, nals: seq<Nal>)
    requires Workable(mtu) && mtu <= 772 && AllPlain(nals)
    ensures ReceiveAll(START, Packets(mtu, nals)) == Receiver(nals, None, true)
  {
    hide AllPlain, NoWrap, Slack, Flush, After, RtpPayload.ReceiveAll;
    AfterNoWrap(mtu, nals, |nals|);
    FlushNoWrap(mtu, After(mtu, nals, |nals|), true);
    RoundTrip(mtu, nals);
  }

  /** Every access unit survives if and only if the MTU is at most 772. */
  lemma MtuThreshold(mtu: nat)
    requires Workable(mtu)
    ensures (forall nals | AllPlain(nals) :: ReceiveAll(START, Packets(mtu, nals)).nals == nals) <==> mtu <= 772
  {
    hide AllPlain, Packets, RtpPayload.ReceiveAll;
    if mtu <= 772 {
      forall nals | AllPlain(nals)
        ensures ReceiveAll(START, Packets(mtu, nals)).nals == nals
      {
        SmallMtuRoundTrip(mtu, nals);
      }
    } else {
      WrapLosesUnits(mtu);
      var nals: seq<Nal> := seq(257, _ => [1]);
      assert |nals| == 257 && AllPlain(nals);
    }
  }

  // ---------- an access unit that does not survive

  /** 257 one-byte NAL units in one aggregate: from an MTU of 773 bytes on, the receiver gets a single wrong one. */
  lemma WrapLosesUnits(mtu: nat)
    requires 773 <= mtu <= 2024
    ensures var nals := seq(257, _ => [1]);
      && AllPlain(nals)
      && |ReceiveAll(START, Packets(mtu, nals)).nals| == 1
  {
    var nals: seq<Nal> := seq(257, _ => [1]);
    hide Packets, RtpPayload.ReceiveAll;
    TinyLost(mtu, nals, 257);
  }

  lemma TinyLost(mtu: nat, nals: seq<Nal>, n: nat)
    requires Workable(mtu) && n == |nals| && Wrapped(n) && 3 * n + 2 <= mtu && AllPlain(nals)
    requires forall i :: 0 <= i < |nals| ==> nals[i] == [1]
    ensures |ReceiveAll(START, Packets(mtu, nals)).nals| == 1
  {
    hide After, Flush, AllPlain, RtpPayload.ReceiveAll, RtpPayload.Units;
    var st := After(mtu, nals, n);
    TinyCollected(mtu, nals, n);
    assert nals[..n] == nals;
    AfterBalance(mtu, nals, n);
    FlushBalance(st, nals, true);
    TinyFlushed(nals, true);
    OneGroup([], n);
    assert [] + [n] == [n] && Lost([]) == 0;
  }

  lemma TinyFlushed(nals: seq<Nal>, last: bool)
    requires Sizable(nals) && nals != []
    ensures var st := Flush(State(nals, [], []), last); st.groups == [|nals|] && st.pending == []
  {
  }

  lemma {:induction false} TinyCollected(mtu: nat, nals: seq<Nal>, n: nat)
    requires Workable(mtu) && n <= |nals| && 3 * |nals| + 2 <= mtu
    requires forall i :: 0 <= i < |nals| ==> nals[i] == [1]
    ensures After(mtu, nals, n) == State(nals[..n], [], []) && Sizable(nals[..n]) && |Units(nals[..n])| == 3 * n
  {
    if n > 0 {
      assert After(mtu, nals, n) == SendNal(mtu, After(mtu, nals, n - 1), nals[n - 1], n == |nals|);
      assert nals[n - 1] == [1];
      hide After, SendNal, RtpPayload.Units, RtpPayload.Unit, RtpPayload.Sizable;
      TinyCollected(mtu, nals, n - 1);
      UnitsAppend(nals[..n - 1], nals[n - 1]);
      OneByte(nals[n - 1]);
      TinySent(mtu, nals[..n - 1], nals[n - 1], n == |nals|);
      assert nals[..n - 1] + [nals[n - 1]] == nals[..n];
    }
  }

  lemma OneByte(nal: Nal)
    requires |nal| == 1
    ensures |Unit(nal)| == 3
  {
  }

  lemma TinySent(mtu: nat, pending: seq<Nal>, nal: Nal, last: bool)
    requires Workable(mtu) && Sizable(pending) && |nal| == 1 && |Units(pending)| + 5 <= mtu
    ensures SendNal(mtu, State(pending, [], []), nal, last) == State(pending + [nal], [], [])
  {
    hide RtpPayload.Units;
  }

  // ---------- sizes, fragment flags and marker

  /** The payload fits the MTU, and a fragment never carries the start and the end bit together. */
  predicate WellSized(mtu: nat, p: Packet) {
    && 1 <= |p.payload| <= mtu
    && (TypeOf(p.payload[0]) == 28 ==> |p.payload| >= 2 && !(p.payload[1] >= 128 && p.payload[1] / 64 % 2 == 1))
  }

  ghost predicate AllWellSized(mtu: nat, out: seq<Packet>) { forall i :: 0 <= i < |out| ==> WellSized(mtu, out[i]) }

  lemma {:induction false} FragmentsWellSized(mtu: nat, nal: Nal, data: seq<byte>, start: bool, last: bool)
    requires Workable(mtu) && nal != []
    ensures AllWellSized(mtu, Fragments(nal, data, mtu - 2, start, last))
    decreases |data|
  {
    if |data| > mtu - 2 {
      FragmentsWellSized(mtu, nal, data[mtu - 2..], false, last);
      assert WellSized(mtu, Packet(Fragment(nal, start, false, data[..mtu - 2]), false));
    } else {
      assert WellSized(mtu, Packet(Fragment(nal, false, true, data), last));
    }
  }

  lemma FlushWellSized(mtu: nat, st: State, last: bool)
    requires AllPlain(st.pending) && Sizable(st.pending) && BufferedSize(st.pending) <= mtu
    requires AllWellSized(mtu, st.out)
    ensures AllWellSized(mtu, Flush(st, last).out)
  {
    if st.pending != [] {
      PayloadWellSized(mtu, st.pending, last);
      hide FlushPayload, WellSized;
    }
  }

  lemma PayloadWellSized(mtu: nat, pending: seq<Nal>, last: bool)
    requires pending != [] && AllPlain(pending) && Sizable(pending) && BufferedSize(pending) <= mtu
    ensures FlushPayload(pending) != [] && WellSized(mtu, Packet(FlushPayload(pending), last))
  {
    var nal, rest := pending[0], Units(pending[1..]);
    assert Aggregate(pending) == [STAP_A] + ([|nal| / 256, |nal| % 256] + nal + rest);
    hide RtpPayload.Aggregate, RtpPayload.Units;
    assert Aggregate(pending)[3..] == nal + rest;
    assert (nal + rest)[0] == nal[0];
  }

  lemma SendNalWellSized(mtu: nat, st: State, nal: Nal, last: bool)
    requires Workable(mtu) && AllPlain(st.pending) && Sizable(st.pending) && BufferedSize(st.pending) <= mtu
    requires AllWellSized(mtu, st.out) && Plain(nal)
    ensures AllWellSized(mtu, SendNal(mtu, st, nal, last).out)
  {
    hide WellSized, RtpPayload.Aggregate, FlushPayload, RtpPayload.Fragments;
    FlushWellSized(mtu, st, false);
    if |nal| <= mtu {
      SingleWellSized(mtu, nal, last);
    } else {
      FragmentsWellSized(mtu, nal, nal[1..], true, last);
    }
  }

  lemma SingleWellSized(mtu: nat, nal: Nal, last: bool)
    requires Plain(nal) && |nal| <= mtu
    ensures WellSized(mtu, Packet(nal, last))
  {
  }

  lemma NoneWellSized(mtu: nat)
    ensures AllWellSized(mtu, EMPTY.out)
  {
  }

  lemma {:induction false} AfterWellSized(mtu: nat, nals: seq<Nal>, n: nat)
    requires Workable(mtu) && n <= |nals| && AllPlain(nals)
    ensures AllWellSized(mtu, After(mtu, nals, n).out)
  {
    hide SendNal, Balance, AllWellSized, Fitting, BufferedSize, RtpPayload.Sizable, RtpPayload.Plain;
    if n == 0 {
      NoneWellSized(mtu);
    } else {
      assert Plain(nals[n - 1]);
      hide AllPlain;
      AfterBalance(mtu, nals, n - 1);
      AfterWellSized(mtu, nals, n - 1);
      SendNalWellSized(mtu, After(mtu, nals, n - 1), nals[n - 1], n == |nals|);
    }
  }

  /** Exactly the last packet carries the marker. */
  ghost predicate MarkedLast(out: seq<Packet>) {
    out != [] && forall i :: 0 <= i < |out| ==> (out[i].marker <==> i == |out| - 1)
  }

  ghost predicate Unmarked(out: seq<Packet>) { forall i :: 0 <= i < |out| ==> !out[i].marker }

  lemma {:induction false} FragmentsMarked(nal: Nal, data: seq<byte>, room: nat, start: bool, last: bool)
    requires nal != [] && room > 0
    ensures if last then MarkedLast(Fragments(nal, data, room, start, last))
      else Unmarked(Fragments(nal, data, room, start, last))
    decreases |data|
  {
    if |data| > room {
      FragmentsMarked(nal, data[room..], room, false, last);
    }
  }

  lemma SendNalMarked(mtu: nat, st: State, nal: Nal, last: bool)
    requires Workable(mtu) && Sizable(st.pending) && Unmarked(st.out) && Plain(nal)
    ensures var st' := SendNal(mtu, st, nal, last);
      if last && st'.pending == [] then MarkedLast(st'.out) else Unmarked(st'.out)
  {
    hide RtpPayload.Aggregate, FlushPayload, RtpPayload.Fragments;
    var st1 := Flush(st, false);
    assert Unmarked(st1.out);
    if |nal| <= mtu {
      AppendMarked(st1.out, [Packet(nal, last)], last);
      AppendMarked(st.out, [Packet(nal, last)], last);
    } else {
      FragmentsMarked(nal, nal[1..], mtu - 2, true, last);
      AppendMarked(st1.out, Fragments(nal, nal[1..], mtu - 2, true, last), last);
    }
  }

  lemma AppendMarked(a: seq<Packet>, b: seq<Packet>, last: bool)
    requires Unmarked(a) && if last then MarkedLast(b) else Unmarked(b)
    ensures if last then MarkedLast(a + b) else Unmarked(a + b)
  {
  }

  lemma {:induction false} AfterMarked(mtu: nat, nals: seq<Nal>, n: nat)
    requires Workable(mtu) && n <= |nals| && AllPlain(nals)
    ensures var st := After(mtu, nals, n);
      if n == |nals| && n > 0 && st.pending == [] then MarkedLast(st.out) else Unmarked(st.out)
  {
    if n > 0 {
      assert Plain(nals[n - 1]);
      hide SendNal, MarkedLast, Unmarked, Fitting, AllPlain, BufferedSize, RtpPayload.Sizable, RtpPayload.Plain;
      AfterMarked(mtu, nals, n - 1);
      SendNalMarked(mtu, After(mtu, nals, n - 1), nals[n - 1], n == |nals|);
    }
  }

  /** Every payload of an access unit fits the MTU, no fragment is both first and last,
      and the marker is on the last packet and nowhere else. */
  lemma PacketsWellFormed(mtu: nat, nals: seq<Nal>)
    requires Workable(mtu) && AllPlain(nals) && nals != []
    ensures AllWellSized(mtu, Packets(mtu, nals)) && MarkedLast(Packets(mtu, nals))
  {
    var st := After(mtu, nals, |nals|);
    AfterBalance(mtu, nals, |nals|);
    AfterWellSized(mtu, nals, |nals|);
    FlushWellSized(mtu, st, true);
    AfterMarked(mtu, nals, |nals|);
    if st.pending != [] {
      FlushReceived(START, st.pending);
    }
  }
}
