/** RTP payloads for H.264 (RFC 6184): single NAL units, STAP-A aggregates and FU-A fragments,
    with the receiver that turns a packet stream back into NAL units. */
module RtpPayload {
  import opened Common

  type Nal = seq<byte>

  const STAP_A: nat := 24
  const FU_A: nat := 28

  datatype Packet = Packet(payload: seq<byte>, marker: bool)

  /** The type field of a NAL unit or payload header, and the two NRI bits in place. */
  function TypeOf(b: byte): (t: byte) { b % 32 }
  function NriOf(b: byte): (n: byte) { b / 32 % 4 * 32 }

  /** A NAL unit that the payload format can carry as it is: not empty, F bit clear, type 1 to 23. */
  predicate Plain(nal: Nal) { nal != [] && nal[0] < 128 && 1 <= TypeOf(nal[0]) <= 23 }

  // ---------- STAP-A (section 5.7.1)

  function Unit(nal: Nal): seq<byte>
    requires |nal| < 0x1_0000
  {
    [|nal| / 256, |nal| % 256] + nal
  }

  ghost predicate Sizable(nals: seq<Nal>) { forall i :: 0 <= i < |nals| ==> |nals[i]| < 0x1_0000 }

  function Units(nals: seq<Nal>): seq<byte>
    requires Sizable(nals)
  {
    if nals == [] then [] else Unit(nals[0]) + Units(nals[1..])
  }

  function Aggregate(nals: seq<Nal>): seq<byte>
    requires Sizable(nals)
  {
    [STAP_A] + Units(nals)
  }

  // ---------- FU-A (section 5.8)

  function Fragment(nal: Nal, start: bool, end: bool, data: seq<byte>): (p: seq<byte>)
    requires nal != []
  {
    [NriOf(nal[0]) + FU_A, (if start then 128 else 0) + (if end then 64 else 0) + TypeOf(nal[0])] + data
  }

  /** The fragments from `data` on, `room` bytes at a time; only the very last one carries the end bit. */
  function Fragments(nal: Nal, data: seq<byte>, room: nat, start: bool, last: bool): seq<Packet>
    requires nal != [] && room > 0
    decreases |data|
  {
    if |data| > room
    then [Packet(Fragment(nal, start, false, data[..room]), false)] + Fragments(nal, data[room..], room, false, last)
    else [Packet(Fragment(nal, false, true, data), last)]
  }

  // ---------- the receiver

  /** NAL units recovered so far, the fragmented one being assembled, and whether every packet made sense. */
  datatype Receiver = Receiver(nals: seq<Nal>, partial: Option<Nal>, ok: bool)

  const START: Receiver := Receiver([], None, true)

  /** Split the body of a STAP-A packet, if its sizes add up. */
  function Split(body: seq<byte>): Option<seq<Nal>>
    decreases |body|
  {
    if body == [] then Some([])
    else if |body| < 2 then None
    else
      var n: nat := body[0] as int * 256 + body[1] as int;
      if 2 + n > |body| then None
      else
        var rest := Split(body[2 + n..]);
        if rest.None? then None else Some([body[2..2 + n]] + rest.value)
  }

  /** A receiver by RFC 6184: single units have types 1 to 23 (section 5.6), aggregates type 24 (section 5.7.1) and
      fragments type 28 (section 5.8). */
  function Receive(r: Receiver, payload: seq<byte>): Receiver {
    if payload == [] then r.(ok := false)
    else
      var t := TypeOf(payload[0]);
      if 1 <= t <= 23 then Receiver(r.nals + [payload], None, r.ok && r.partial.None?)
      else if t == 24 then
        var units := Split(payload[1..]);
        if units.None? then r.(ok := false) else Receiver(r.nals + units.value, None, r.ok && r.partial.None?)
      else if t == 28 && |payload| >= 2 then
        var start, end := payload[1] >= 128, payload[1] / 64 % 2 == 1;
        if start && end then r.(ok := false)
        else if start then
          Receiver(r.nals, Some([payload[0] / 32 * 32 + payload[1] % 32] + payload[2..]), r.ok && r.partial.None?)
        else if r.partial.None? then r.(ok := false)
        else
          var whole := r.partial.value + payload[2..];
          if end then Receiver(r.nals + [whole], None, r.ok) else Receiver(r.nals, Some(whole), r.ok)
      else r.(ok := false)
  }

  function ReceiveAll(r: Receiver, packets: seq<Packet>): Receiver {
    if packets == [] then r
    else Receive(ReceiveAll(r, packets[..|packets| - 1]), packets[|packets| - 1].payload)
  }

  lemma {:induction false} ReceiveConcat(r: Receiver, a: seq<Packet>, b: seq<Packet>)
    ensures ReceiveAll(r, a + b) == ReceiveAll(ReceiveAll(r, a), b)
  {
    if b == [] {
      assert a + b == a;
    } else {
      ReceiveConcat(r, a, b[..|b| - 1]);
      assert (a + b)[..|a + b| - 1] == a + b[..|b| - 1];
    }
  }

  // ---------- what the receiver makes of each kind of payload

  lemma ReceiveSingle(r: Receiver, nal: Nal)
    requires r.ok && r.partial.None? && Plain(nal)
    ensures Receive(r, nal) == Receiver(r.nals + [nal], None, true)
  {
  }

  lemma {:induction false} UnitsAppend(nals: seq<Nal>, nal: Nal)
    requires Sizable(nals) && |nal| < 0x1_0000
    ensures Sizable(nals + [nal]) && Units(nals + [nal]) == Units(nals) + Unit(nal)
  {
    if nals == [] {
      assert nals + [nal] == [nal];
      assert Units([nal]) == Unit(nal) + Units([]);
    } else {
      var all := nals + [nal];
      assert all[1..] == nals[1..] + [nal];
      assert Units(all) == Unit(nals[0]) + Units(all[1..]) && Units(nals) == Unit(nals[0]) + Units(nals[1..]);
      UnitsAppend(nals[1..], nal);
      hide Units, Unit;
      Grouped(Unit(nals[0]), Units(nals[1..]), Unit(nal));
    }
  }

  lemma Grouped(a: seq<byte>, b: seq<byte>, c: seq<byte>)
    ensures a + (b + c) == a + b + c
  {
  }

  /** Splitting an aggregate's body gives back its NAL units, in order. */
  lemma {:induction false} SplitUnits(nals: seq<Nal>)
    requires Sizable(nals)
    ensures Split(Units(nals)) == Some(nals)
  {
    if nals != [] {
      var rest := Units(nals[1..]);
      assert Units(nals) == Unit(nals[0]) + rest;
      SplitUnits(nals[1..]);
      hide Units, Split, Unit;
      SplitFirst(nals[0], rest);
      assert [nals[0]] + nals[1..] == nals;
    }
  }

  lemma SplitFirst(nal: Nal, rest: seq<byte>)
    requires |nal| < 0x1_0000
    ensures Split(Unit(nal) + rest) == if Split(rest).None? then None else Some([nal] + Split(rest).value)
  {
    var body, n := Unit(nal) + rest, |nal|;
    assert body[2 + n..] == rest && body[2..2 + n] == nal;
    assert body[0] as int * 256 + body[1] as int == n;
  }

  lemma ReceiveAggregate(r: Receiver, nals: seq<Nal>)
    requires r.ok && r.partial.None? && Sizable(nals)
    ensures Receive(r, Aggregate(nals)) == Receiver(r.nals + nals, None, true)
  {
    SplitUnits(nals);
    assert Aggregate(nals)[1..] == Units(nals);
  }

  /** The header byte that FU-A spreads over indicator and fragment header. */
  lemma HeaderRestored(b: byte)
    requires b < 128
    ensures (NriOf(b) + FU_A) / 32 * 32 + TypeOf(b) == b
    ensures TypeOf(NriOf(b) + FU_A) == FU_A && NriOf(b) + FU_A < 256
  {
  }

  /** A fragmented NAL unit is put together again, whatever the fragment size. */
  lemma {:induction false} ReceiveFragments(r: Receiver, nal: Nal, data: seq<byte>, room: nat, start: bool, last: bool)
    requires r.ok && Plain(nal) && room > 0 && (start ==> |data| > room)
    requires if start then r.partial.None? && data == nal[1..] else r.partial.Some? && r.partial.value + data == nal
    ensures ReceiveAll(r, Fragments(nal, data, room, start, last)) == Receiver(r.nals + [nal], None, true)
    decreases |data|
  {
    HeaderRestored(nal[0]);
    if |data| > room {
      var p := Fragment(nal, start, false, data[..room]);
      assert p[2..] == data[..room];
      var r1 := Receive(r, p);
      if start {
        assert r1 == Receiver(r.nals, Some([nal[0]] + data[..room]), true);
      } else {
        assert r1 == Receiver(r.nals, Some(r.partial.value + data[..room]), true);
      }
      assert r1.partial.value + data[room..] == nal;
      ReceiveFragments(r1, nal, data[room..], room, false, last);
      ReceiveOne(r, Packet(p, false));
      ReceiveConcat(r, [Packet(p, false)], Fragments(nal, data[room..], room, false, last));
    } else {
      var p := Fragment(nal, false, true, data);
      assert p[2..] == data;
      ReceiveOne(r, Packet(p, last));
    }
  }

  lemma ReceiveOne(r: Receiver, p: Packet)
    ensures ReceiveAll(r, [p]) == Receive(r, p.payload)
  {
    assert ReceiveAll(r, [p][..0]) == r;
  }
}
