/** H.264 byte streams: finding start codes and splitting a frame into NAL units. */
module AnnexB {
  import opened Common
  import opened RtpPayload

  /** A three- or four-byte start code begins at `i`. */
  predicate StartAt(s: seq<byte>, i: nat) {
    || (i + 3 <= |s| && s[i] == 0 && s[i + 1] == 0 && s[i + 2] == 1)
    || (i + 4 <= |s| && s[i] == 0 && s[i + 1] == 0 && s[i + 2] == 0 && s[i + 3] == 1)
  }

  /** The first start code at or after `from`, or the end of the data. */
  function NextStart(s: seq<byte>, from: nat): (r: nat)
    requires from <= |s|
    ensures from <= r <= |s| && (r < |s| ==> StartAt(s, r))
    ensures forall j :: from <= j < r ==> !StartAt(s, j)
    decreases |s| - from
  {
    if from == |s| || StartAt(s, from) then from else NextStart(s, from + 1)
  }

  lemma NextStartIs(s: seq<byte>, from: nat, to: nat)
    requires from <= to <= |s| && (to < |s| ==> StartAt(s, to))
    requires forall j :: from <= j < to ==> !StartAt(s, j)
    ensures NextStart(s, from) == to
  {
  }

  /** Zero bytes that end just before `p`, not looking before `start`, counted up to three. */
  ghost predicate Zeros(s: seq<byte>, start: nat, p: nat, state: nat) {
    && start <= p <= |s| && state <= 3 && state <= p - start
    && (forall j :: p - state <= j < p ==> s[j] == 0)
    && (state < 3 && p - state > start ==> s[p - state - 1] != 0)
  }

  /** No start code that begins at or after `start` is complete before `p`. */
  ghost predicate NoneBefore(s: seq<byte>, start: nat, p: nat)
    requires p <= |s|
  {
    forall q :: start + 2 <= q < p && s[q] == 1 ==> !(s[q - 1] == 0 && s[q - 2] == 0)
  }

  /** find_nal_start: the four-state scan finds the first start code. */
  method FindNalStart(s: seq<byte>, start: nat) returns (r: nat)
    requires start <= |s|
    ensures r == NextStart(s, start)
  {
    if start >= |s| {
      return |s|;
    }
    var p, state := start, 0;
    while p < |s|
      invariant start <= p <= |s|
      invariant Zeros(s, start, p, state) && NoneBefore(s, start, p)
    {
      match state {
        case 0 =>
          if s[p] == 0 { state := 1; }
        case 1 =>
          state := if s[p] == 0 then 2 else 0;
        case 2 =>
          if s[p] == 0 {
            state := 3;
          } else if s[p] == 1 {
            CompletedAt(s, start, p, 2);
            return p - 2;
          } else {
            state := 0;
          }
        case _ =>
          if s[p] == 1 {
            CompletedAt(s, start, p, 3);
            return p - 3;
          } else if s[p] != 0 {
            state := 0;
          }
      }
      p := p + 1;
    }
    NextStartIs(s, start, p);
    return p;
  }

  lemma CompletedAt(s: seq<byte>, start: nat, p: nat, state: nat)
    requires p < |s| && s[p] == 1 && 2 <= state && Zeros(s, start, p, state) && NoneBefore(s, start, p)
    ensures NextStart(s, start) == p - state
  {
    forall j | start <= j < p - state ensures !StartAt(s, j) {
      if state == 2 && j == p - 3 {
        assert s[j] != 0;
      }
    }
    NextStartIs(s, start, p - state);
  }

  // ---------- splitting

  /** The NAL units of a frame, from the start code at `pos` on. */
  function NalsFrom(s: seq<byte>, pos: nat): seq<Nal>
    requires pos <= |s| && (pos < |s| ==> StartAt(s, pos))
    decreases |s| - pos
  {
    if pos == |s| then []
    else
      var b := pos + (if s[pos + 2] == 1 then 3 else 4);
      var e := NextStart(s, b);
      [s[b..e]] + NalsFrom(s, e)
  }

  /** The NAL units of a frame: what lies between its start codes. */
  function NalsOf(s: seq<byte>): seq<Nal> { NalsFrom(s, NextStart(s, 0)) }

  /** A NAL unit as an encoder emits it: not empty, no start code or run of three zeros inside, last byte not zero. */
  ghost predicate Tight(nal: Nal) {
    && nal != [] && nal[|nal| - 1] != 0
    && forall i :: 0 <= i && i + 2 < |nal| ==> !(nal[i] == 0 && nal[i + 1] == 0 && nal[i + 2] <= 1)
  }

  function Code(long: bool): seq<byte> { if long then [0, 0, 0, 1] else [0, 0, 1] }

  /** The byte stream of `nals`, each with a long or a short start code in front. */
  function Encode(nals: seq<Nal>, long: seq<bool>): seq<byte>
    requires |long| == |nals|
  {
    if nals == [] then [] else Code(long[0]) + nals[0] + Encode(nals[1..], long[1..])
  }

  /** Inside a tight NAL unit, and across its end, no start code begins. */
  lemma NoStartInside(s: seq<byte>, b: nat, nal: Nal, j: nat)
    requires Tight(nal) && b + |nal| <= |s| && s[b..b + |nal|] == nal && b <= j < b + |nal|
    ensures !StartAt(s, j)
  {
    var e := b + |nal|;
    assert forall i :: 0 <= i < |nal| ==> s[b + i] == nal[i];
    assert s[e - 1] != 0;
    if j + 2 < e {
      assert nal[j - b] == s[j] && nal[j - b + 1] == s[j + 1] && nal[j - b + 2] == s[j + 2];
    }
  }

  lemma StartsWithCode(s: seq<byte>, pos: nat, long: bool)
    requires pos + |Code(long)| <= |s| && s[pos..pos + |Code(long)|] == Code(long)
    ensures StartAt(s, pos) && s[pos + 2] == (if long then 0 else 1)
  {
    var c := s[pos..pos + |Code(long)|];
    assert c[0] == s[pos] && c[1] == s[pos + 1] && c[2] == s[pos + 2];
    assert long ==> c[3] == s[pos + 3];
  }

  /** One start code and one tight NAL unit are split off as such. */
  lemma SplitOne(s: seq<byte>, pos: nat, long: bool, nal: Nal)
    requires Tight(nal)
    requires var b := pos + |Code(long)|; var e := b + |nal|;
      e <= |s| && s[pos..b] == Code(long) && s[b..e] == nal && (e < |s| ==> StartAt(s, e))
    ensures StartAt(s, pos) && NalsFrom(s, pos) == [nal] + NalsFrom(s, pos + |Code(long)| + |nal|)
  {
    var b := pos + |Code(long)|;
    var e := b + |nal|;
    StartsWithCode(s, pos, long);
    hide StartAt, Tight, NextStart, NalsFrom;
    forall j | b <= j < e
      ensures !StartAt(s, j)
    {
      NoStartInside(s, b, nal, j);
    }
    NextStartIs(s, b, e);
    SplitStep(s, pos, b, e);
  }

  lemma SplitStep(s: seq<byte>, pos: nat, b: nat, e: nat)
    requires b <= e <= |s| && StartAt(s, pos) && b == pos + (if s[pos + 2] == 1 then 3 else 4) && NextStart(s, b) == e
    ensures (e < |s| ==> StartAt(s, e)) && NalsFrom(s, pos) == [s[b..e]] + NalsFrom(s, e)
  {
    hide StartAt, NextStart;
  }

  lemma SplitFirst(pre: seq<byte>, long: bool, nal: Nal, rest: seq<byte>)
    requires Tight(nal)
    requires var s := pre + Code(long) + nal + rest;
      rest != [] ==> StartAt(s, |pre + Code(long) + nal|)
    ensures var s := pre + Code(long) + nal + rest;
      && StartAt(s, |pre|)
      && NalsFrom(s, |pre|) == [nal] + NalsFrom(s, |pre + Code(long) + nal|)
  {
    hide StartAt, Tight, NextStart, NalsFrom, Code;
    Slices(pre, Code(long), nal, rest);
    SplitOne(pre + Code(long) + nal + rest, |pre|, long, nal);
  }

  lemma Slices(a: seq<byte>, b: seq<byte>, c: seq<byte>, d: seq<byte>)
    ensures var s := a + b + c + d;
      s[|a|..|a| + |b|] == b && s[|a| + |b|..|a| + |b| + |c|] == c
  {
  }

  /** Splitting the byte stream of tight NAL units gives them back. */
  lemma {:induction false} SplitEncode(pre: seq<byte>, nals: seq<Nal>, long: seq<bool>)
    requires |long| == |nals| && forall i :: 0 <= i < |nals| ==> Tight(nals[i])
    ensures var s := pre + Encode(nals, long);
      && (|pre| < |s| ==> StartAt(s, |pre|))
      && NalsFrom(s, |pre|) == nals
    decreases |nals|
  {
    hide StartAt, Tight, NextStart, Code;
    if nals != [] {
      var code, nal, rest := Code(long[0]), nals[0], Encode(nals[1..], long[1..]);
      var pre' := pre + code + nal;
      SplitEncode(pre', nals[1..], long[1..]);
      Regroup(pre, code, nal, rest);
      assert Encode(nals, long) == code + nal + rest;
      hide Encode, NalsFrom;
      SplitFirst(pre, long[0], nal, rest);
      assert [nal] + nals[1..] == nals;
    }
  }

  lemma Regroup(a: seq<byte>, b: seq<byte>, c: seq<byte>, d: seq<byte>)
    ensures a + b + c + d == a + (b + c + d)
  {
  }
}
