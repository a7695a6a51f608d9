/** cJSON_Minify in place, on the memory from its argument on: when a literal or a block comment is left open the scan
    does not end with the C string, but goes on with whatever stands behind the terminator. */
module JsonSweep {
  import opened Common
  import opened JsonString
  import opened Json
  import opened JsonMinify

  /** What has been written, and the memory from the zero byte on where the scan stops. */
  datatype Pass = Pass(out: seq<byte>, left: seq<byte>)

  function Put(x: seq<byte>, r: Option<Pass>): Option<Pass> {
    if r.None? then None else Some(Pass(x + r.value.out, r.value.left))
  }

  /** What is written has been read, and the scan stops at a zero byte. */
  ghost predicate Bounded(m: seq<byte>, p: Pass) {
    0 < |p.left| && p.left[0] == 0 && |p.out| + |p.left| <= |m|
  }

  /** The scan of the memory `m`; None when it leaves `m`. */
  function Swept(m: seq<byte>): (r: Option<Pass>)
    ensures r.Some? ==> Bounded(m, r.value)
    decreases |m|, 1
  {
    if m == [] then None
    else if m[0] == 0 then Some(Pass([], m))
    else if White(m[0]) then Swept(m[1..])
    else if m[0] == SLASH && |m| == 1 then None
    else if m[0] == SLASH && m[1] == SLASH then SweptLine(m)
    else if m[0] == SLASH && m[1] == STAR then SweptBlock(m)
    else if m[0] == QUOTE then Put([QUOTE], SweptLiteral(m[1..]))
    else Put([m[0]], Swept(m[1..]))
  }

  /** Inside a comment that ends with its line. */
  function SweptLine(m: seq<byte>): (r: Option<Pass>)
    ensures r.Some? ==> Bounded(m, r.value)
    decreases |m|, 0
  {
    if m == [] then None
    else if m[0] == 0 then Some(Pass([], m))
    else if m[0] == NEWLINE then Swept(m[1..])
    else SweptLine(m[1..])
  }

  /** Inside a comment that ends with star and slash: two bytes are skipped at its end, even if that is a zero byte. */
  function SweptBlock(m: seq<byte>): (r: Option<Pass>)
    ensures r.Some? ==> Bounded(m, r.value)
    decreases |m|, 0
  {
    if |m| < 2 then None
    else if m[0] == 0 || (m[0] == STAR && m[1] == SLASH) then Swept(m[2..])
    else SweptBlock(m[1..])
  }

  /** Inside a string literal: the byte at its end is copied, even if it is a zero byte. */
  function SweptLiteral(m: seq<byte>): (r: Option<Pass>)
    ensures r.Some? ==> Bounded(m, r.value)
    decreases |m|, 0
  {
    if m == [] then None
    else if m[0] == 0 || m[0] == QUOTE then Put([m[0]], Swept(m[1..]))
    else if m[0] == BACKSLASH then if |m| < 2 then None else Put(m[..2], SweptLiteral(m[2..]))
    else Put([m[0]], SweptLiteral(m[1..]))
  }

  // ---------- in place

  lemma PutTwice(x: seq<byte>, y: seq<byte>, r: Option<Pass>)
    ensures Put(x, Put(y, r)) == Put(x + y, r) && Put([], r) == r
  {
    if r.Some? {
      assert x + (y + r.value.out) == x + y + r.value.out && [] + r.value.out == r.value.out;
    }
  }

  /** The scan of `m` has written `out` and goes on as `rest` says. */
  ghost predicate At(m: seq<byte>, out: seq<byte>, rest: Option<Pass>) { Swept(m) == Put(out, rest) }

  lemma Wrote(m: seq<byte>, out: seq<byte>, x: seq<byte>, rest: Option<Pass>)
    requires At(m, out, Put(x, rest))
    ensures At(m, out + x, rest)
  {
    hide Swept;
    PutTwice(out, x, rest);
  }

  /** Nothing from `into` on has been overwritten, and the scan is not behind its output. */
  ghost predicate Holds(a: array<byte>, m: seq<byte>, json: nat, into: nat)
    reads a
  {
    |m| == a.Length && into <= json <= |m| && a[into..] == m[into..]
  }

  lemma Unread(a: array<byte>, m: seq<byte>, json: nat, into: nat)
    requires Holds(a, m, json, into)
    ensures |m| == a.Length && into <= json <= |m|
    ensures forall i | into <= i < a.Length :: a[i] == m[i]
  {
    forall i | into <= i < a.Length
      ensures a[i] == m[i]
    {
      assert a[into..][i - into] == m[into..][i - into];
    }
  }

  /** Memory is left as it was but for the text without blanks and comments, at the beginning, and its terminator. `ok`
      is false when the scan leaves the array. */
  method Minify(a: array<byte>) returns (ok: bool)
    modifies a
    ensures ok == Swept(old(a[..])).Some?
    ensures ok ==>
      var out := Swept(old(a[..])).value.out;
      |out| < a.Length && a[..] == out + [0] + old(a[..])[|out| + 1..]
  {
    hide Swept, Outside;
    ghost var m := a[..];
    var json: nat, into: nat := 0, 0;
    Begin(a, m);
    while json < a.Length && a[json] != 0
      invariant into <= json <= a.Length && Outside(a, m, json, into)
      decreases a.Length - json
    {
      if White(a[json]) {
        json := SkipWhite(a, m, json, into);
      } else if a[json] == SLASH && json + 1 == a.Length {
        OffTheEnd(a, m, json, into);
        return false;
      } else if a[json] == SLASH && a[json + 1] == SLASH {
        ok, json := SkipLine(a, m, json, into);
        if !ok { return; }
      } else if a[json] == SLASH && a[json + 1] == STAR {
        ok, json := SkipBlock(a, m, json, into);
        if !ok { return; }
      } else if a[json] == QUOTE {
        ok, json, into := CopyLiteral(a, m, json, into);
        if !ok { return; }
      } else {
        json, into := CopyOther(a, m, json, into);
      }
    }
    ok := json < a.Length;
    End(a, m, json, into);
    if ok {
      a[into] := 0;
      assert a[into + 1..] == m[into + 1..];
      assert a[..] == a[..into] + [0] + a[into + 1..];
    }
  }

  lemma Begin(a: array<byte>, m: seq<byte>)
    requires m == a[..]
    ensures Outside(a, m, 0, 0)
  {
    hide Swept;
    PutTwice([], [], Swept(m));
    assert m[0..] == m && a[..0] == [] && a[0..] == m;
  }

  lemma End(a: array<byte>, m: seq<byte>, json: nat, into: nat)
    requires Outside(a, m, json, into) && json <= a.Length && (json < a.Length ==> a[json] == 0)
    ensures Swept(m) == if json == a.Length then None else Some(Pass(a[..into], m[json..]))
    ensures |m| == a.Length && into <= json && a[into..] == m[into..]
  {
    hide Swept;
    Unread(a, m, json, into);
    Stopped(m, json);
  }

  lemma OffTheEnd(a: array<byte>, m: seq<byte>, json: nat, into: nat)
    requires Outside(a, m, json, into) && json + 1 == a.Length && a[json] == SLASH
    ensures Swept(m) == None
  {
    hide Swept;
    Unread(a, m, json, into);
    Unfold(m, json);
  }

  /** Past one blank. */
  method SkipWhite(a: array<byte>, ghost m: seq<byte>, json: nat, ghost into: nat) returns (end: nat)
    requires Outside(a, m, json, into) && into <= json < a.Length && White(a[json])
    ensures end == json + 1 && Outside(a, m, end, into)
  {
    hide Swept;
    Unread(a, m, json, into);
    Unfold(m, json);
    end := json + 1;
  }

  /** What the outer loop does next. */
  lemma Unfold(m: seq<byte>, p: nat)
    requires p < |m| && m[p] != 0
    ensures Swept(m[p..]) ==
      if White(m[p]) then Swept(m[p + 1..])
      else if m[p] == SLASH && p + 1 == |m| then None
      else if m[p] == SLASH && m[p + 1] == SLASH then SweptLine(m[p..])
      else if m[p] == SLASH && m[p + 1] == STAR then SweptBlock(m[p..])
      else if m[p] == QUOTE then Put([QUOTE], SweptLiteral(m[p + 1..]))
      else Put([m[p]], Swept(m[p + 1..]))
  {
    assert m[p..][1..] == m[p + 1..];
  }

  lemma Stopped(m: seq<byte>, p: nat)
    requires p <= |m| && (p < |m| ==> m[p] == 0)
    ensures Swept(m[p..]) == if p == |m| then None else Some(Pass([], m[p..]))
    ensures forall out | At(m, out, Swept(m[p..])) :: Swept(m) == if p == |m| then None else Some(Pass(out, m[p..]))
  {
    assert forall out: seq<byte> :: out + [] == out;
  }

  /** One byte moves down. */
  method CopyByte(a: array<byte>, ghost m: seq<byte>, json: nat, into: nat) returns (json': nat, into': nat)
    requires Holds(a, m, json, into) && json < |m|
    modifies a
    ensures json' == json + 1 <= a.Length && into' == into + 1 <= json' && Holds(a, m, json', into')
    ensures a[..into'] == old(a[..into]) + [m[json]]
  {
    Unread(a, m, json, into);
    a[into] := a[json];
    json', into' := json + 1, into + 1;
  }

  /** Past a comment that ends with its line, up to the newline or the zero byte. */
  method SkipLine(a: array<byte>, ghost m: seq<byte>, json: nat, ghost into: nat) returns (ok: bool, end: nat)
    requires Outside(a, m, json, into) && into <= json && json + 1 < a.Length && a[json] == a[json + 1] == SLASH
    ensures ok ==> json < end <= a.Length && Outside(a, m, end, into)
    ensures !ok ==> Swept(m) == None
  {
    hide Swept, Bounded;
    Unread(a, m, json, into);
    Unfold(m, json);
    end := json;
    while end < a.Length && a[end] != 0 && a[end] != NEWLINE
      invariant json <= end <= |m| && SweptLine(m[end..]) == SweptLine(m[json..])
      decreases |m| - end
    {
      assert m[end..][1..] == m[end + 1..];
      end := end + 1;
    }
    ok := end < a.Length;
    if ok {
      LineEnd(m, end);
    }
  }

  lemma LineEnd(m: seq<byte>, p: nat)
    requires p < |m| && (m[p] == 0 || m[p] == NEWLINE)
    ensures Swept(m[p..]) == SweptLine(m[p..])
  {
  }

  /** Past a comment that ends with star and slash. */
  method SkipBlock(a: array<byte>, ghost m: seq<byte>, json: nat, ghost into: nat) returns (ok: bool, end: nat)
    requires Outside(a, m, json, into) && into <= json && json + 1 < a.Length
    requires a[json] == SLASH && a[json + 1] == STAR
    ensures ok ==> json < end <= a.Length && Outside(a, m, end, into)
    ensures !ok ==> Swept(m) == None
  {
    hide Swept, SweptBlock, Bounded;
    Unread(a, m, json, into);
    Unfold(m, json);
    end := json;
    while end + 1 < a.Length && a[end] != 0 && !(a[end] == STAR && a[end + 1] == SLASH)
      invariant json <= end < |m| && SweptBlock(m[end..]) == SweptBlock(m[json..])
      decreases |m| - end
    {
      BlockUnfold(m, end);
      end := end + 1;
    }
    ok := end + 1 < a.Length;
    BlockUnfold(m, end);
    end := end + 2;
  }

  lemma BlockUnfold(m: seq<byte>, p: nat)
    requires p < |m|
    ensures SweptBlock(m[p..]) ==
      if p + 1 == |m| then None
      else if m[p] == 0 || (m[p] == STAR && m[p + 1] == SLASH) then Swept(m[p + 2..])
      else SweptBlock(m[p + 1..])
  {
    hide Swept, Bounded;
    assert m[p..][1..] == m[p + 1..];
    assert p + 1 < |m| ==> m[p..][2..] == m[p + 2..];
  }

  /** The scan is inside a literal at `json`, with the first `into` bytes written. */
  ghost predicate Copying(a: array<byte>, m: seq<byte>, json: nat, into: nat)
    reads a
  {
    Holds(a, m, json, into) && At(m, a[..into], SweptLiteral(m[json..]))
  }

  /** The scan is outside at `json`, with the first `into` bytes written. */
  ghost predicate Outside(a: array<byte>, m: seq<byte>, json: nat, into: nat)
    reads a
  {
    Holds(a, m, json, into) && At(m, a[..into], Swept(m[json..]))
  }

  /** One byte of a literal moves down, or a backslash with the byte behind it. */
  method CopyUnit(a: array<byte>, ghost m: seq<byte>, json: nat, into: nat) returns (ok: bool, json': nat, into': nat)
    requires Copying(a, m, json, into) && into <= json < a.Length && a[json] != 0 && a[json] != QUOTE
    modifies a
    ensures ok ==> json < json' <= a.Length && into' <= json' && Copying(a, m, json', into')
    ensures !ok ==> Swept(m) == None
  {
    hide Swept, SweptLiteral, At, Holds;
    Unread(a, m, json, into);
    LiteralStep(m, a[..into], json);
    ok, json', into' := true, json, into;
    if a[json] == BACKSLASH {
      json', into' := CopyByte(a, m, json, into);
      ok := json' < a.Length;
    }
    if ok {
      json', into' := CopyByte(a, m, json', into');
    }
  }

  /** The byte that ends a literal moves down. */
  method CopyEnd(a: array<byte>, ghost m: seq<byte>, json: nat, into: nat) returns (ok: bool, json': nat, into': nat)
    requires Copying(a, m, json, into) && into <= json <= a.Length
    requires json < a.Length ==> a[json] == 0 || a[json] == QUOTE
    modifies a
    ensures ok ==> json < json' <= a.Length && into' <= json' && Outside(a, m, json', into')
    ensures !ok ==> Swept(m) == None
  {
    hide Swept, SweptLiteral, At, Holds;
    Unread(a, m, json, into);
    LiteralStep(m, a[..into], json);
    ok, json', into' := json < a.Length, json, into;
    if ok {
      json', into' := CopyByte(a, m, json, into);
    }
  }

  /** A string literal moves down as it is, with the byte that ends it. */
  method CopyLiteral(a: array<byte>, ghost m: seq<byte>, json: nat, into: nat)
    returns (ok: bool, json': nat, into': nat)
    requires Outside(a, m, json, into) && into <= json < a.Length && a[json] == QUOTE
    modifies a
    ensures ok ==> json < json' <= a.Length && into' <= json' && Outside(a, m, json', into')
    ensures !ok ==> Swept(m) == None
  {
    hide Copying, Outside;
    json', into' := CopyQuote(a, m, json, into);
    while json' < a.Length && a[json'] != 0 && a[json'] != QUOTE
      invariant json < json' <= a.Length && into' <= json' && Copying(a, m, json', into')
      decreases a.Length - json'
    {
      ok, json', into' := CopyUnit(a, m, json', into');
      if !ok { return; }
    }
    ok, json', into' := CopyEnd(a, m, json', into');
  }

  /** The quote that opens a literal moves down. */
  method CopyQuote(a: array<byte>, ghost m: seq<byte>, json: nat, into: nat) returns (json': nat, into': nat)
    requires Outside(a, m, json, into) && into <= json < a.Length && a[json] == QUOTE
    modifies a
    ensures json' == json + 1 && into' <= json' && Copying(a, m, json', into')
  {
    hide Swept, SweptLiteral, At, Holds;
    Unread(a, m, json, into);
    Unfold(m, json);
    Wrote(m, a[..into], [QUOTE], SweptLiteral(m[json + 1..]));
    json', into' := CopyByte(a, m, json, into);
  }

  /** Any other byte moves down. */
  method CopyOther(a: array<byte>, ghost m: seq<byte>, json: nat, into: nat) returns (json': nat, into': nat)
    requires Outside(a, m, json, into) && into <= json < a.Length && a[json] != 0
    requires !White(a[json]) && a[json] != QUOTE
    requires a[json] == SLASH ==> json + 1 < a.Length && a[json + 1] != SLASH && a[json + 1] != STAR
    modifies a
    ensures json' == json + 1 && into' <= json' && Outside(a, m, json', into')
  {
    hide Swept, At, Holds;
    Unread(a, m, json, into);
    Unfold(m, json);
    Wrote(m, a[..into], [m[json]], Swept(m[json + 1..]));
    json', into' := CopyByte(a, m, json, into);
  }

  lemma TwoBytes(out: seq<byte>, m: seq<byte>, p: nat)
    requires p + 1 < |m|
    ensures out + m[p..p + 2] == out + [m[p]] + [m[p + 1]]
  {
  }

  lemma LiteralStep(m: seq<byte>, out: seq<byte>, p: nat)
    requires p <= |m| && At(m, out, SweptLiteral(m[p..]))
    ensures p == |m| || (p + 1 == |m| && m[p] == BACKSLASH) ==> Swept(m) == None
    ensures p < |m| && (m[p] == 0 || m[p] == QUOTE) ==> At(m, out + [m[p]], Swept(m[p + 1..]))
    ensures p + 1 < |m| && m[p] == BACKSLASH ==> At(m, out + [m[p]] + [m[p + 1]], SweptLiteral(m[p + 2..]))
    ensures p < |m| && m[p] != 0 && m[p] != QUOTE && m[p] != BACKSLASH ==>
      At(m, out + [m[p]], SweptLiteral(m[p + 1..]))
  {
    if p < |m| {
      LiteralUnfold(m, p);
      hide Swept, SweptLiteral, Bounded;
      if m[p] == 0 || m[p] == QUOTE {
        Wrote(m, out, [m[p]], Swept(m[p + 1..]));
      } else if m[p] != BACKSLASH {
        Wrote(m, out, [m[p]], SweptLiteral(m[p + 1..]));
      } else if p + 1 < |m| {
        Wrote(m, out, m[p..p + 2], SweptLiteral(m[p + 2..]));
        TwoBytes(out, m, p);
      }
    }
  }

  lemma LiteralUnfold(m: seq<byte>, p: nat)
    requires p < |m|
    ensures SweptLiteral(m[p..]) ==
      if m[p] == 0 || m[p] == QUOTE then Put([m[p]], Swept(m[p + 1..]))
      else if m[p] == BACKSLASH then if p + 1 == |m| then None else Put(m[p..p + 2], SweptLiteral(m[p + 2..]))
      else Put([m[p]], SweptLiteral(m[p + 1..]))
  {
    assert m[p..][1..] == m[p + 1..];
    assert p + 1 < |m| ==> m[p..][2..] == m[p + 2..] && m[p..][..2] == m[p..p + 2];
  }
}
