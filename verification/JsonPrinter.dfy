/** cJSON's printer as it runs: a buffer that grows, is written in place, and whose offset trails the text. */
module JsonPrinter {
  import opened Common
  import opened JsonString
  import opened Json
  import opened JsonRoundTrip

  const INT_MAX: nat := 0x7fff_ffff

  /** What a C program can hand to the printer: C strings, and numbers of at most 25 bytes. */
  ghost predicate Storable(j: Json) {
    match j
    case Number(l) => NulFree(l) && |l| <= 25
    case Text(s) => NulFree(s)
    case Array(items) => StorableKids(items)
    case Object(members) => StorableKids(members)
    case _ => true
  }

  ghost predicate StorableKids(k: Kids) { k.Kid? ==> NulFree(k.key) && Storable(k.value) && StorableKids(k.next) }

  // ---------- printed text is a C string

  lemma {:induction false} EscapedNulFree(s: seq<byte>)
    requires NulFree(s)
    ensures NulFree(EscapeAll(s))
  {
    if s != [] {
      EscapedNulFree(s[1..]);
    }
  }

  lemma Join(a: seq<byte>, b: seq<byte>)
    requires NulFree(a) && NulFree(b)
    ensures NulFree(a + b)
  {
  }

  lemma Pieces(c: bool, d: nat)
    ensures NulFree([COMMA]) && NulFree([COLON]) && NulFree([]) && NulFree([SPACE]) && NulFree(When(c, [NEWLINE]))
    ensures NulFree(When(c, [TAB])) && NulFree(When(c, [COMMA])) && NulFree(When(c, [SPACE]))
      && NulFree(When(c, Tabs(d)))
    ensures NulFree([OPEN_ARRAY]) && NulFree([CLOSE_ARRAY]) && NulFree([OPEN_OBJECT]) && NulFree([CLOSE_OBJECT])
  {
  }

  lemma {:induction false} PrintNulFree(j: Json, fmt: bool, d: nat)
    requires Storable(j)
    ensures NulFree(Print(j, fmt, d))
    decreases j, 1
  {
    match j
    case Text(s) => EscapedNulFree(s);
    case Array(items) => ArrayNulFree(items, fmt, d);
    case Object(members) => ObjectNulFree(members, fmt, d);
    case _ =>
  }

  lemma {:induction false} ArrayNulFree(items: Kids, fmt: bool, d: nat)
    requires StorableKids(items)
    ensures NulFree(Print(Array(items), fmt, d))
    decreases items, 1
  {
    hide Print, PrintItems, JsonString.NulFree;
    ItemsNulFree(items, fmt, d + 1);
    ArrayText(items, fmt, d, []);
    Pieces(fmt, d);
    Join([CLOSE_ARRAY], []);
    Join(PrintItems(items, fmt, d + 1), [CLOSE_ARRAY] + []);
    Join([OPEN_ARRAY], PrintItems(items, fmt, d + 1) + ([CLOSE_ARRAY] + []));
    assert Print(Array(items), fmt, d) + [] == Print(Array(items), fmt, d);
  }

  lemma {:induction false} ItemsNulFree(k: Kids, fmt: bool, d: nat)
    requires StorableKids(k)
    ensures NulFree(PrintItems(k, fmt, d))
    decreases k, 0
  {
    hide Print, PrintItems, JsonString.NulFree;
    Pieces(fmt, d);
    if k.End? {
      NoItems(fmt, d);
    } else {
      var v, t, w := Print(k.value, fmt, d), PrintItems(k.next, fmt, d), When(fmt, [SPACE]);
      PrintNulFree(k.value, fmt, d);
      ItemsNulFree(k.next, fmt, d);
      ItemText(k, fmt, d, []);
      Join(t, []);
      Join(w, t + []);
      Join([COMMA], w + (t + []));
      Join(v, [COMMA] + (w + (t + [])));
      Join(v, []);
      assert PrintItems(k, fmt, d) + [] == PrintItems(k, fmt, d);
    }
  }

  lemma {:induction false} ObjectNulFree(members: Kids, fmt: bool, d: nat)
    requires StorableKids(members)
    ensures NulFree(Print(Object(members), fmt, d))
    decreases members, 1
  {
    hide Print, PrintMembers, JsonString.NulFree;
    var t, u := PrintMembers(members, fmt, d + 1), When(fmt, Tabs(d)) + ([CLOSE_OBJECT] + []);
    MembersNulFree(members, fmt, d + 1);
    ObjectText(members, fmt, d, []);
    Pieces(fmt, d);
    Join([CLOSE_OBJECT], []);
    Join(When(fmt, Tabs(d)), [CLOSE_OBJECT] + []);
    Join(t, u);
    Join(When(fmt, [NEWLINE]), t + u);
    Join([OPEN_OBJECT], When(fmt, [NEWLINE]) + (t + u));
    assert Print(Object(members), fmt, d) + [] == Print(Object(members), fmt, d);
  }

  lemma {:induction false} MembersNulFree(k: Kids, fmt: bool, d: nat)
    requires StorableKids(k)
    ensures NulFree(PrintMembers(k, fmt, d))
    decreases k, 0
  {
    hide Print, PrintMembers, JsonString.NulFree, When;
    Pieces(fmt, d);
    if k.End? {
      NoItems(fmt, d);
    } else {
      StringNulFree(k.key);
      PrintNulFree(k.value, fmt, d);
      MembersNulFree(k.next, fmt, d);
      MemberText(k, fmt, d, []);
      Pieces(k.next.Kid?, d);
      var a := PrintMembers(k.next, fmt, d) + [];
      var b := When(fmt, [NEWLINE]) + a;
      var c := When(k.next.Kid?, [COMMA]) + b;
      var e := Print(k.value, fmt, d) + c;
      var f := When(fmt, [TAB]) + e;
      var g := [COLON] + f;
      var h := PrintString(k.key) + g;
      Join(PrintMembers(k.next, fmt, d), []);
      Join(When(fmt, [NEWLINE]), a);
      Join(When(k.next.Kid?, [COMMA]), b);
      Join(Print(k.value, fmt, d), c);
      Join(When(fmt, [TAB]), e);
      Join([COLON], f);
      Join(PrintString(k.key), g);
      Join(When(fmt, Tabs(d)), h);
      assert PrintMembers(k, fmt, d) + [] == PrintMembers(k, fmt, d);
    }
  }

  lemma StringNulFree(s: seq<byte>)
    requires NulFree(s)
    ensures NulFree(PrintString(s))
  {
    EscapedNulFree(s);
  }

  // ---------- strings

  lemma {:induction false} EscapeAppend(s: seq<byte>, t: seq<byte>)
    ensures EscapeAll(s + t) == EscapeAll(s) + EscapeAll(t)
  {
    if s == [] {
      assert s + t == t;
    } else {
      assert (s + t)[0] == s[0] && (s + t)[1..] == s[1..] + t;
      EscapeAppend(s[1..], t);
      assert EscapeAll(s + t) == Escape(s[0]) + EscapeAll(s[1..] + t);
      hide JsonString.EscapeAll, JsonString.Escape;
      Associate(Escape(s[0]), EscapeAll(s[1..]), EscapeAll(t));
    }
  }

  lemma EscapeNext(s: seq<byte>, i: nat)
    requires i < |s|
    ensures EscapeAll(s[..i + 1]) == EscapeAll(s[..i]) + Escape(s[i])
  {
    assert s[..i + 1] == s[..i] + [s[i]];
    EscapeAppend(s[..i], [s[i]]);
    assert [s[i]][1..] == [];
    assert Escape(s[i]) + [] == Escape(s[i]);
  }

  lemma EscapePrefix(s: seq<byte>, i: nat)
    requires i <= |s|
    ensures |EscapeAll(s[..i])| <= |EscapeAll(s)|
  {
    EscapeAppend(s[..i], s[i..]);
    assert s[..i] + s[i..] == s;
  }

  lemma QuotedText(x: seq<byte>, s: seq<byte>)
    ensures x + [QUOTE] + EscapeAll(s) + [QUOTE, 0] == x + PrintString(s) + [0]
  {
    var e := EscapeAll(s);
    assert x + [QUOTE] + e + [QUOTE, 0] == x + ([QUOTE] + e + [QUOTE]) + [0];
  }

  /** The first loop of print_string_ptr: how many bytes escaping adds. */
  method CountEscapes(s: seq<byte>) returns (n: nat)
    ensures |s| + n == |EscapeAll(s)|
    ensures n == 0 ==> EscapeAll(s) == s
  {
    n := 0;
    var i := 0;
    assert EscapeAll(s[..0]) == [];
    while i < |s|
      invariant 0 <= i <= |s| && i + n == |EscapeAll(s[..i])|
      invariant n == 0 ==> EscapeAll(s[..i]) == s[..i]
    {
      EscapeNext(s, i);
      if Letter(s[i]).Some? {
        n := n + 1;
      } else if s[i] < 32 {
        n := n + 5;
      }
      i := i + 1;
    }
    assert s[..|s|] == s;
  }

  // ---------- the pieces that the loops print

  /** One element of an array and the comma behind it. */
  ghost function ItemPrint(k: Kids, fmt: bool, d: nat): seq<byte>
    requires k.Kid?
  {
    Print(k.value, fmt, d) + if k.next.End? then [] else if fmt then [COMMA, SPACE] else [COMMA]
  }

  lemma ItemPrintNext(k: Kids, fmt: bool, d: nat, done: seq<byte>)
    requires k.Kid?
    ensures done + PrintItems(k, fmt, d) == done + ItemPrint(k, fmt, d) + PrintItems(k.next, fmt, d)
  {
    hide Print;
    var v, t := Print(k.value, fmt, d), PrintItems(k.next, fmt, d);
    assert PrintItems(k, fmt, d) == ItemPrint(k, fmt, d) + t by {
      assert [COMMA] + [SPACE] == [COMMA, SPACE];
      assert [COMMA] + [] == [COMMA];
    }
    Associate(done, ItemPrint(k, fmt, d), t);
  }

  lemma ArrayLength(items: Kids, fmt: bool, d: nat, x: seq<byte>)
    ensures Print(Array(items), fmt, d) == [OPEN_ARRAY] + PrintItems(items, fmt, d + 1) + [CLOSE_ARRAY]
    ensures |x + [OPEN_ARRAY] + PrintItems(items, fmt, d + 1)| + 1 == |x| + |Print(Array(items), fmt, d)|
  {
    hide PrintItems;
  }

  function OpenText(fmt: bool): seq<byte> { if fmt then [OPEN_OBJECT, NEWLINE] else [OPEN_OBJECT] }

  function CloseText(fmt: bool, d: nat): seq<byte> { When(fmt, Tabs(d)) + [CLOSE_OBJECT] }

  lemma ObjectLength(members: Kids, fmt: bool, d: nat, x: seq<byte>)
    ensures Print(Object(members), fmt, d) == OpenText(fmt) + PrintMembers(members, fmt, d + 1) + CloseText(fmt, d)
    ensures |x + OpenText(fmt) + PrintMembers(members, fmt, d + 1)| + |CloseText(fmt, d)|
      == |x| + |Print(Object(members), fmt, d)|
    ensures |CloseText(fmt, d)| >= 1
  {
    hide PrintMembers;
    var t := PrintMembers(members, fmt, d + 1);
    assert [OPEN_OBJECT] + When(fmt, [NEWLINE]) == OpenText(fmt);
    Associate(OpenText(fmt) + t, When(fmt, Tabs(d)), [CLOSE_OBJECT]);
  }

  /** A member up to its value, and from its value on. */
  ghost function MemberKey(k: Kids, fmt: bool, d: nat): seq<byte>
    requires k.Kid?
  {
    When(fmt, Tabs(d)) + PrintString(k.key) + if fmt then [COLON, TAB] else [COLON]
  }

  ghost function MemberValue(k: Kids, fmt: bool, d: nat): seq<byte>
    requires k.Kid?
  {
    Print(k.value, fmt, d) + (When(k.next.Kid?, [COMMA]) + When(fmt, [NEWLINE]))
  }

  lemma MemberPrintNext(k: Kids, fmt: bool, d: nat, done: seq<byte>)
    requires k.Kid?
    ensures done + PrintMembers(k, fmt, d)
      == done + (MemberKey(k, fmt, d) + MemberValue(k, fmt, d)) + PrintMembers(k.next, fmt, d)
    ensures |done + PrintMembers(k, fmt, d)| >= |done| + |MemberKey(k, fmt, d)| + |MemberValue(k, fmt, d)|
  {
    hide Print, JsonString.PrintString;
    var t := PrintMembers(k.next, fmt, d);
    MemberPieces(k, fmt, d);
    assert PrintMembers(k, fmt, d) == MemberKey(k, fmt, d) + MemberValue(k, fmt, d) + t;
    hide PrintMembers, MemberKey, MemberValue, PrintMember;
    Associate(done, MemberKey(k, fmt, d) + MemberValue(k, fmt, d), t);
  }

  lemma MemberPieces(k: Kids, fmt: bool, d: nat)
    requires k.Kid?
    ensures PrintMember(k.key, k.value, k.next.Kid?, fmt, d) == MemberKey(k, fmt, d) + MemberValue(k, fmt, d)
  {
    hide Print, JsonString.PrintString;
    var a, b, v := When(fmt, Tabs(d)), PrintString(k.key), Print(k.value, fmt, d);
    var c, n := When(k.next.Kid?, [COMMA]), When(fmt, [NEWLINE]);
    var colon := if fmt then [COLON, TAB] else [COLON];
    Associate(a + b, [COLON], When(fmt, [TAB]));
    assert [COLON] + When(fmt, [TAB]) == colon;
    Associate(a + b + colon + v, c, n);
    Associate(a + b + colon, v, c + n);
  }

  lemma KeyText(x: seq<byte>, tabs: seq<byte>, key: seq<byte>, colon: seq<byte>)
    ensures x + tabs + key + colon == x + (tabs + key + colon)
  {
  }

  // ---------- the buffer

  class PrintBuffer {
    var buffer: array<byte>
    var offset: nat
    var depth: nat
    const format: bool
    const noalloc: bool

    ghost predicate Valid()
      reads this`buffer, this`offset
    {
      buffer.Length <= INT_MAX && (offset < buffer.Length || offset == buffer.Length == 0)
    }

    /** The most that the buffer can come to hold. */
    ghost function Capacity(): nat
      reads this`buffer
    {
      if noalloc then buffer.Length else INT_MAX
    }

    /** The text up to the offset is `x`. */
    ghost predicate At(x: seq<byte>)
      reads this`buffer, this`offset, buffer
    {
      Valid() && offset == |x| && buffer[..offset] == x
    }

    /** `t` has been printed behind `x` and terminated; the offset may still be anywhere in `t`. */
    ghost predicate Printed(x: seq<byte>, t: seq<byte>)
      reads this`buffer, this`offset, buffer
    {
      && |x| + |t| + 2 <= buffer.Length <= INT_MAX && |x| <= offset <= |x| + |t|
      && buffer[..|x| + |t|] == x + t && buffer[|x| + |t|] == 0
    }

    constructor (storage: array<byte>, format: bool, noalloc: bool)
      requires storage.Length <= INT_MAX
      ensures Valid() && buffer == storage && offset == 0 && depth == 0
      ensures this.format == format && this.noalloc == noalloc
    {
      this.buffer := storage;
      this.offset := 0;
      this.depth := 0;
      this.format := format;
      this.noalloc := noalloc;
    }

    /** ensure: room for `needed` bytes and one more, by growing to twice the need if allowed. With the offset inside
        the buffer it fails exactly when the need is beyond the capacity, and what has been printed stays. */
    method Ensure(needed: nat) returns (ok: bool)
      requires offset <= buffer.Length <= INT_MAX
      modifies this`buffer
      ensures offset <= buffer.Length <= INT_MAX && Capacity() == old(Capacity())
      ensures buffer[..offset] == old(buffer[..offset])
      ensures ok == (old(Valid()) && offset + needed + 1 <= Capacity())
      ensures ok ==> offset + needed + 1 <= buffer.Length
      ensures !ok ==> buffer == old(buffer)
      ensures buffer == old(buffer) || (fresh(buffer) && !noalloc)
    {
      if buffer.Length > 0 && offset >= buffer.Length {
        return false;
      }
      if needed > INT_MAX {
        return false;
      }
      var total := needed + offset + 1;
      if total <= buffer.Length {
        return true;
      }
      if noalloc {
        return false;
      }
      var size := total * 2;
      if total > INT_MAX / 2 {
        if total > INT_MAX {
          return false;
        }
        size := INT_MAX;
      }
      var grown := new byte[size];
      var i := 0;
      while i < offset
        invariant buffer == old(buffer) && offset == old(offset)
        invariant 0 <= i <= offset && grown[..i] == buffer[..i]
      {
        grown[i] := buffer[i];
        i := i + 1;
      }
      buffer := grown;
      ok := true;
    }

    /** Bytes written from `at` on, as strcpy, memcpy and single stores do. */
    method Put(at: nat, t: seq<byte>)
      requires at + |t| <= buffer.Length
      modifies buffer
      ensures buffer[..at + |t|] == old(buffer[..at]) + t
    {
      var i := 0;
      while i < |t|
        invariant 0 <= i <= |t|
        invariant buffer[..at + i] == old(buffer[..at]) + t[..i]
      {
        buffer[at + i] := t[i];
        i := i + 1;
      }
      assert t[..|t|] == t;
    }
  
    /** Room for `needed` bytes is ensured, `t` is stored and the offset moves by `advance`. */
    method Emit(t: seq<byte>, needed: nat, advance: nat, ghost x: seq<byte>) returns (ok: bool)
      requires At(x) && advance <= |t| <= needed
      modifies this`buffer, this`offset, buffer
      ensures ok == (|x| + needed + 1 <= Capacity()) && Capacity() == old(Capacity())
      ensures ok ==> |x| + needed + 1 <= buffer.Length <= INT_MAX && offset == |x| + advance
      ensures ok ==> buffer[..|x| + |t|] == x + t
      ensures buffer == old(buffer) || (fresh(buffer) && !noalloc)
    {
      ok := Ensure(needed);
      if ok {
        Put(offset, t);
        offset := offset + advance;
      }
    }

    /** Stored text becomes part of the text before the offset. */
    method Extend(t: seq<byte>, nul: bool, ghost x: seq<byte>) returns (ok: bool)
      requires At(x)
      modifies this`buffer, this`offset, buffer
      ensures ok == (|x| + |t| + (if nul then 2 else 1) <= Capacity()) && Capacity() == old(Capacity())
      ensures ok ==> At(x + t)
      ensures buffer == old(buffer) || (fresh(buffer) && !noalloc)
    {
      if nul {
        ok := Emit(t + [0], |t| + 1, |t|, x);
        if ok {
          assert buffer[..|x| + |t|] == (x + (t + [0]))[..|x| + |t|];
        }
      } else {
        ok := Emit(t, |t|, |t|, x);
      }
    }

    /** A last piece, terminated, with the offset left in front of it. */
    method Finish(t: seq<byte>, advance: nat, ghost x: seq<byte>) returns (ok: bool)
      requires At(x) && advance <= |t|
      modifies this`buffer, this`offset, buffer
      ensures ok == (|x| + |t| + 2 <= Capacity()) && Capacity() == old(Capacity())
      ensures ok ==> Printed(x, t)
      ensures buffer == old(buffer) || (fresh(buffer) && !noalloc)
    {
      ok := Emit(t + [0], |t| + 1, advance, x);
      if ok {
        assert buffer[..|x| + |t|] == (x + (t + [0]))[..|x| + |t|];
        assert buffer[|x| + |t|] == buffer[..|x| + |t| + 1][|x| + |t|];
      }
    }

    /** update_offset: strlen finds the terminator that the last piece has left. */
    method UpdateOffset(ghost x: seq<byte>, ghost t: seq<byte>)
      requires Printed(x, t) && NulFree(t)
      modifies this`offset
      ensures At(x + t)
    {
      var i := offset;
      assert forall k :: |x| <= k < |x| + |t| ==> buffer[k] == buffer[..|x| + |t|][k];
      while buffer[i] != 0
        invariant |x| <= i <= |x| + |t|
        decreases |x| + |t| - i
      {
        i := i + 1;
      }
      offset := i;
    }

    /** print_string_ptr: the text is counted, then escaped; what is stored has exactly the length that was counted. */
    method PrintText(s: seq<byte>, ghost x: seq<byte>) returns (ok: bool)
      requires At(x)
      modifies this`buffer, this`offset, buffer
      ensures ok == (|x| + |PrintString(s)| + 2 <= Capacity()) && Capacity() == old(Capacity())
      ensures ok ==> Printed(x, PrintString(s))
      ensures buffer == old(buffer) || (fresh(buffer) && !noalloc)
    {
      hide JsonString.EscapeAll, Printed;
      var escapes := CountEscapes(s);
      ok := Ensure(|s| + escapes + 3);
      if ok {
        PutQuoted(s, escapes, x);
        PrintedFrom(x, PrintString(s));
      }
    }

    method PutQuoted(s: seq<byte>, escapes: nat, ghost x: seq<byte>)
      requires offset == |x| && |x| + |s| + escapes + 3 <= buffer.Length && buffer[..|x|] == x
      requires |s| + escapes == |EscapeAll(s)| && (escapes == 0 ==> EscapeAll(s) == s)
      modifies buffer
      ensures buffer[..|x| + |PrintString(s)| + 1] == x + PrintString(s) + [0]
    {
      hide JsonString.EscapeAll;
      Put(offset, [QUOTE]);
      if escapes == 0 {
        Put(offset + 1, s);
      } else {
        PutEscaped(s, x + [QUOTE]);
      }
      Put(offset + 1 + |s| + escapes, [QUOTE, 0]);
      QuotedText(x, s);
    }

    /** The copying loop: every byte becomes itself or its escape. */
    method PutEscaped(s: seq<byte>, ghost y: seq<byte>)
      requires offset + 1 == |y| && |y| + |EscapeAll(s)| <= buffer.Length && buffer[..|y|] == y
      modifies buffer
      ensures buffer[..|y| + |EscapeAll(s)|] == y + EscapeAll(s)
    {
      var at, i := offset + 1, 0;
      assert EscapeAll(s[..0]) == [] && y + [] == y;
      while i < |s|
        invariant 0 <= i <= |s| && at == |y| + |EscapeAll(s[..i])|
        invariant at <= buffer.Length && buffer[..at] == y + EscapeAll(s[..i])
      {
        EscapeNext(s, i);
        EscapePrefix(s, i + 1);
        var e := Escape(s[i]);
        Put(at, e);
        Associate(y, EscapeAll(s[..i]), e);
        at := at + |e|;
        i := i + 1;
      }
      assert s[..|s|] == s;
    }

    lemma AtFrom(x: seq<byte>)
      requires offset == |x| < buffer.Length <= INT_MAX && buffer[..|x|] == x
      ensures At(x)
    {
    }

    /** The last piece of a text completes it. */
    lemma Regrouped(x: seq<byte>, a: seq<byte>, b: seq<byte>, c: seq<byte>)
      requires Printed(x + a + b, c)
      ensures Printed(x, a + b + c)
    {
      assert x + a + b + c == x + (a + b + c);
    }

    lemma PrintedFrom(x: seq<byte>, t: seq<byte>)
      requires |x| + |t| + 2 <= buffer.Length <= INT_MAX && offset == |x|
      requires buffer[..|x| + |t| + 1] == x + t + [0]
      ensures Printed(x, t)
    {
      assert buffer[..|x| + |t|] == (x + t + [0])[..|x| + |t|];
      assert buffer[|x| + |t|] == buffer[..|x| + |t| + 1][|x| + |t|];
    }
  
    /** print_value: the text of `j` behind `x`, terminated. It succeeds exactly when the text, its terminator and one
        spare byte fit the capacity. */
    method PrintValue(j: Json, ghost x: seq<byte>) returns (ok: bool)
      requires At(x) && Storable(j)
      modifies this, buffer
      ensures ok == (|x| + |Print(j, format, old(depth))| + 2 <= Capacity()) && Capacity() == old(Capacity())
      ensures ok ==> Printed(x, Print(j, format, old(depth))) && depth == old(depth)
      ensures buffer == old(buffer) || (fresh(buffer) && !noalloc)
      decreases j, 2
    {
      hide Printed, At;
      match j
      case Null => ok := Finish(NULL_TEXT, 0, x);
      case False => ok := Finish(FALSE_TEXT, 0, x);
      case True => ok := Finish(TRUE_TEXT, 0, x);
      case Number(l) => ok := Finish(l, |l|, x);
      case Text(s) => ok := PrintText(s, x);
      case Array(items) => ok := PrintArray(items, x);
      case Object(members) => ok := PrintObject(members, x);
    }

    /** print_array */
    method PrintArray(items: Kids, ghost x: seq<byte>) returns (ok: bool)
      requires At(x) && StorableKids(items)
      modifies this, buffer
      ensures ok == (|x| + |Print(Array(items), format, old(depth))| + 2 <= Capacity()) && Capacity() == old(Capacity())
      ensures ok ==> Printed(x, Print(Array(items), format, old(depth))) && depth == old(depth)
      ensures buffer == old(buffer) || (fresh(buffer) && !noalloc)
      decreases items, 2
    {
      hide Print, PrintItems, At, Printed;
      ghost var y := x + [OPEN_ARRAY];
      ghost var t := PrintItems(items, format, depth + 1);
      ArrayLength(items, format, depth, x);
      ok := Extend([OPEN_ARRAY], false, x);
      if !ok {
        return;
      }
      depth := depth + 1;
      ok := PrintElements(items, y);
      if !ok {
        return;
      }
      ok := Finish([CLOSE_ARRAY], 0, y + t);
      if ok {
        Regrouped(x, [OPEN_ARRAY], t, [CLOSE_ARRAY]);
      }
      depth := depth - 1;
    }

    /** The loop over the elements of an array. */
    method PrintElements(items: Kids, ghost x: seq<byte>) returns (ok: bool)
      requires At(x) && StorableKids(items)
      modifies this, buffer
      ensures |x| + |PrintItems(items, format, old(depth))| + 2 <= Capacity() ==> ok
      ensures Capacity() == old(Capacity())
      ensures ok ==> At(x + PrintItems(items, format, old(depth))) && depth == old(depth)
      ensures buffer == old(buffer) || (fresh(buffer) && !noalloc)
      decreases items, 1
    {
      hide Print, PrintItems, At, Printed;
      var current := items;
      ghost var done := [];
      assert x + [] == x;
      ghost var all := PrintItems(items, format, depth);
      assert [] + all == all;
      while current.Kid?
        invariant StorableKids(current) && depth == old(depth) && Capacity() == old(Capacity())
        invariant buffer == old(buffer) || (fresh(buffer) && !noalloc)
        invariant current == items || current < items
        invariant At(x + done) && done + PrintItems(current, format, depth) == all
        decreases current
      {
        ghost var t := ItemPrint(current, format, depth);
        ItemPrintNext(current, format, depth, done);
        ok := PrintElement(current, x + done);
        if !ok {
          return;
        }
        Associate(x, done, t);
        done := done + t;
        current := current.next;
      }
      NoItems(format, depth);
      assert done + [] == done;
      ok := true;
    }

    /** One element and the comma behind it. */
    method PrintElement(k: Kids, ghost x: seq<byte>) returns (ok: bool)
      requires At(x) && k.Kid? && StorableKids(k)
      modifies this, buffer
      ensures |x| + |ItemPrint(k, format, old(depth))| + 2 <= Capacity() ==> ok
      ensures Capacity() == old(Capacity())
      ensures ok ==> At(x + ItemPrint(k, format, old(depth))) && depth == old(depth)
      ensures buffer == old(buffer) || (fresh(buffer) && !noalloc)
      decreases k, 0
    {
      hide Print, At, Printed, Storable;
      ghost var v := Print(k.value, format, depth);
      ok := PrintValue(k.value, x);
      if !ok {
        return;
      }
      PrintNulFree(k.value, format, depth);
      UpdateOffset(x, v);
      if k.next.Kid? {
        ok := Extend(if format then [COMMA, SPACE] else [COMMA], true, x + v);
        Associate(x, v, if format then [COMMA, SPACE] else [COMMA]);
      } else {
        assert v + [] == v;
      }
    }
  
    /** print_object */
    method PrintObject(members: Kids, ghost x: seq<byte>) returns (ok: bool)
      requires At(x) && StorableKids(members)
      modifies this, buffer
      ensures ok == (|x| + |Print(Object(members), format, old(depth))| + 2 <= Capacity())
        && Capacity() == old(Capacity())
      ensures ok ==> Printed(x, Print(Object(members), format, old(depth))) && depth == old(depth)
      ensures buffer == old(buffer) || (fresh(buffer) && !noalloc)
      decreases members, 4
    {
      hide Print, PrintMembers, At, Printed;
      var open, close := OpenText(format), CloseText(format, depth);
      ghost var y := x + open;
      ghost var t := PrintMembers(members, format, depth + 1);
      ObjectLength(members, format, depth, x);
      ok := Emit(open, |open| + 1, |open|, x);
      if !ok {
        return;
      }
      AtFrom(y);
      depth := depth + 1;
      ok := PrintPairs(members, y);
      if !ok {
        return;
      }
      ok := Finish(close, 0, y + t);
      if ok {
        Regrouped(x, open, t, close);
      }
      depth := depth - 1;
    }

    /** The loop over the members of an object. */
    method PrintPairs(members: Kids, ghost x: seq<byte>) returns (ok: bool)
      requires At(x) && StorableKids(members)
      modifies this, buffer
      ensures |x| + |PrintMembers(members, format, old(depth))| + 2 <= Capacity() ==> ok
      ensures Capacity() == old(Capacity())
      ensures ok ==> At(x + PrintMembers(members, format, old(depth))) && depth == old(depth)
      ensures buffer == old(buffer) || (fresh(buffer) && !noalloc)
      decreases members, 3
    {
      hide Print, PrintMembers, At, Printed;
      var current := members;
      ghost var done := [];
      assert x + [] == x;
      ghost var all := PrintMembers(members, format, depth);
      assert [] + all == all;
      while current.Kid?
        invariant StorableKids(current) && depth == old(depth) && Capacity() == old(Capacity())
        invariant buffer == old(buffer) || (fresh(buffer) && !noalloc)
        invariant current == members || current < members
        invariant At(x + done) && done + PrintMembers(current, format, depth) == all
        decreases current
      {
        ghost var t := MemberKey(current, format, depth) + MemberValue(current, format, depth);
        MemberPrintNext(current, format, depth, done);
        ok := PrintPair(current, x + done);
        if !ok {
          return;
        }
        Associate(x, done, t);
        done := done + t;
        current := current.next;
      }
      NoItems(format, depth);
      assert done + [] == done;
      ok := true;
    }

    method PrintPair(k: Kids, ghost x: seq<byte>) returns (ok: bool)
      requires At(x) && k.Kid? && StorableKids(k)
      modifies this, buffer
      ensures |x| + |MemberKey(k, format, old(depth))| + |MemberValue(k, format, old(depth))| + 2 <= Capacity() ==> ok
      ensures Capacity() == old(Capacity())
      ensures ok ==> depth == old(depth)
      ensures ok ==> At(x + (MemberKey(k, format, depth) + MemberValue(k, format, depth)))
      ensures buffer == old(buffer) || (fresh(buffer) && !noalloc)
      decreases k, 2
    {
      hide Print, At, Printed, MemberKey, MemberValue;
      ghost var a, b := MemberKey(k, format, depth), MemberValue(k, format, depth);
      ok := PrintKey(k, x);
      if !ok {
        return;
      }
      ok := PrintMemberValue(k, x + a);
      Associate(x, a, b);
    }

    /** The indentation, the key and the colon of a member. */
    method PrintKey(k: Kids, ghost x: seq<byte>) returns (ok: bool)
      requires At(x) && k.Kid? && StorableKids(k)
      modifies this`buffer, this`offset, buffer
      ensures |x| + |MemberKey(k, format, depth)| + 1 <= Capacity() ==> ok
      ensures Capacity() == old(Capacity())
      ensures ok ==> At(x + MemberKey(k, format, depth))
      ensures buffer == old(buffer) || (fresh(buffer) && !noalloc)
    {
      hide At, Printed, JsonString.PrintString;
      ghost var tabs, key := When(format, Tabs(depth)), PrintString(k.key);
      var colon := if format then [COLON, TAB] else [COLON];
      if format {
        ok := Extend(Tabs(depth), false, x);
        if !ok {
          return;
        }
      } else {
        assert x + [] == x;
      }
      ok := PrintText(k.key, x + tabs);
      if !ok {
        return;
      }
      StringNulFree(k.key);
      UpdateOffset(x + tabs, key);
      ok := Extend(colon, false, x + tabs + key);
      KeyText(x, tabs, key, colon);
    }

    /** The value of a member, the comma behind it and the end of its line. */
    method PrintMemberValue(k: Kids, ghost x: seq<byte>) returns (ok: bool)
      requires At(x) && k.Kid? && StorableKids(k)
      modifies this, buffer
      ensures |x| + |MemberValue(k, format, old(depth))| + 2 <= Capacity() ==> ok
      ensures Capacity() == old(Capacity())
      ensures ok ==> At(x + MemberValue(k, format, old(depth))) && depth == old(depth)
      ensures buffer == old(buffer) || (fresh(buffer) && !noalloc)
      decreases k, 1
    {
      hide Print, At, Printed, Storable;
      ghost var v := Print(k.value, format, depth);
      ok := PrintValue(k.value, x);
      if !ok {
        return;
      }
      PrintNulFree(k.value, format, depth);
      UpdateOffset(x, v);
      var end := When(k.next.Kid?, [COMMA]) + When(format, [NEWLINE]);
      ok := Extend(end, true, x + v);
      Associate(x, v, end);
    }
  }

  /** cJSON_Print, cJSON_PrintUnformatted and cJSON_PrintBuffered: the whole text, whatever the size of the first
      buffer, unless the text is too long for an int. */
  method PrintGrowing(j: Json, fmt: bool, size: nat) returns (r: Option<seq<byte>>)
    requires Storable(j) && size <= INT_MAX
    ensures r == if |Print(j, fmt, 0)| + 2 <= INT_MAX then Some(Print(j, fmt, 0)) else None
  {
    hide Print, Storable;
    var storage := new byte[size];
    var p := new PrintBuffer(storage, fmt, false);
    assert storage[..0] == [];
    var ok := p.PrintValue(j, []);
    if !ok {
      return None;
    }
    PrintNulFree(j, fmt, 0);
    p.UpdateOffset([], Print(j, fmt, 0));
    assert [] + Print(j, fmt, 0) == Print(j, fmt, 0);
    r := Some(p.buffer[..p.offset]);
  }

  /** cJSON_PrintPreallocated: the caller's buffer is enough exactly when it has two bytes more than the text, and then
      it holds the text and its terminator. */
  method PrintPreallocated(j: Json, fmt: bool, a: array<byte>) returns (ok: bool)
    requires Storable(j) && a.Length <= INT_MAX
    modifies a
    ensures ok == (|Print(j, fmt, 0)| + 2 <= a.Length)
    ensures ok ==> var n := |Print(j, fmt, 0)|; a[..n] == Print(j, fmt, 0) && a[n] == 0
  {
    hide Print, Storable;
    var p := new PrintBuffer(a, fmt, true);
    assert a[..0] == [];
    ok := p.PrintValue(j, []);
    assert [] + Print(j, fmt, 0) == Print(j, fmt, 0);
  }
}
