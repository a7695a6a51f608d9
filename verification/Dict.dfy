/** The dictionary: a table probed in place, tombstones for deleted keys, growth by rehashing. */
module Dict {
  import opened Common
  import opened Arithmetic
  import opened DictProbe
  import opened DictTable
  import opened DictGrow

  class Dictionary {
    const hash: Key -> Hash
    var table: array<Slot>
    var used: nat
    var fill: nat
    ghost var contents: map<Key, Value>

    /** The table represents `contents`; its size and the counters are 32-bit numbers. */
    ghost predicate Valid()
      reads this, table
    {
      && TableInv(table[..], hash) && Represents(table[..], contents)
      && table.Length < WORD32 && used < WORD32 && fill < WORD32
    }

    /** The counters bound what they count, as long as no absent key has been deleted. */
    ghost predicate Counted()
      reads this, table
    {
      |LiveSlots(table[..])| <= used <= fill && |UsedSlots(table[..])| <= fill
    }

    /** A lookup of `key` ends. */
    ghost predicate CanFind(key: Key)
      reads this, table
    {
      HasEmpty(table[..]) || HasKey(table[..], key)
    }

    /** What add-only use keeps: the fill stays below two thirds of the size. */
    ghost predicate Roomy()
      reads this, table
    {
      used == fill && 3 * fill < 2 * table.Length
    }

    /** dict_resize, called with this many keys counted as used, ends: the doubling loop ends, and so does the one
        that dict_add_p enters for each key when the new table has 2^31 slots. */
    ghost predicate ResizeEnds(live: nat, counted: nat)
      reads this
    {
      var w := Wanted(table.Length, counted);
      w < HALF && (table.Length > w || live < QUARTER)
    }

    /** The next dict_add ends: it finds a slot, and dict_resize is not entered or ends. */
    ghost predicate AddEnds()
      reads this, table
    {
      Crowded(table.Length, U32(fill + 1)) ==> ResizeEnds(|LiveSlots(table[..])| + 1, U32(used + 1))
    }

    constructor (hash: Key -> Hash)
      ensures Valid() && Counted() && Roomy() && fresh(table)
      ensures this.hash == hash && contents == map[] && table.Length == DICT_MIN_SZ && used == fill == 0
      ensures forall i :: 0 <= i < table.Length ==> table[i].Empty?
    {
      this.hash := hash;
      table := new Slot[DICT_MIN_SZ](_ => Empty);
      used, fill := 0, 0;
      contents := map[];
      new;
      EmptyTable(table[..], 6, hash);
    }

    /** dict_lookup */
    method Lookup(key: Key, h: Hash) returns (i: nat)
      requires Valid() && CanFind(key) && h == hash(key)
      ensures IsSlot(table[..], h, key, i) && i < table.Length
    {
      ghost var k, stop := SureStop(table[..], key, h);
      i := ProbeLoop(table, key, h, hash, k, stop);
    }

    /** Where the lookup stops at the latest. */
    lemma SureStop(t: Table, key: Key, h: Hash) returns (k: nat, stop: nat)
      requires Valid() && CanFind(key) && h == hash(key) && t == table[..]
      ensures |t| == Pow2(k) && k <= 31 && Stops(t, h, key, stop)
      ensures Hashed(t, hash)
    {
      k :| |t| == Pow2(k);
      SizeBits(k);
      LookupEnds(t, k, h, key);
      stop :| Stops(t, h, key, stop);
    }

    /** dict_get: the mapped value, and NULL (not the caller's default) when the key is absent. */
    method Get(key: Key) returns (val: Value)
      requires Valid() && CanFind(key)
      ensures val == if key in contents then contents[key] else NULL
    {
      var i := Lookup(key, hash(key));
      SlotFound(table[..], hash, key, i);
      val := if table[i].Live? then table[i].val else NULL;
      if !table[i].Live? {
        assert key !in contents;
      }
    }

    /** dict_del: the key is unbound, whether it was bound or not; `used` drops either way. */
    method Del(key: Key)
      requires Valid() && CanFind(key)
      modifies this, table
      ensures Valid() && table == old(table) && fill == old(fill)
      ensures contents == old(contents) - {key}
      ensures Stored(old(table[..]), table[..], hash(key), key, Dummy)
      ensures used == U32(old(used) - 1)
      ensures key in old(contents) && old(Counted()) ==> Counted()
    {
      hide DictTable.TableInv, DictTable.LiveSlots;
      var i := Lookup(key, hash(key));
      ghost var t := table[..];
      SlotFound(t, hash, key, i);
      EraseKeeps(t, hash, contents, key, i);
      WriteCounts(t, i, Dummy);
      assert key in contents ==> t[i].Live?;
      hide DictTable.Represents;
      assert t[i].Live? ==> UsedSlots(t[i := Dummy]) == UsedSlots(t);
      table[i] := Dummy;
      used := U32(used - 1);
      contents := contents - {key};
      assert table[..] == t[i := Dummy];
    }

    /** The write shared by dict_add and dict_add_p: bind `key` in the slot the lookup returns. */
    method Put(key: Key, val: Value)
      requires Valid() && CanFind(key)
      modifies this, table
      ensures Valid() && table == old(table)
      ensures contents == old(contents)[key := val]
      ensures used == U32(old(used) + 1) && fill == U32(old(fill) + 1)
      ensures old(Counted()) && old(fill) + 1 < WORD32 ==> Counted()
      ensures |UsedSlots(table[..])| <= old(|UsedSlots(table[..])|) + 1
      ensures |LiveSlots(table[..])| <= old(|LiveSlots(table[..])|) + 1
      ensures Stored(old(table[..]), table[..], hash(key), key, Live(key, val, hash(key)))
    {
      hide DictTable.TableInv, DictTable.LiveSlots, DictTable.UsedSlots, DictTable.Represents;
      var h := hash(key);
      var i := Lookup(key, h);
      ghost var t := table[..];
      PutKeeps(t, hash, contents, key, val, i);
      WriteCounts(t, i, Live(key, val, h));
      table[i] := Live(key, val, h);
      used, fill := U32(used + 1), U32(fill + 1);
      contents := contents[key := val];
      assert table[..] == t[i := Live(key, val, h)];
    }

    /** dict_add_p: during a rehash the table is so large that dict_resize is not entered again; at 2^31 slots, where
        twice the size is zero in 32 bits, it is entered and returns at once. */
    method AddP(key: Key, val: Value)
      requires Valid() && Counted() && used == fill && 3 * (fill + 1) < 2 * table.Length && fill + 1 < QUARTER
      modifies this, table
      ensures Valid() && Counted() && table == old(table)
      ensures contents == old(contents)[key := val]
      ensures used == fill == old(fill) + 1
      decreases WORD32 - table.Length, 1
    {
      RoomLeft(table[..]);
      Put(key, val);
      if Crowded(table.Length, fill) {
        Resize();
      }
    }

    /** dict_add */
    method Add(key: Key, val: Value)
      requires Valid() && CanFind(key) && AddEnds()
      modifies this, table
      ensures Valid() && (table == old(table) || (fresh(table) && Counted() && Roomy()))
      ensures contents == old(contents)[key := val]
      ensures old(Counted()) && old(fill) + 1 < WORD32 ==> Counted() && used <= old(used) + 1 && fill <= old(fill) + 1
      ensures old(Roomy()) ==> Roomy()
      ensures table == old(table) ==> |UsedSlots(table[..])| <= old(|UsedSlots(table[..])|) + 1
      ensures var n := old(table.Length);
        !Crowded(n, U32(old(fill) + 1)) || n > Wanted(n, U32(old(used) + 1)) ==>
          && table == old(table) && used == U32(old(used) + 1) && fill == U32(old(fill) + 1)
          && Stored(old(table[..]), table[..], hash(key), key, Live(key, val, hash(key)))
      ensures var n := old(table.Length);
        Crowded(n, U32(old(fill) + 1)) && n <= Wanted(n, U32(old(used) + 1)) ==> fresh(table)
    {
      hide DictTable.TableInv, DictTable.LiveSlots, DictTable.UsedSlots, DictTable.Represents;
      hide DictTable.Stored, Crowded, Wanted, U32, Valid, CanFind;
      RoomyNext();
      Put(key, val);
      if Crowded(table.Length, fill) {
        Resize();
      }
    }

    /** With correct counters and fewer than 2^30 keys, the next dict_add ends. */
    lemma FewEnd()
      requires Valid() && Counted() && used < table.Length && used + 1 < QUARTER
      ensures AddEnds()
    {
    }

    lemma RoomyNext()
      requires Valid()
      ensures Roomy() ==>
        && U32(fill + 1) == fill + 1
        && (!Crowded(table.Length, fill + 1) || table.Length > Wanted(table.Length, fill + 1) ==>
              3 * (fill + 1) < 2 * table.Length)
    {
      var k: nat :| table.Length == Pow2(k);
      if Roomy() {
        StaysRoomy(k, table.Length, fill);
      }
    }

    /** dict_resize: nothing happens while the size exceeds the wanted multiple of `used`;
        otherwise the bindings move to a larger table that they fill to less than two thirds. */
    method Resize()
      requires Valid() && ResizeEnds(|LiveSlots(table[..])|, used)
      modifies this
      ensures Valid() && contents == old(contents)
      ensures if old(table.Length) > Wanted(old(table.Length), old(used))
              then table == old(table) && used == old(used) && fill == old(fill)
              else fresh(table) && Counted() && Roomy() && table.Length > Wanted(old(table.Length), old(used))
                   && used == old(|LiveSlots(table[..])|)
      decreases WORD32 - table.Length, 0
    {
      hide DictTable.Chained, DictTable.Hashed, DictTable.Unique, DictTable.Represents,
           DictTable.LiveSlots, DictTable.UsedSlots;
      var size := table.Length;
      var newsize := GrownSize();
      if newsize == size {
        return;
      }
      var oldtable := table;
      ghost var t, m := oldtable[..], contents;
      ghost var k: nat :| newsize == Pow2(k);
      table := new Slot[newsize](_ => Empty);
      EmptyTable(table[..], k, hash);
      used, fill, contents := 0, 0, map[];
      LiveAreUsed(t);
      NothingYet(t);
      for i := 0 to size
        invariant fresh(table) && table.Length == newsize && oldtable[..] == t
        invariant Valid() && Counted() && Represents(t[..i], contents)
        invariant used == fill == |LiveSlots(t[..i])|
      {
        LivePrefix(t, i);
        PrefixRepresents(t, contents, i);
        if oldtable[i].Live? {
          AddP(oldtable[i].key, oldtable[i].val);
        }
      }
      assert t[..size] == t;
      SameContents(t, m, contents);
    }

    /** The doubling loop of dict_resize, where it ends. */
    method GrownSize() returns (newsize: nat)
      requires Sized(table[..]) && table.Length < WORD32 && Wanted(table.Length, used) < HALF
      ensures newsize > Wanted(table.Length, used) && newsize <= HALF
      ensures if table.Length > Wanted(table.Length, used) then newsize == table.Length
              else 2 * table.Length <= newsize <= 2 * Wanted(table.Length, used)
      ensures exists k: nat :: newsize == Pow2(k)
    {
      newsize := table.Length;
      ghost var k: nat :| newsize == Pow2(k);
      SizeBits(k);
      while newsize <= U32(Factor(table.Length) * used)
        invariant newsize == Pow2(k) && newsize <= HALF
        invariant newsize == table.Length || 2 * table.Length <= newsize <= 2 * Wanted(table.Length, used)
        decreases Wanted(table.Length, used) - newsize
      {
        SizeBits(k);
        newsize := U32(newsize * 2);
        k := k + 1;
      }
    }

    /** dict_enumerate: the next binding at or after `rank`, with the rank to go on from, or -1 at the end. */
    method Enumerate(rank: nat) returns (next: int, binding: Option<(Key, Value)>)
      ensures next == -1 <==> binding.None?
      ensures next == -1 ==> forall i :: rank <= i < table.Length ==> !table[i].Live?
      ensures next != -1 ==>
        && rank < next <= table.Length && table[next - 1].Live?
        && binding.value == (table[next - 1].key, table[next - 1].val)
        && forall i :: rank <= i < next - 1 ==> !table[i].Live?
    {
      var r := rank;
      while r < table.Length && !table[r].Live?
        invariant rank <= r
        invariant forall i :: rank <= i < r && i < table.Length ==> !table[i].Live?
      {
        r := r + 1;
      }
      if r >= table.Length {
        return -1, None;
      }
      return r + 1, Some((table[r].key, table[r].val));
    }

    /** Enumerating from rank 0 until the end, as dict_dump and dict_get_key_list do, yields every binding once. */
    method Listing() returns (bindings: seq<(Key, Value)>)
      requires Valid()
      ensures forall i, j :: 0 <= i < j < |bindings| ==> bindings[i].0 != bindings[j].0
      ensures forall b :: b in bindings <==> b.0 in contents && contents[b.0] == b.1
    {
      bindings := [];
      var rank := 0;
      while true
        invariant 0 <= rank <= table.Length
        invariant bindings == LiveBindings(table[..rank])
        decreases table.Length - rank
      {
        var next, binding := Enumerate(rank);
        if next < 0 {
          SkipBindings(table[..], rank, table.Length);
          break;
        }
        SkipBindings(table[..], rank, next - 1);
        assert table[..][..next][..next - 1] == table[..][..next - 1];
        bindings := bindings + [binding.value];
        rank := next;
      }
      assert table[..table.Length] == table[..];
      BindingsListed(table[..], contents);
    }
  }

  // ---------- the probe loop

  /** Before probe `n` the lookup has met no sure stop, and `freeslot` is the first tombstone it has met. */
  ghost predicate Passed(t: Table, h: Hash, key: Key, n: nat, freeslot: Option<nat>)
    requires |t| > 0
  {
    && (forall m: nat | m < n :: !Stops(t, h, key, m))
    && match freeslot
       case None => forall m: nat | m < n :: !At(t, h, m).Dummy?
       case Some(f) => exists m: nat :: m < n && FirstDummy(t, h, m) && f == Probe(h, |t|, m)
  }

  /** What probe `n` shows. */
  lemma Look(t: Table, hash: Key -> Hash, h: Hash, key: Key, n: nat, freeslot: Option<nat>)
    requires |t| > 0 && Hashed(t, hash) && h == hash(key) && (n > 0 ==> Passed(t, h, key, n, freeslot))
    requires n == 0 ==> freeslot.None?
    ensures var i := Probe(h, |t|, n); var s := t[i];
      && (s.Empty? ==> IsSlot(t, h, key, if freeslot.None? then i else freeslot.value))
      && (s.Live? && s.key == key ==> IsSlot(t, h, key, i))
      && (s.Live? && s.key == key ==> s.hash == h)
      && (s.Live? && s.key != key ==> Passed(t, h, key, n + 1, freeslot))
      && (s.Dummy? ==> Passed(t, h, key, n + 1, if freeslot.None? then Some(i) else freeslot))
  {
    hide DictProbe.Probe;
    assert Passed(t, h, key, n, freeslot);
    var i := Probe(h, |t|, n);
    assert At(t, h, n) == t[i];
    if t[i].Empty? {
      assert FirstStop(t, h, key, n);
      assert Returns(t, h, key, n, if freeslot.None? then i else freeslot.value);
    } else if t[i].Live? && t[i].key == key {
      assert FirstStop(t, h, key, n);
      assert Returns(t, h, key, n, i);
    } else if t[i].Dummy? && freeslot.None? {
      assert FirstDummy(t, h, n);
    }
  }

  lemma NotYet(t: Table, h: Hash, key: Key, n: nat, freeslot: Option<nat>, stop: nat)
    requires |t| > 0 && Passed(t, h, key, n, freeslot) && Stops(t, h, key, stop)
    ensures n <= stop
  {
  }

  /** dict_lookup on the table alone. */
  method ProbeLoop(table: array<Slot>, key: Key, h: Hash, ghost hash: Key -> Hash, ghost k: nat, ghost stop: nat)
    returns (i: nat)
    requires table.Length == Pow2(k) && k <= 31 && Hashed(table[..], hash) && h == hash(key)
    requires Stops(table[..], h, key, stop)
    ensures IsSlot(table[..], h, key, i) && i < table.Length
  {
    hide DictTable.IsSlot, DictTable.Stops, DictTable.Hashed, DictProbe.Probe, DictProbe.Perturb, U32, Pow2, Passed;
    ghost var t := table[..];
    FirstProbes(h, |t|);
    i := h % table.Length;
    Look(t, hash, h, key, 0, None);
    if table[i].Empty? {
      return;
    }
    var freeslot: Option<nat> := None;
    if table[i].Dummy? {
      freeslot := Some(i);
    } else if table[i].hash == h && table[i].key == key {
      return;
    }
    var perturb: nat := h;
    ghost var n: nat := 0;
    while true
      invariant n <= stop && i == Probe(h, |t|, n) && perturb == Perturb(h, n)
      invariant Passed(t, h, key, n + 1, freeslot) && (freeslot.Some? ==> freeslot.value < |t|)
      decreases stop - n
    {
      NextProbe(h, |t|, k, n);
      NotYet(t, h, key, n + 1, freeslot, stop);
      i := U32(5 * i + perturb + 1) % table.Length;
      n := n + 1;
      Look(t, hash, h, key, n, freeslot);
      if table[i].Empty? {
        i := if freeslot.None? then i else freeslot.value;
        return;
      }
      if table[i].Live? && table[i].hash == h && table[i].key == key {
        return;
      }
      if table[i].Dummy? && freeslot.None? {
        freeslot := Some(i);
      }
      perturb := perturb / PERTURB_SHIFT_FACTOR;
    }
  }

  // ---------- probing in 32 bits

  lemma FirstProbes(h: Hash, size: nat)
    requires size > 0
    ensures Probe(h, size, 0) == h % size && Perturb(h, 0) == h
  {
  }

  lemma NextProbe(h: Hash, size: nat, k: nat, n: nat)
    requires size == Pow2(k) && k <= 31
    ensures U32(5 * Probe(h, size, n) + Perturb(h, n) + 1) % size == Probe(h, size, n + 1)
    ensures Perturb(h, n) / PERTURB_SHIFT_FACTOR == Perturb(h, n + 1)
  {
    hide U32;
    WrapMod(5 * Probe(h, size, n) + Perturb(h, n) + 1, k);
  }

  // ---------- rehashing

  lemma NothingYet(t: Table)
    ensures Represents(t[..0], map[]) && LiveSlots(t[..0]) == {}
  {
  }

  lemma LivePrefix(t: Table, i: nat)
    requires i < |t|
    ensures |LiveSlots(t[..i + 1])| == |LiveSlots(t[..i])| + (if t[i].Live? then 1 else 0)
    ensures |LiveSlots(t[..i + 1])| <= |LiveSlots(t)|
  {
    if t[i].Live? {
      assert LiveSlots(t[..i + 1]) == LiveSlots(t[..i]) + {i};
    } else {
      assert LiveSlots(t[..i + 1]) == LiveSlots(t[..i]);
    }
    SubsetSize(LiveSlots(t[..i + 1]), LiveSlots(t));
  }

  lemma PrefixRepresents(t: Table, m: map<Key, Value>, i: nat)
    requires i < |t| && Unique(t) && Represents(t[..i], m)
    ensures t[i].Live? ==> Represents(t[..i + 1], m[t[i].key := t[i].val])
    ensures !t[i].Live? ==> Represents(t[..i + 1], m)
  {
    var t0, t1 := t[..i], t[..i + 1];
    forall key | key in m ensures HasKey(t1, key) {
      var j :| 0 <= j < |t0| && t0[j].Live? && t0[j].key == key;
      assert t1[j] == t0[j];
    }
    assert forall j :: 0 <= j < i ==> t1[j] == t0[j];
    if t[i].Live? {
      assert t1[i].key == t[i].key;
    }
  }

  lemma SameContents(t: Table, m: map<Key, Value>, m': map<Key, Value>)
    requires Unique(t) && Represents(t, m) && Represents(t, m')
    ensures m == m'
  {
    forall key | key in m ensures key in m' && m'[key] == m[key] {
      var j :| 0 <= j < |t| && t[j].Live? && t[j].key == key;
    }
    forall key | key in m' ensures key in m {
      var j :| 0 <= j < |t| && t[j].Live? && t[j].key == key;
    }
  }

  // ---------- enumeration

  function LiveBindings(t: Table): seq<(Key, Value)> {
    if t == [] then []
    else
      var s := t[|t| - 1];
      LiveBindings(t[..|t| - 1]) + (if s.Live? then [(s.key, s.val)] else [])
  }

  lemma {:induction false} SkipBindings(t: Table, a: nat, b: nat)
    requires a <= b <= |t| && forall i :: a <= i < b ==> !t[i].Live?
    ensures LiveBindings(t[..b]) == LiveBindings(t[..a])
  {
    if a < b {
      SkipBindings(t, a, b - 1);
      assert t[..b][..b - 1] == t[..b - 1];
    }
  }

  lemma {:induction false} BindingsMember(t: Table, b: (Key, Value))
    ensures b in LiveBindings(t) <==> exists i :: 0 <= i < |t| && t[i].Live? && t[i].key == b.0 && t[i].val == b.1
  {
    if t != [] {
      var t0 := t[..|t| - 1];
      BindingsMember(t0, b);
      assert forall i :: 0 <= i < |t0| ==> t0[i] == t[i];
    }
  }

  lemma {:induction false} BindingsDistinct(t: Table)
    requires Unique(t)
    ensures forall i, j :: 0 <= i < j < |LiveBindings(t)| ==> LiveBindings(t)[i].0 != LiveBindings(t)[j].0
  {
    if t != [] {
      var t0, s := t[..|t| - 1], t[|t| - 1];
      BindingsDistinct(t0);
      forall b | b in LiveBindings(t0) && s.Live? ensures b.0 != s.key {
        BindingsMember(t0, b);
      }
    }
  }

  lemma BindingsListed(t: Table, m: map<Key, Value>)
    requires Unique(t) && Represents(t, m)
    ensures forall b :: b in LiveBindings(t) <==> b.0 in m && m[b.0] == b.1
    ensures forall i, j :: 0 <= i < j < |LiveBindings(t)| ==> LiveBindings(t)[i].0 != LiveBindings(t)[j].0
  {
    BindingsDistinct(t);
    forall b ensures b in LiveBindings(t) <==> b.0 in m && m[b.0] == b.1 {
      BindingsMember(t, b);
      if b.0 in m && m[b.0] == b.1 {
        var i :| 0 <= i < |t| && t[i].Live? && t[i].key == b.0;
      }
    }
  }

  // ---------- whole runs

  ghost function Bound(m: map<Key, Value>, pairs: seq<(Key, Value)>): map<Key, Value> {
    if pairs == [] then m
    else Bound(m, pairs[..|pairs| - 1])[pairs[|pairs| - 1].0 := pairs[|pairs| - 1].1]
  }

  /** Any run of dict_new followed by fewer than 2^30 additions, overwrites included: every lookup ends, the fill stays
      below two thirds of a power-of-two size, and the last value added for each key is the one stored. */
  method AddOnlyRun(h: Key -> Hash, pairs: seq<(Key, Value)>) returns (d: Dictionary)
    requires |pairs| < QUARTER
    ensures fresh(d) && d.Valid() && d.Counted() && d.Roomy() && HasEmpty(d.table[..])
    ensures d.contents == Bound(map[], pairs) && d.used <= |pairs|
  {
    hide DictTable.TableInv, DictTable.LiveSlots, DictTable.UsedSlots, DictTable.Represents;
    d := new Dictionary(h);
    RoomLeft(d.table[..]);
    for i := 0 to |pairs|
      invariant fresh(d) && fresh(d.table) && d.Valid() && d.Counted() && d.Roomy() && HasEmpty(d.table[..])
      invariant d.contents == Bound(map[], pairs[..i]) && d.used <= i
    {
      d.FewEnd();
      d.Add(pairs[i].0, pairs[i].1);
      RoomLeft(d.table[..]);
      assert pairs[..i + 1][..i] == pairs[..i];
    }
    assert pairs[..|pairs|] == pairs;
  }

  /** The bound on the number of additions is exact for distinct keys: after 2^30 - 1 of them the table has 2^31 slots,
      so that every addition calls dict_resize, and the doubling loop of the next one never ends. */
  lemma LastAddition(d: Dictionary)
    requires d.Valid() && d.Counted() && d.Roomy() && |d.contents| == QUARTER - 1 && d.used <= QUARTER - 1
    ensures d.table.Length == HALF && Crowded(HALF, U32(d.fill + 1))
    ensures forall n: nat :: Doubled(HALF, n) <= Wanted(HALF, U32(d.used + 1))
  {
    KeysLive(d.table[..], d.contents);
    var k: nat :| d.table.Length == Pow2(k);
    SizeBits(k);
    Halves();
    DoublingEnds(31, HALF);
  }

  lemma KeysLive(t: Table, m: map<Key, Value>)
    requires Represents(t, m)
    ensures |m| <= |LiveSlots(t)|
  {
    var slots := LiveSlots(t);
    var keys := set i | i in slots :: t[i].key;
    assert forall key | key in m :: exists i :: i in slots && t[i].key == key;
    assert m.Keys <= keys;
    Image(slots, t);
    Subset(m.Keys, keys);
    assert |m| == |m.Keys|;
  }

  lemma Subset(a: set<Key>, b: set<Key>)
    requires a <= b
    ensures |a| <= |b|
  {
    assert b == a + (b - a);
  }

  lemma {:induction false} Image(slots: set<nat>, t: Table)
    requires forall i | i in slots :: i < |t| && t[i].Live?
    ensures |set i | i in slots :: t[i].key| <= |slots|
    decreases |slots|
  {
    if slots != {} {
      var i :| i in slots;
      var rest := slots - {i};
      Image(rest, t);
      var keys := set j | j in rest :: t[j].key;
      assert (set j | j in slots :: t[j].key) == keys + {t[i].key};
    }
  }

  datatype Call = AddCall(key: Key, val: Value) | DelCall(key: Key)

  ghost function Applied(m: map<Key, Value>, calls: seq<Call>): map<Key, Value> {
    if calls == [] then m else Effect(Applied(m, calls[..|calls| - 1]), calls[|calls| - 1])
  }

  function Effect(m: map<Key, Value>, c: Call): map<Key, Value> {
    match c
    case AddCall(key, val) => m[key := val]
    case DelCall(key) => m - {key}
  }

  /** Any run of fewer than 2^30 additions, overwrites and deletions of keys that are there: it goes on as long as the
      next call finds its key or a slot without a key, every resize on the way ends, and the contents are what the calls
      done so far amount to. Where the run stops, the lookup of the next call never ends. */
  method MixedRun(h: Key -> Hash, calls: seq<Call>) returns (d: Dictionary, done: nat)
    requires |calls| < QUARTER
    requires forall i | 0 <= i < |calls| :: calls[i].DelCall? ==> calls[i].key in Applied(map[], calls[..i])
    ensures fresh(d) && d.hash == h && d.Valid() && d.Counted() && done <= |calls|
    ensures d.contents == Applied(map[], calls[..done])
    ensures done < |calls| ==>
      var key := calls[done].key;
      d.table.Length > 0 && forall n: nat :: !Stops(d.table[..], h(key), key, n)
  {
    hide DictTable.TableInv, DictTable.LiveSlots, DictTable.UsedSlots, DictTable.Represents, DictTable.HasEmpty;
    hide DictTable.HasKey, DictTable.Stored, DictTable.Stops, Crowded, Wanted, U32;
    d := new Dictionary(h);
    done := 0;
    while done < |calls|
      invariant fresh(d) && fresh(d.table) && d.hash == h && d.Valid() && d.Counted() && done <= |calls|
      invariant d.contents == Applied(map[], calls[..done]) && d.used < d.table.Length && d.fill <= done
      decreases |calls| - done
    {
      assert calls[..done + 1][..done] == calls[..done];
      var found := Reachable(d, calls[done].key);
      if !found {
        NeverStops(d, calls[done].key);
        break;
      }
      RunCall(d, calls[done]);
      done := done + 1;
    }
  }

  method RunCall(d: Dictionary, c: Call)
    requires d.Valid() && d.Counted() && d.used < d.table.Length && d.fill + 1 < QUARTER && d.CanFind(c.key)
    requires c.DelCall? ==> c.key in d.contents
    modifies d, d.table
    ensures d.Valid() && d.Counted() && d.used < d.table.Length && d.fill <= old(d.fill) + 1
    ensures d.contents == Effect(old(d.contents), c) && (d.table == old(d.table) || fresh(d.table))
  {
    hide DictTable.TableInv, DictTable.LiveSlots, DictTable.UsedSlots, DictTable.Represents, DictTable.HasEmpty;
    hide DictTable.HasKey, DictTable.Stored, Crowded, Wanted, U32;
    match c {
      case AddCall(key, val) =>
        d.FewEnd();
        BelowNext(d.table.Length, d.used, d.fill);
        d.Add(key, val);
      case DelCall(key) =>
        SomeLive(d.table[..], d.contents, key);
        d.Del(key);
    }
  }

  /** Whether a lookup of `key` ends. */
  method Reachable(d: Dictionary, key: Key) returns (found: bool)
    ensures found == d.CanFind(key)
  {
    for i := 0 to d.table.Length
      invariant forall j | 0 <= j < i :: !d.table[j].Empty? && !(d.table[j].Live? && d.table[j].key == key)
    {
      if d.table[i].Empty? || (d.table[i].Live? && d.table[i].key == key) {
        return true;
      }
    }
    return false;
  }

  lemma NeverStops(d: Dictionary, key: Key)
    requires d.Valid() && !d.CanFind(key)
    ensures d.table.Length > 0 && forall n: nat :: !Stops(d.table[..], d.hash(key), key, n)
  {
    var k: nat :| d.table.Length == Pow2(k);
    SizeBits(k);
    LookupEnds(d.table[..], k, d.hash(key), key);
  }

  /** One more key and the table still has more slots than keys counted, unless it grows. */
  lemma BelowNext(size: nat, used: nat, fill: nat)
    requires used < size && used <= fill && fill + 1 < QUARTER
    ensures !Crowded(size, U32(fill + 1)) || size > Wanted(size, U32(used + 1)) ==> U32(used + 1) == used + 1 < size
  {
  }

  lemma SomeLive(t: Table, m: map<Key, Value>, key: Key)
    requires Represents(t, m) && key in m
    ensures |LiveSlots(t)| > 0
  {
    var i :| 0 <= i < |t| && t[i].Live? && t[i].key == key;
    assert i in LiveSlots(t);
  }

  /** With deletions the unused slots can run out: adding and deleting 64 keys that start at different slots leaves an
      empty dictionary in which a lookup of any key never ends. */
  method TombstonesExhaust(h: Key -> Hash, keys: seq<Key>) returns (d: Dictionary)
    requires |keys| == DICT_MIN_SZ && forall i :: 0 <= i < DICT_MIN_SZ ==> h(keys[i]) % DICT_MIN_SZ == i
    ensures d.Valid() && d.contents == map[]
    ensures d.table.Length > 0 && forall key, n: nat :: !Stops(d.table[..], h(key), key, n)
  {
    d := new Dictionary(h);
    for i := 0 to DICT_MIN_SZ
      invariant fresh(d) && fresh(d.table) && d.hash == h && d.table.Length == DICT_MIN_SZ
      invariant d.Valid() && d.Counted() && d.contents == map[] && d.used == 0 && d.fill == i
      invariant forall j :: 0 <= j < DICT_MIN_SZ ==> if j < i then d.table[j].Dummy? else d.table[j].Empty?
    {
      AddDelete(d, keys[i], i);
    }
  }

  /** Deleting a key that is not there decrements `used` below zero: after 44 such deletions and 42 additions the next
      addition finds its slot, enters dict_resize and never comes back, with 64 slots and one key. */
  method DeletionsHang(h: Key -> Hash, absent: Key, key: Key, val: Value) returns (d: Dictionary)
    requires absent != key
    ensures d.Valid() && d.CanFind(key) && d.contents == map[key := val]
    ensures d.table.Length == DICT_MIN_SZ && Crowded(DICT_MIN_SZ, U32(d.fill + 1))
    ensures forall n: nat :: Doubled(DICT_MIN_SZ, n) <= Wanted(DICT_MIN_SZ, U32(d.used + 1))
  {
    d := new Dictionary(h);
    RoomLeft(d.table[..]);
    DelMany(d, absent);
    AddMany(d, key, val);
    assert Pow2(6) == DICT_MIN_SZ;
    DoublingEnds(6, Wanted(DICT_MIN_SZ, U32(d.used + 1)));
  }

  method DelMany(d: Dictionary, absent: Key)
    requires d.Valid() && d.contents == map[] && d.table.Length == DICT_MIN_SZ && UsedSlots(d.table[..]) == {}
    requires d.used == d.fill == 0 && HasEmpty(d.table[..])
    modifies d, d.table
    ensures d.Valid() && d.contents == map[] && d.table == old(d.table) && d.fill == 0 && d.used == U32(-44)
    ensures |UsedSlots(d.table[..])| <= 1 && HasEmpty(d.table[..])
  {
    hide DictTable.TableInv, DictTable.Represents, DictTable.UsedSlots;
    for i := 0 to 44
      invariant d.Valid() && d.contents == map[] && d.table == old(d.table) && HasEmpty(d.table[..])
      invariant d.used == U32(-i) && d.fill == 0 && |UsedSlots(d.table[..])| <= 1
      invariant d.table[d.hash(absent) % DICT_MIN_SZ].Dummy? || UsedSlots(d.table[..]) == {}
    {
      DelAbsent(d, absent);
    }
  }

  method AddMany(d: Dictionary, key: Key, val: Value)
    requires d.Valid() && d.contents == map[] && d.table.Length == DICT_MIN_SZ && d.used == U32(-44) && d.fill == 0
    requires |UsedSlots(d.table[..])| <= 1 && HasEmpty(d.table[..])
    modifies d, d.table
    ensures d.Valid() && d.contents == map[key := val] && d.table == old(d.table) && d.used == U32(-2) && d.fill == 42
    ensures HasEmpty(d.table[..])
  {
    hide DictTable.TableInv, DictTable.Represents, DictTable.UsedSlots, DictTable.LiveSlots, DictTable.Stored;
    for i := 0 to 42
      invariant d.Valid() && d.table == old(d.table) && HasEmpty(d.table[..])
      invariant d.contents == if i == 0 then map[] else map[key := val]
      invariant d.used == U32(i - 44) && d.fill == i && |UsedSlots(d.table[..])| <= 1 + i
    {
      d.Add(key, val);
      RoomLeft(d.table[..]);
    }
  }

  /** Deleting the same absent key again hits its own tombstone. */
  method DelAbsent(d: Dictionary, absent: Key)
    requires d.Valid() && d.contents == map[] && d.table.Length == DICT_MIN_SZ && |UsedSlots(d.table[..])| <= 1
    requires d.table[d.hash(absent) % DICT_MIN_SZ].Dummy? || UsedSlots(d.table[..]) == {}
    modifies d, d.table
    ensures d.Valid() && d.contents == map[] && d.table == old(d.table) && d.fill == old(d.fill)
    ensures d.used == U32(old(d.used) - 1) && |UsedSlots(d.table[..])| <= 1 && HasEmpty(d.table[..])
    ensures d.table[d.hash(absent) % DICT_MIN_SZ].Dummy?
  {
    ghost var t := d.table[..];
    ghost var i := d.hash(absent) % DICT_MIN_SZ;
    RoomLeft(t);
    assert i !in UsedSlots(t) ==> t[i].Empty?;
    FirstFree(t, d.hash(absent), absent, i);
    assert !HasKey(t, absent);
    d.Del(absent);
    assert d.table[..] == t[i := Dummy];
    OneTombstone(t, i);
    RoomLeft(d.table[..]);
  }

  lemma OneTombstone(t: Table, i: nat)
    requires i < |t| && |UsedSlots(t)| <= 1 && (t[i].Dummy? || UsedSlots(t) == {})
    ensures |UsedSlots(t[i := Dummy])| <= 1
  {
    if t[i].Dummy? {
      assert t[i := Dummy] == t;
    } else {
      assert UsedSlots(t[i := Dummy]) == {i};
    }
  }

  /** When the first probe is free and the key is absent, that is the slot returned. */
  lemma FirstFree(t: Table, hash: Hash, key: Key, i: nat)
    requires |t| > 0 && hash % |t| == i && !t[i].Live? && !HasKey(t, key)
    ensures forall j :: IsSlot(t, hash, key, j) ==> j == i
  {
    assert Probe(hash, |t|, 0) == i;
    forall j: nat, n: nat | Returns(t, hash, key, n, j)
      ensures j == i
    {
      if t[i].Empty? {
        assert Stops(t, hash, key, 0);
        assert n == 0;
      } else {
        assert FirstDummy(t, hash, 0);
        assert !At(t, hash, n).Live?;
        assert n > 0 && At(t, hash, 0).Dummy?;
      }
    }
  }

  /** One addition and deletion of a key whose first probe is an unused slot. */
  method AddDelete(d: Dictionary, key: Key, i: nat)
    requires d.Valid() && d.Counted() && d.contents == map[] && d.used == 0
    requires d.table.Length == DICT_MIN_SZ && d.fill < DICT_MIN_SZ && i < DICT_MIN_SZ
      && d.hash(key) % DICT_MIN_SZ == i && d.table[i].Empty?
    modifies d, d.table
    ensures d.Valid() && d.Counted() && d.contents == map[] && d.used == 0 && d.fill == old(d.fill) + 1
    ensures d.table == old(d.table) && d.table[..] == old(d.table[..])[i := Dummy]
  {
    ghost var t := d.table[..];
    FirstProbe(t, d.hash(key), key, i);
    d.Add(key, 1);
    ghost var t1 := d.table[..];
    assert t1 == t[i := Live(key, 1, d.hash(key))];
    FirstProbe(t1, d.hash(key), key, i);
    assert HasKey(t1, key);
    d.Del(key);
    assert d.contents == map[];
  }

  /** When the first probe already stops, that is the slot returned. */
  lemma FirstProbe(t: Table, hash: Hash, key: Key, i: nat)
    requires |t| > 0 && hash % |t| == i && (t[i].Empty? || (t[i].Live? && t[i].key == key))
    ensures forall j :: IsSlot(t, hash, key, j) <==> j == i
  {
    assert Probe(hash, |t|, 0) == i;
    assert Returns(t, hash, key, 0, i);
    forall j: nat, n: nat | Returns(t, hash, key, n, j) ensures j == i {
      assert Stops(t, hash, key, 0);
      assert n == 0;
    }
  }

  lemma EmptyTable(t: Table, k: nat, h: Key -> Hash)
    requires |t| == Pow2(k) && forall i :: 0 <= i < |t| ==> t[i].Empty?
    ensures TableInv(t, h) && Represents(t, map[]) && UsedSlots(t) == {} && LiveSlots(t) == {}
  {
  }
}
