/** The open-addressing table of the dictionary as a value: what a lookup finds and what a write keeps. */
module DictTable {
  import opened Arithmetic
  import opened DictProbe

  type Key = string

  /** Values are stored as pointers; 0 is NULL. */
  type Value = nat

  const NULL: Value := 0

  /** A slot never used, one whose key was deleted (DUMMY_PTR), or one that holds a binding. */
  datatype Slot = Empty | Dummy | Live(key: Key, val: Value, hash: Hash)

  type Table = seq<Slot>

  /** The slot seen by the n-th probe for `hash`. */
  function At(t: Table, hash: Hash, n: nat): Slot
    requires |t| > 0
  {
    t[Probe(hash, |t|, n)]
  }

  /** Where dict_lookup stops for sure: a slot never used, or the key itself. */
  predicate Stops(t: Table, hash: Hash, key: Key, n: nat)
    requires |t| > 0
  {
    var s := At(t, hash, n);
    s.Empty? || (s.Live? && s.key == key)
  }

  ghost predicate FirstStop(t: Table, hash: Hash, key: Key, n: nat)
    requires |t| > 0
  {
    Stops(t, hash, key, n) && forall m: nat :: m < n ==> !Stops(t, hash, key, m)
  }

  ghost predicate FirstDummy(t: Table, hash: Hash, n: nat)
    requires |t| > 0
  {
    At(t, hash, n).Dummy? && forall m: nat :: m < n ==> !At(t, hash, m).Dummy?
  }

  ghost predicate HasEmpty(t: Table) { exists i :: 0 <= i < |t| && t[i].Empty? }

  ghost predicate HasKey(t: Table, key: Key) { exists i :: 0 <= i < |t| && t[i].Live? && t[i].key == key }

  /** `i` is the slot that dict_lookup returns when its first sure stop is probe `n`:
      the key's slot, else the first tombstone on the way, else the unused slot. */
  ghost predicate Returns(t: Table, hash: Hash, key: Key, n: nat, i: nat)
    requires |t| > 0
  {
    && FirstStop(t, hash, key, n)
    && if At(t, hash, n).Live? || (forall m: nat :: m < n ==> !At(t, hash, m).Dummy?)
       then i == Probe(hash, |t|, n)
       else exists m: nat :: m < n && FirstDummy(t, hash, m) && i == Probe(hash, |t|, m)
  }

  /** The slot that dict_lookup returns. */
  ghost predicate IsSlot(t: Table, hash: Hash, key: Key, i: nat) {
    |t| > 0 && exists n: nat :: Returns(t, hash, key, n, i)
  }

  /** `t'` is `t` with `s` in the slot that dict_lookup returns. */
  ghost predicate Stored(t: Table, t': Table, hash: Hash, key: Key, s: Slot) {
    exists i :: 0 <= i < |t| && IsSlot(t, hash, key, i) && t' == t[i := s]
  }

  // ---------- termination of the lookup

  /** The probe loop ends if and only if some slot was never used or the key is in the table;
      it then ends within 7 + size probes. */
  lemma LookupEnds(t: Table, k: nat, hash: Hash, key: Key)
    requires |t| == Pow2(k)
    ensures (exists n: nat :: Stops(t, hash, key, n)) <==> HasEmpty(t) || HasKey(t, key)
    ensures HasEmpty(t) || HasKey(t, key) ==> exists n: nat :: n < 7 + |t| && Stops(t, hash, key, n)
  {
    if HasEmpty(t) || HasKey(t, key) {
      var i :| 0 <= i < |t| && (t[i].Empty? || (t[i].Live? && t[i].key == key));
      var n := ProbeCovers(hash, k, 7, i);
      assert Stops(t, hash, key, n);
    }
    if n: nat :| Stops(t, hash, key, n) {
      var i := Probe(hash, |t|, n);
      assert t[i].Empty? || (t[i].Live? && t[i].key == key);
    }
  }

  // ---------- the table invariant

  ghost predicate Unique(t: Table) {
    forall i, j :: 0 <= i < j < |t| && t[i].Live? && t[j].Live? ==> t[i].key != t[j].key
  }

  /** Probing for the key of slot `i` gets to `i` by probe `n` without meeting an unused slot. */
  ghost predicate ReachedBy(t: Table, i: nat, n: nat)
    requires i < |t| && t[i].Live?
  {
    && Probe(t[i].hash, |t|, n) == i
    && forall m: nat :: m < n ==> !At(t, t[i].hash, m).Empty?
  }

  ghost predicate Reached(t: Table, i: nat)
    requires i < |t| && t[i].Live?
  {
    exists n: nat :: ReachedBy(t, i, n)
  }

  ghost predicate Hashed(t: Table, h: Key -> Hash) {
    forall i :: 0 <= i < |t| && t[i].Live? ==> t[i].hash == h(t[i].key)
  }

  ghost predicate Chained(t: Table) {
    forall i :: 0 <= i < |t| && t[i].Live? ==> Reached(t, i)
  }

  ghost predicate Sized(t: Table) { exists k: nat :: |t| == Pow2(k) }

  ghost predicate TableInv(t: Table, h: Key -> Hash) {
    Sized(t) && Hashed(t, h) && Unique(t) && Chained(t)
  }

  /** The table represents the finite map `m`. */
  ghost predicate Represents(t: Table, m: map<Key, Value>) {
    && (forall i :: 0 <= i < |t| && t[i].Live? ==> t[i].key in m && m[t[i].key] == t[i].val)
    && (forall key :: key in m ==> HasKey(t, key))
  }

  /** A lookup returns the key's own slot when the key is there, and a free one when it is not. */
  lemma SlotFound(t: Table, h: Key -> Hash, key: Key, i: nat)
    requires TableInv(t, h) && IsSlot(t, h(key), key, i)
    ensures i < |t|
    ensures if HasKey(t, key) then t[i].Live? && t[i].key == key else !t[i].Live?
  {
    var n: nat :| Returns(t, h(key), key, n, i);
    if HasKey(t, key) {
      var j: nat :| j < |t| && t[j].Live? && t[j].key == key;
      assert Reached(t, j);
      var l: nat :| ReachedBy(t, j, l);
      assert Stops(t, h(key), key, l);
      assert n <= l;
      assert At(t, h(key), n).Live?;
    }
  }

  /** Every slot on the way to the returned one has been used. */
  lemma SlotChain(t: Table, hash: Hash, key: Key, i: nat) returns (l: nat)
    requires IsSlot(t, hash, key, i)
    ensures Probe(hash, |t|, l) == i && forall m: nat :: m < l ==> !At(t, hash, m).Empty?
  {
    var n: nat :| Returns(t, hash, key, n, i);
    if At(t, hash, n).Live? || (forall m: nat :: m < n ==> !At(t, hash, m).Dummy?) {
      l := n;
    } else {
      l :| l < n && FirstDummy(t, hash, l) && i == Probe(hash, |t|, l);
    }
    forall m: nat | m < l ensures !At(t, hash, m).Empty? {
      assert !Stops(t, hash, key, m);
    }
  }

  /** Filling a slot, or turning it into a tombstone, keeps every other chain intact. */
  lemma WriteKeepsChain(t: Table, i: nat, s: Slot, j: nat)
    requires i < |t| && j < |t| && i != j && !s.Empty? && t[j].Live? && Reached(t, j)
    ensures Reached(t[i := s], j)
  {
    var n: nat :| ReachedBy(t, j, n);
    var t' := t[i := s];
    forall m: nat | m < n ensures !At(t', t'[j].hash, m).Empty? {
      assert !At(t, t[j].hash, m).Empty?;
    }
    assert ReachedBy(t', j, n);
  }

  /** Writing a binding into the slot that the lookup returned binds exactly that key. */
  lemma PutKeeps(t: Table, h: Key -> Hash, m: map<Key, Value>, key: Key, val: Value, i: nat)
    requires TableInv(t, h) && Represents(t, m) && IsSlot(t, h(key), key, i)
    ensures i < |t|
    ensures TableInv(t[i := Live(key, val, h(key))], h)
    ensures Represents(t[i := Live(key, val, h(key))], m[key := val])
  {
    SlotFound(t, h, key, i);
    var t' := t[i := Live(key, val, h(key))];
    PutUnique(t, key, val, h(key), i);
    PutChained(t, key, val, h(key), i);
    PutRepresents(t, m, key, val, h(key), i);
    var k: nat :| |t| == Pow2(k);
    assert |t'| == Pow2(k);
  }

  lemma KeyAt(t: Table, j: nat)
    requires j < |t| && t[j].Live?
    ensures HasKey(t, t[j].key)
  {
  }

  lemma PutUnique(t: Table, key: Key, val: Value, hash: Hash, i: nat)
    requires Unique(t) && i < |t|
    requires if HasKey(t, key) then t[i].Live? && t[i].key == key else !t[i].Live?
    ensures Unique(t[i := Live(key, val, hash)])
  {
    var t' := t[i := Live(key, val, hash)];
    forall a, b | 0 <= a < b < |t'| && t'[a].Live? && t'[b].Live? ensures t'[a].key != t'[b].key {
      if a != i { KeyAt(t, a); }
      if b != i { KeyAt(t, b); }
    }
  }

  lemma PutChained(t: Table, key: Key, val: Value, hash: Hash, i: nat)
    requires Chained(t) && i < |t| && IsSlot(t, hash, key, i)
    ensures Chained(t[i := Live(key, val, hash)])
  {
    var t' := t[i := Live(key, val, hash)];
    forall j | 0 <= j < |t'| && t'[j].Live? ensures Reached(t', j) {
      if j == i {
        var l := SlotChain(t, hash, key, i);
        forall m: nat | m < l ensures !At(t', hash, m).Empty? {
          assert !At(t, hash, m).Empty?;
        }
        assert ReachedBy(t', i, l);
      } else {
        WriteKeepsChain(t, i, Live(key, val, hash), j);
      }
    }
  }

  lemma PutRepresents(t: Table, m: map<Key, Value>, key: Key, val: Value, hash: Hash, i: nat)
    requires Unique(t) && Represents(t, m) && i < |t|
    requires if HasKey(t, key) then t[i].Live? && t[i].key == key else !t[i].Live?
    ensures Represents(t[i := Live(key, val, hash)], m[key := val])
  {
    var t' := t[i := Live(key, val, hash)];
    forall j | 0 <= j < |t'| && t'[j].Live?
      ensures t'[j].key in m[key := val] && m[key := val][t'[j].key] == t'[j].val
    {
      if j != i { KeyAt(t, j); }
    }
    forall x | x in m[key := val] ensures HasKey(t', x) {
      if x == key {
        assert t'[i].key == x;
      } else {
        var j :| 0 <= j < |t| && t[j].Live? && t[j].key == x;
        assert t'[j].key == x;
      }
    }
  }

  /** A tombstone in the slot that the lookup returned unbinds exactly that key, present or not. */
  lemma EraseKeeps(t: Table, h: Key -> Hash, m: map<Key, Value>, key: Key, i: nat)
    requires TableInv(t, h) && Represents(t, m) && IsSlot(t, h(key), key, i)
    ensures i < |t| && TableInv(t[i := Dummy], h) && Represents(t[i := Dummy], m - {key})
  {
    SlotFound(t, h, key, i);
    var t' := t[i := Dummy];
    forall j | 0 <= j < |t'| && t'[j].Live? ensures Reached(t', j) {
      WriteKeepsChain(t, i, Dummy, j);
    }
    EraseRepresents(t, m, key, i);
    var k: nat :| |t| == Pow2(k);
    assert |t'| == Pow2(k);
  }

  lemma EraseRepresents(t: Table, m: map<Key, Value>, key: Key, i: nat)
    requires Unique(t) && Represents(t, m) && i < |t|
    requires if HasKey(t, key) then t[i].Live? && t[i].key == key else !t[i].Live?
    ensures Represents(t[i := Dummy], m - {key})
  {
    var t' := t[i := Dummy];
    forall j | 0 <= j < |t'| && t'[j].Live? ensures t'[j].key in m - {key} {
      KeyAt(t, j);
    }
    forall x | x in m - {key} ensures HasKey(t', x) {
      var j :| 0 <= j < |t| && t[j].Live? && t[j].key == x;
      assert t'[j].key == x;
    }
  }

  // ---------- counting

  ghost function UsedSlots(t: Table): set<int> { set i | 0 <= i < |t| && !t[i].Empty? }

  ghost function LiveSlots(t: Table): set<int> { set i | 0 <= i < |t| && t[i].Live? }

  function Below(n: nat): (r: set<int>)
    ensures forall i :: i in r <==> 0 <= i < n
    ensures |r| == n
  {
    if n == 0 then {} else Below(n - 1) + {n - 1}
  }

  lemma SubsetSize(a: set<int>, b: set<int>)
    requires a <= b
    ensures |a| <= |b| && (|a| == |b| ==> a == b)
  {
    assert b == a + (b - a);
    if |a| == |b| {
      assert |b - a| == 0;
    }
  }

  /** As long as fewer slots than all have been used, an unused one is left. */
  lemma RoomLeft(t: Table)
    ensures |UsedSlots(t)| < |t| ==> HasEmpty(t)
  {
    if !HasEmpty(t) {
      assert UsedSlots(t) == Below(|t|);
    }
  }

  lemma LiveAreUsed(t: Table)
    ensures |LiveSlots(t)| <= |UsedSlots(t)| <= |t|
  {
    SubsetSize(LiveSlots(t), UsedSlots(t));
    SubsetSize(UsedSlots(t), Below(|t|));
  }

  /** A write uses at most one more slot. */
  lemma WriteCounts(t: Table, i: nat, s: Slot)
    requires i < |t|
    ensures |UsedSlots(t[i := s])| <= |UsedSlots(t)| + 1
    ensures |LiveSlots(t[i := s])| == |LiveSlots(t)| + (if s.Live? then 1 else 0) - (if t[i].Live? then 1 else 0)
  {
    var t' := t[i := s];
    SubsetSize(UsedSlots(t'), UsedSlots(t) + {i});
    assert |UsedSlots(t) + {i}| <= |UsedSlots(t)| + 1;
    assert LiveSlots(t') - {i} == LiveSlots(t) - {i};
    Without(LiveSlots(t), i);
    Without(LiveSlots(t'), i);
  }

  lemma Without(a: set<int>, i: int)
    ensures |a - {i}| == |a| - (if i in a then 1 else 0)
  {
    if i !in a {
      assert a - {i} == a;
    }
  }
}
