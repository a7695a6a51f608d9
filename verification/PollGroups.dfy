/** The pool of poll groups of a port: a queue of groups with at most 32 sockets each. */
module PollGroups {

  type GroupId = nat

  const MAX_GROUP_SIZE: nat := 32

  /** `queue` is port_state.poll_group_queue, front first; `sizes` holds each group_size. */
  datatype Pool = Pool(queue: seq<GroupId>, sizes: map<GroupId, nat>)

  ghost predicate NoDup<T>(q: seq<T>) {
    forall i, j :: 0 <= i < j < |q| ==> q[i] != q[j]
  }

  /** queue_remove on a queue that holds each element at most once. */
  function Without<T(==, !new)>(q: seq<T>, x: T): (r: seq<T>)
    ensures forall y :: y in r <==> y in q && y != x
    ensures NoDup(q) ==> NoDup(r)
    ensures x !in q ==> r == q
    ensures |r| <= |q|
  {
    if q == [] then []
    else if q[0] == x then Without(q[1..], x)
    else
      assert NoDup(q) ==> NoDup(q[1..]) && q[0] !in q[1..];
      [q[0]] + Without(q[1..], x)
  }

  /** The first `k` groups of the queue are full and the others have room. */
  ghost predicate SplitAt(p: Pool, k: nat) {
    && k <= |p.queue|
    && (forall i :: 0 <= i < |p.queue| ==> p.queue[i] in p.sizes)
    && (forall i :: 0 <= i < k ==> p.sizes[p.queue[i]] == MAX_GROUP_SIZE)
    && (forall i :: k <= i < |p.queue| ==> p.sizes[p.queue[i]] < MAX_GROUP_SIZE)
  }

  /** Every full group stands before every group that still has room. */
  ghost predicate FullFirst(p: Pool) { exists k: nat :: SplitAt(p, k) }

  ghost predicate Sound(p: Pool) {
    && NoDup(p.queue)
    && (forall g :: g in p.queue <==> g in p.sizes)
    && (forall g :: g in p.sizes ==> p.sizes[g] <= MAX_GROUP_SIZE)
    && FullFirst(p)
  }

  /** Whether poll_group_acquire has to make a group. */
  predicate NeedsGroup(p: Pool)
    requires Sound(p)
  {
    p.queue == [] || p.sizes[p.queue[|p.queue| - 1]] >= MAX_GROUP_SIZE
  }

  /** A group is made only when every existing one is full. */
  lemma NeedsGroupMeansFull(p: Pool)
    requires Sound(p)
    ensures NeedsGroup(p) <==> forall g :: g in p.sizes ==> p.sizes[g] == MAX_GROUP_SIZE
  {
    if p.queue != [] {
      var last := p.queue[|p.queue| - 1];
      assert last in p.queue;
      var k: nat :| SplitAt(p, k);
      if p.sizes[last] >= MAX_GROUP_SIZE {
        forall g | g in p.sizes ensures p.sizes[g] == MAX_GROUP_SIZE {
          var i :| 0 <= i < |p.queue| && p.queue[i] == g;
        }
      }
    } else {
      assert forall g :: g in p.sizes ==> g in p.queue;
    }
  }

  /** The group that poll_group_acquire hands out. */
  function Chosen(p: Pool, spare: GroupId): (g: GroupId)
    requires Sound(p)
    ensures g in p.sizes <==> !NeedsGroup(p) || spare in p.sizes
  {
    if NeedsGroup(p) then spare else p.queue[|p.queue| - 1]
  }

  /** The queue with a group that has room at its end. */
  function Queued(p: Pool, spare: GroupId): seq<GroupId>
    requires Sound(p)
  {
    if NeedsGroup(p) then p.queue + [spare] else p.queue
  }

  /** poll_group_acquire, once a new group (if one is needed) has been made as `spare`. */
  function Acquire(p: Pool, spare: GroupId): (r: Pool)
    requires Sound(p) && spare !in p.sizes
  {
    var g := Chosen(p, spare);
    var q := Queued(p, spare);
    var n := (if NeedsGroup(p) then 0 else p.sizes[g]) + 1;
    Pool(if n == MAX_GROUP_SIZE then [g] + Without(q, g) else q, p.sizes[g := n])
  }

  function SizeOf(p: Pool, g: GroupId): nat { if g in p.sizes then p.sizes[g] else 0 }

  lemma AcquireSound(p: Pool, spare: GroupId)
    requires Sound(p) && spare !in p.sizes
    ensures Sound(Acquire(p, spare))
    ensures var g := Chosen(p, spare);
      && g in Acquire(p, spare).sizes && SizeOf(p, g) < MAX_GROUP_SIZE
      && Acquire(p, spare).sizes == p.sizes[g := SizeOf(p, g) + 1]
  {
    hide Without, Acquire, Queued, Chosen, FullFirst, Staged, MovedToFront;
    var g, r, q := Chosen(p, spare), Acquire(p, spare), Queued(p, spare);
    var k := AcquireStaged(p, spare);
    Extended(p, spare);
    AcquireSizes(p, spare);
    AcquireQueue(p, spare);
    AcquiredSound(p, q, r, g, k);
  }

  lemma AcquireSizes(p: Pool, spare: GroupId)
    requires Sound(p) && spare !in p.sizes
    ensures var g := Chosen(p, spare); Acquire(p, spare).sizes == p.sizes[g := SizeOf(p, g) + 1]
  {
    hide Without, FullFirst;
  }

  lemma AcquireStaged(p: Pool, spare: GroupId) returns (k: nat)
    requires Sound(p) && spare !in p.sizes
    ensures SizeOf(p, Chosen(p, spare)) < MAX_GROUP_SIZE
    ensures Staged(Queued(p, spare), Acquire(p, spare), k)
  {
    k :| SplitAt(p, k);
    ExtendedSplit(p, spare, k, Queued(p, spare), Acquire(p, spare));
    k := if NeedsGroup(p) then |p.queue| else k;
  }

  lemma AcquireQueue(p: Pool, spare: GroupId)
    requires Sound(p) && spare !in p.sizes
    requires var q := Queued(p, spare); q != [] && NoDup(q) && q[|q| - 1] == Chosen(p, spare)
    ensures var g, r, q := Chosen(p, spare), Acquire(p, spare), Queued(p, spare);
      r.queue == (if r.sizes[g] == MAX_GROUP_SIZE then MovedToFront(q) else q)
  {
    WithoutLast(Queued(p, spare));
  }

  lemma WithoutLast(q: seq<GroupId>)
    requires q != [] && NoDup(q)
    ensures [q[|q| - 1]] + Without(q, q[|q| - 1]) == MovedToFront(q)
  {
    WithoutAt(q, |q| - 1);
  }

  lemma AcquiredSound(p: Pool, q: seq<GroupId>, r: Pool, g: GroupId, k: nat)
    requires q != [] && NoDup(q) && q[|q| - 1] == g
    requires SizeOf(p, g) < MAX_GROUP_SIZE && r.sizes == p.sizes[g := SizeOf(p, g) + 1]
    requires forall x :: x in q <==> x in p.sizes || x == g
    requires forall x :: x in p.sizes ==> p.sizes[x] <= MAX_GROUP_SIZE
    requires r.queue == if r.sizes[g] == MAX_GROUP_SIZE then MovedToFront(q) else q
    requires Staged(q, r, k)
    ensures Sound(r)
  {
    if r.sizes[g] == MAX_GROUP_SIZE {
      FrontSame(q);
      FrontSplit(q, r, k);
    } else {
      assert SplitAt(r, k);
    }
  }

  /** queue_move_to_start for the last element. */
  function MovedToFront(q: seq<GroupId>): seq<GroupId>
    requires q != []
  {
    [q[|q| - 1]] + q[..|q| - 1]
  }

  lemma FrontSame(q: seq<GroupId>)
    requires q != [] && NoDup(q)
    ensures NoDup(MovedToFront(q)) && forall x :: x in MovedToFront(q) <==> x in q
  {
    var r := MovedToFront(q);
    assert forall i :: 0 < i < |q| ==> r[i] == q[i - 1];
    assert forall i :: 0 <= i < |q| - 1 ==> q[i] == r[i + 1];
    assert q[|q| - 1] == r[0];
  }

  lemma FrontSplit(q: seq<GroupId>, r: Pool, k: nat)
    requires q != [] && r.queue == MovedToFront(q)
    requires Staged(q, r, k)
    requires r.sizes[q[|q| - 1]] == MAX_GROUP_SIZE
    ensures SplitAt(r, k + 1)
  {
    assert forall i :: 0 < i < |q| ==> r.queue[i] == q[i - 1];
  }

  lemma ExtendedSplit(p: Pool, spare: GroupId, k: nat, q: seq<GroupId>, r: Pool)
    requires Sound(p) && spare !in p.sizes && SplitAt(p, k) && q == Queued(p, spare)
    requires r.sizes == p.sizes[Chosen(p, spare) := SizeOf(p, Chosen(p, spare)) + 1]
    ensures q != [] && SizeOf(p, Chosen(p, spare)) < MAX_GROUP_SIZE
    ensures Staged(q, r, if NeedsGroup(p) then |p.queue| else k)
  {
    NeedsGroupMeansFull(p);
    assert forall i :: 0 <= i < |p.queue| ==> p.queue[i] in p.queue;
  }

  /** Split at `k` as far as all but the last group are concerned. */
  ghost predicate Staged(q: seq<GroupId>, r: Pool, k: nat) {
    && k < |q|
    && (forall i :: 0 <= i < |q| ==> q[i] in r.sizes)
    && (forall i :: 0 <= i < k ==> r.sizes[q[i]] == MAX_GROUP_SIZE)
    && (forall i :: k <= i < |q| - 1 ==> r.sizes[q[i]] < MAX_GROUP_SIZE)
  }

  /** The queue as it stands once a group with room is at its end. */
  lemma Extended(p: Pool, spare: GroupId)
    requires Sound(p) && spare !in p.sizes
    ensures var q := Queued(p, spare);
      && q != [] && q[|q| - 1] == Chosen(p, spare) && NoDup(q)
      && (forall x :: x in q <==> x in p.sizes || x == Chosen(p, spare))
  {
    assert p.queue != [] ==> p.queue[|p.queue| - 1] in p.queue;
    assert spare !in p.queue;
  }

  /** poll_group_release */
  function Release(p: Pool, g: GroupId): Pool
    requires g in p.sizes && p.sizes[g] > 0
  {
    Pool(Without(p.queue, g) + [g], p.sizes[g := p.sizes[g] - 1])
  }

  lemma ReleaseSound(p: Pool, g: GroupId)
    requires Sound(p) && g in p.sizes && p.sizes[g] > 0
    ensures Sound(Release(p, g)) && Release(p, g).sizes == p.sizes[g := p.sizes[g] - 1]
  {
    var r := Release(p, g);
    var k: nat :| SplitAt(p, k);
    var n :| 0 <= n < |p.queue| && p.queue[n] == g;
    WithoutAt(p.queue, n);
    assert r.queue == MovedToEnd(p.queue, n);
    EndSame(p.queue, n);
    EndSplit(p, r, n, k);
  }

  /** queue_move_to_end */
  function MovedToEnd(q: seq<GroupId>, n: nat): seq<GroupId>
    requires n < |q|
  {
    q[..n] + q[n + 1..] + [q[n]]
  }

  lemma EndSame(q: seq<GroupId>, n: nat)
    requires n < |q| && NoDup(q)
    ensures NoDup(MovedToEnd(q, n)) && forall x :: x in MovedToEnd(q, n) <==> x in q
  {
    var r := MovedToEnd(q, n);
    assert forall i :: 0 <= i < n ==> r[i] == q[i];
    assert forall i :: n <= i < |q| - 1 ==> r[i] == q[i + 1];
    assert forall i :: n < i < |q| ==> q[i] == r[i - 1];
    assert r[|q| - 1] == q[n];
  }

  lemma EndSplit(p: Pool, r: Pool, n: nat, k: nat)
    requires n < |p.queue| && NoDup(p.queue) && SplitAt(p, k)
    requires p.queue[n] in p.sizes && 0 < p.sizes[p.queue[n]] <= MAX_GROUP_SIZE
    requires r == Pool(MovedToEnd(p.queue, n), p.sizes[p.queue[n] := p.sizes[p.queue[n]] - 1])
    ensures SplitAt(r, if n < k then k - 1 else k)
  {
    assert forall i :: 0 <= i < n ==> r.queue[i] == p.queue[i];
    assert forall i :: n <= i < |p.queue| - 1 ==> r.queue[i] == p.queue[i + 1];
    assert r.queue[|p.queue| - 1] == p.queue[n];
  }

  lemma {:induction false} WithoutAt<T(!new)>(q: seq<T>, n: nat)
    requires n < |q| && NoDup(q)
    ensures Without(q, q[n]) == q[..n] + q[n + 1..]
  {
    if n == 0 {
      assert q[0] !in q[1..];
      assert Without(q, q[0]) == Without(q[1..], q[0]) == q[1..];
    } else {
      assert Without(q, q[n]) == [q[0]] + Without(q[1..], q[1..][n - 1]);
      WithoutAt(q[1..], n - 1);
      hide Without;
      CutAt(q, n);
    }
  }

  lemma CutAt<T>(q: seq<T>, n: nat)
    requires 0 < n < |q|
    ensures [q[0]] + (q[1..][..n - 1] + q[1..][n..]) == q[..n] + q[n + 1..]
  {
    assert q[1..][n..] == q[n + 1..];
    assert [q[0]] + q[1..][..n - 1] == q[..n];
  }
}
