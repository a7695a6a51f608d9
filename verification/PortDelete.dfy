/** A port as it runs: sockets in two intrusive rings and in a red-black tree, groups in a third ring, the loops that
    run under the lock, and the tear-down of a whole port. */
module PortDelete {
  import opened PollGroups
  import opened PollPort
  import opened PollPortSteps
  import opened PollPortRuns
  import opened Common
  import T = TreeShape
  import SockTree
  import L = Links
  import I = SockIndex

  /** sock_force_delete: free the socket even though its poll may still be outstanding. */
  function ForceDelete(st: State, s: SockId, k: Kernel): State
    requires s in st.socks && SizeOf(st.pool, st.socks[s].group) > 0
  {
    RetireEffect(st, s, k);
    Free(Retire(st, s, k), s)
  }

  /** What is left of the invariant once the completion port is closed. */
  ghost predicate Closing(st: State) { TreeInv(st) && QueueInv(st) && GroupInv(st) }

  lemma ForceKeeps(st: State, s: SockId, k: Kernel)
    requires Closing(st) && s in st.socks && SizeOf(st.pool, st.socks[s].group) > 0
    ensures var st' := ForceDelete(st, s, k);
      && Closing(st') && st'.socks == st.socks - {s}
      && st'.deleted == Without(st.deleted, s)
      && st'.tree == (if st.socks[s].deletePending then st.tree else st.tree - {st.socks[s].key})
  {
    hide PollPort.TreeInv, PollPort.QueueInv, PollPort.GroupInv, ForceDelete;
    ForceTree(st, s, k);
    ForceQueue(st, s, k);
    ForceGroup(st, s, k);
    ForceEffect(st, s, k);
  }

  lemma ForceEffect(st: State, s: SockId, k: Kernel)
    requires s in st.socks && SizeOf(st.pool, st.socks[s].group) > 0
    ensures var st' := ForceDelete(st, s, k);
      && st'.socks == st.socks - {s}
      && st'.deleted == Without(st.deleted, s)
      && st'.tree == (if st.socks[s].deletePending then st.tree else st.tree - {st.socks[s].key})
  {
    hide PollGroups.Without;
    WithoutTwice(st.deleted, s);
  }

  lemma WithoutTwice(q: seq<SockId>, s: SockId)
    ensures Without(Without(q, s), s) == Without(q, s)
  {
  }

  lemma ForceGroup(st: State, s: SockId, k: Kernel)
    requires GroupInv(st) && s in st.socks && SizeOf(st.pool, st.socks[s].group) > 0
    ensures GroupInv(ForceDelete(st, s, k))
  {
    hide PollGroups.Without, PollGroups.Sound, PollGroups.Release, PollPort.GroupInv;
    var st1 := Retire(st, s, k);
    RetireEffect(st, s, k);
    GroupSame(st, st1, s, st1.socks[s]);
    FreeGroup(st1, s);
  }

  lemma ForceTree(st: State, s: SockId, k: Kernel)
    requires TreeInv(st) && s in st.socks && SizeOf(st.pool, st.socks[s].group) > 0
    ensures TreeInv(ForceDelete(st, s, k))
  {
    RetireTree(st, s, k);
    RetireEffect(st, s, k);
    var st1, st' := Retire(st, s, k), ForceDelete(st, s, k);
    hide PollGroups.Without, PollGroups.Release, PollPort.Retire;
    assert !InTree(st1, s);
    forall x | x in st'.socks ensures InTree(st', x) <==> !st'.socks[x].deletePending {
      assert InTree(st1, x) <==> !st1.socks[x].deletePending;
    }
    forall key | key in st'.tree ensures st'.tree[key] in st'.socks && st'.socks[st'.tree[key]].key == key {
      assert st1.tree[key] != s;
    }
  }

  lemma ForceQueue(st: State, s: SockId, k: Kernel)
    requires QueueInv(st) && s in st.socks && SizeOf(st.pool, st.socks[s].group) > 0
    ensures QueueInv(ForceDelete(st, s, k))
  {
    hide PollGroups.Without, PollGroups.Release, PollPort.Retire;
    RetireQueue(st, s, k);
    RetireEffect(st, s, k);
  }

  /** The objects behind the queues and behind the index. */
  ghost function Around(q: L.Queues): set<object>
    reads q
  {
    {q} + q.Nodes()
  }

  ghost function Within(i: I.Index): set<object>
    reads i
  {
    {i, i.tree} + i.nodes
  }

  class Port {
    const queues: L.Queues      // sock_update_queue, then sock_deleted_queue
    const index: I.Index        // sock_tree
    const groups: L.Queues      // poll_group_queue
    var socks: map<SockId, Sock>
    var sizes: map<GroupId, nat>
    var active: nat
    var waiters: map<ThreadId, Waiter>  // the threads inside port__poll
    ghost var stuck: bool
    ghost var inflight: set<SockId>

    /** The state that the objects and links stand for. */
    ghost function St(): State
      reads this, queues, index, groups
    {
      State(socks, index.keys, queues.a, queues.b, Pool(groups.a, sizes), active, stuck, inflight, waiters)
    }

    ghost function Objects(): set<object>
      reads queues, index, groups
    {
      {this} + Around(queues) + Around(groups) + Within(index)
    }

    /** The rings and the tree are in order and share no node. */
    ghost predicate Linked()
      reads Objects()
    {
      && queues.Valid() && groups.Valid() && index.Valid()
      && Around(queues) !! Around(groups) && Around(queues) !! Within(index) && Around(groups) !! Within(index)
      && this !in Around(queues) && this !in Around(groups) && this !in Within(index)
    }

    /** Every socket has a node for the queues and one for the tree, every group one for its queue. */
    ghost predicate Valid()
      reads Objects()
    {
      && Linked()
      && queues.node.Keys == socks.Keys && index.leaf.Keys == socks.Keys
      && groups.node.Keys == sizes.Keys && groups.b == []
    }

    /** port_new */
    constructor ()
      ensures Valid() && St() == INITIAL
      ensures fresh(Around(queues)) && fresh(Around(groups)) && fresh(Within(index))
    {
      hide L.Queues.Valid, I.Index.Valid;
      var q, g, i := NewParts();
      queues, groups, index := q, g, i;
      socks, sizes, active := map[], map[], 0;
      waiters, stuck, inflight := map[], false, {};
    }

    /** port_cancel_socket_update and port_remove_deleted_socket: the node leaves whichever ring it is in. */
    method Unqueue(s: SockId)
      requires Valid() && s in socks
      modifies Around(queues)
      ensures Valid() && St() == PollPort.Unqueue(old(St()), s) && Objects() == old(Objects())
    {
      hide L.Queues.Valid, I.Index.Valid, PollGroups.Without;
      UnqueueNode(queues, s, groups, index);
    }

    /** port_request_socket_update */
    method RequestUpdate(s: SockId)
      requires Valid() && s in socks
      modifies Around(queues)
      ensures Valid() && St() == PollPort.RequestUpdate(old(St()), s) && Objects() == old(Objects())
    {
      hide L.Queues.Valid, I.Index.Valid;
      EnqueueNode(queues, s, groups, index, false);
    }

    /** port_add_deleted_socket */
    method Park(s: SockId)
      requires Valid() && s in socks
      modifies Around(queues)
      ensures Valid() && Objects() == old(Objects())
      ensures var st := old(St()); St() == if Enqueued(st, s) then st else st.(deleted := st.deleted + [s])
    {
      hide L.Queues.Valid, I.Index.Valid;
      EnqueueNode(queues, s, groups, index, true);
    }

    /** poll_group_release */
    method ReleaseGroup(g: GroupId)
      requires Valid() && g in groups.a && g in sizes && sizes[g] > 0
      modifies Around(groups), this`sizes
      ensures Valid() && Objects() == old(Objects())
      ensures var st := old(St()); St() == st.(pool := Release(st.pool, g))
    {
      hide L.Queues.Valid, I.Index.Valid, PollGroups.Without;
      sizes := sizes[g := sizes[g] - 1];
      MoveGroup(groups, g, queues, index, true);
    }

    /** A field of a socket is overwritten. */
    method Store(s: SockId, sock: Sock)
      requires Valid() && s in socks
      modifies this`socks
      ensures Valid() && St() == SetSock(old(St()), s, sock) && Objects() == old(Objects())
    {
      hide L.Queues.Valid, I.Index.Valid;
      socks := socks[s := sock];
    }

    /** port_unregister_socket */
    method Unregister(s: SockId)
      requires Valid() && InTree(St(), s)
      modifies Within(index)
      ensures var st := old(St()); St() == st.(tree := st.tree - {st.socks[s].key})
      ensures Valid() && Objects() <= old(Objects())
    {
      hide L.Queues.Valid, I.Index.Valid;
      UnregisterSock(index, s, socks[s].key, queues, groups);
    }

    /** The first half of sock__delete. */
    method RetireSock(s: SockId, k: Kernel)
      requires Valid() && s in socks && (socks[s].deletePending || InTree(St(), s))
      modifies Objects()
      ensures Valid() && St() == Retire(old(St()), s, k) && Objects() <= old(Objects())
    {
      hide Valid, Around, Within, PollGroups.Without, L.Queues.Valid, I.Index.Valid;
      if !socks[s].deletePending {
        if socks[s].status == Pending {
          Store(s, CancelPoll(socks[s], k.cancel(s)));
        }
        Unqueue(s);
        Unregister(s);
        Store(s, socks[s].(deletePending := true));
      }
    }

    /** The memory of a socket that is in no queue and not in the tree is given back. */
    method FreeSock(s: SockId)
      requires Valid() && s in socks && SizeOf(St().pool, socks[s].group) > 0 && socks[s].group in groups.a
      requires s !in index.keys.Values
      modifies Objects()
      ensures Valid() && St() == Free(old(St()), s) && Objects() <= old(Objects())
    {
      hide Valid, Around, Within, PollGroups.Without, PollGroups.Release;
      hide L.Queues.Valid, I.Index.Valid;
      Unqueue(s);
      ReleaseGroup(socks[s].group);
      GiveBack(s);
    }

    /** sock__free */
    method GiveBack(s: SockId)
      requires Valid() && s in socks && s !in queues.a && s !in queues.b && s !in index.keys.Values
      modifies Objects()
      ensures Valid() && Objects() <= old(Objects())
      ensures var st := old(St()); St() == st.(socks := st.socks - {s})
    {
      hide Linked, L.Queues.Valid, I.Index.Valid;
      ForgetNodes(s);
      assert queues.node.Keys == socks.Keys - {s} && index.leaf.Keys == socks.Keys - {s};
      DropSock(s);
    }

    method DropSock(s: SockId)
      requires Linked() && queues.node.Keys == index.leaf.Keys == socks.Keys - {s}
      requires groups.node.Keys == sizes.Keys && groups.b == []
      modifies this`socks
      ensures Valid() && Objects() == old(Objects())
      ensures var st := old(St()); St() == st.(socks := st.socks - {s})
    {
      hide L.Queues.Valid, I.Index.Valid;
      socks := socks - {s};
    }

    method ForgetNodes(s: SockId)
      requires Linked() && queues.Idle(s) && s !in index.keys.Values
      modifies queues`node, index`leaf
      ensures Linked() && Objects() <= old(Objects()) && St() == old(St()) && unchanged(groups)
      ensures queues.node == old(queues.node) - {s} && index.leaf == old(index.leaf) - {s}
    {
      hide L.Queues.Valid, I.Index.Valid;
      ForgetSock(queues, index, s, groups);
    }

    /** sock__delete */
    method DeleteSock(s: SockId, k: Kernel, force: bool)
      requires Valid() && s in socks && TreeInv(St()) && Sound(St().pool) && SizeOf(St().pool, socks[s].group) > 0
      modifies Objects()
      ensures Valid() && Objects() <= old(Objects())
      ensures St() == if force then ForceDelete(old(St()), s, k) else Delete(old(St()), s, k)
    {
      hide Valid, Around, Within, PollPort.TreeInv, PollGroups.Sound;
      hide PollPort.Retire, PollPort.Free, PollGroups.Without, PollGroups.Release, L.Queues.Valid, I.Index.Valid;
      Ready(St(), s, k);
      RetireSock(s, k);
      if force || socks[s].status == Idle {
        FreeSock(s);
      } else {
        Park(s);
      }
    }

    /** sock_update */
    method UpdateSock(s: SockId, k: Kernel) returns (ok: bool)
      requires Valid() && s in socks && TreeInv(St()) && Sound(St().pool) && SizeOf(St().pool, socks[s].group) > 0
      modifies Objects()
      ensures Valid() && Objects() <= old(Objects())
      ensures Updated(St(), ok) == Update(old(St()), s, k)
    {
      hide Valid, Around, Within, PollPort.TreeInv, PollGroups.Sound, PollPort.Delete;
      hide PollGroups.Without, PollGroups.Release, L.Queues.Valid, I.Index.Valid;
      var sock := socks[s];
      if sock.status == Pending && Covered(sock.userEvents, sock.pendingEvents) {
      } else if sock.status == Pending {
        if !k.cancel(s) {
          return false;
        }
        Store(s, CancelPoll(sock, true));
      } else if sock.status == Cancelled {
      } else {
        match k.submit(s) {
          case InvalidHandle =>
            DeleteSock(s, k, false);
            return true;
          case SubmitError =>
            return false;
          case Accepted =>
        }
        Store(s, sock.(status := Pending, pendingEvents := sock.userEvents, polled := ToAfd(sock.userEvents)));
        Submitted(s);
      }
      Unqueue(s);
      return true;
    }

    /** The kernel now has a poll of this socket. */
    ghost method Submitted(s: SockId)
      requires Valid()
      modifies this`inflight
      ensures Valid() && Objects() == old(Objects())
      ensures var st := old(St()); St() == st.(inflight := st.inflight + {s})
    {
      hide L.Queues.Valid, I.Index.Valid;
      inflight := inflight + {s};
    }

    ghost method Completed(s: SockId)
      requires Valid()
      modifies this`inflight
      ensures Valid() && Objects() == old(Objects())
      ensures var st := old(St()); St() == st.(inflight := st.inflight - {s})
    {
      hide L.Queues.Valid, I.Index.Valid;
      inflight := inflight - {s};
    }

    /** sock_feed_event */
    method FeedSock(p: Packet, k: Kernel) returns (events: seq<Event>)
      requires Valid() && p.sock in socks && TreeInv(St()) && Sound(St().pool)
      requires SizeOf(St().pool, socks[p.sock].group) > 0
      modifies Objects()
      ensures Valid() && Objects() <= old(Objects())
      ensures Fed(St(), events) == Feed(old(St()), p, k)
    {
      hide Valid, Around, Within, PollPort.TreeInv, PollGroups.Sound, PollPort.Delete;
      hide PollGroups.Without, PollGroups.Release, L.Queues.Valid, I.Index.Valid;
      var s := p.sock;
      TreeKept(St(), s, socks[s].(status := Idle, pendingEvents := {}));
      Store(s, socks[s].(status := Idle, pendingEvents := {}));
      Completed(s);
      if socks[s].deletePending {
        DeleteSock(s, k, false);
        return [];
      }
      if p.report.Reported? && AFD_LOCAL_CLOSE in p.report.afdEvents {
        DeleteSock(s, k, false);
        return [];
      }
      RequestUpdate(s);
      var reported := RawEvents(p.report) * socks[s].userEvents;
      if reported == {} {
        return [];
      }
      var data := socks[s].userData;
      if EPOLLONESHOT in socks[s].userEvents {
        Store(s, socks[s].(userEvents := {}));
      }
      return [Event(reported, data)];
    }

    /** sock_set_event */
    method SetEventSock(s: SockId, ev: Event)
      requires Valid() && s in socks
      modifies Objects()
      ensures Valid() && Objects() == old(Objects()) && St() == SetEvent(old(St()), s, ev)
    {
      hide Valid, Around, Within, L.Queues.Valid, I.Index.Valid;
      var events := ev.events + {EPOLLERR, EPOLLHUP};
      Store(s, socks[s].(userEvents := events, userData := ev.data));
      if !Covered(events, socks[s].pendingEvents) {
        RequestUpdate(s);
      }
    }

    /** poll_group_acquire, with `spare` for the group that may have to be made. */
    method AcquireGroup(spare: GroupId) returns (g: GroupId)
      requires Valid() && Sound(St().pool) && spare !in sizes
      modifies Objects()
      ensures Valid() && (forall x | x in Objects() :: x in old(Objects()) || fresh(x))
      ensures var st := old(St()); g == Chosen(st.pool, spare) && St() == st.(pool := Acquire(st.pool, spare))
    {
      hide Valid, Around, Within, L.Queues.Valid, I.Index.Valid, PollGroups.Sound, PollGroups.Acquire, Slot;
      hide PollGroups.Chosen, PollGroups.NeedsGroup;
      var last := LastGroup();
      AcquireBySlot(St().pool, spare);
      if last.None? || sizes[last.value] >= MAX_GROUP_SIZE {
        MakeGroup(spare);
        g := spare;
      } else {
        g := last.value;
      }
      TakeSlot(g);
    }

    method LastGroup() returns (g: Option<GroupId>)
      requires Valid()
      ensures Valid() && St() == old(St()) && Objects() == old(Objects())
      ensures g == if groups.a == [] then None else Some(groups.a[|groups.a| - 1])
    {
      hide L.Queues.Valid, I.Index.Valid;
      g := groups.LastEntry();
    }

    /** poll_group__new */
    method MakeGroup(g: GroupId)
      requires Valid() && g !in sizes
      modifies Objects()
      ensures Valid() && (forall x | x in Objects() :: x in old(Objects()) || fresh(x))
      ensures var st := old(St()); St() == st.(pool := Pool(st.pool.queue + [g], st.pool.sizes[g := 0]))
    {
      hide Linked, L.Queues.Valid, I.Index.Valid;
      AddGroupNode(g);
      SizeZero(g);
    }

    method AddGroupNode(g: GroupId)
      requires Linked() && g !in groups.node && groups.b == []
      modifies groups, groups.Nodes()
      ensures Linked() && (forall x | x in Objects() :: x in old(Objects()) || fresh(x)) && unchanged(queues)
        && unchanged(index)
      ensures groups.a == old(groups.a) + [g] && groups.b == [] && groups.node.Keys == old(groups.node.Keys) + {g}
    {
      hide L.Queues.Valid, I.Index.Valid;
      AddGroup(groups, g, queues, index);
    }

    method SizeZero(g: GroupId)
      requires Linked() && groups.node.Keys == sizes.Keys + {g} && groups.b == []
      requires queues.node.Keys == socks.Keys && index.leaf.Keys == socks.Keys
      modifies this`sizes
      ensures Valid() && Objects() == old(Objects())
      ensures var st := old(St()); St() == st.(pool := Pool(st.pool.queue, st.pool.sizes[g := 0]))
    {
      hide L.Queues.Valid, I.Index.Valid;
      sizes := sizes[g := 0];
    }

    /** One more socket in a group, which moves to the front once it is full. */
    method TakeSlot(g: GroupId)
      requires Valid() && g in sizes && g in groups.a
      modifies Objects()
      ensures Valid() && Objects() == old(Objects())
      ensures var st := old(St()); St() == st.(pool := Slot(st.pool, g))
    {
      hide L.Queues.Valid, I.Index.Valid, PollGroups.Without;
      sizes := sizes[g := sizes[g] + 1];
      if sizes[g] == MAX_GROUP_SIZE {
        MoveGroup(groups, g, queues, index, false);
      }
    }

    /** sock_new from the group on: a new socket is registered, or everything is given back when its handle is known. */
    method NewSock(s: SockId, key: nat, spare: GroupId) returns (ok: bool)
      requires Valid() && Sound(St().pool) && s !in socks && spare !in sizes
      modifies Objects()
      ensures Valid() && ok == (key !in old(St()).tree)
      ensures forall x | x in Objects() :: x in old(Objects()) || fresh(x)
      ensures St() == SockNew(old(St()), key, s, spare)
    {
      hide Valid, Around, Within, L.Queues.Valid, I.Index.Valid, PollGroups.Without, PollGroups.Sound;
      hide PollGroups.Acquire, PollGroups.Release, PollGroups.Chosen;
      var g := AcquireGroup(spare);
      AcquireSound(old(St()).pool, spare);
      ok := EnterSock(s, Sock(key, g, {}, 0, {}, {}, Idle, false));
      if !ok {
        InQueue(St().pool, g);
        ReleaseGroup(g);
      }
    }

    /** A new socket is registered, or freed again when its handle is known. */
    method EnterSock(s: SockId, sock: Sock) returns (ok: bool)
      requires Valid() && s !in socks
      modifies Objects()
      ensures Valid() && ok == (sock.key !in old(St()).tree)
      ensures forall x | x in Objects() :: x in old(Objects()) || fresh(x)
      ensures var st := old(St());
        St() == if ok then st.(socks := st.socks[s := sock], tree := st.tree[sock.key := s]) else st
    {
      hide Valid, Around, Within, Placed;
      NotIndexed(s);
      AllocSock(s, sock);
      ok := RegisterNew(s, sock.key);
      if !ok {
        GiveBack(s);
      }
    }

    lemma NotIndexed(s: SockId)
      requires Valid() && s !in socks
      ensures s !in index.keys.Values && s !in queues.a && s !in queues.b
    {
    }

    /** A new socket is in no queue and not in the tree. */
    method AllocSock(s: SockId, sock: Sock)
      requires Valid() && s !in socks
      modifies Objects()
      ensures Valid() && (forall x | x in Objects() :: x in old(Objects()) || fresh(x))
      ensures Placed(queues, index, groups, s) && fresh(index.leaf[s])
      ensures var st := old(St()); St() == st.(socks := st.socks[s := sock])
    {
      hide Valid, Awaits, Placed, Around, Within;
      Parts();
      AllocLinks(s);
      AddSock(s, sock);
    }

    lemma Parts()
      ensures this in Objects() && queues in Objects() && index in Objects()
    {
    }

    /** The nodes of `s` are there, the socket is not. */
    ghost predicate Awaits(s: SockId)
      reads Objects()
    {
      && Linked()
      && queues.node.Keys == index.leaf.Keys == socks.Keys + {s}
      && groups.node.Keys == sizes.Keys && groups.b == []
    }

    method AllocLinks(s: SockId)
      requires Valid() && s !in socks
      modifies queues, index
      ensures Awaits(s) && (forall x | x in Objects() :: x in old(Objects()) || fresh(x)) && St() == old(St())
      ensures Placed(queues, index, groups, s) && fresh(index.leaf[s])
    {
      hide L.Queues.Valid, I.Index.Valid;
      NotIndexed(s);
      AllocNodes(queues, index, s, groups);
    }

    method AddSock(s: SockId, sock: Sock)
      requires Awaits(s)
      modifies this`socks
      ensures Valid() && Objects() == old(Objects()) && unchanged(queues) && unchanged(index) && unchanged(groups)
      ensures var st := old(St()); St() == st.(socks := st.socks[s := sock])
    {
      hide L.Queues.Valid, I.Index.Valid;
      socks := socks[s := sock];
    }

    /** port_register_socket */
    method RegisterNew(s: SockId, key: nat) returns (ok: bool)
      requires Valid() && s in socks && s !in index.keys.Values
      requires Placed(queues, index, groups, s)
      modifies Objects(), index.leaf[s]
      ensures Valid() && ok == (key !in old(St()).tree) && Objects() <= old(Objects()) + {old(index.leaf[s])}
      ensures var st := old(St()); St() == if ok then st.(tree := st.tree[key := s]) else st
    {
      hide L.Queues.Valid, I.Index.Valid;
      ok := RegisterSock(index, s, key, queues, groups);
    }

    /** port__update_events */
    method UpdateAll(k: Kernel) returns (ok: bool)
      requires Valid() && Core(St())
      modifies Objects()
      ensures Valid() && Objects() <= old(Objects())
      ensures Updated(St(), ok) == UpdateEvents(old(St()), k)
    {
      hide Valid, Around, Within, PollPort.Core, PollPort.Update;
      hide PollGroups.Without, L.Queues.Valid, I.Index.Valid;
      ghost var start := St();
      while true
        invariant Valid() && Objects() <= old(Objects())
        invariant Core(St()) && UpdateEvents(St(), k) == UpdateEvents(start, k)
        decreases |St().updates|
      {
        var first := FirstUpdate();
        if first.None? {
          break;
        }
        FirstIsLive(St());
        CoreParts(St());
        UpdateKeeps(St(), first.value, k);
        var done := UpdateSock(first.value, k);
        if !done {
          Stuck(true);
          return false;
        }
      }
      Stuck(false);
      return true;
    }

    method FirstUpdate() returns (s: Option<SockId>)
      requires Valid()
      ensures Valid() && St() == old(St()) && Objects() == old(Objects())
      ensures s == if St().updates == [] then None else Some(St().updates[0])
    {
      hide L.Queues.Valid, I.Index.Valid;
      s := queues.FirstEntry();
    }

    method FirstParked() returns (s: Option<SockId>)
      requires Valid()
      ensures Valid() && St() == old(St()) && Objects() == old(Objects())
      ensures s == if St().deleted == [] then None else Some(St().deleted[0])
    {
      hide L.Queues.Valid, I.Index.Valid;
      s := queues.SecondEntry();
    }

    method FirstRegistered() returns (s: Option<SockId>)
      requires Valid()
      ensures Valid() && St() == old(St()) && Objects() == old(Objects())
      ensures s == None <==> St().tree == map[]
      ensures s.Some? ==> exists key :: key in St().tree && St().tree[key] == s.value
    {
      hide L.Queues.Valid, I.Index.Valid;
      s := index.AtRoot();
    }

    /** port_find_socket */
    method FindSock(key: nat) returns (s: Option<SockId>)
      requires Valid()
      ensures Valid() && St() == old(St()) && Objects() == old(Objects())
      ensures s == if key in St().tree then Some(St().tree[key]) else None
    {
      hide L.Queues.Valid, I.Index.Valid;
      s := index.Find(key);
    }

    /** Threads enter and leave port__poll. */
    method SetThreads(active: nat, waiters: map<ThreadId, Waiter>)
      requires Valid()
      modifies this`active, this`waiters
      ensures Valid() && St() == old(St()).(active := active, waiters := waiters) && Objects() == old(Objects())
    {
      hide L.Queues.Valid, I.Index.Valid;
      this.active, this.waiters := active, waiters;
    }

    ghost method Stuck(b: bool)
      requires Valid()
      modifies this`stuck
      ensures Valid() && St() == old(St()).(stuck := b) && Objects() == old(Objects())
    {
      hide L.Queues.Valid, I.Index.Valid;
      stuck := b;
    }

    /** port__feed_events */
    method FeedBatch(packets: seq<Packet>, k: Kernel) returns (events: seq<Event>)
      requires Valid() && Core(St()) && Deliverable(St(), packets)
      modifies Objects()
      ensures Valid() && Objects() <= old(Objects())
      ensures Fed(St(), events) == FeedAll(old(St()), packets, k)
    {
      hide Valid, Around, Within, PollPort.Core, PollPort.Feed, PollPortRuns.Deliverable;
      hide L.Queues.Valid, I.Index.Valid, FeedAll, FedSoFar;
      ghost var whole := FeedAll(St(), packets, k);
      events := [];
      FedStart(St(), packets, k);
      for i := 0 to |packets|
        invariant Valid() && Objects() <= old(Objects())
        invariant FedSoFar(whole, St(), packets[i..], events, k)
      {
        FedNext(whole, St(), packets[i..], events, k);
        CoreParts(St());
        assert packets[i..][1..] == packets[i + 1..];
        var out := FeedSock(packets[i], k);
        events := events + out;
      }
      FedAll(whole, St(), packets[|packets|..], events, k);
    }

    /** port_delete: every socket and every group is freed, both assertions of the source hold, all loops end. */
    method TearDown(k: Kernel)
      requires Valid() && Core(St())
      modifies Objects()
      ensures Valid() && var st := St();
        st.socks == map[] && st.tree == map[] && st.updates == [] && st.deleted == [] && st.pool == Pool([], map[])
    {
      hide Valid, Around, Within, PollPort.TreeInv, PollPort.QueueInv, PollPort.GroupInv;
      hide PollPort.PollInv, L.Queues.Valid, I.Index.Valid;
      DeleteRegistered(k);
      DeleteParked(k);
      AllDeleted(St());
      DeleteGroups();
    }

    /** The first loop of port_delete, which keeps taking the root of the socket tree. */
    method DeleteRegistered(k: Kernel)
      requires Valid() && Closing(St())
      modifies Objects()
      ensures Valid() && Objects() <= old(Objects()) && Closing(St()) && St().tree == map[]
    {
      hide Valid, Around, Within, Closing, ForceDelete, L.Queues.Valid, I.Index.Valid;
      while true
        invariant Valid() && Objects() <= old(Objects()) && Closing(St())
        decreases |St().tree|
      {
        var s := FirstRegistered();
        if s.None? {
          break;
        }
        ghost var key :| key in St().tree && St().tree[key] == s.value;
        RegisteredHeld(St(), key);
        ForceKeeps(St(), s.value, k);
        ClosingParts(St());
        DeleteSock(s.value, k, true);
      }
    }

    /** The second loop of port_delete, over the deleted queue. */
    method DeleteParked(k: Kernel)
      requires Valid() && Closing(St()) && St().tree == map[]
      modifies Objects()
      ensures Valid() && Objects() <= old(Objects()) && Closing(St()) && St().tree == map[] && St().deleted == []
    {
      hide Valid, Around, Within, Closing, ForceDelete, L.Queues.Valid, I.Index.Valid;
      while true
        invariant Valid() && Objects() <= old(Objects()) && Closing(St()) && St().tree == map[]
        decreases |St().deleted|
      {
        var s := FirstParked();
        if s.None? {
          break;
        }
        ParkedHeld(St());
        ForceKeeps(St(), s.value, k);
        ClosingParts(St());
        DeleteSock(s.value, k, true);
      }
    }

    /** The third loop of port_delete: poll_group_delete on every group, each of them empty by now. */
    method DeleteGroups()
      requires Valid() && GroupInv(St()) && socks == map[]
      modifies Objects()
      ensures Valid() && var st := old(St()); St() == st.(pool := Pool([], map[]))
    {
      AllEmpty(St());
      hide Valid, Around, Within, L.Queues.Valid, I.Index.Valid, PollGroups.Without;
      hide Emptied, PollPort.GroupInv;
      ghost var st := St();
      while true
        invariant Valid() && Objects() <= old(Objects())
        invariant St() == st.(pool := St().pool) && Emptied(St().pool)
        decreases |St().pool.queue|
      {
        var g := FirstGroup();
        EmptiedLess(St().pool);
        if g.None? {
          break;
        }
        DeleteGroup(g.value);
      }
    }

    method FirstGroup() returns (g: Option<GroupId>)
      requires Valid()
      ensures Valid() && St() == old(St()) && Objects() == old(Objects())
      ensures g == if groups.a == [] then None else Some(groups.a[0])
    {
      hide L.Queues.Valid, I.Index.Valid;
      g := groups.FirstEntry();
    }

    /** poll_group_delete */
    method DeleteGroup(g: GroupId)
      requires Valid() && g in groups.a && g in sizes && sizes[g] == 0
      modifies Objects()
      ensures Valid() && Objects() <= old(Objects())
      ensures var st := old(St()); St() == st.(pool := Pool(Without(st.pool.queue, g), st.pool.sizes - {g}))
    {
      hide Valid, Unlinked, Around, Within, PollGroups.Without;
      GroupParts();
      UnlinkGroup(g);
      ForgetSize(g);
    }

    lemma GroupParts()
      ensures this in Objects() && groups in Objects() && forall n | n in groups.Nodes() :: n in Objects()
    {
    }

    /** The node of `g` is gone, its size is not. */
    ghost predicate Unlinked(g: GroupId)
      reads Objects()
    {
      && Linked()
      && queues.node.Keys == socks.Keys && index.leaf.Keys == socks.Keys
      && groups.node.Keys == sizes.Keys - {g} && groups.b == []
    }

    method UnlinkGroup(g: GroupId)
      requires Valid() && g in groups.a && g in sizes
      modifies groups, groups.Nodes()
      ensures Unlinked(g) && Objects() <= old(Objects())
      ensures var st := old(St()); St() == st.(pool := Pool(Without(st.pool.queue, g), st.pool.sizes))
    {
      hide L.Queues.Valid, I.Index.Valid, PollGroups.Without;
      DropGroup(groups, g, queues, index);
    }

    method ForgetSize(g: GroupId)
      requires Unlinked(g)
      modifies this`sizes
      ensures Valid() && Objects() == old(Objects())
      ensures var st := old(St()); St() == st.(pool := Pool(st.pool.queue, st.pool.sizes - {g}))
    {
      hide L.Queues.Valid, I.Index.Valid;
      sizes := sizes - {g};
    }
  }

  /** With `events` already out, feeding `rest` completes what the whole batch comes to. */
  ghost predicate FedSoFar(whole: Fed, st: State, rest: seq<Packet>, events: seq<Event>, k: Kernel) {
    && Core(st) && Deliverable(st, rest)
    && whole == Fed(FeedAll(st, rest, k).st, events + FeedAll(st, rest, k).events)
  }

  lemma FedStart(st: State, packets: seq<Packet>, k: Kernel)
    requires Core(st) && Deliverable(st, packets)
    ensures FedSoFar(FeedAll(st, packets, k), st, packets[0..], [], k)
  {
    hide PollPort.Core, PollPortRuns.Deliverable, FeedAll;
    assert packets[0..] == packets;
    assert [] + FeedAll(st, packets, k).events == FeedAll(st, packets, k).events;
  }

  lemma FedNext(whole: Fed, st: State, rest: seq<Packet>, events: seq<Event>, k: Kernel)
    requires FedSoFar(whole, st, rest, events, k) && rest != []
    ensures Core(st) && rest[0].sock in st.socks && SizeOf(st.pool, st.socks[rest[0].sock].group) > 0
    ensures var f := Feed(st, rest[0], k); FedSoFar(whole, f.st, rest[1..], events + f.events, k)
  {
    hide PollPort.Core, PollPortRuns.Deliverable, PollPort.Feed;
    FeedReady(st, rest, k);
    var f := Feed(st, rest[0], k);
    var more := FeedAll(f.st, rest[1..], k);
    assert FeedAll(st, rest, k) == Fed(more.st, f.events + more.events);
    assert events + (f.events + more.events) == events + f.events + more.events;
  }

  lemma FedAll(whole: Fed, st: State, rest: seq<Packet>, events: seq<Event>, k: Kernel)
    requires FedSoFar(whole, st, rest, events, k) && rest == []
    ensures whole == Fed(st, events)
  {
    assert events + [] == events;
  }

  /** The empty queues and the empty index of a new port. */
  method NewParts() returns (q: L.Queues, g: L.Queues, i: I.Index)
    ensures q.Valid() && g.Valid() && i.Valid()
    ensures Around(q) !! Around(g) && Around(q) !! Within(i) && Around(g) !! Within(i)
    ensures fresh(Around(q)) && fresh(Around(g)) && fresh(Within(i))
    ensures q.a == q.b == g.a == g.b == [] && q.node == g.node == map[] && i.leaf == map[] && i.keys == map[]
  {
    hide L.Queues.Valid, I.Index.Valid;
    q := new L.Queues();
    g := new L.Queues();
    i := new I.Index();
  }

  /** queue_remove, if queue_is_enqueued; groups and index are not concerned. */
  method UnqueueNode(queues: L.Queues, s: SockId, ghost groups: L.Queues, ghost index: I.Index)
    requires groups.Valid() && queues.Valid() && index.Valid() && s in queues.node
    requires Around(queues) !! Around(groups) && Around(queues) !! Within(index)
    modifies queues, queues.Nodes()
    ensures groups.Valid() && queues.Valid() && index.Valid() && unchanged(groups) && unchanged(index)
    ensures queues.a == Without(old(queues.a), s) && queues.b == Without(old(queues.b), s)
    ensures queues.node == old(queues.node)
  {
    hide L.Queues.Valid, I.Index.Valid, PollGroups.Without;
    var queued := queues.IsQueued(s);
    NotThere(queues.a, queues.b, s);
    if queued {
      queues.Remove(s);
    }
  }

  /** queue_append to one of the queues, unless queue_is_enqueued. */
  method EnqueueNode(queues: L.Queues, s: SockId, ghost groups: L.Queues, ghost index: I.Index, deleted: bool)
    requires groups.Valid() && queues.Valid() && index.Valid() && s in queues.node
    requires Around(queues) !! Around(groups) && Around(queues) !! Within(index)
    modifies queues, queues.Nodes()
    ensures groups.Valid() && queues.Valid() && index.Valid() && unchanged(groups) && unchanged(index)
    ensures var idle := s !in old(queues.a) && s !in old(queues.b);
      && queues.a == old(queues.a) + (if idle && !deleted then [s] else [])
      && queues.b == old(queues.b) + (if idle && deleted then [s] else [])
    ensures queues.node == old(queues.node)
  {
    hide L.Queues.Valid, I.Index.Valid;
    var queued := queues.IsQueued(s);
    if !queued {
      if deleted {
        queues.AppendSecond(s);
      } else {
        queues.AppendFirst(s);
      }
    }
  }

  /** A new group joins the queue; the sockets are not concerned. */
  method AddGroup(groups: L.Queues, g: GroupId, ghost queues: L.Queues, ghost index: I.Index)
    requires groups.Valid() && queues.Valid() && index.Valid() && g !in groups.node && groups.b == []
    requires Around(groups) !! Around(queues) && Around(groups) !! Within(index)
    modifies groups, groups.Nodes()
    ensures groups.Valid() && queues.Valid() && index.Valid() && unchanged(queues) && unchanged(index)
    ensures groups.a == old(groups.a) + [g] && groups.b == [] && groups.node.Keys == old(groups.node.Keys) + {g}
    ensures fresh(Around(groups) - old(Around(groups)))
  {
    hide L.Queues.Valid, I.Index.Valid;
    groups.Join(g);
  }

  /** The two nodes of a new socket. */
  method AllocNodes(queues: L.Queues, index: I.Index, s: SockId, ghost groups: L.Queues)
    requires groups.Valid() && queues.Valid() && index.Valid() && s !in queues.node && s !in index.leaf
    requires Around(groups) !! Around(queues) && Around(groups) !! Within(index) && Around(queues) !! Within(index)
    modifies queues, index
    ensures groups.Valid() && queues.Valid() && index.Valid() && unchanged(groups)
    ensures queues.node.Keys == old(queues.node.Keys) + {s} && index.leaf.Keys == old(index.leaf.Keys) + {s}
    ensures queues.a == old(queues.a) && queues.b == old(queues.b) && index.keys == old(index.keys)
    ensures fresh(Around(queues) - old(Around(queues))) && Within(index) == old(Within(index)) && fresh(index.leaf[s])
    ensures index.leaf[s] !in Around(queues)
  {
    hide L.Queues.Valid, I.Index.Valid;
    queues.New(s);
    index.New(s);
  }

  /** A new socket is in neither queue, and its node for the tree is no node of a queue. */
  ghost predicate Placed(queues: L.Queues, index: I.Index, groups: L.Queues, s: SockId)
    reads queues, index, groups
  {
    && s !in queues.a && s !in queues.b
    && s in index.leaf && index.leaf[s] !in Around(queues) && index.leaf[s] !in Around(groups)
  }

  /** One more socket in group `g`. */
  function Slot(p: Pool, g: GroupId): Pool
    requires g in p.sizes
  {
    var n := p.sizes[g] + 1;
    Pool(if n == MAX_GROUP_SIZE then [g] + Without(p.queue, g) else p.queue, p.sizes[g := n])
  }

  /** poll_group_acquire step by step: the last group or a new one, and a slot in it. */
  lemma AcquireBySlot(p: Pool, spare: GroupId)
    requires Sound(p) && spare !in p.sizes
    ensures p.queue != [] ==> p.queue[|p.queue| - 1] in p.sizes
    ensures if p.queue == [] || p.sizes[p.queue[|p.queue| - 1]] >= MAX_GROUP_SIZE
      then Chosen(p, spare) == spare && Slot(Pool(p.queue + [spare], p.sizes[spare := 0]), spare) == Acquire(p, spare)
      else
        var g := p.queue[|p.queue| - 1];
        g in p.queue && Chosen(p, spare) == g && Slot(p, g) == Acquire(p, spare)
  {
    hide PollGroups.Without, PollGroups.FullFirst;
    assert p.queue != [] ==> p.queue[|p.queue| - 1] in p.queue;
    assert p.sizes[spare := 0][spare := 1] == p.sizes[spare := 1];
  }

  lemma InQueue(p: Pool, g: GroupId)
    requires Sound(p) && g in p.sizes
    ensures g in p.queue
  {
  }

  /** A group moves within its queue; the sockets are not concerned. */
  method MoveGroup(groups: L.Queues, g: GroupId, ghost queues: L.Queues, ghost index: I.Index, end: bool)
    requires groups.Valid() && queues.Valid() && index.Valid() && g in groups.a
    requires Around(groups) !! Around(queues) && Around(groups) !! Within(index)
    modifies groups, groups.Nodes()
    ensures groups.Valid() && queues.Valid() && index.Valid() && unchanged(queues) && unchanged(index)
    ensures groups.a == if end then Without(old(groups.a), g) + [g] else [g] + Without(old(groups.a), g)
    ensures groups.b == old(groups.b) && groups.node == old(groups.node)
  {
    hide L.Queues.Valid, I.Index.Valid, PollGroups.Without;
    if end {
      groups.MoveLast(g);
    } else {
      groups.MoveFirst(g);
    }
  }

  /** The two nodes of a socket are forgotten; the groups are not concerned. */
  method ForgetSock(queues: L.Queues, index: I.Index, s: SockId, ghost groups: L.Queues)
    requires groups.Valid() && queues.Valid() && index.Valid() && queues.Idle(s) && s !in index.keys.Values
    requires Around(groups) !! Around(queues) && Around(groups) !! Within(index) && Around(queues) !! Within(index)
    modifies queues`node, index`leaf
    ensures groups.Valid() && queues.Valid() && index.Valid() && unchanged(groups)
    ensures queues.node == old(queues.node) - {s} && index.leaf == old(index.leaf) - {s}
    ensures Around(queues) <= old(Around(queues)) && Within(index) == old(Within(index))
  {
    hide L.Queues.Valid, I.Index.Valid;
    queues.Forget(s);
    index.Forget(s);
  }

  /** A socket joins the tree, if its handle is new; the queues are not concerned. */
  method RegisterSock(index: I.Index, s: SockId, key: nat, ghost queues: L.Queues, ghost groups: L.Queues)
    returns (ok: bool)
    requires groups.Valid() && queues.Valid() && index.Valid() && s in index.leaf && s !in index.keys.Values
    requires Around(groups) !! Within(index) && Around(queues) !! Within(index)
    requires index.leaf[s] !in Around(queues) && index.leaf[s] !in Around(groups)
    modifies index, index.tree, index.nodes, index.leaf[s]
    ensures groups.Valid() && queues.Valid() && index.Valid() && unchanged(groups) && unchanged(queues)
    ensures ok == (key !in old(index.keys))
    ensures index.keys == if ok then old(index.keys)[key := s] else old(index.keys)
    ensures index.leaf == old(index.leaf) && Within(index) <= old(Within(index)) + {index.leaf[s]}
  {
    hide L.Queues.Valid, I.Index.Valid;
    ok := index.Register(s, key);
  }

  /** A socket leaves the tree; the queues are not concerned. */
  method UnregisterSock(index: I.Index, s: SockId, ghost key: nat, ghost queues: L.Queues, ghost groups: L.Queues)
    requires groups.Valid() && queues.Valid() && index.Valid() && key in index.keys && index.keys[key] == s
    requires Around(groups) !! Within(index) && Around(queues) !! Within(index)
    modifies index, index.tree, index.nodes
    ensures groups.Valid() && queues.Valid() && index.Valid() && unchanged(groups) && unchanged(queues)
    ensures index.keys == old(index.keys) - {key} && index.leaf == old(index.leaf)
      && Within(index) <= old(Within(index))
  {
    hide L.Queues.Valid, I.Index.Valid;
    index.Unregister(s, key);
  }

  /** A group leaves its queue; the sockets are not concerned. */
  method DropGroup(groups: L.Queues, g: GroupId, ghost queues: L.Queues, ghost index: I.Index)
    requires groups.Valid() && queues.Valid() && index.Valid() && g in groups.node && g in groups.a && groups.b == []
    requires Around(groups) !! Around(queues) && Around(groups) !! Within(index)
    modifies groups, groups.Nodes()
    ensures groups.Valid() && queues.Valid() && index.Valid() && unchanged(queues) && unchanged(index)
    ensures groups.a == Without(old(groups.a), g) && groups.b == [] && groups.node == old(groups.node) - {g}
    ensures Around(groups) <= old(Around(groups))
  {
    hide L.Queues.Valid, I.Index.Valid, PollGroups.Without;
    NotThere(groups.b, groups.b, g);
    groups.Drop(g);
  }

  /** The groups of the queue are all groups, and none has a socket. */
  ghost predicate Emptied(p: Pool) {
    NoDup(p.queue) && (forall g :: g in p.queue <==> g in p.sizes) && forall g :: g in p.sizes ==> p.sizes[g] == 0
  }

  lemma EmptiedLess(p: Pool)
    requires Emptied(p)
    ensures p.queue == [] ==> p == Pool([], map[])
    ensures p.queue != [] ==>
      var g := p.queue[0];
      && g in p.queue && g in p.sizes && p.sizes[g] == 0 && |Without(p.queue, g)| < |p.queue|
      && Emptied(Pool(Without(p.queue, g), p.sizes - {g}))
  {
    if p.queue != [] {
      WithoutAt(p.queue, 0);
    } else {
      assert p.sizes == map[];
    }
  }

  lemma AllEmpty(st: State)
    requires GroupInv(st) && st.socks == map[]
    ensures Emptied(st.pool)
  {
    NoHolders(st);
  }

  lemma CoreParts(st: State)
    requires Core(st)
    ensures TreeInv(st) && Sound(st.pool)
  {
    hide PollPort.TreeInv, PollGroups.Sound;
  }

  lemma ClosingParts(st: State)
    requires Closing(st)
    ensures TreeInv(st) && Sound(st.pool)
  {
    hide PollPort.TreeInv, PollGroups.Sound;
  }

  /** A socket whose removal from the tree has begun is not found there any more. */
  lemma Ready(st: State, s: SockId, k: Kernel)
    requires s in st.socks && TreeInv(st) && Sound(st.pool) && SizeOf(st.pool, st.socks[s].group) > 0
    ensures st.socks[s].deletePending || InTree(st, s)
    ensures st.socks[s].group in st.pool.queue
    ensures var st' := Retire(st, s, k);
      && s in st'.socks && st'.pool == st.pool && st'.socks[s].group == st.socks[s].group && s !in st'.tree.Values
  {
    hide PollGroups.Without;
    assert InTree(st, s) <==> !st.socks[s].deletePending;
    RetireTree(st, s, k);
    RetireEffect(st, s, k);
    var st' := Retire(st, s, k);
    hide PollPort.Retire;
    forall key | key in st'.tree
      ensures st'.tree[key] != s
    {
      assert InTree(st', s) <==> !st'.socks[s].deletePending;
    }
  }

  lemma TreeKept(st: State, s: SockId, sock: Sock)
    requires TreeInv(st) && s in st.socks && sock.key == st.socks[s].key
      && sock.deletePending == st.socks[s].deletePending
    ensures var st' := SetSock(st, s, sock); TreeInv(st') && TreeInv(st'.(inflight := st'.inflight - {s}))
  {
    var st' := SetSock(st, s, sock);
    var st2 := st'.(inflight := st'.inflight - {s});
    forall x | x in st'.socks
      ensures (InTree(st', x) <==> !st'.socks[x].deletePending) && (InTree(st2, x) <==> !st2.socks[x].deletePending)
    {
      assert InTree(st, x) <==> !st.socks[x].deletePending;
    }
  }

  lemma NotThere(a: seq<SockId>, b: seq<SockId>, s: SockId)
    ensures s !in a ==> Without(a, s) == a
    ensures s !in b ==> Without(b, s) == b
  {
  }

  lemma RegisteredHeld(st: State, key: nat)
    requires Closing(st) && key in st.tree
    ensures var s := st.tree[key];
      && s in st.socks && st.socks[s].key == key && !st.socks[s].deletePending
      && SizeOf(st.pool, st.socks[s].group) > 0
  {
    hide PollPort.QueueInv, PollGroups.Sound;
    assert InTree(st, st.tree[key]);
    GroupHeld(st, st.tree[key]);
  }

  lemma ParkedHeld(st: State)
    requires Closing(st) && st.deleted != []
    ensures var s := st.deleted[0];
      && s in st.socks && st.socks[s].deletePending && SizeOf(st.pool, st.socks[s].group) > 0
      && |Without(st.deleted, s)| < |st.deleted|
  {
    hide PollPort.TreeInv, PollGroups.Sound;
    assert st.deleted[0] in st.deleted;
    GroupHeld(st, st.deleted[0]);
  }

  /** With the tree empty only delete-pending sockets are left; with the deleted queue empty too, none. */
  lemma AllDeleted(st: State)
    requires Closing(st) && st.tree == map[]
    ensures forall s :: s in st.socks ==> s in st.deleted
    ensures st.updates == [] && (st.deleted == [] ==> st.socks == map[])
  {
    hide PollPort.GroupInv;
    forall s | s in st.socks ensures s in st.deleted {
      assert InTree(st, s) <==> !st.socks[s].deletePending;
    }
    assert forall s :: s !in st.updates;
    NoMembers(st.updates);
  }

  lemma NoMembers(q: seq<SockId>)
    ensures (forall s :: s !in q) ==> q == []
  {
    if q != [] {
      assert q[0] in q;
    }
  }

  lemma NoHolders(st: State)
    requires GroupInv(st) && st.socks == map[]
    ensures forall g :: g in st.pool.sizes ==> st.pool.sizes[g] == 0
  {
    forall g | g in st.pool.sizes ensures st.pool.sizes[g] == 0 {
      assert Holders(st.socks, g) == {};
    }
  }
}
