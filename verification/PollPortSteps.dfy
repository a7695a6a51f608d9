/** Every operation on one socket keeps the port's bookkeeping and leaves the other sockets alone. */
module PollPortSteps {
  import opened PollGroups
  import opened PollPort

  /** PollInv, except that socket `s` may be an idle one that is about to be freed. */
  ghost predicate PollInvBut(st: State, s: SockId) {
    && (forall x :: x in st.inflight <==> x in st.socks && st.socks[x].status != Idle)
    && (forall x :: x in st.socks && x != s && st.socks[x].deletePending ==> st.socks[x].status != Idle)
  }

  /** Core, except that socket `s` may be an idle one that is about to be freed. */
  ghost predicate CoreBut(st: State, s: SockId) {
    TreeInv(st) && QueueInv(st) && GroupInv(st) && PollInvBut(st, s)
  }

  /** The step from `st` to `st'` concerns no socket but `s`, and no thread. */
  ghost predicate Only(st: State, st': State, s: SockId) {
    && st'.active == st.active && st'.waiters == st.waiters && st'.stuck == st.stuck
    && (forall x :: x != s ==> (x in st'.socks <==> x in st.socks))
    && (forall x :: x != s && x in st.socks ==> st'.socks[x] == st.socks[x])
    && (forall x :: x != s ==> (x in st'.updates <==> x in st.updates))
    && (forall x :: x != s ==> (x in st'.inflight <==> x in st.inflight))
  }

  /** The slot count behind a socket's group is positive, so it can be given back. */
  lemma GroupHeld(st: State, s: SockId)
    requires GroupInv(st) && s in st.socks
    ensures SizeOf(st.pool, st.socks[s].group) > 0
  {
    assert s in Holders(st.socks, st.socks[s].group);
  }

  lemma HoldersRemove(socks: map<SockId, Sock>, s: SockId, g: GroupId)
    requires s in socks
    ensures |Holders(socks - {s}, g)| == |Holders(socks, g)| - (if socks[s].group == g then 1 else 0)
  {
    assert Holders(socks - {s}, g) == Holders(socks, g) - {s};
  }

  lemma HoldersAdd(socks: map<SockId, Sock>, s: SockId, sock: Sock, g: GroupId)
    requires s !in socks
    ensures |Holders(socks[s := sock], g)| == |Holders(socks, g)| + (if sock.group == g then 1 else 0)
  {
    if sock.group == g {
      assert Holders(socks[s := sock], g) == Holders(socks, g) + {s};
    } else {
      assert Holders(socks[s := sock], g) == Holders(socks, g);
    }
  }

  /** Rewriting a socket without touching its group keeps the counts. */
  lemma HoldersSame(socks: map<SockId, Sock>, s: SockId, sock: Sock, g: GroupId)
    requires s in socks && sock.group == socks[s].group
    ensures Holders(socks[s := sock], g) == Holders(socks, g)
  {
  }

  lemma GroupSame(st: State, st': State, s: SockId, sock: Sock)
    requires GroupInv(st) && s in st.socks && sock.group == st.socks[s].group
    requires st'.socks == st.socks[s := sock] && st'.pool == st.pool
    ensures GroupInv(st')
  {
    forall g | g in st'.pool.sizes ensures st'.pool.sizes[g] == |Holders(st'.socks, g)| {
      HoldersSame(st.socks, s, sock, g);
    }
  }

  lemma FreeGroup(st: State, s: SockId)
    requires GroupInv(st) && s in st.socks && SizeOf(st.pool, st.socks[s].group) > 0
    ensures GroupInv(Free(st, s))
  {
    var st', g0 := Free(st, s), st.socks[s].group;
    ReleaseSound(st.pool, g0);
    forall g | g in st'.pool.sizes ensures st'.pool.sizes[g] == |Holders(st'.socks, g)| {
      HoldersRemove(st.socks, s, g);
    }
  }

  // ---------- deletion

  /** What Retire leaves: nothing but the record of `s`, its key and its queue entry change. */
  lemma RetireEffect(st: State, s: SockId, k: Kernel)
    requires s in st.socks
    ensures var st' := Retire(st, s, k);
      && s in st'.socks && st'.socks == st.socks[s := st'.socks[s]]
      && st'.socks[s].deletePending && st'.socks[s].group == st.socks[s].group
      && (st'.socks[s].status == Idle <==> st.socks[s].status == Idle)
      && st'.pool == st.pool && st'.inflight == st.inflight
      && st'.active == st.active && st'.waiters == st.waiters && st'.stuck == st.stuck
      && st'.updates == (if st.socks[s].deletePending then st.updates else Without(st.updates, s))
  {
    hide PollGroups.Without;
  }

  lemma RetireTree(st: State, s: SockId, k: Kernel)
    requires s in st.socks && TreeInv(st)
    ensures TreeInv(Retire(st, s, k))
  {
    var st' := Retire(st, s, k);
    if !st.socks[s].deletePending {
      assert InTree(st, s);
      forall x | x in st'.socks ensures InTree(st', x) <==> !st'.socks[x].deletePending {
        assert InTree(st, x) <==> !st.socks[x].deletePending;
      }
    }
  }

  lemma RetireQueue(st: State, s: SockId, k: Kernel)
    requires s in st.socks && QueueInv(st)
    ensures var st' := Retire(st, s, k);
      && NoDup(st'.updates) && NoDup(st'.deleted) && s !in st'.updates
      && (s in st'.deleted <==> st.socks[s].deletePending)
      && (forall x :: x in st'.updates ==> x in st'.socks && !st'.socks[x].deletePending)
      && (forall x :: x != s ==> (x in st'.deleted <==> x in st'.socks && st'.socks[x].deletePending))
  {
  }

  lemma DeleteTree(st: State, s: SockId, k: Kernel)
    requires s in st.socks && TreeInv(st) && SizeOf(st.pool, st.socks[s].group) > 0
    ensures TreeInv(Delete(st, s, k))
  {
    RetireTree(st, s, k);
    var st1, st' := Retire(st, s, k), Delete(st, s, k);
    assert !InTree(st1, s);
    if st1.socks[s].status == Idle {
      forall x | x in st'.socks ensures InTree(st', x) <==> !st'.socks[x].deletePending {
        assert InTree(st1, x) <==> !st1.socks[x].deletePending;
      }
      forall key | key in st'.tree ensures st'.tree[key] in st'.socks && st'.socks[st'.tree[key]].key == key {
        assert st1.tree[key] != s;
      }
    } else {
      forall x | x in st'.socks ensures InTree(st', x) <==> !st'.socks[x].deletePending {
        assert InTree(st1, x) <==> !st1.socks[x].deletePending;
      }
    }
  }

  lemma DeleteQueue(st: State, s: SockId, k: Kernel)
    requires s in st.socks && QueueInv(st) && SizeOf(st.pool, st.socks[s].group) > 0
    ensures QueueInv(Delete(st, s, k))
    ensures Delete(st, s, k).updates == Without(st.updates, s)
  {
    hide PollGroups.Without;
    RetireQueue(st, s, k);
  }

  lemma DeleteGroup(st: State, s: SockId, k: Kernel)
    requires s in st.socks && GroupInv(st) && SizeOf(st.pool, st.socks[s].group) > 0
    ensures GroupInv(Delete(st, s, k))
  {
    hide PollGroups.Without, PollGroups.Sound, PollGroups.Release, PollPort.GroupInv;
    var st1, st' := Retire(st, s, k), Delete(st, s, k);
    RetireEffect(st, s, k);
    GroupSame(st, st1, s, st1.socks[s]);
    if st1.socks[s].status == Idle {
      FreeGroup(st1, s);
    } else {
      GroupSame(st1, st', s, st1.socks[s]);
    }
  }

  /** The whole effect of sock__delete apart from tree, queues and pool. */
  lemma DeleteEffect(st: State, s: SockId, k: Kernel)
    requires s in st.socks && SizeOf(st.pool, st.socks[s].group) > 0
    ensures var st' := Delete(st, s, k);
      && st'.inflight == st.inflight
      && st'.active == st.active && st'.waiters == st.waiters && st'.stuck == st.stuck
      && (if st.socks[s].status == Idle then st'.socks == st.socks - {s}
          else s in st'.socks && st'.socks == st.socks[s := st'.socks[s]]
               && st'.socks[s].deletePending && st'.socks[s].status != Idle)
  {
    hide PollGroups.Without, PollGroups.Release, PollPort.Retire;
    RetireEffect(st, s, k);
  }

  lemma DeletePoll(st: State, s: SockId, k: Kernel)
    requires s in st.socks && PollInvBut(st, s) && SizeOf(st.pool, st.socks[s].group) > 0
    ensures PollInv(Delete(st, s, k))
  {
    hide PollGroups.Without, PollPort.Delete;
    DeleteEffect(st, s, k);
  }

  lemma DeleteOnly(st: State, s: SockId, k: Kernel)
    requires s in st.socks && SizeOf(st.pool, st.socks[s].group) > 0
    requires Delete(st, s, k).updates == Without(st.updates, s)
    ensures Only(st, Delete(st, s, k), s)
  {
    hide PollGroups.Without, PollPort.Delete;
    DeleteEffect(st, s, k);
  }

  /** sock__delete: an idle socket is gone for good, any other one is parked. */
  lemma DeleteKeeps(st: State, s: SockId, k: Kernel)
    requires s in st.socks && CoreBut(st, s) && SizeOf(st.pool, st.socks[s].group) > 0
    ensures var st' := Delete(st, s, k);
      && Core(st') && Only(st, st', s) && st'.inflight == st.inflight
      && (if st.socks[s].status == Idle then s !in st'.socks else s in st'.socks && st'.socks[s].deletePending)
      && st'.updates == Without(st.updates, s)
  {
    hide PollGroups.Without, PollPort.TreeInv, PollPort.QueueInv, PollPort.GroupInv, PollPort.PollInv,
         PollInvBut, Only, PollPort.Delete;
    DeleteTree(st, s, k);
    DeleteQueue(st, s, k);
    DeleteGroup(st, s, k);
    DeletePoll(st, s, k);
    DeleteOnly(st, s, k);
    DeleteEffect(st, s, k);
  }

  // ---------- changing one socket's record or queue entry

  /** Rewriting events and poll status of a socket, with the kernel's view kept in step. */
  lemma RecordKeeps(st: State, s: SockId, sock: Sock, inflight: set<SockId>)
    requires s in st.socks && Core(st)
    requires sock.key == st.socks[s].key && sock.group == st.socks[s].group
    requires sock.deletePending == st.socks[s].deletePending
    requires inflight == if sock.status == Idle then st.inflight - {s} else st.inflight + {s}
    ensures var st' := SetSock(st, s, sock).(inflight := inflight);
      && CoreBut(st', s) && Only(st, st', s)
      && (!sock.deletePending || sock.status != Idle ==> Core(st'))
  {
    hide PollPort.TreeInv, PollPort.GroupInv, PollPort.QueueInv, PollPort.PollInv, PollInvBut, Only;
    var st' := SetSock(st, s, sock).(inflight := inflight);
    RecordTree(st, st', s, sock);
    GroupSame(st, st', s, sock);
    RecordQueue(st, st', s, sock);
    RecordPoll(st, st', s, sock);
    RecordOnly(st, s, sock, inflight);
  }

  lemma RecordQueue(st: State, st': State, s: SockId, sock: Sock)
    requires s in st.socks && QueueInv(st) && sock.deletePending == st.socks[s].deletePending
    requires st'.socks == st.socks[s := sock] && st'.updates == st.updates && st'.deleted == st.deleted
    ensures QueueInv(st')
  {
    hide NoDup;
  }

  lemma RecordPoll(st: State, st': State, s: SockId, sock: Sock)
    requires s in st.socks && PollInv(st)
    requires st'.socks == st.socks[s := sock]
    requires st'.inflight == if sock.status == Idle then st.inflight - {s} else st.inflight + {s}
    ensures PollInvBut(st', s)
    ensures !sock.deletePending || sock.status != Idle ==> PollInv(st')
  {
  }

  lemma RecordOnly(st: State, s: SockId, sock: Sock, inflight: set<SockId>)
    requires s in st.socks
    requires inflight == if sock.status == Idle then st.inflight - {s} else st.inflight + {s}
    ensures Only(st, SetSock(st, s, sock).(inflight := inflight), s)
  {
  }

  lemma RecordTree(st: State, st': State, s: SockId, sock: Sock)
    requires s in st.socks && TreeInv(st)
    requires sock.key == st.socks[s].key && sock.deletePending == st.socks[s].deletePending
    requires st'.tree == st.tree && st'.socks == st.socks[s := sock]
    ensures TreeInv(st')
  {
    forall x | x in st'.socks ensures InTree(st', x) <==> !st'.socks[x].deletePending {
      assert InTree(st, x) <==> !st.socks[x].deletePending;
    }
  }

  lemma RequestKeeps(st: State, s: SockId)
    requires s in st.socks && !st.socks[s].deletePending && Core(st)
    ensures var st' := RequestUpdate(st, s);
      Core(st') && Only(st, st', s) && st'.socks == st.socks && s in st'.updates
  {
    hide PollPort.TreeInv, PollPort.GroupInv, PollPort.QueueInv, Only;
    var st' := RequestUpdate(st, s);
    SameTree(st, st');
    RequestQueue(st, s);
    hide PollPort.RequestUpdate;
  }

  lemma RequestQueue(st: State, s: SockId)
    requires s in st.socks && !st.socks[s].deletePending && QueueInv(st)
    ensures var st' := RequestUpdate(st, s);
      QueueInv(st') && Only(st, st', s) && s in st'.updates
  {
    var st' := RequestUpdate(st, s);
    assert s !in st.deleted;
    if s !in st.updates {
      assert NoDup(st'.updates);
      hide NoDup;
    }
  }

  lemma SameTree(st: State, st': State)
    requires st'.tree == st.tree && st'.socks == st.socks && st'.pool == st.pool
    ensures TreeInv(st) ==> TreeInv(st')
    ensures GroupInv(st) ==> GroupInv(st')
  {
    assert forall s :: InTree(st, s) == InTree(st', s);
  }

  lemma UnqueueKeeps(st: State, s: SockId)
    requires s in st.socks && !st.socks[s].deletePending && Core(st)
    ensures var st' := Unqueue(st, s);
      Core(st') && Only(st, st', s) && st'.socks == st.socks && st'.updates == Without(st.updates, s)
  {
    hide PollGroups.Without, PollPort.TreeInv, PollPort.GroupInv, PollPort.QueueInv, Only;
    SameTree(st, Unqueue(st, s));
    UnqueueQueue(st, s);
  }

  lemma UnqueueQueue(st: State, s: SockId)
    requires s in st.socks && !st.socks[s].deletePending && QueueInv(st)
    ensures QueueInv(Unqueue(st, s)) && Only(st, Unqueue(st, s), s)
  {
    hide PollGroups.Without, NoDup;
    assert s !in st.deleted;
    assert Without(st.deleted, s) == st.deleted;
  }

  lemma OnlyTrans(st: State, st1: State, st2: State, s: SockId)
    requires Only(st, st1, s) && Only(st1, st2, s)
    ensures Only(st, st2, s)
  {
  }

  /** Sockets that a step does not concern stay attended. */
  lemma OthersAttended(st: State, st': State, s: SockId)
    requires InterestInv(st) && Only(st, st', s)
    requires s in st'.socks && !st'.socks[s].deletePending ==> Attended(st', s)
    ensures InterestInv(st')
  {
    forall x | x in st'.socks && !st'.socks[x].deletePending ensures Attended(st', x) {
      if x != s {
        assert Attended(st, x);
      }
    }
  }

  // ---------- sock_set_event

  lemma SetEventKeeps(st: State, s: SockId, ev: Event)
    requires s in st.socks && !st.socks[s].deletePending && Core(st)
    requires Attended(st, s) || st.socks[s].pendingEvents == {}
    ensures var st' := SetEvent(st, s, ev);
      && Core(st') && Only(st, st', s) && s in st'.socks && !st'.socks[s].deletePending && Attended(st', s)
      && st'.socks[s].userEvents == ev.events + {EPOLLERR, EPOLLHUP} && st'.socks[s].userData == ev.data
  {
    hide PollPort.Core, CoreBut, Only;
    var events := ev.events + {EPOLLERR, EPOLLHUP};
    var sock := st.socks[s].(userEvents := events, userData := ev.data);
    var st1 := SetSock(st, s, sock);
    InflightOf(st, s);
    SetSockInflight(st, s, sock);
    RecordKeeps(st, s, sock, st.inflight);
    if !Covered(events, sock.pendingEvents) {
      RequestKeeps(st1, s);
      OnlyTrans(st, st1, RequestUpdate(st1, s), s);
    } else {
      assert EPOLLERR in events * KNOWN_EVENTS;
    }
  }

  lemma SetEventInflight(st: State, s: SockId, ev: Event)
    requires s in st.socks
    ensures SetEvent(st, s, ev).inflight == st.inflight
  {
  }

  // ---------- sock_update

  /** A socket's record changes and it leaves the update queue. */
  lemma RecordAndUnqueue(st: State, s: SockId, sock: Sock, inflight: set<SockId>)
    requires s in st.socks && !st.socks[s].deletePending && Core(st)
    requires sock.key == st.socks[s].key && sock.group == st.socks[s].group && !sock.deletePending
    requires inflight == if sock.status == Idle then st.inflight - {s} else st.inflight + {s}
    ensures var st' := Unqueue(SetSock(st, s, sock).(inflight := inflight), s);
      && Core(st') && Only(st, st', s) && s in st'.socks && st'.socks[s] == sock
      && st'.updates == Without(st.updates, s)
  {
    hide PollGroups.Without, PollPort.Core, CoreBut, Only;
    var st1 := SetSock(st, s, sock).(inflight := inflight);
    RecordKeeps(st, s, sock, inflight);
    UnqueueKeeps(st1, s);
    OnlyTrans(st, st1, Unqueue(st1, s), s);
  }

  /** An outstanding or absent poll is what PollInv says it is. */
  lemma InflightOf(st: State, s: SockId)
    requires Core(st) && s in st.socks
    ensures st.inflight == if st.socks[s].status == Idle then st.inflight - {s} else st.inflight + {s}
    ensures CoreBut(st, s)
  {
    hide PollPort.TreeInv, PollPort.GroupInv, PollPort.QueueInv;
  }

  /** sock_update: on success the socket has left the queue and is attended or gone; on failure nothing changed. */
  lemma UpdateKeeps(st: State, s: SockId, k: Kernel)
    requires s in st.socks && !st.socks[s].deletePending && Core(st) && SizeOf(st.pool, st.socks[s].group) > 0
    ensures var u := Update(st, s, k);
      && Core(u.st) && Only(st, u.st, s)
      && (u.ok ==> u.st.updates == Without(st.updates, s))
      && (u.ok && s in u.st.socks ==> !u.st.socks[s].deletePending && Attended(u.st, s))
      && (!u.ok ==> u.st == st)
  {
    hide PollGroups.Without, PollPort.Core, CoreBut, Only, PollPort.Delete, PollPort.Unqueue, PollPort.SetSock;
    var sock := st.socks[s];
    InflightOf(st, s);
    OnlyRefl(st, s);
    match sock.status {
      case Pending =>
        if Covered(sock.userEvents, sock.pendingEvents) {
          UnqueueKeeps(st, s);
        } else if k.cancel(s) {
          RecordAndUnqueue(st, s, CancelPoll(sock, true), st.inflight);
          SetSockInflight(st, s, CancelPoll(sock, true));
        }
      case Cancelled =>
        UnqueueKeeps(st, s);
      case Idle =>
        match k.submit(s) {
          case Accepted =>
            var sock' := sock.(status := Pending, pendingEvents := sock.userEvents, polled := ToAfd(sock.userEvents));
            RecordAndUnqueue(st, s, sock', st.inflight + {s});
          case InvalidHandle =>
            DeleteKeeps(st, s, k);
          case SubmitError =>
        }
    }
  }

  lemma OnlyRefl(st: State, s: SockId)
    ensures Only(st, st, s)
  {
  }

  lemma SetSockInflight(st: State, s: SockId, sock: Sock)
    ensures SetSock(st, s, sock).(inflight := st.inflight) == SetSock(st, s, sock)
  {
  }

  // ---------- sock_feed_event

  /** What feeding a completion may report: nothing, or one event the user asked for, with the user's data. */
  ghost predicate Honest(sock: Sock, events: seq<Event>) {
    && |events| <= 1
    && (events != [] ==> !sock.deletePending && events[0].events != {} && events[0].events <= sock.userEvents
                         && events[0].data == sock.userData)
  }

  /** sock_feed_event: the poll is no longer outstanding; a live socket is queued again, a deleted one is freed. */
  lemma FeedKeeps(st: State, p: Packet, k: Kernel)
    requires p.sock in st.socks && Core(st) && SizeOf(st.pool, st.socks[p.sock].group) > 0
    ensures var s, f := p.sock, Feed(st, p, k);
      && Core(f.st) && Only(st, f.st, s) && s !in f.st.inflight
      && (s in f.st.socks ==> !f.st.socks[s].deletePending && s in f.st.updates)
      && (st.socks[s].deletePending ==> s !in f.st.socks)
      && Honest(st.socks[s], f.events)
  {
    hide PollGroups.Without, PollPort.Core, CoreBut, Only, PollPort.Delete, PollPort.ToEpoll;
    var s := p.sock;
    var sock := st.socks[s].(status := Idle, pendingEvents := {});
    var st1 := SetSock(st, s, sock).(inflight := st.inflight - {s});
    RecordKeeps(st, s, sock, st.inflight - {s});
    if sock.deletePending || (p.report.Reported? && AFD_LOCAL_CLOSE in p.report.afdEvents) {
      DeleteKeeps(st1, s, k);
      OnlyTrans(st, st1, Delete(st1, s, k), s);
    } else {
      var st2 := RequestUpdate(st1, s);
      RequestKeeps(st1, s);
      OnlyTrans(st, st1, st2, s);
      RequestSame(st1, s);
      var sock3 := sock.(userEvents := {});
      RecordKeeps(st2, s, sock3, st2.inflight);
      SetSockInflight(st2, s, sock3);
      OnlyTrans(st, st2, SetSock(st2, s, sock3), s);
    }
  }
}
