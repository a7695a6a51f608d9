/** Whole runs of a port: the calls made under the lock, the windows in which threads wait without it,
    and the properties that hold in every reachable state. */
module PollPortRuns {
  import opened PollGroups
  import opened PollPort
  import opened PollPortSteps

  // ---------- loops under the lock

  /** port__update_events */
  function UpdateEvents(st: State, k: Kernel): Updated
    requires Core(st)
    decreases |st.updates|
  {
    if st.updates == [] then Updated(st.(stuck := false), true)
    else
      var s := st.updates[0];
      FirstIsLive(st);
      UpdateKeeps(st, s, k);
      var u := Update(st, s, k);
      if !u.ok then Updated(u.st.(stuck := true), false) else UpdateEvents(u.st, k)
  }

  lemma FirstIsLive(st: State)
    requires Core(st) && st.updates != []
    ensures var s := st.updates[0];
      && s in st.socks && !st.socks[s].deletePending && SizeOf(st.pool, st.socks[s].group) > 0
      && |Without(st.updates, s)| < |st.updates|
  {
    hide PollGroups.Sound;
    assert st.updates[0] in st.updates;
    GroupHeld(st, st.updates[0]);
  }

  /** port__update_events_if_polling */
  function UpdateIfPolling(st: State, k: Kernel): State
    requires Core(st)
  {
    if st.active > 0 then UpdateEvents(st, k).st else st
  }

  /** Every packet is the completion of an outstanding poll, and no poll completes twice. */
  ghost predicate Deliverable(st: State, packets: seq<Packet>) {
    && (forall i :: 0 <= i < |packets| ==> packets[i].sock in st.inflight)
    && (forall i, j :: 0 <= i < j < |packets| ==> packets[i].sock != packets[j].sock)
  }

  /** port__feed_events */
  function FeedAll(st: State, packets: seq<Packet>, k: Kernel): Fed
    requires Core(st) && Deliverable(st, packets)
    decreases |packets|
  {
    if packets == [] then Fed(st, [])
    else
      FeedReady(st, packets, k);
      var f := Feed(st, packets[0], k);
      var rest := FeedAll(f.st, packets[1..], k);
      Fed(rest.st, f.events + rest.events)
  }

  /** The object behind the next completion is still allocated, and stays so for the ones after it. */
  lemma FeedReady(st: State, packets: seq<Packet>, k: Kernel)
    requires Core(st) && Deliverable(st, packets) && packets != []
    ensures var p := packets[0];
      && p.sock in st.socks && SizeOf(st.pool, st.socks[p.sock].group) > 0
      && Core(Feed(st, p, k).st) && Deliverable(Feed(st, p, k).st, packets[1..])
  {
    hide PollPort.Core, PollPort.Feed, Deliverable;
    DeliverableHead(st, packets);
    FeedKeeps(st, packets[0], k);
    DeliverableTail(st, Feed(st, packets[0], k).st, packets);
  }

  lemma DeliverableHead(st: State, packets: seq<Packet>)
    requires Core(st) && Deliverable(st, packets) && packets != []
    ensures var s := packets[0].sock; s in st.socks && SizeOf(st.pool, st.socks[s].group) > 0
  {
    hide PollPort.TreeInv, PollPort.QueueInv, PollGroups.Sound;
    var s := packets[0].sock;
    assert s in st.inflight;
    GroupHeld(st, s);
  }

  lemma DeliverableTail(st: State, st': State, packets: seq<Packet>)
    requires Deliverable(st, packets) && packets != [] && Only(st, st', packets[0].sock)
    ensures Deliverable(st', packets[1..])
  {
    forall i | 0 <= i < |packets| - 1 ensures packets[1..][i].sock in st'.inflight {
      assert packets[i + 1].sock != packets[0].sock;
    }
  }

  // ---------- the atomic steps

  datatype Action =
    | CtlAdd(key: nat, valid: bool, ev: Event, newSock: SockId, newGroup: GroupId, groupOk: bool, k: Kernel)
    | CtlMod(key: nat, ev: Event, k: Kernel)
    | CtlDel(key: nat, k: Kernel)
    | Wait(t: ThreadId, k: Kernel, k2: Kernel)
    | Wake(t: ThreadId, ok: bool, packets: seq<Packet>)
    | Resume(t: ThreadId, again: bool, k: Kernel, k2: Kernel)

  /** What the environment guarantees: fresh addresses, and each submitted poll completes at most once. */
  ghost predicate Enabled(st: State, a: Action) {
    match a
    case CtlAdd(_, _, _, s, g, _, _) => s !in st.socks && g !in st.pool.sizes
    case CtlMod(_, _, _) => true
    case CtlDel(_, _) => true
    case Wait(t, _, _) => t !in st.waiters
    case Wake(t, ok, packets) =>
      && t in st.waiters && st.waiters[t].Blocked? && Deliverable(st, packets) && (!ok ==> packets == [])
      && (forall i, t', i' :: 0 <= i < |packets| && Holds(st, t', i') ==> packets[i].sock != SockOf(st, t', i'))
    case Resume(t, _, _, _) => t in st.waiters && st.waiters[t].Woken?
  }

  /** sock_new up to the registration in the tree. */
  function SockNew(st: State, key: nat, s: SockId, g: GroupId): State
    requires Sound(st.pool) && g !in st.pool.sizes
  {
    var pool := Acquire(st.pool, g);
    AcquireSound(st.pool, g);
    if key in st.tree then st.(pool := Release(pool, Chosen(st.pool, g)))
    else
      var sock := Sock(key, Chosen(st.pool, g), {}, 0, {}, {}, Idle, false);
      st.(pool := pool, socks := st.socks[s := sock], tree := st.tree[key := s])
  }

  /** port__poll up to the point where the lock is dropped. */
  function EnterPoll(st: State, t: ThreadId, k: Kernel, k2: Kernel): State
    requires Core(st)
  {
    UpdateEventsKeeps(st, k);
    var u := UpdateEvents(st, k);
    if u.ok then u.st.(active := u.st.active + 1, waiters := u.st.waiters[t := Blocked])
    else UpdateIfPolling(u.st, k2)
  }

  /** port__ctl_add; `valid` says that the socket has a base socket. */
  ghost function DoAdd(st: State, a: Action): State
    requires Inv(st) && Enabled(st, a) && a.CtlAdd?
  {
    if a.key == 0 || !a.valid || (NeedsGroup(st.pool) && !a.groupOk) then st
    else
      var st1 := SockNew(st, a.key, a.newSock, a.newGroup);
      if a.key in st.tree then st1
      else
        NewSockKeeps(st, a.key, a.newSock, a.newGroup);
        SetEventKeeps(st1, a.newSock, a.ev);
        UpdateIfPolling(SetEvent(st1, a.newSock, a.ev), a.k)
  }

  /** port__ctl_mod */
  ghost function DoMod(st: State, a: Action): State
    requires Inv(st) && a.CtlMod?
  {
    if a.key !in st.tree then st
    else
      RegisteredIsLive(st, a.key);
      SetEventKeeps(st, st.tree[a.key], a.ev);
      UpdateIfPolling(SetEvent(st, st.tree[a.key], a.ev), a.k)
  }

  /** port__ctl_del */
  ghost function DoDel(st: State, a: Action): State
    requires Inv(st) && a.CtlDel?
  {
    if a.key !in st.tree then st
    else
      RegisteredIsLive(st, a.key);
      Delete(st, st.tree[a.key], a.k)
  }

  /** From the moment the lock is taken again in port__poll until it is next released. */
  ghost function DoResume(st: State, a: Action): State
    requires Inv(st) && Enabled(st, a) && a.Resume?
  {
    hide PollPort.Core, PollPort.InterestInv, PollPort.WaiterInv, Deliverable;
    ResumeReady(st, a.t);
    var packets := st.waiters[a.t].packets;
    var st1 := st.(active := st.active - 1, waiters := st.waiters - {a.t});
    if !st.waiters[a.t].ok then UpdateIfPolling(st1, a.k2)
    else
      FeedAllKeeps(st1, packets, a.k);
      var f := FeedAll(st1, packets, a.k);
      if f.events == [] && a.again then EnterPoll(f.st, a.t, a.k, a.k2) else UpdateIfPolling(f.st, a.k2)
  }

  /** The effect of one step on the state. */
  ghost function Do(st: State, a: Action): State
    requires Inv(st) && Enabled(st, a)
  {
    match a
    case CtlAdd(_, _, _, _, _, _, _) => DoAdd(st, a)
    case CtlMod(_, _, _) => DoMod(st, a)
    case CtlDel(_, _) => DoDel(st, a)
    case Wait(t, k, k2) => EnterPoll(st, t, k, k2)
    case Wake(t, ok, packets) => st.(waiters := st.waiters[t := Woken(ok, packets)])
    case Resume(_, _, _, _) => DoResume(st, a)
  }

  // ---------- what the loops keep

  /** Threads are as they were, except for the interplay of completions and outstanding polls. */
  ghost predicate SameThreads(st: State, st': State) {
    st'.active == st.active && st'.waiters == st.waiters
  }

  lemma UpdateInflight(st: State, s: SockId, k: Kernel)
    requires s in st.socks && SizeOf(st.pool, st.socks[s].group) > 0
    ensures st.inflight <= Update(st, s, k).st.inflight
  {
    hide PollGroups.Without, PollPort.Delete;
    DeleteEffect(st, s, k);
  }

  lemma {:induction false} UpdateEventsKeeps(st: State, k: Kernel)
    requires Core(st)
    ensures var u := UpdateEvents(st, k);
      && Core(u.st) && SameThreads(st, u.st) && st.inflight <= u.st.inflight
      && (InterestInv(st) ==> InterestInv(u.st))
      && (if u.ok then u.st.updates == [] && !u.st.stuck else u.st.stuck)
    decreases |st.updates|
  {
    if st.updates == [] {
      StuckSame(st, false);
    } else {
      var s := st.updates[0];
      FirstIsLive(st);
      UpdateKeeps(st, s, k);
      UpdateInflight(st, s, k);
      var u := Update(st, s, k);
      hide PollGroups.Without, PollPort.Core, PollPort.Update, PollPort.InterestInv;
      if InterestInv(st) {
        if u.ok { OthersAttended(st, u.st, s); }
      }
      if u.ok {
        UpdateEventsKeeps(u.st, k);
      } else {
        StuckSame(u.st, true);
      }
    }
  }

  lemma StuckSame(st: State, stuck: bool)
    ensures Core(st) ==> Core(st.(stuck := stuck))
    ensures InterestInv(st) ==> InterestInv(st.(stuck := stuck))
  {
    hide PollPort.TreeInv, PollPort.GroupInv;
    var st' := st.(stuck := stuck);
    SameTree(st, st');
    assert forall s :: s in st.socks ==> Attended(st', s) == Attended(st, s);
  }

  lemma {:induction false} FeedAllKeeps(st: State, packets: seq<Packet>, k: Kernel)
    requires Core(st) && Deliverable(st, packets)
    ensures var f := FeedAll(st, packets, k);
      && Core(f.st) && SameThreads(st, f.st) && |f.events| <= |packets|
      && (InterestInv(st) ==> InterestInv(f.st))
      && (forall s ::
            s in st.inflight && (forall i :: 0 <= i < |packets| ==> packets[i].sock != s) ==> s in f.st.inflight)
    decreases |packets|
  {
    if packets != [] {
      hide PollPort.Core, PollPort.Feed, PollPort.InterestInv, Deliverable;
      FeedReady(st, packets, k);
      var p := packets[0];
      var f := Feed(st, p, k);
      FeedKeeps(st, p, k);
      FeedAllKeeps(f.st, packets[1..], k);
      if InterestInv(st) {
        FedInterest(st, f.st, p.sock);
      }
      FedRest(st, f.st, FeedAll(f.st, packets[1..], k).st, packets);
    }
  }

  lemma FedInterest(st: State, st': State, s: SockId)
    requires InterestInv(st) && Only(st, st', s)
    requires s in st'.socks ==> !st'.socks[s].deletePending && s in st'.updates
    ensures InterestInv(st')
  {
    OthersAttended(st, st', s);
  }

  lemma FedRest(st: State, st1: State, st': State, packets: seq<Packet>)
    requires packets != [] && Only(st, st1, packets[0].sock)
    requires forall s ::
      s in st1.inflight && (forall i :: 0 <= i < |packets[1..]| ==> packets[1..][i].sock != s) ==> s in st'.inflight
    ensures forall s ::
      s in st.inflight && (forall i :: 0 <= i < |packets| ==> packets[i].sock != s) ==> s in st'.inflight
  {
    assert forall i :: 0 <= i < |packets| - 1 ==> packets[1..][i] == packets[i + 1];
    forall s | s in st.inflight && (forall i :: 0 <= i < |packets| ==> packets[i].sock != s) ensures s in st'.inflight {
      assert packets[0].sock != s;
    }
  }

  lemma RegisteredIsLive(st: State, key: nat)
    requires Core(st) && key in st.tree
    ensures var s := st.tree[key];
      && s in st.socks && !st.socks[s].deletePending && SizeOf(st.pool, st.socks[s].group) > 0
      && (InterestInv(st) ==> Attended(st, s))
      && CoreBut(st, s)
  {
    hide PollGroups.Sound;
    var s := st.tree[key];
    assert InTree(st, s);
    GroupHeld(st, s);
    InflightOf(st, s);
  }

  lemma NewSockGroup(st: State, key: nat, s: SockId, g: GroupId)
    requires GroupInv(st) && s !in st.socks && g !in st.pool.sizes
    ensures GroupInv(SockNew(st, key, s, g))
  {
    hide PollGroups.Sound, PollGroups.Acquire, PollGroups.Release;
    var st', g0 := SockNew(st, key, s, g), Chosen(st.pool, g);
    AcquireSound(st.pool, g);
    SpareUnheld(st, g);
    if key in st.tree {
      ReleaseSound(Acquire(st.pool, g), g0);
      assert forall x :: x in st'.pool.sizes ==> st'.pool.sizes[x] == SizeOf(st.pool, x);
    } else {
      forall x | x in st'.pool.sizes ensures st'.pool.sizes[x] == |Holders(st'.socks, x)| {
        HoldersAdd(st.socks, s, st'.socks[s], x);
      }
    }
  }

  lemma SpareUnheld(st: State, g: GroupId)
    requires GroupInv(st) && g !in st.pool.sizes
    ensures Holders(st.socks, g) == {}
  {
  }

  lemma NewSockTree(st: State, key: nat, s: SockId, g: GroupId)
    requires TreeInv(st) && Sound(st.pool) && s !in st.socks && g !in st.pool.sizes && key !in st.tree
    ensures TreeInv(SockNew(st, key, s, g))
  {
    hide PollGroups.Sound, PollGroups.Acquire;
    var st' := SockNew(st, key, s, g);
    forall x | x in st'.socks ensures InTree(st', x) <==> !st'.socks[x].deletePending {
      if x != s {
        assert InTree(st, x) <==> !st.socks[x].deletePending;
      }
    }
  }

  lemma NewSockRest(st: State, key: nat, s: SockId, g: GroupId)
    requires QueueInv(st) && PollInv(st) && Sound(st.pool) && s !in st.socks && g !in st.pool.sizes && key !in st.tree
    ensures var st' := SockNew(st, key, s, g);
      && QueueInv(st') && PollInv(st') && Only(st, st', s) && SameThreads(st, st') && st'.inflight == st.inflight
      && s in st'.socks && !st'.socks[s].deletePending && st'.socks[s].pendingEvents == {}
  {
    hide PollGroups.Sound, PollGroups.Acquire, PollGroups.NoDup;
  }

  lemma NewSockKeeps(st: State, key: nat, s: SockId, g: GroupId)
    requires Core(st) && s !in st.socks && g !in st.pool.sizes && key !in st.tree
    ensures var st' := SockNew(st, key, s, g);
      && Core(st') && Only(st, st', s) && SameThreads(st, st') && st'.inflight == st.inflight
      && s in st'.socks && !st'.socks[s].deletePending && st'.socks[s].pendingEvents == {}
  {
    NewSockGroup(st, key, s, g);
    NewSockTree(st, key, s, g);
    NewSockRest(st, key, s, g);
    hide *;
  }

  /** A refused registration leaves at most an empty group behind. */
  lemma RefusedSockKeeps(st: State, key: nat, s: SockId, g: GroupId)
    requires Inv(st) && s !in st.socks && g !in st.pool.sizes && key in st.tree
    ensures Inv(SockNew(st, key, s, g)) && SockNew(st, key, s, g).(pool := st.pool) == st
  {
    NewSockGroup(st, key, s, g);
    SamePort(st, SockNew(st, key, s, g));
  }

  /** All but the pool of a state. */
  lemma SamePort(st: State, st': State)
    requires st'.(pool := st.pool) == st
    ensures TreeInv(st) ==> TreeInv(st')
    ensures QueueInv(st) ==> QueueInv(st')
    ensures PollInv(st) ==> PollInv(st')
    ensures InterestInv(st) ==> InterestInv(st')
    ensures WaiterInv(st) ==> WaiterInv(st')
    ensures FlushInv(st) ==> FlushInv(st')
  {
    assert forall s :: InTree(st, s) == InTree(st', s);
    assert forall s :: s in st.socks ==> Attended(st', s) == Attended(st, s);
    assert forall t, i :: Holds(st, t, i) == Holds(st', t, i);
    assert forall t, i :: Holds(st, t, i) ==> SockOf(st, t, i) == SockOf(st', t, i);
  }

  lemma ResumeReady(st: State, t: ThreadId)
    requires Inv(st) && t in st.waiters && st.waiters[t].Woken?
    ensures st.active > 0
    ensures var st1 := st.(active := st.active - 1, waiters := st.waiters - {t});
      Core(st1) && Deliverable(st1, st.waiters[t].packets) && (InterestInv(st) ==> InterestInv(st1))
  {
    var st1, packets := st.(active := st.active - 1, waiters := st.waiters - {t}), st.waiters[t].packets;
    assert t in st.waiters.Keys;
    forall i | 0 <= i < |packets| ensures packets[i].sock in st.inflight {
      assert Holds(st, t, i) && SockOf(st, t, i) == packets[i].sock;
    }
    forall i, j | 0 <= i < j < |packets| ensures packets[i].sock != packets[j].sock {
      assert Holds(st, t, i) && Holds(st, t, j);
      assert SockOf(st, t, i) != SockOf(st, t, j);
    }
    SameSocks(st, st1);
  }

  lemma SameSocks(st: State, st': State)
    requires st'.(active := st.active, waiters := st.waiters) == st
    ensures Core(st) ==> Core(st')
    ensures InterestInv(st) ==> InterestInv(st')
  {
    assert forall s :: InTree(st, s) == InTree(st', s);
    assert forall s :: s in st.socks ==> Attended(st', s) == Attended(st, s);
  }

  // ---------- every step keeps the invariant

  /** Inv at a point where the update queue may still have to be walked. */
  ghost predicate Settling(st: State) { Core(st) && InterestInv(st) && WaiterInv(st) }

  lemma WaiterKept(st: State, st': State)
    requires WaiterInv(st) && SameThreads(st, st') && st.inflight <= st'.inflight
    ensures WaiterInv(st')
  {
    assert forall t, i :: Holds(st, t, i) == Holds(st', t, i);
    assert forall t, i :: Holds(st, t, i) ==> SockOf(st, t, i) == SockOf(st', t, i);
  }

  lemma UpdateIfPollingInv(st: State, k: Kernel)
    requires Settling(st)
    ensures Inv(UpdateIfPolling(st, k)) && st.inflight <= UpdateIfPolling(st, k).inflight
  {
    hide PollPort.Core, PollPort.InterestInv, PollPort.WaiterInv, UpdateEvents;
    if st.active > 0 {
      UpdateEventsKeeps(st, k);
      WaiterKept(st, UpdateEvents(st, k).st);
    }
  }

  lemma EnterPollInv(st: State, t: ThreadId, k: Kernel, k2: Kernel)
    requires Settling(st) && t !in st.waiters
    ensures Inv(EnterPoll(st, t, k, k2)) && st.inflight <= EnterPoll(st, t, k, k2).inflight
  {
    hide PollPort.Core, PollPort.InterestInv, PollPort.WaiterInv, UpdateEvents, UpdateIfPolling;
    UpdateEventsKeeps(st, k);
    var u := UpdateEvents(st, k);
    WaiterKept(st, u.st);
    if u.ok {
      var st' := EnterPoll(st, t, k, k2);
      SameSocks(u.st, st');
      NewWaiter(u.st, st', t, Blocked);
    } else {
      UpdateIfPollingInv(u.st, k2);
    }
  }

  lemma NewWaiter(st: State, st': State, t: ThreadId, w: Waiter)
    requires WaiterInv(st) && t !in st.waiters && w.Blocked?
    requires st' == st.(active := st.active + 1, waiters := st.waiters[t := w])
    ensures WaiterInv(st')
  {
    assert st'.waiters.Keys == st.waiters.Keys + {t};
    assert forall x, i :: Holds(st', x, i) ==> Holds(st, x, i) && SockOf(st', x, i) == SockOf(st, x, i);
  }

  lemma FewerWaiters(st: State, st': State, t: ThreadId)
    requires WaiterInv(st) && t in st.waiters && st.active > 0
    requires st' == st.(active := st.active - 1, waiters := st.waiters - {t})
    ensures WaiterInv(st')
  {
    assert st'.waiters.Keys == st.waiters.Keys - {t};
    assert forall x, i :: Holds(st', x, i) ==> Holds(st, x, i) && SockOf(st', x, i) == SockOf(st, x, i);
  }

  lemma WakeKeeps(st: State, a: Action)
    requires Inv(st) && Enabled(st, a) && a.Wake?
    ensures Inv(Do(st, a))
  {
    var st' := Do(st, a);
    SameSocks(st, st');
    hide PollPort.Core, PollPort.InterestInv;
    assert st'.waiters.Keys == st.waiters.Keys;
    forall t, i | Holds(st', t, i) ensures SockOf(st', t, i) in st'.inflight {
      if t == a.t {
        assert SockOf(st', t, i) == a.packets[i].sock;
      } else {
        assert Holds(st, t, i) && SockOf(st', t, i) == SockOf(st, t, i);
      }
    }
    forall t, i, t', i' | Holds(st', t, i) && Holds(st', t', i') && (t != t' || i != i')
      ensures SockOf(st', t, i) != SockOf(st', t', i')
    {
      WokenDistinct(st, st', a, t, i, t', i');
    }
  }

  lemma WokenDistinct(st: State, st': State, a: Action, t: ThreadId, i: int, t': ThreadId, i': int)
    requires WaiterInv(st) && Enabled(st, a) && a.Wake? && st'.waiters == st.waiters[a.t := Woken(a.ok, a.packets)]
    requires Holds(st', t, i) && Holds(st', t', i') && (t != t' || i != i')
    ensures SockOf(st', t, i) != SockOf(st', t', i')
  {
    assert t != a.t ==> Holds(st, t, i) && SockOf(st', t, i) == SockOf(st, t, i);
    assert t' != a.t ==> Holds(st, t', i') && SockOf(st', t', i') == SockOf(st, t', i');
    assert t == a.t ==> SockOf(st', t, i) == a.packets[i].sock;
    assert t' == a.t ==> SockOf(st', t', i') == a.packets[i'].sock;
  }

  lemma CtlAddKeeps(st: State, a: Action)
    requires Inv(st) && Enabled(st, a) && a.CtlAdd?
    ensures Inv(Do(st, a)) && st.inflight <= Do(st, a).inflight
  {
    hide PollPort.TreeInv, PollPort.QueueInv, PollPort.PollInv, PollGroups.Sound,
         PollPort.InterestInv, PollPort.WaiterInv, PollPort.SetEvent, SockNew, UpdateIfPolling, Only, UpdateEvents;
    var CtlAdd(key, valid, ev, s, g, groupOk, k) := a;
    if !(key == 0 || !valid || (NeedsGroup(st.pool) && !groupOk)) {
      var st1 := SockNew(st, key, s, g);
      if key in st.tree {
        RefusedSockKeeps(st, key, s, g);
      } else {
        NewSockKeeps(st, key, s, g);
        SetEventKeeps(st1, s, ev);
        SetEventInflight(st1, s, ev);
        var st2 := SetEvent(st1, s, ev);
        OnlyTrans(st, st1, st2, s);
        SettleOne(st, st2, s);
        UpdateIfPollingInv(st2, k);
      }
    }
  }

  /** A step about one socket that stays attended, or was never dequeued, leaves a settling state. */
  lemma SettleOne(st: State, st': State, s: SockId)
    requires Inv(st) && Core(st') && Only(st, st', s)
    requires s in st'.socks && !st'.socks[s].deletePending ==> Attended(st', s)
    requires s in st.inflight ==> s in st'.inflight
    ensures Settling(st') && st.inflight <= st'.inflight
  {
    hide PollPort.Core, PollPort.WaiterInv;
    OthersAttended(st, st', s);
    forall x | x in st.inflight ensures x in st'.inflight { }
    WaiterKept(st, st');
  }

  lemma CtlModKeeps(st: State, a: Action)
    requires Inv(st) && Enabled(st, a) && a.CtlMod?
    ensures Inv(Do(st, a)) && st.inflight <= Do(st, a).inflight
  {
    hide PollPort.TreeInv, PollPort.QueueInv, PollPort.PollInv, PollGroups.Sound,
         PollPort.InterestInv, PollPort.WaiterInv, PollPort.SetEvent, UpdateIfPolling, Only, UpdateEvents;
    if a.key in st.tree {
      var s := st.tree[a.key];
      RegisteredIsLive(st, a.key);
      SetEventKeeps(st, s, a.ev);
      SetEventInflight(st, s, a.ev);
      SettleOne(st, SetEvent(st, s, a.ev), s);
      UpdateIfPollingInv(SetEvent(st, s, a.ev), a.k);
    }
  }

  lemma CtlDelKeeps(st: State, a: Action)
    requires Inv(st) && Enabled(st, a) && a.CtlDel?
    ensures Inv(Do(st, a)) && st.inflight <= Do(st, a).inflight
  {
    hide PollPort.TreeInv, PollPort.QueueInv, PollPort.PollInv, PollGroups.Sound,
         PollPort.InterestInv, PollPort.WaiterInv, PollPort.Delete, PollGroups.Without;
    if a.key in st.tree {
      var s := st.tree[a.key];
      RegisteredIsLive(st, a.key);
      DeleteKeeps(st, s, a.k);
      SettleOne(st, Delete(st, s, a.k), s);
      assert st.updates == [] ==> Without(st.updates, s) == [];
    }
  }

  /** Polls whose completion thread `t` does not hold stay outstanding across a step. */
  ghost predicate KeepsOutstanding(st: State, st': State, t: ThreadId) {
    forall s :: s in st.inflight && (forall i :: Holds(st, t, i) ==> SockOf(st, t, i) != s) ==> s in st'.inflight
  }

  lemma ResumeKeeps(st: State, a: Action)
    requires Inv(st) && Enabled(st, a) && a.Resume?
    ensures Inv(Do(st, a)) && KeepsOutstanding(st, Do(st, a), a.t)
  {
    hide PollPort.Core, PollPort.InterestInv, PollPort.WaiterInv, UpdateIfPolling, FeedAll, EnterPoll;
    var t, w := a.t, st.waiters[a.t];
    ResumeReady(st, t);
    var st1 := st.(active := st.active - 1, waiters := st.waiters - {t});
    FewerWaiters(st, st1, t);
    if !w.ok {
      UpdateIfPollingInv(st1, a.k2);
    } else {
      var f := FeedAll(st1, w.packets, a.k);
      FeedAllKeeps(st1, w.packets, a.k);
      FedWaiters(st, st1, f.st, t);
      FedOutstanding(st, f.st, t);
      if f.events == [] && a.again {
        EnterPollInv(f.st, t, a.k, a.k2);
      } else {
        UpdateIfPollingInv(f.st, a.k2);
      }
    }
  }

  lemma FedWaiters(st: State, st1: State, st': State, t: ThreadId)
    requires WaiterInv(st) && t in st.waiters && st.waiters[t].Woken?
    requires WaiterInv(st1) && st1 == st.(active := st.active - 1, waiters := st.waiters - {t})
    requires SameThreads(st1, st')
    requires forall s ::
      s in st1.inflight && (forall i :: 0 <= i < |st.waiters[t].packets| ==> st.waiters[t].packets[i].sock != s)
      ==> s in st'.inflight
    ensures WaiterInv(st')
  {
    forall x, i | Holds(st', x, i)
      ensures Holds(st1, x, i) && SockOf(st', x, i) == SockOf(st1, x, i) && SockOf(st', x, i) in st'.inflight
    {
      assert Holds(st, x, i) && SockOf(st, x, i) == SockOf(st', x, i);
      forall j | 0 <= j < |st.waiters[t].packets| ensures st.waiters[t].packets[j].sock != SockOf(st', x, i) {
        assert Holds(st, t, j) && SockOf(st, t, j) == st.waiters[t].packets[j].sock;
      }
    }
  }

  lemma FedOutstanding(st: State, st': State, t: ThreadId)
    requires t in st.waiters && st.waiters[t].Woken?
    requires forall s ::
      s in st.inflight && (forall i :: 0 <= i < |st.waiters[t].packets| ==> st.waiters[t].packets[i].sock != s)
      ==> s in st'.inflight
    ensures KeepsOutstanding(st, st', t)
  {
    forall s | s in st.inflight && (forall i :: Holds(st, t, i) ==> SockOf(st, t, i) != s) ensures s in st'.inflight {
      forall i | 0 <= i < |st.waiters[t].packets| ensures st.waiters[t].packets[i].sock != s {
        assert Holds(st, t, i) && SockOf(st, t, i) == st.waiters[t].packets[i].sock;
      }
    }
  }

  /** The invariant survives every step of every thread and of the kernel. */
  lemma StepKeeps(st: State, a: Action)
    requires Inv(st) && Enabled(st, a)
    ensures Inv(Do(st, a))
    ensures if a.Resume? then KeepsOutstanding(st, Do(st, a), a.t) else st.inflight <= Do(st, a).inflight
  {
    match a
    case CtlAdd(_, _, _, _, _, _, _) => CtlAddKeeps(st, a);
    case CtlMod(_, _, _) => CtlModKeeps(st, a);
    case CtlDel(_, _) => CtlDelKeeps(st, a);
    case Wait(t, k, k2) => EnterPollInv(st, t, k, k2);
    case Wake(_, _, _) => WakeKeeps(st, a);
    case Resume(_, _, _, _) => ResumeKeeps(st, a);
  }

  // ---------- runs

  /** port_new */
  const INITIAL: State := State(map[], map[], [], [], Pool([], map[]), 0, false, {}, map[])

  lemma InitialInv()
    ensures Inv(INITIAL)
  {
    assert SplitAt(INITIAL.pool, 0);
  }

  /** `states` is what a run from a new port goes through when the threads and the kernel take `actions`. */
  ghost predicate IsRun(states: seq<State>, actions: seq<Action>) {
    && |states| == |actions| + 1 && states[0] == INITIAL
    && (forall i :: 0 <= i < |actions| ==> StepAt(states, actions, i))
  }

  ghost predicate StepAt(states: seq<State>, actions: seq<Action>, i: nat)
    requires |states| == |actions| + 1 && i < |actions|
  {
    Inv(states[i]) ==> Enabled(states[i], actions[i]) && states[i + 1] == Do(states[i], actions[i])
  }

  lemma {:induction false} RunInv(states: seq<State>, actions: seq<Action>, n: nat)
    requires IsRun(states, actions) && n < |states|
    ensures Inv(states[n])
  {
    hide Do, Inv, Enabled;
    if n == 0 {
      InitialInv();
    } else {
      RunInv(states, actions, n - 1);
      assert StepAt(states, actions, n - 1);
      StepKeeps(states[n - 1], actions[n - 1]);
    }
  }

  /** No lost interest: in every state of every run, each registered socket is queued for an update, or has a
      pending poll that covers the known events its user wants, or has a cancelled poll still to come back;
      and while some thread waits nothing is left unsubmitted unless the kernel refused the last attempt. */
  lemma NoLostInterest(states: seq<State>, actions: seq<Action>, n: nat)
    requires IsRun(states, actions) && n < |states|
    ensures var st := states[n];
      && (forall key :: key in st.tree ==>
            var s := st.tree[key];
            && s in st.socks
            && (|| s in st.updates
                || (st.socks[s].status == Pending && s in st.inflight
                    && st.socks[s].userEvents * KNOWN_EVENTS <= st.socks[s].pendingEvents)
                || (st.socks[s].status == Cancelled && s in st.inflight)))
      && (st.waiters.Keys != {} && !st.stuck ==> st.updates == [])
  {
    RunInv(states, actions, n);
    var st := states[n];
    forall key | key in st.tree ensures st.tree[key] in st.socks && Attended(st, st.tree[key]) {
      RegisteredIsLive(st, key);
    }
    assert |st.waiters.Keys| == |st.waiters|;
  }

  /** Lifetime safety: in every state of every run a poll is outstanding exactly when its socket's status is not
      idle, a socket with an outstanding poll or an undelivered completion is still allocated, no socket is in
      both queues, and a delete-pending one is neither in the update queue nor in the tree. */
  lemma LifetimeSafety(states: seq<State>, actions: seq<Action>, n: nat)
    requires IsRun(states, actions) && n < |states|
    ensures var st := states[n];
      && (forall s :: s in st.inflight <==> s in st.socks && st.socks[s].status != Idle)
      && (forall t, i :: Holds(st, t, i) ==> SockOf(st, t, i) in st.socks)
      && (forall s :: s in st.updates ==> s !in st.deleted)
      && (forall s :: s in st.socks && st.socks[s].deletePending ==>
            s !in st.updates && s in st.deleted && forall key :: key in st.tree ==> st.tree[key] != s)
  {
    RunInv(states, actions, n);
    var st := states[n];
    hide PollPort.GroupInv, PollPort.InterestInv;
    forall s, key | s in st.socks && st.socks[s].deletePending && key in st.tree ensures st.tree[key] != s {
      assert InTree(st, s) <==> !st.socks[s].deletePending;
    }
  }

  /** A socket is freed only when none of its polls is outstanding: the step that frees it either found it idle,
      or is the one in which the thread holding its completion feeds that completion back. */
  lemma FreedOnlyWhenQuiet(states: seq<State>, actions: seq<Action>, n: nat, s: SockId)
    requires IsRun(states, actions) && n < |actions|
    requires s in states[n].socks && s !in states[n + 1].socks
    ensures s !in states[n + 1].inflight
    ensures s in states[n].inflight ==>
      actions[n].Resume? && exists i :: Holds(states[n], actions[n].t, i) && SockOf(states[n], actions[n].t, i) == s
  {
    RunInv(states, actions, n);
    RunInv(states, actions, n + 1);
    assert StepAt(states, actions, n);
    StepKeeps(states[n], actions[n]);
    hide PollPort.TreeInv, PollPort.QueueInv, PollPort.GroupInv, PollPort.InterestInv, PollPort.WaiterInv, Do;
  }

  /** Poll groups: in every state of every run each size counts the sockets holding the group, is at most 32, and
      poll_group_acquire makes a new group exactly when every existing one is full. */
  lemma GroupsExact(states: seq<State>, actions: seq<Action>, n: nat)
    requires IsRun(states, actions) && n < |states|
    ensures var st := states[n];
      && Sound(st.pool)
      && (forall g :: g in st.pool.sizes ==> st.pool.sizes[g] == |Holders(st.socks, g)| <= MAX_GROUP_SIZE)
      && (NeedsGroup(st.pool) <==> forall g :: g in st.pool.sizes ==> |Holders(st.socks, g)| == MAX_GROUP_SIZE)
  {
    RunInv(states, actions, n);
    NeedsGroupMeansFull(states[n].pool);
  }
}
