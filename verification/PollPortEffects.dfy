/** What the three calls do to the interest in a socket, in every run, and when a socket is silent. */
module PollPortEffects {
  import opened PollGroups
  import opened PollPort
  import opened PollPortSteps
  import opened PollPortRuns
  import opened PollPortEvents

  // ---------- one step

  /** The interest of no socket but `x` is touched, except that one-shot interests end with their report. */
  ghost predicate Others(a: map<SockId, Sock>, b: map<SockId, Sock>, x: SockId) {
    forall s :: s in b && s != x ==> s in a && Fired(a[s], b[s])
  }

  /** The socket has the interest that `ev` asks for; errors and hang-ups always belong to it. */
  ghost predicate Wants(sock: Sock, key: nat, ev: Event) {
    sock.key == key && sock.userEvents == ev.events + {EPOLLERR, EPOLLHUP} && sock.userData == ev.data
  }

  lemma ResumeTames(st: State, a: Action)
    requires Inv(st) && Enabled(st, a) && a.Resume?
    ensures Tamed(st.socks, DoResume(st, a).socks)
  {
    hide PollPort.Core, PollPort.InterestInv, PollPort.WaiterInv, Deliverable, Tamed, Worked, FeedAll, Due, EventsOf;
    hide EnterPoll, UpdateIfPolling;
    ResumeReady(st, a.t);
    var packets := st.waiters[a.t].packets;
    var st1 := st.(active := st.active - 1, waiters := st.waiters - {a.t});
    if !st.waiters[a.t].ok {
      IfPollingTames(st1, a.k2);
    } else {
      FeedAllKeeps(st1, packets, a.k);
      FeedAllDue(st1, packets, a.k);
      var f := FeedAll(st1, packets, a.k);
      IfPollingTames(f.st, a.k2);
      EnterPollTames(f.st, a.t, a.k, a.k2);
      TamedTrans(st.socks, f.st.socks, DoResume(st, a).socks);
    }
  }

  lemma IfPollingTames(st: State, k: Kernel)
    requires Core(st)
    ensures Tamed(st.socks, UpdateIfPolling(st, k).socks)
  {
    hide PollPort.Core, Worked, Tamed, UpdateIfPolling;
    IfPollingWorks(st, k);
    WorkedTamed(st.socks, UpdateIfPolling(st, k).socks, k);
  }

  /** Setting an interest and submitting what is queued. */
  lemma SettingWorks(st: State, s: SockId, ev: Event, k: Kernel)
    requires s in st.socks && Core(SetEvent(st, s, ev))
    ensures var b := UpdateIfPolling(SetEvent(st, s, ev), k).socks;
      && Others(st.socks, b, s)
      && (s in b ==> Wants(b[s], st.socks[s].key, ev) && (Asks(st.socks[s]) ==> Asks(b[s])))
      && (!st.socks[s].deletePending && (s in b ==> b[s].deletePending) ==>
            st.active > 0 && k.submit(s) == InvalidHandle)
  {
    var st1 := SetEvent(st, s, ev);
    SetEventSocks(st, s, ev);
    IfPollingWorks(st1, k);
    hide PollPort.Core, PollPort.SetEvent, UpdateEvents, Asks;
  }

  lemma SetEventSocks(st: State, s: SockId, ev: Event)
    requires s in st.socks
    ensures var st1 := SetEvent(st, s, ev);
      && st1.active == st.active && st1.tree == st.tree && s in st1.socks && st1.socks == st.socks[s := st1.socks[s]]
      && Wants(st1.socks[s], st.socks[s].key, ev) && st1.socks[s].deletePending == st.socks[s].deletePending
      && (Asks(st.socks[s]) ==> Asks(st1.socks[s]))
  {
    hide ToAfd;
  }

  lemma AddStep(st: State, a: Action)
    requires Inv(st) && Enabled(st, a) && a.CtlAdd?
    ensures var b := Do(st, a).socks;
      && Others(st.socks, b, a.newSock)
      && (a.newSock in b ==> a.key !in st.tree && Wants(b[a.newSock], a.key, a.ev) && Asks(b[a.newSock]))
  {
    hide PollPort.TreeInv, PollPort.QueueInv, PollPort.PollInv, PollPort.InterestInv, PollGroups.Sound;
    hide PollPort.WaiterInv, PollPort.SetEvent, UpdateIfPolling, Acquire, Release, SockNew, Asks, Others, Only, Wants;
    NoneTouched(st.socks, a.newSock);
    if !(a.key == 0 || !a.valid || (NeedsGroup(st.pool) && !a.groupOk)) {
      var st1 := SockNew(st, a.key, a.newSock, a.newGroup);
      NewSocks(st, a.key, a.newSock, a.newGroup);
      if a.key !in st.tree {
        NewSockKeeps(st, a.key, a.newSock, a.newGroup);
        SetEventKeeps(st1, a.newSock, a.ev);
        SettingWorks(st1, a.newSock, a.ev, a.k);
        OthersNew(st.socks, st1.socks, Do(st, a).socks, a.newSock);
      }
    }
  }

  lemma OthersNew(a: map<SockId, Sock>, a': map<SockId, Sock>, b: map<SockId, Sock>, x: SockId)
    requires x in a' && a' == a[x := a'[x]] && Others(a', b, x)
    ensures Others(a, b, x)
  {
    hide Fired;
  }

  lemma NewSocks(st: State, key: nat, s: SockId, g: GroupId)
    requires Sound(st.pool) && g !in st.pool.sizes && s !in st.socks
    ensures var st1 := SockNew(st, key, s, g);
      && st1.active == st.active
      && if key in st.tree then st1.socks == st.socks && st1.tree == st.tree
         else
           && s in st1.socks && st1.socks == st.socks[s := st1.socks[s]] && st1.tree == st.tree[key := s]
           && st1.socks[s].key == key && Asks(st1.socks[s]) && !st1.socks[s].deletePending
  {
    hide PollGroups.Sound, Acquire, Release;
  }

  lemma NoneTouched(a: map<SockId, Sock>, x: SockId)
    ensures Others(a, a, x)
  {
    hide Asks;
  }

  lemma ModStep(st: State, a: Action)
    requires Inv(st) && a.CtlMod? && a.key in st.tree
    ensures var s, b := st.tree[a.key], DoMod(st, a).socks;
      && s in st.socks && Others(st.socks, b, s)
      && (s in b ==> Wants(b[s], a.key, a.ev) && (Asks(st.socks[s]) ==> Asks(b[s])))
  {
    hide PollPort.QueueInv, PollPort.PollInv, PollPort.GroupInv, PollPort.InterestInv, PollGroups.Sound;
    hide PollPort.WaiterInv, PollPort.SetEvent, UpdateIfPolling, Others, Asks;
    var s := st.tree[a.key];
    RegisteredIsLive(st, a.key);
    SetEventKeeps(st, s, a.ev);
    SettingWorks(st, s, a.ev, a.k);
  }

  lemma DelStep(st: State, a: Action)
    requires Inv(st) && a.CtlDel?
    ensures Tamed(st.socks, DoDel(st, a).socks)
  {
    hide PollPort.Core, PollPort.InterestInv, PollPort.WaiterInv, PollPort.Delete, Tamed;
    SameWorks(st.socks, Kernel(_ => Accepted, _ => true));
    if a.key in st.tree {
      RegisteredIsLive(st, a.key);
      DeleteTames(st, st.tree[a.key], a.k);
    }
  }

  /** Every other step leaves all interests alone. */
  lemma OtherStep(st: State, a: Action)
    requires Inv(st) && Enabled(st, a) && !a.CtlAdd? && (a.CtlMod? ==> a.key !in st.tree)
    ensures Tamed(st.socks, Do(st, a).socks)
  {
    hide PollPort.Core, PollPort.InterestInv, PollPort.WaiterInv, Tamed, DoResume, DoDel, EnterPoll;
    SameWorks(st.socks, Kernel(_ => Accepted, _ => true));
    match a
    case CtlMod(_, _, _) =>
    case CtlDel(_, _) => DelStep(st, a);
    case Wait(t, k, k2) => EnterPollTames(st, t, k, k2);
    case Wake(_, _, _) =>
    case Resume(_, _, _, _) => ResumeTames(st, a);
  }

  // ---------- registrations through a step

  /** A socket that is registered after the step, and is not `x`, was registered before under the same handle. */
  lemma TreeFollows(st: State, st': State, x: SockId, key: nat)
    requires TreeInv(st) && TreeInv(st') && Others(st.socks, st'.socks, x)
    requires key in st'.tree && st'.tree[key] != x
    ensures Followed(st, st', key)
  {
    hide Asks;
    var s := st'.tree[key];
    assert InTree(st', s);
    assert InTree(st, s);
  }

  ghost predicate Followed(st: State, st': State, key: nat)
    requires key in st'.tree
  {
    var s := st'.tree[key];
    && key in st.tree && st.tree[key] == s && s in st.socks && s in st'.socks
    && !st.socks[s].deletePending && Fired(st.socks[s], st'.socks[s])
  }

  /** A step that is no addition and no change under this handle. */
  ghost predicate Apart(a: Action, key: nat) { !(a.CtlAdd? && a.key == key) && !(a.CtlMod? && a.key == key) }

  lemma InvTree(st: State)
    requires Inv(st)
    ensures TreeInv(st)
  {
  }

  lemma StepFollows(st: State, a: Action, key: nat)
    requires Inv(st) && Enabled(st, a) && Apart(a, key) && key in Do(st, a).tree
    ensures Followed(st, Do(st, a), key)
  {
    hide Inv, Enabled, Do, Followed, Others, Fired, Wants, Asks;
    var st' := Do(st, a);
    StepKeeps(st, a);
    InvTree(st);
    InvTree(st');
    assert st'.socks[st'.tree[key]].key == key;
    if a.CtlAdd? {
      AddStep(st, a);
      WantsKey(st'.socks, a.newSock, a.key, a.ev);
      TreeFollows(st, st', a.newSock, key);
    } else if a.CtlMod? && a.key in st.tree {
      ModStep(st, a);
      DoIsMod(st, a);
      WantsKey(st'.socks, st.tree[a.key], a.key, a.ev);
      TreeFollows(st, st', st.tree[a.key], key);
    } else {
      OtherStep(st, a);
      var x := st'.tree[key] + 1;
      TamedOthers(st.socks, st'.socks, x);
      TreeFollows(st, st', x, key);
    }
  }

  lemma WantsKey(b: map<SockId, Sock>, s: SockId, key: nat, ev: Event)
    ensures s in b && Wants(b[s], key, ev) ==> b[s].key == key
  {
  }

  lemma DoIsMod(st: State, a: Action)
    requires Inv(st) && Enabled(st, a) && a.CtlMod?
    ensures Do(st, a) == DoMod(st, a)
  {
  }

  lemma TamedOthers(a: map<SockId, Sock>, b: map<SockId, Sock>, x: SockId)
    requires Tamed(a, b)
    ensures Others(a, b, x)
  {
    hide Fired;
  }

  // ---------- reports come from registered sockets

  /** The event is part of what the socket registered under its handle wants. */
  ghost predicate Wanted(st: State, x: Told) {
    && x.key in st.tree && st.tree[x.key] in st.socks
    && x.event.data == st.socks[st.tree[x.key]].userData
    && x.event.events != {} && x.event.events <= st.socks[st.tree[x.key]].userEvents
  }

  lemma {:induction false} DueWanted(st: State, packets: seq<Packet>, x: Told)
    requires TreeInv(st) && Known(st.socks, packets) && x in Due(st.socks, packets)
    ensures Wanted(st, x)
    decreases |packets|
  {
    var s, r := packets[0].sock, packets[0].report;
    if x !in Due(st.socks, packets[1..]) {
      assert Reportable(st.socks[s], r) && x.event.events == Arisen(st.socks[s], r);
      assert InTree(st, s);
      var e :| e in st.socks[s].userEvents && Happens(r, e);
      assert e in Arisen(st.socks[s], r);
    } else {
      DueWanted(st, packets[1..], x);
    }
  }

  lemma ReportsWanted(st: State, a: Action, x: Told)
    requires Inv(st) && Enabled(st, a) && x in Handed(st, a)
    ensures Wanted(st, x)
  {
    hide Due, Wanted, Known;
    InvTree(st);
    HeldKnown(st, a.t);
    DueWanted(st, st.waiters[a.t].packets, x);
  }

  // ---------- runs

  /** The step is one of the run. */
  lemma RunStep(states: seq<State>, actions: seq<Action>, n: nat)
    requires IsRun(states, actions) && n < |actions|
    ensures Inv(states[n]) && Enabled(states[n], actions[n]) && states[n + 1] == Do(states[n], actions[n])
    ensures Inv(states[n + 1])
  {
    hide Do, Inv, Enabled;
    RunInv(states, actions, n);
    RunInv(states, actions, n + 1);
    assert StepAt(states, actions, n);
  }

  /** EPOLL_CTL_DEL of an unknown handle does nothing. Of a registered one it ends the registration and touches no
      other: the socket is freed if no poll of it is outstanding, and else kept only until that comes back. */
  lemma Deleted(states: seq<State>, actions: seq<Action>, n: nat)
    requires IsRun(states, actions) && n < |actions| && actions[n].CtlDel?
    ensures var st, st', key := states[n], states[n + 1], actions[n].key;
      if key !in st.tree then st' == st
      else
        && key !in st'.tree && st.tree[key] in st.socks
        && (forall other :: other != key && other in st.tree ==> SameThere(st, st', other))
        && var s := st.tree[key];
           if st.socks[s].status == Idle then s !in st'.socks
           else s in st'.socks && st'.socks[s].deletePending && s in st'.deleted
  {
    RunStep(states, actions, n);
    var st, a := states[n], actions[n];
    hide IsRun, Inv, Enabled;
    DelIs(st, a);
    if a.key in st.tree {
      DelEffect(st, a);
    }
  }

  /** The registration under this handle is what it was, with the same socket in the same state. */
  ghost predicate SameThere(st: State, st': State, key: nat)
    requires key in st.tree
  {
    var s := st.tree[key];
    key in st'.tree && st'.tree[key] == s && s in st.socks && s in st'.socks && st'.socks[s] == st.socks[s]
  }

  lemma DelIs(st: State, a: Action)
    requires Inv(st) && Enabled(st, a) && a.CtlDel?
    ensures Do(st, a) == DoDel(st, a) && (a.key !in st.tree ==> Do(st, a) == st)
  {
  }

  lemma DelEffect(st: State, a: Action)
    requires Inv(st) && a.CtlDel? && a.key in st.tree
    ensures var s, st' := st.tree[a.key], DoDel(st, a);
      && a.key !in st'.tree && s in st.socks
      && (forall other :: other != a.key && other in st.tree ==> SameThere(st, st', other))
      && (if st.socks[s].status == Idle then s !in st'.socks
          else s in st'.socks && st'.socks[s].deletePending && s in st'.deleted)
  {
    hide PollPort.Delete, PollPort.Core, PollPort.InterestInv, PollPort.WaiterInv, Only, CoreBut, SameThere, Without;
    var s, st' := st.tree[a.key], DoDel(st, a);
    RegisteredIsLive(st, a.key);
    DeleteKeeps(st, s, a.k);
    InvTree(st);
    KeyOf(st, a.key);
    DeletedTree(st, s, a.k);
    DelOthers(st, st', a.key);
    Parked(st', s);
  }

  lemma KeyOf(st: State, key: nat)
    requires TreeInv(st) && key in st.tree
    ensures st.tree[key] in st.socks && st.socks[st.tree[key]].key == key
  {
  }

  lemma Parked(st: State, s: SockId)
    requires Core(st)
    ensures s in st.socks && st.socks[s].deletePending ==> s in st.deleted
  {
  }

  lemma DelOthers(st: State, st': State, key: nat)
    requires TreeInv(st) && key in st.tree && Only(st, st', st.tree[key]) && st'.tree == st.tree - {key}
    ensures forall other :: other != key && other in st.tree ==> SameThere(st, st', other)
  {
    forall other | other != key && other in st.tree
      ensures SameThere(st, st', other)
    {
      KeyOf(st, other);
      KeyOf(st, key);
    }
  }

  lemma DeletedTree(st: State, s: SockId, k: Kernel)
    requires s in st.socks && SizeOf(st.pool, st.socks[s].group) > 0 && !st.socks[s].deletePending
    ensures Delete(st, s, k).tree == st.tree - {st.socks[s].key}
  {
    hide PollGroups.Without, PollGroups.Release;
  }

  /** After its deletion a handle is not registered, and nothing is reported for it, before it is added again. */
  lemma {:induction false} DeletedSilent(states: seq<State>, actions: seq<Action>, n: nat, m: nat, key: nat)
    requires IsRun(states, actions) && n < m < |actions| && actions[n].CtlDel? && actions[n].key == key
    requires NoAdd(actions, n, m, key)
    ensures Inv(states[m]) && Enabled(states[m], actions[m]) && key !in states[m].tree
    ensures forall x | x in Handed(states[m], actions[m]) :: x.key != key
  {
    RunStep(states, actions, m);
    GoneStays(states, actions, n, m, key);
    hide IsRun, Inv, Enabled, Handed;
    forall x | x in Handed(states[m], actions[m])
      ensures x.key != key
    {
      ReportsWanted(states[m], actions[m], x);
    }
  }

  lemma DeletedGone(states: seq<State>, actions: seq<Action>, n: nat)
    requires IsRun(states, actions) && n < |actions| && actions[n].CtlDel?
    ensures actions[n].key !in states[n + 1].tree
  {
    Deleted(states, actions, n);
    hide IsRun, SameThere;
  }

  /** Between the two steps the handle is not added. */
  ghost predicate NoAdd(actions: seq<Action>, n: nat, m: nat, key: nat)
    requires m <= |actions|
  {
    forall i :: n < i < m ==> !(actions[i].CtlAdd? && actions[i].key == key)
  }

  lemma NoAddBefore(actions: seq<Action>, n: nat, m: nat, key: nat)
    requires n + 1 < m <= |actions| && NoAdd(actions, n, m, key)
    ensures NoAdd(actions, n, m - 1, key) && !(actions[m - 1].CtlAdd? && actions[m - 1].key == key)
  {
  }

  lemma {:induction false} GoneStays(states: seq<State>, actions: seq<Action>, n: nat, m: nat, key: nat)
    requires IsRun(states, actions) && n < m <= |actions| && actions[n].CtlDel? && actions[n].key == key
    requires NoAdd(actions, n, m, key)
    ensures key !in states[m].tree
    decreases m
  {
    assert |states| == |actions| + 1;
    hide IsRun, Inv, Enabled, Do, NoAdd;
    if m == n + 1 {
      DeletedGone(states, actions, n);
    } else {
      NoAddBefore(actions, n, m, key);
      GoneStays(states, actions, n, m - 1, key);
      RunStep(states, actions, m - 1);
      StaysGone(states[m - 1], actions[m - 1], key);
    }
  }

  lemma StaysGone(st: State, a: Action, key: nat)
    requires Inv(st) && Enabled(st, a) && key !in st.tree && !(a.CtlAdd? && a.key == key)
    ensures key !in Do(st, a).tree
  {
    if a.CtlMod? && a.key == key {
      DoIsMod(st, a);
    } else if key in Do(st, a).tree {
      hide Inv, Enabled, Do;
      StepFollows(st, a, key);
    }
  }

  // ---------- EPOLL_CTL_ADD and EPOLL_CTL_MOD

  /** The handle is registered with the interest that `ev` asks for, unless the kernel refuses it at once. */
  ghost predicate Registered(st: State, st': State, key: nat, s: SockId, ev: Event, k: Kernel) {
    if key in st'.tree then st'.tree[key] == s && s in st'.socks && Wants(st'.socks[s], key, ev)
    else st.active > 0 && k.submit(s) == InvalidHandle
  }

  /** EPOLL_CTL_ADD of no valid socket, without a group for it, or of a handle that is registered already, registers
      nothing. Otherwise the handle is registered with the interest asked for, unless the kernel refuses it at once. */
  lemma Added(states: seq<State>, actions: seq<Action>, n: nat)
    requires IsRun(states, actions) && n < |actions| && actions[n].CtlAdd?
    ensures var st, st', a := states[n], states[n + 1], actions[n];
      && Inv(st)
      && if a.key == 0 || !a.valid || (NeedsGroup(st.pool) && !a.groupOk) then st' == st
         else if a.key in st.tree then st'.(pool := st.pool) == st
         else Registered(st, st', a.key, a.newSock, a.ev, a.k)
  {
    RunStep(states, actions, n);
    hide IsRun;
    AddRegisters(states[n], actions[n]);
  }

  lemma AddRegisters(st: State, a: Action)
    requires Inv(st) && Enabled(st, a) && a.CtlAdd?
    ensures var st' := Do(st, a);
      if a.key == 0 || !a.valid || (NeedsGroup(st.pool) && !a.groupOk) then st' == st
      else if a.key in st.tree then st'.(pool := st.pool) == st
      else Registered(st, st', a.key, a.newSock, a.ev, a.k)
  {
    hide PollPort.TreeInv, PollPort.QueueInv, PollPort.PollInv, PollPort.InterestInv, PollGroups.Sound;
    hide PollPort.WaiterInv, PollPort.SetEvent, UpdateIfPolling, Acquire, Release, SockNew, Asks, Others, Only;
    hide Registered, Wants;
    if !(a.key == 0 || !a.valid || (NeedsGroup(st.pool) && !a.groupOk)) {
      var st1 := SockNew(st, a.key, a.newSock, a.newGroup);
      NewSocks(st, a.key, a.newSock, a.newGroup);
      if a.key in st.tree {
        RefusedSockKeeps(st, a.key, a.newSock, a.newGroup);
      } else {
        NewSockKeeps(st, a.key, a.newSock, a.newGroup);
        SetEventKeeps(st1, a.newSock, a.ev);
        CtlAddKeeps(st, a);
        KeyIsOf(st1, a.key);
        SettingRegisters(st1, a.key, a.ev, a.k);
        SameActive(st, st1, Do(st, a), a.key, a.newSock, a.ev, a.k);
      }
    }
  }

  lemma SameActive(st: State, st1: State, st': State, key: nat, s: SockId, ev: Event, k: Kernel)
    requires st1.active == st.active && Registered(st1, st', key, s, ev, k)
    ensures Registered(st, st', key, s, ev, k)
  {
  }

  lemma KeyIsOf(st: State, key: nat)
    requires Core(st) && key in st.tree
    ensures st.tree[key] in st.socks && st.socks[st.tree[key]].key == key && TreeInv(st)
    ensures !st.socks[st.tree[key]].deletePending
  {
    hide PollPort.QueueInv, PollPort.PollInv, PollPort.GroupInv;
    assert InTree(st, st.tree[key]);
  }

  lemma SettingRegisters(st: State, key: nat, ev: Event, k: Kernel)
    requires Core(st) && key in st.tree && st.tree[key] in st.socks && Core(SetEvent(st, st.tree[key], ev))
    requires TreeInv(UpdateIfPolling(SetEvent(st, st.tree[key], ev), k))
    ensures Registered(st, UpdateIfPolling(SetEvent(st, st.tree[key], ev), k), key, st.tree[key], ev, k)
  {
    hide PollPort.Core, PollPort.SetEvent, UpdateIfPolling, Asks, Wants, Fired;
    var s := st.tree[key];
    var st' := UpdateIfPolling(SetEvent(st, s, ev), k);
    KeyIsOf(st, key);
    SettingWorks(st, s, ev, k);
    WantsKey(st'.socks, s, key, ev);
    if key in st'.tree && st'.tree[key] != s {
      TreeFollows(st, st', s, key);
    }
    if s in st'.socks && !st'.socks[s].deletePending {
      assert InTree(st', s);
    }
  }

  /** EPOLL_CTL_MOD of an unknown handle does nothing; of a registered one it replaces interest and data. */
  lemma Modified(states: seq<State>, actions: seq<Action>, n: nat)
    requires IsRun(states, actions) && n < |actions| && actions[n].CtlMod?
    ensures var st, st', a := states[n], states[n + 1], actions[n];
      if a.key !in st.tree then st' == st else Registered(st, st', a.key, st.tree[a.key], a.ev, a.k)
  {
    RunStep(states, actions, n);
    hide IsRun;
    ModRegisters(states[n], actions[n]);
  }

  lemma ModRegisters(st: State, a: Action)
    requires Inv(st) && Enabled(st, a) && a.CtlMod?
    ensures var st' := Do(st, a);
      if a.key !in st.tree then st' == st else Registered(st, st', a.key, st.tree[a.key], a.ev, a.k)
  {
    hide PollPort.Core, PollPort.InterestInv, PollPort.WaiterInv, PollPort.SetEvent, UpdateIfPolling, Registered, Only;
    if a.key in st.tree {
      RegisteredIsLive(st, a.key);
      SetEventKeeps(st, st.tree[a.key], a.ev);
      CtlModKeeps(st, a);
      InvTree(Do(st, a));
      SettingRegisters(st, a.key, a.ev, a.k);
    }
  }
}
