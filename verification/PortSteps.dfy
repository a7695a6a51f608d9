/** The calls on a port and the steps of its threads, on the linked structure: every step of every run of the state
    machine is the one that the rings and the tree take. */
module PortSteps {
  import opened Common
  import opened PollGroups
  import opened PollPort
  import opened PollPortSteps
  import opened PollPortRuns
  import opened PollPortEvents
  import opened PortDelete

  /** port__update_events_if_polling */
  method UpdateIfPolling(p: Port, k: Kernel)
    requires p.Valid() && Core(p.St())
    modifies p.Objects()
    ensures p.Valid() && p.Objects() <= old(p.Objects())
    ensures p.St() == PollPortRuns.UpdateIfPolling(old(p.St()), k)
  {
    hide Port.Valid, Around, Within, PollPort.Core;
    hide UpdateEvents;
    if p.active > 0 {
      var ok := p.UpdateAll(k);
    }
  }

  /** port__ctl_add */
  method CtlAdd(p: Port, a: Action)
    requires p.Valid() && Inv(p.St()) && Enabled(p.St(), a) && a.CtlAdd?
    modifies p.Objects()
    ensures p.Valid() && forall x | x in p.Objects() :: x in old(p.Objects()) || fresh(x)
    ensures p.St() == DoAdd(old(p.St()), a)
  {
    hide Port.Valid, Around, Within, PollPort.Core, PollPort.SetEvent, SockNew, PollPortRuns.UpdateIfPolling;
    hide PollPort.InterestInv, PollPort.WaiterInv, PollGroups.Sound;
    ghost var st := p.St();
    AddReady(st, a);
    var full := NoSlot(p);
    if a.key == 0 || !a.valid || (full && !a.groupOk) {
      return;
    }
    var ok := p.NewSock(a.newSock, a.key, a.newGroup);
    if ok {
      p.SetEventSock(a.newSock, a.ev);
      UpdateIfPolling(p, a.k);
    }
  }

  /** What port__ctl_add relies on. */
  lemma AddReady(st: State, a: Action)
    requires Inv(st) && Enabled(st, a) && a.CtlAdd?
    ensures Sound(st.pool) && a.newSock !in st.socks && a.newGroup !in st.pool.sizes
    ensures a.key !in st.tree ==>
      var st1 := SockNew(st, a.key, a.newSock, a.newGroup);
      a.newSock in st1.socks && Core(SetEvent(st1, a.newSock, a.ev))
  {
    hide PollPort.TreeInv, PollPort.QueueInv, PollPort.PollInv, PollGroups.Sound, PollPort.SetEvent;
    if a.key !in st.tree {
      NewSockKeeps(st, a.key, a.newSock, a.newGroup);
      SetEventKeeps(SockNew(st, a.key, a.newSock, a.newGroup), a.newSock, a.ev);
    }
  }

  /** Whether poll_group_acquire has to make a group. */
  method NoSlot(p: Port) returns (full: bool)
    requires p.Valid() && Sound(p.St().pool)
    ensures p.Valid() && p.St() == old(p.St()) && p.Objects() == old(p.Objects())
    ensures full == NeedsGroup(p.St().pool)
  {
    hide Port.Valid, Around, Within;
    var last := p.LastGroup();
    full := last.None? || p.sizes[last.value] >= MAX_GROUP_SIZE;
  }

  /** port__ctl_mod */
  method CtlMod(p: Port, a: Action)
    requires p.Valid() && Inv(p.St()) && a.CtlMod?
    modifies p.Objects()
    ensures p.Valid() && p.Objects() <= old(p.Objects())
    ensures p.St() == DoMod(old(p.St()), a)
  {
    hide Port.Valid, Around, Within, PollPort.Core, PollPort.SetEvent, PollPortRuns.UpdateIfPolling;
    hide PollPort.InterestInv, PollPort.WaiterInv, PollGroups.Sound;
    var s := p.FindSock(a.key);
    if s.Some? {
      RegisteredIsLive(p.St(), a.key);
      SetEventKeeps(p.St(), s.value, a.ev);
      p.SetEventSock(s.value, a.ev);
      UpdateIfPolling(p, a.k);
    }
  }

  /** port__ctl_del */
  method CtlDel(p: Port, a: Action)
    requires p.Valid() && Inv(p.St()) && a.CtlDel?
    modifies p.Objects()
    ensures p.Valid() && p.Objects() <= old(p.Objects())
    ensures p.St() == DoDel(old(p.St()), a)
  {
    hide Port.Valid, Around, Within, PollPort.Core, PollPort.Delete;
    hide PollPort.InterestInv, PollPort.WaiterInv, PollPort.TreeInv, PollGroups.Sound;
    var s := p.FindSock(a.key);
    if s.Some? {
      RegisteredIsLive(p.St(), a.key);
      CoreParts(p.St());
      p.DeleteSock(s.value, a.k, false);
    }
  }

  /** port__poll up to the point where the lock is dropped, and the end of port_wait when it fails before. */
  method EnterPoll(p: Port, t: ThreadId, k: Kernel, k2: Kernel)
    requires p.Valid() && Core(p.St())
    modifies p.Objects()
    ensures p.Valid() && p.Objects() <= old(p.Objects())
    ensures p.St() == PollPortRuns.EnterPoll(old(p.St()), t, k, k2)
  {
    hide Port.Valid, Around, Within, PollPort.Core, PollPort.InterestInv, UpdateEvents, PollPortRuns.UpdateIfPolling;
    UpdateEventsKeeps(p.St(), k);
    var ok := p.UpdateAll(k);
    if ok {
      p.SetThreads(p.active + 1, p.waiters[t := Blocked]);
    } else {
      UpdateIfPolling(p, k2);
    }
  }

  /** port__poll from the point where the lock is held again, and port_wait up to the point where it is next free. */
  method ResumePoll(p: Port, a: Action) returns (events: seq<Event>)
    requires p.Valid() && Inv(p.St()) && Enabled(p.St(), a) && a.Resume?
    modifies p.Objects()
    ensures p.Valid() && p.Objects() <= old(p.Objects())
    ensures p.St() == DoResume(old(p.St()), a) && events == EventsOf(Handed(old(p.St()), a))
  {
    hide Port.Valid, Around, Within, PollPort.Core, PollPort.InterestInv, PollPort.WaiterInv, FeedAll, Deliverable;
    hide PollPortRuns.UpdateIfPolling, PollPortRuns.EnterPoll, Due, Known, Tamed;
    events := [];
    ResumeReady(p.St(), a.t);
    var Woken(ok, packets) := p.waiters[a.t];
    p.SetThreads(p.active - 1, p.waiters - {a.t});
    if !ok {
      UpdateIfPolling(p, a.k2);
    } else {
      FeedAllKeeps(p.St(), packets, a.k);
      FeedAllDue(p.St(), packets, a.k);
      events := p.FeedBatch(packets, a.k);
      if events == [] && a.again {
        EnterPoll(p, a.t, a.k, a.k2);
      } else {
        UpdateIfPolling(p, a.k2);
      }
    }
  }

  /** Any step of a run, taken by the linked structure, leads where the state machine goes, keeps the invariant and
      reports the events due. */
  method Perform(p: Port, a: Action) returns (events: seq<Event>)
    requires p.Valid() && Inv(p.St()) && Enabled(p.St(), a)
    modifies p.Objects()
    ensures p.Valid() && forall x | x in p.Objects() :: x in old(p.Objects()) || fresh(x)
    ensures p.St() == Do(old(p.St()), a) && Inv(p.St()) && events == EventsOf(Handed(old(p.St()), a))
  {
    hide Port.Valid, Around, Within, PollPort.Core, PollPort.InterestInv, PollPort.WaiterInv, PollPort.FlushInv;
    hide Enabled, DoAdd, DoMod, DoDel, DoResume, PollPortRuns.EnterPoll;
    StepKeeps(p.St(), a);
    events := [];
    match a {
      case CtlAdd(_, _, _, _, _, _, _) => CtlAdd(p, a);
      case CtlMod(_, _, _) => CtlMod(p, a);
      case CtlDel(_, _) => CtlDel(p, a);
      case Wait(t, k, k2) => EnterPoll(p, t, k, k2);
      case Wake(t, ok, packets) => p.SetThreads(p.active, p.waiters[t := Woken(ok, packets)]);
      case Resume(_, _, _, _) => events := ResumePoll(p, a);
    }
  }

  /** A new port that performs the actions of a run goes through exactly the states of that run, so what the run
      theorems say of those states holds of its rings and its tree. */
  method Replay(actions: seq<Action>, ghost states: seq<State>) returns (p: Port)
    requires IsRun(states, actions)
    ensures p.Valid() && p.St() == states[|actions|] && Inv(p.St())
  {
    hide Port.Valid, Around, Within, Inv, Do, Enabled;
    p := new Port();
    InitialInv();
    for i := 0 to |actions|
      invariant p.Valid() && p.St() == states[i] && Inv(p.St())
      invariant forall x | x in p.Objects() :: fresh(x)
    {
      assert StepAt(states, actions, i);
      var events := Perform(p, actions[i]);
    }
  }
}
