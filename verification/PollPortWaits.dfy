/** Waiting threads, in every run: when a thread waits, what wakes it, and what it has done when it is done. */
module PollPortWaits {
  import opened PollGroups
  import opened PollPort
  import opened PollPortSteps
  import opened PollPortRuns
  import opened PollPortEvents
  import opened PollPortEffects

  /** The kernel refuses to submit or to cancel a poll of this socket. */
  predicate Refuses(k: Kernel, s: SockId) { k.submit(s) == SubmitError || !k.cancel(s) }

  lemma UpdateRefused(st: State, s: SockId, k: Kernel)
    requires s in st.socks && SizeOf(st.pool, st.socks[s].group) > 0
    ensures var u := Update(st, s, k);
      && (!u.ok ==> Refuses(k, s))
      && (forall x :: x in u.st.inflight ==> x in st.inflight || k.submit(x) == Accepted)
  {
    hide PollGroups.Without, PollPort.Delete, ToAfd;
    DeleteEffect(st, s, k);
  }

  lemma WithoutMember(q: seq<SockId>, s: SockId, x: SockId)
    requires x in Without(q, s)
    ensures x in q
  {
  }

  /** Submitting stops early only at a queued socket that the kernel refuses; only accepted polls are outstanding that
      were not before. */
  lemma {:induction false} UpdateEventsRefused(st: State, k: Kernel)
    requires Core(st)
    ensures var u := UpdateEvents(st, k);
      && (!u.ok ==> exists s :: s in st.updates && Refuses(k, s))
      && (forall x :: x in u.st.inflight ==> x in st.inflight || k.submit(x) == Accepted)
    decreases |st.updates|
  {
    if st.updates != [] {
      var s := st.updates[0];
      FirstIsLive(st);
      UpdateKeeps(st, s, k);
      UpdateRefused(st, s, k);
      var u := Update(st, s, k);
      assert s in st.updates;
      hide PollGroups.Without, PollPort.Core, PollPort.Update, PollPort.InterestInv, Refuses;
      if u.ok {
        UpdateEventsRefused(u.st, k);
        if !UpdateEvents(u.st, k).ok {
          var x :| x in u.st.updates && Refuses(k, x);
          WithoutMember(st.updates, s, x);
        }
      }
    }
  }

  /** What entering port__poll does: the thread waits with nothing left to submit, or the kernel has refused a queued
      socket and it does not wait. */
  ghost predicate Entered(st: State, st': State, t: ThreadId, k: Kernel) {
    if t in st'.waiters then st'.waiters == st.waiters[t := Blocked] && st'.active == st.active + 1 && st'.updates == []
    else
      && st'.waiters == st.waiters && st'.active == st.active
      && exists s :: s in st.updates && Refuses(k, s)
  }

  lemma EnterPollEnters(st: State, t: ThreadId, k: Kernel, k2: Kernel)
    requires Core(st) && t !in st.waiters
    ensures Entered(st, EnterPoll(st, t, k, k2), t, k)
    ensures forall x :: x in EnterPoll(st, t, k, k2).inflight ==>
      x in st.inflight || k.submit(x) == Accepted || k2.submit(x) == Accepted
  {
    UpdateEventsKeeps(st, k);
    UpdateEventsRefused(st, k);
    var u := UpdateEvents(st, k);
    hide PollPort.Core, UpdateEvents, PollPort.InterestInv, Refuses;
    if !u.ok {
      IfPollingThreads(u.st, k2);
    }
  }

  lemma IfPollingThreads(st: State, k: Kernel)
    requires Core(st)
    ensures var st' := UpdateIfPolling(st, k);
      && st'.waiters == st.waiters && st'.active == st.active
      && (forall x :: x in st'.inflight ==> x in st.inflight || k.submit(x) == Accepted)
  {
    hide PollPort.Core, UpdateEvents, PollPort.InterestInv;
    UpdateEventsKeeps(st, k);
    UpdateEventsRefused(st, k);
  }

  /** A thread that calls port_wait waits, or is refused. */
  lemma Waited(states: seq<State>, actions: seq<Action>, n: nat)
    requires IsRun(states, actions) && n < |actions| && actions[n].Wait?
    ensures Entered(states[n], states[n + 1], actions[n].t, actions[n].k)
  {
    RunStep(states, actions, n);
    var a := actions[n];
    hide IsRun, PollPort.Core, PollPort.InterestInv, PollPort.WaiterInv, Entered, EnterPoll;
    EnterPollEnters(states[n], a.t, a.k, a.k2);
  }

  /** A waiting thread that wakes holds what it has dequeued, and nothing else changes. */
  lemma Woke(states: seq<State>, actions: seq<Action>, n: nat)
    requires IsRun(states, actions) && n < |actions| && actions[n].Wake?
    ensures var st, a := states[n], actions[n];
      && a.t in st.waiters && st.waiters[a.t] == Blocked
      && states[n + 1] == st.(waiters := st.waiters[a.t := Woken(a.ok, a.packets)])
  {
    RunStep(states, actions, n);
    hide IsRun, PollPort.Core, PollPort.InterestInv, PollPort.WaiterInv;
  }

  // ---------- taking up what was dequeued

  lemma {:induction false} FeedAllConsumes(st: State, packets: seq<Packet>, k: Kernel, i: nat)
    requires Core(st) && Deliverable(st, packets) && i < |packets|
    ensures packets[i].sock !in FeedAll(st, packets, k).st.inflight
    decreases |packets|
  {
    hide PollPort.Core, PollPort.Feed, Only, Deliverable;
    FeedReady(st, packets, k);
    FeedKeeps(st, packets[0], k);
    var f := Feed(st, packets[0], k);
    if i == 0 {
      FeedAllQuiet(f.st, packets[1..], k, packets[0].sock);
    } else {
      assert packets[1..][i - 1] == packets[i];
      FeedAllConsumes(f.st, packets[1..], k, i - 1);
    }
  }

  /** A batch makes no poll outstanding. */
  lemma {:induction false} FeedAllQuiet(st: State, packets: seq<Packet>, k: Kernel, s: SockId)
    requires Core(st) && Deliverable(st, packets) && s !in st.inflight
    ensures s !in FeedAll(st, packets, k).st.inflight
    decreases |packets|
  {
    if packets != [] {
      hide PollPort.Core, PollPort.Feed, Deliverable;
      FeedReady(st, packets, k);
      FeedKeeps(st, packets[0], k);
      FeedAllQuiet(Feed(st, packets[0], k).st, packets[1..], k, s);
    }
  }

  /** A thread that has woken is done, unless it has nothing to hand out and is to go on: then it waits again or is
      refused. Other threads are as before. A poll whose completion it had dequeued is outstanding afterwards only if
      the kernel has accepted it again. */
  lemma Resumed(states: seq<State>, actions: seq<Action>, n: nat)
    requires IsRun(states, actions) && n < |actions| && actions[n].Resume?
    ensures var st, st', a := states[n], states[n + 1], actions[n];
      && Inv(st) && Enabled(st, a) && st.active > 0
      && (if st.waiters[a.t].ok && Handed(st, a) == [] && a.again && a.t in st'.waiters
          then st'.waiters == st.waiters[a.t := Blocked] && st'.active == st.active && st'.updates == []
          else st'.waiters == st.waiters - {a.t} && st'.active == st.active - 1)
      && (st.waiters[a.t].ok ==>
            forall i | 0 <= i < |st.waiters[a.t].packets| ::
              var s := st.waiters[a.t].packets[i].sock;
              s in st'.inflight ==> a.k.submit(s) == Accepted || a.k2.submit(s) == Accepted)
  {
    RunStep(states, actions, n);
    hide IsRun;
    ResumeEffect(states[n], actions[n]);
  }

  lemma ResumeEffect(st: State, a: Action)
    requires Inv(st) && Enabled(st, a) && a.Resume?
    ensures var st' := Do(st, a);
      && st.active > 0
      && (if st.waiters[a.t].ok && Handed(st, a) == [] && a.again && a.t in st'.waiters
          then st'.waiters == st.waiters[a.t := Blocked] && st'.active == st.active && st'.updates == []
          else st'.waiters == st.waiters - {a.t} && st'.active == st.active - 1)
      && (st.waiters[a.t].ok ==>
            forall i | 0 <= i < |st.waiters[a.t].packets| ::
              var s := st.waiters[a.t].packets[i].sock;
              s in st'.inflight ==> a.k.submit(s) == Accepted || a.k2.submit(s) == Accepted)
  {
    hide PollPort.Core, PollPort.InterestInv, PollPort.WaiterInv, Deliverable, Tamed, FeedAll, Due, EventsOf, Known;
    hide EnterPoll, UpdateIfPolling;
    ResumeReady(st, a.t);
    var packets := st.waiters[a.t].packets;
    var st1 := st.(active := st.active - 1, waiters := st.waiters - {a.t});
    if !st.waiters[a.t].ok {
      IfPollingThreads(st1, a.k2);
    } else {
      FeedAllKeeps(st1, packets, a.k);
      FeedAllDue(st1, packets, a.k);
      var f := FeedAll(st1, packets, a.k);
      SameCount(Due(st.socks, packets), f.events);
      forall i | 0 <= i < |packets|
        ensures packets[i].sock !in f.st.inflight
      {
        FeedAllConsumes(st1, packets, a.k, i);
      }
      IfPollingThreads(f.st, a.k2);
      EnterPollEnters(f.st, a.t, a.k, a.k2);
      assert (st.waiters - {a.t})[a.t := Blocked] == st.waiters[a.t := Blocked];
    }
  }

  lemma SameCount(ts: seq<Told>, events: seq<Event>)
    requires events == EventsOf(ts)
    ensures events == [] <==> ts == []
  {
  }
}
