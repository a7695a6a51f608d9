/** One-shot interests, and what the kernel has been asked for, in every run. */
module PollPortSilence {
  import opened PollGroups
  import opened PollPort
  import opened PollPortSteps
  import opened PollPortRuns
  import opened PollPortEvents
  import opened PollPortEffects

  // ---------- one-shot interests

  /** Nothing is wanted of the socket registered under this handle, if there is one. */
  ghost predicate Quiet(st: State, key: nat) {
    key in st.tree ==> st.tree[key] in st.socks && st.socks[st.tree[key]].userEvents == {}
  }

  ghost predicate Ended(socks: map<SockId, Sock>, s: SockId) {
    s in socks && !socks[s].deletePending ==> socks[s].userEvents == {}
  }

  lemma EndedStays(a: map<SockId, Sock>, b: map<SockId, Sock>, s: SockId)
    requires Tamed(a, b) && Ended(a, s)
    ensures Ended(b, s)
  {
    hide Asks;
  }

  /** A one-shot socket whose event comes out of a batch wants nothing any more. */
  lemma {:induction false} FeedAllEnds(st: State, packets: seq<Packet>, k: Kernel, i: nat)
    requires Core(st) && Deliverable(st, packets) && Known(st.socks, packets) && i < |packets|
    requires OneShot(st.socks[packets[i].sock], packets[i].report)
    ensures Ended(FeedAll(st, packets, k).st.socks, packets[i].sock)
    decreases |packets|
  {
    hide PollPort.Core, PollPort.Feed, Tamed, Reportable, Due, EventsOf, Only, Deliverable, Ended;
    FeedReady(st, packets, k);
    var s, p, f := packets[i].sock, packets[0], Feed(st, packets[0], k);
    FeedAllDue(f.st, packets[1..], k);
    if i == 0 {
      FeedEnds(st, p, k);
      EndedStays(f.st.socks, FeedAll(f.st, packets[1..], k).st.socks, s);
    } else {
      FeedKeeps(st, p, k);
      NoTwice(st, packets, i);
      SameSock(st, f.st, p.sock, s);
      DeliverableKnown(f.st, packets[1..]);
      FeedAllEnds(f.st, packets[1..], k, i - 1);
    }
  }

  lemma FeedEnds(st: State, p: Packet, k: Kernel)
    requires p.sock in st.socks && SizeOf(st.pool, st.socks[p.sock].group) > 0 && OneShot(st.socks[p.sock], p.report)
    ensures Ended(Feed(st, p, k).st.socks, p.sock)
  {
    hide PollPort.Feed, Reportable, Tamed;
    FeedTames(st, p, k);
    FeedDue(st, p, k);
  }

  lemma NoTwice(st: State, packets: seq<Packet>, i: nat)
    requires Deliverable(st, packets) && 0 < i < |packets|
    ensures packets[1..][i - 1] == packets[i] && packets[0].sock != packets[i].sock
  {
  }

  /** An event of a one-shot interest. */
  ghost predicate OneShot(sock: Sock, r: Report) { Reportable(sock, r) && EPOLLONESHOT in sock.userEvents }

  lemma SameSock(st: State, st': State, x: SockId, s: SockId)
    requires Only(st, st', x) && s != x && s in st.socks
    ensures s in st'.socks && st'.socks[s] == st.socks[s]
  {
  }

  /** The completion behind a report. */
  lemma {:induction false} DueFrom(st: State, packets: seq<Packet>, x: Told) returns (i: nat)
    requires TreeInv(st) && Known(st.socks, packets) && x in Due(st.socks, packets)
    ensures i < |packets| && Reportable(st.socks[packets[i].sock], packets[i].report)
    ensures x.key in st.tree && st.tree[x.key] == packets[i].sock
    decreases |packets|
  {
    var s := packets[0].sock;
    if x in Due(st.socks, packets[1..]) {
      var j := DueFrom(st, packets[1..], x);
      i := j + 1;
    } else {
      i := 0;
      assert InTree(st, s);
    }
  }

  /** The step that reports a one-shot event ends the interest. */
  lemma StepEnds(st: State, a: Action, x: Told)
    requires Inv(st) && Enabled(st, a) && x in Handed(st, a)
    requires x.key in st.tree && st.tree[x.key] in st.socks && EPOLLONESHOT in st.socks[st.tree[x.key]].userEvents
    ensures Quiet(Do(st, a), x.key)
  {
    hide PollPort.Core, PollPort.InterestInv, PollPort.WaiterInv, Deliverable, Tamed, Worked, FeedAll, Due, EventsOf;
    hide EnterPoll, UpdateIfPolling, Reportable, Known, Quiet, Ended;
    var packets := st.waiters[a.t].packets;
    ResumeReady(st, a.t);
    var st1 := st.(active := st.active - 1, waiters := st.waiters - {a.t});
    InvTree(st);
    HeldKnown(st, a.t);
    var i := DueFrom(st, packets, x);
    FeedAllKeeps(st1, packets, a.k);
    FeedAllDue(st1, packets, a.k);
    FeedAllEnds(st1, packets, a.k, i);
    var f := FeedAll(st1, packets, a.k);
    IfPollingTames(f.st, a.k2);
    EnterPollTames(f.st, a.t, a.k, a.k2);
    EndedStays(f.st.socks, Do(st, a).socks, st.tree[x.key]);
    EndedQuiet(st, a, x.key);
  }

  lemma EndedQuiet(st: State, a: Action, key: nat)
    requires Inv(st) && Enabled(st, a) && a.Resume? && key in st.tree && Ended(Do(st, a).socks, st.tree[key])
    ensures Quiet(Do(st, a), key)
  {
    hide Inv, Enabled, Do, Fired;
    StepKeeps(st, a);
    InvTree(Do(st, a));
    if key in Do(st, a).tree {
      StepFollows(st, a, key);
      assert InTree(Do(st, a), Do(st, a).tree[key]);
    }
  }

  lemma StaysQuiet(st: State, a: Action, key: nat)
    requires Inv(st) && Enabled(st, a) && Apart(a, key) && Quiet(st, key)
    ensures Quiet(Do(st, a), key)
  {
    hide Inv, Enabled, Do, Asks;
    if key in Do(st, a).tree {
      StepFollows(st, a, key);
    }
  }

  /** Between the two steps the handle is neither added nor changed. */
  ghost predicate Untouched(actions: seq<Action>, n: nat, m: nat, key: nat)
    requires m <= |actions|
  {
    forall i :: n < i < m ==> Apart(actions[i], key)
  }

  lemma UntouchedBefore(actions: seq<Action>, n: nat, m: nat, key: nat)
    requires n + 1 < m <= |actions| && Untouched(actions, n, m, key)
    ensures Untouched(actions, n, m - 1, key) && Apart(actions[m - 1], key)
  {
  }

  lemma {:induction false} QuietStays(states: seq<State>, actions: seq<Action>, n: nat, m: nat, key: nat)
    requires IsRun(states, actions) && n < m <= |actions| && Untouched(actions, n, m, key)
    requires |states| == |actions| + 1 && Quiet(states[n + 1], key)
    ensures Quiet(states[m], key)
    decreases m
  {
    hide IsRun, Inv, Enabled, Do, Untouched, Quiet;
    if m > n + 1 {
      UntouchedBefore(actions, n, m, key);
      QuietStays(states, actions, n, m - 1, key);
      RunStep(states, actions, m - 1);
      StaysQuiet(states[m - 1], actions[m - 1], key);
    }
  }

  /** After an event of a one-shot interest, errors and hang-ups included, nothing more is reported for the handle
      before it is changed or added again. */
  lemma OneShotSilent(states: seq<State>, actions: seq<Action>, n: nat, m: nat, x: Told)
    requires IsRun(states, actions) && n < m < |actions| && Untouched(actions, n, m, x.key)
    requires Inv(states[n]) && Enabled(states[n], actions[n]) && x in Handed(states[n], actions[n])
    requires x.key in states[n].tree && states[n].tree[x.key] in states[n].socks
    requires EPOLLONESHOT in states[n].socks[states[n].tree[x.key]].userEvents
    ensures Inv(states[m]) && Enabled(states[m], actions[m])
    ensures forall y | y in Handed(states[m], actions[m]) :: y.key != x.key
  {
    assert |states| == |actions| + 1;
    RunStep(states, actions, n);
    RunStep(states, actions, m);
    hide IsRun, Inv, Enabled, Do, Untouched, Handed;
    StepEnds(states[n], actions[n], x);
    QuietStays(states, actions, n, m, x.key);
    forall y | y in Handed(states[m], actions[m])
      ensures y.key != x.key
    {
      ReportsWanted(states[m], actions[m], y);
    }
  }

  // ---------- what the kernel has been asked for

  /** Everything that makes an event happen that the user wants is asked for. */
  ghost predicate AskedAll(sock: Sock) {
    sock.status == Pending && forall e :: e in sock.userEvents ==> Causes(e) <= sock.polled
  }

  ghost predicate AllAsk(socks: map<SockId, Sock>) { forall s :: s in socks ==> Asks(socks[s]) }

  lemma StepAsks(st: State, a: Action)
    requires Inv(st) && Enabled(st, a) && AllAsk(st.socks)
    ensures AllAsk(Do(st, a).socks)
  {
    hide Inv, Enabled, Do, Asks, Wants;
    if a.CtlAdd? {
      AddStep(st, a);
    } else if a.CtlMod? && a.key in st.tree {
      ModStep(st, a);
      DoIsMod(st, a);
    } else {
      OtherStep(st, a);
    }
  }

  lemma {:induction false} RunAsks(states: seq<State>, actions: seq<Action>, n: nat)
    requires IsRun(states, actions) && n < |states|
    ensures AllAsk(states[n].socks)
  {
    if n > 0 {
      RunAsks(states, actions, n - 1);
      RunStep(states, actions, n - 1);
      hide IsRun, Inv, Enabled, Do, AllAsk;
      StepAsks(states[n - 1], actions[n - 1]);
    }
  }

  /** In every state of every run a pending poll asks the kernel for the closing of its socket and for exactly what
      makes the events happen that it was submitted for; and for a registered socket that is not queued, whose poll has
      not been cancelled, those include everything that makes an event happen that the user wants. */
  lemma KernelAsked(states: seq<State>, actions: seq<Action>, n: nat)
    requires IsRun(states, actions) && n < |states|
    ensures var st := states[n];
      && (forall s :: s in st.socks && st.socks[s].status == Pending ==> AskedFor(st.socks[s]))
      && (forall key :: key in st.tree ==>
            var s := st.tree[key];
            && s in st.socks
            && (s !in st.updates && st.socks[s].status != Cancelled ==> AskedAll(st.socks[s])))
  {
    RunAsks(states, actions, n);
    NoLostInterest(states, actions, n);
    var st := states[n];
    hide IsRun, Asks, AskedFor, AskedAll;
    forall s | s in st.socks && st.socks[s].status == Pending
      ensures AskedFor(st.socks[s])
    {
      AskedExactly(st.socks[s]);
    }
    forall key | key in st.tree
      ensures var s := st.tree[key];
        && s in st.socks
        && (s !in st.updates && st.socks[s].status != Cancelled ==> AskedAll(st.socks[s]))
    {
      var s := st.tree[key];
      if s !in st.updates && st.socks[s].status != Cancelled {
        KnownAsked(st.socks[s]);
      }
    }
  }

  ghost predicate AskedFor(sock: Sock) {
    forall b: nat ::
      b in sock.polled <==> b == AFD_LOCAL_CLOSE || exists e :: e in sock.pendingEvents && b in Causes(e)
  }

  lemma AskedExactly(sock: Sock)
    requires Asks(sock) && sock.status == Pending
    ensures AskedFor(sock)
  {
    hide ToAfd, Causes;
    PolledExactly(sock.pendingEvents);
  }

  lemma KnownAsked(sock: Sock)
    requires Asks(sock) && sock.status == Pending && sock.userEvents * KNOWN_EVENTS <= sock.pendingEvents
    ensures AskedAll(sock)
  {
    AskedExactly(sock);
    forall e | e in sock.userEvents
      ensures Causes(e) <= sock.polled
    {
      if Causes(e) != {} {
        assert e in KNOWN_EVENTS;
        assert e in sock.pendingEvents;
      }
    }
  }
}
