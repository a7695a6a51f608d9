/** What a port tells its user and asks of the kernel: the two event tables, what each call does to interest, and which
    events every step of every run reports. */
module PollPortEvents {
  import opened PollGroups
  import opened PollPort
  import opened PollPortSteps
  import opened PollPortRuns

  // ---------- the two tables

  /** What is asked of the kernel is whatever can make a wanted event happen, and the closing of the socket, exactly as
      long as errors are wanted or nothing is that a failed connect brings about. */
  lemma PolledExactly(user: Mask)
    ensures (forall b: nat :: b in ToAfd(user) <==> b == AFD_LOCAL_CLOSE || exists e :: e in user && b in Causes(e))
      <==> EPOLLERR in user || user !! {EPOLLIN, EPOLLRDNORM, EPOLLOUT, EPOLLWRNORM, EPOLLRDHUP}
  {
    forall b: nat | b != AFD_CONNECT_FAIL
      ensures b in ToAfd(user) <==> b == AFD_LOCAL_CLOSE || exists e :: e in user && b in Causes(e)
    {
      PolledBit(user, b);
    }
    assert AFD_CONNECT_FAIL in ToAfd(user) <==> EPOLLERR in user;
    FailCauses(user);
  }

  lemma PolledBit(user: Mask, b: nat)
    requires b != AFD_CONNECT_FAIL
    ensures b in ToAfd(user) <==> b == AFD_LOCAL_CLOSE || exists e :: e in user && b in Causes(e)
  {
    if b in ToAfd(user) && b != AFD_LOCAL_CLOSE {
      var e :| e in user && b in Causes(e);
    }
  }

  lemma FailCauses(user: Mask)
    ensures (exists e :: e in user && AFD_CONNECT_FAIL in Causes(e))
      <==> !(user !! {EPOLLERR, EPOLLIN, EPOLLRDNORM, EPOLLOUT, EPOLLWRNORM, EPOLLRDHUP})
  {
    if e :| e in user && AFD_CONNECT_FAIL in Causes(e) {
      assert e in {EPOLLERR, EPOLLIN, EPOLLRDNORM, EPOLLOUT, EPOLLWRNORM, EPOLLRDHUP};
    }
    if !(user !! {EPOLLERR, EPOLLIN, EPOLLRDNORM, EPOLLOUT, EPOLLWRNORM, EPOLLRDHUP}) {
      var e :| e in user && e in {EPOLLERR, EPOLLIN, EPOLLRDNORM, EPOLLOUT, EPOLLWRNORM, EPOLLRDHUP};
      assert AFD_CONNECT_FAIL in Causes(e);
    }
  }

  // ---------- one socket through a step

  /** Interest is empty, or errors and hang-ups are part of it. */
  predicate Whole(events: Mask) { events == {} || {EPOLLERR, EPOLLHUP} <= events }

  /** A pending poll asks the kernel for what its socket was interested in when it was submitted. */
  predicate Asks(sock: Sock) {
    && Whole(sock.userEvents)
    && (sock.status == Pending ==> Whole(sock.pendingEvents) && sock.polled == ToAfd(sock.pendingEvents))
  }

  /** A step that does not concern the interest of a socket. */
  ghost predicate Kept(a: Sock, b: Sock) {
    && b.key == a.key && b.userEvents == a.userEvents && b.userData == a.userData
    && (a.deletePending ==> b.deletePending) && (Asks(a) ==> Asks(b))
  }

  /** A step that may have reported an event: a one-shot interest is gone then. */
  ghost predicate Fired(a: Sock, b: Sock) {
    && b.key == a.key && b.userData == a.userData
    && (b.userEvents == a.userEvents || (EPOLLONESHOT in a.userEvents && b.userEvents == {}))
    && (a.deletePending ==> b.deletePending) && (Asks(a) ==> Asks(b))
  }

  ghost predicate Tamed(a: map<SockId, Sock>, b: map<SockId, Sock>) {
    forall s :: s in b ==> s in a && Fired(a[s], b[s])
  }

  /** Submitting polls drops a socket only if the kernel does not know its handle. */
  ghost predicate Worked(a: map<SockId, Sock>, b: map<SockId, Sock>, k: Kernel) {
    && (forall s :: s in b ==> s in a && Kept(a[s], b[s]))
    && (forall s :: s in a && !a[s].deletePending && (s in b ==> b[s].deletePending) ==> k.submit(s) == InvalidHandle)
  }

  lemma WorkedTamed(a: map<SockId, Sock>, b: map<SockId, Sock>, k: Kernel)
    requires Worked(a, b, k)
    ensures Tamed(a, b)
  {
  }

  lemma TamedTrans(a: map<SockId, Sock>, b: map<SockId, Sock>, c: map<SockId, Sock>)
    requires Tamed(a, b) && Tamed(b, c)
    ensures Tamed(a, c)
  {
    hide Asks;
  }

  lemma WorkedTrans(a: map<SockId, Sock>, b: map<SockId, Sock>, c: map<SockId, Sock>, k: Kernel)
    requires Worked(a, b, k) && Worked(b, c, k)
    ensures Worked(a, c, k)
  {
    hide Asks;
  }

  lemma UpdateWorks(st: State, s: SockId, k: Kernel)
    requires s in st.socks && !st.socks[s].deletePending && SizeOf(st.pool, st.socks[s].group) > 0
    ensures Worked(st.socks, Update(st, s, k).st.socks, k)
  {
    hide PollGroups.Without, PollPort.Delete, ToAfd, Worked;
    var sock := st.socks[s];
    SameWorks(st.socks, k);
    OneWorks(st.socks, s, CancelPoll(sock, true), k);
    OneWorks(st.socks, s,
      sock.(status := Pending, pendingEvents := sock.userEvents, polled := ToAfd(sock.userEvents)), k);
    if sock.status == Idle && k.submit(s) == InvalidHandle {
      DeleteEffect(st, s, k);
      OneDropped(st.socks, s, k);
    }
  }

  lemma OneWorks(a: map<SockId, Sock>, s: SockId, sock: Sock, k: Kernel)
    requires s in a && !a[s].deletePending && Kept(a[s], sock) && !sock.deletePending
    ensures Worked(a, a[s := sock], k)
  {
    hide Asks;
  }

  lemma OneDropped(a: map<SockId, Sock>, s: SockId, k: Kernel)
    requires s in a && k.submit(s) == InvalidHandle
    ensures Worked(a, a - {s}, k)
  {
    hide Asks;
  }

  lemma {:induction false} UpdateEventsWork(st: State, k: Kernel)
    requires Core(st)
    ensures Worked(st.socks, UpdateEvents(st, k).st.socks, k)
    decreases |st.updates|
  {
    if st.updates != [] {
      var s := st.updates[0];
      FirstIsLive(st);
      UpdateKeeps(st, s, k);
      UpdateWorks(st, s, k);
      var u := Update(st, s, k);
      hide PollGroups.Without, PollPort.Core, PollPort.Update, Worked;
      if u.ok {
        UpdateEventsWork(u.st, k);
        WorkedTrans(st.socks, u.st.socks, UpdateEvents(u.st, k).st.socks, k);
      }
    } else {
      hide Asks;
    }
  }

  lemma IfPollingWorks(st: State, k: Kernel)
    requires Core(st)
    ensures Worked(st.socks, UpdateIfPolling(st, k).socks, k)
  {
    hide PollPort.Core, UpdateEvents;
    UpdateEventsWork(st, k);
    SameWorks(st.socks, k);
  }

  lemma SameWorks(a: map<SockId, Sock>, k: Kernel)
    ensures Worked(a, a, k) && Tamed(a, a)
  {
    hide Asks;
  }

  lemma EnterPollTames(st: State, t: ThreadId, k: Kernel, k2: Kernel)
    requires Core(st)
    ensures Tamed(st.socks, EnterPoll(st, t, k, k2).socks)
  {
    UpdateEventsKeeps(st, k);
    UpdateEventsWork(st, k);
    var u := UpdateEvents(st, k);
    hide PollPort.Core, UpdateEvents, Worked, Tamed, UpdateIfPolling, PollPort.InterestInv;
    WorkedTamed(st.socks, u.st.socks, k);
    if !u.ok {
      IfPollingWorks(u.st, k2);
      WorkedTamed(u.st.socks, UpdateIfPolling(u.st, k2).socks, k2);
      TamedTrans(st.socks, u.st.socks, UpdateIfPolling(u.st, k2).socks);
    }
  }

  lemma DeleteTames(st: State, s: SockId, k: Kernel)
    requires s in st.socks && SizeOf(st.pool, st.socks[s].group) > 0
    ensures Tamed(st.socks, Delete(st, s, k).socks)
  {
    hide PollGroups.Without, PollGroups.Release, ToAfd;
  }

  lemma FeedTames(st: State, p: Packet, k: Kernel)
    requires p.sock in st.socks && SizeOf(st.pool, st.socks[p.sock].group) > 0
    ensures Tamed(st.socks, Feed(st, p, k).st.socks)
    ensures var f := Feed(st, p, k);
      p.sock in f.st.socks && EPOLLONESHOT in st.socks[p.sock].userEvents && f.events != [] ==>
        f.st.socks[p.sock].userEvents == {}
  {
    hide PollGroups.Without, PollGroups.Release, ToAfd, PollPort.Delete, PollPort.RequestUpdate, RawEvents;
    var s := p.sock;
    var st1 := SetSock(st, s, st.socks[s].(status := Idle, pendingEvents := {})).(inflight := st.inflight - {s});
    RequestSame(st1, s);
    DeleteEffect(st1, s, k);
  }

  // ---------- what a step reports

  /** An event, with the handle under which its socket is registered. */
  datatype Told = Told(key: nat, event: Event)

  function EventsOf(ts: seq<Told>): seq<Event> { seq(|ts|, i requires 0 <= i < |ts| => ts[i].event) }

  ghost predicate Known(socks: map<SockId, Sock>, packets: seq<Packet>) {
    forall i :: 0 <= i < |packets| ==> packets[i].sock in socks
  }

  /** What has happened of what the user wants. */
  ghost function Arisen(sock: Sock, r: Report): Mask { set e | e in sock.userEvents && Happens(r, e) }

  /** What a batch of completions comes to, from the sockets as they are before it: for each socket that is to be kept,
      what has happened of what its user wants, with the user's data. */
  ghost function Due(socks: map<SockId, Sock>, packets: seq<Packet>): seq<Told>
    requires Known(socks, packets)
  {
    if packets == [] then []
    else
      var sock, r := socks[packets[0].sock], packets[0].report;
      (if Reportable(sock, r) then [Told(sock.key, Event(Arisen(sock, r), sock.userData))] else [])
      + Due(socks, packets[1..])
  }

  lemma {:induction false} DueSame(a: map<SockId, Sock>, b: map<SockId, Sock>, packets: seq<Packet>)
    requires Known(a, packets) && Known(b, packets)
    requires forall i :: 0 <= i < |packets| ==> a[packets[i].sock] == b[packets[i].sock]
    ensures Due(a, packets) == Due(b, packets)
  {
    if packets != [] {
      DueSame(a, b, packets[1..]);
    }
  }

  lemma DeliverableKnown(st: State, packets: seq<Packet>)
    requires Core(st) && Deliverable(st, packets)
    ensures Known(st.socks, packets)
  {
  }

  /** The events of a batch are those due from the sockets as they were before it, whatever the batch does to them. */
  lemma {:induction false} FeedAllDue(st: State, packets: seq<Packet>, k: Kernel)
    requires Core(st) && Deliverable(st, packets)
    ensures Known(st.socks, packets) && FeedAll(st, packets, k).events == EventsOf(Due(st.socks, packets))
    ensures Tamed(st.socks, FeedAll(st, packets, k).st.socks)
    decreases |packets|
  {
    hide PollPort.Core, PollPort.Feed, Deliverable, Tamed, Reportable, Only, Due, Known, EventsOf;
    DeliverableKnown(st, packets);
    if packets == [] {
      SameWorks(st.socks, k);
      NothingDue(st.socks);
    } else {
      FeedReady(st, packets, k);
      var p := packets[0];
      var f := Feed(st, p, k);
      FeedKeeps(st, p, k);
      FeedTames(st, p, k);
      FeedAllDue(f.st, packets[1..], k);
      DueNext(st.socks, packets);
      RestDue(st, f.st, packets);
      FeedDue(st, p, k);
      TamedTrans(st.socks, f.st.socks, FeedAll(f.st, packets[1..], k).st.socks);
    }
  }

  lemma NothingDue(socks: map<SockId, Sock>)
    ensures Known(socks, []) && EventsOf(Due(socks, [])) == []
  {
  }

  lemma DueNext(socks: map<SockId, Sock>, packets: seq<Packet>)
    requires Known(socks, packets) && packets != []
    ensures Known(socks, packets[1..]) && packets[0].sock in socks
    ensures var sock, r := socks[packets[0].sock], packets[0].report;
      EventsOf(Due(socks, packets))
      == (if Reportable(sock, r) then [Event(Arisen(sock, r), sock.userData)] else [])
         + EventsOf(Due(socks, packets[1..]))
  {
    hide Reportable, Arisen;
  }

  lemma RestDue(st: State, st': State, packets: seq<Packet>)
    requires packets != [] && Deliverable(st, packets) && Known(st.socks, packets) && Known(st'.socks, packets[1..])
    requires Only(st, st', packets[0].sock)
    ensures Due(st'.socks, packets[1..]) == Due(st.socks, packets[1..])
  {
    hide Due;
    forall i | 0 <= i < |packets| - 1
      ensures st.socks[packets[1..][i].sock] == st'.socks[packets[1..][i].sock]
    {
      assert packets[i + 1].sock != packets[0].sock;
    }
    DueSame(st'.socks, st.socks, packets[1..]);
  }

  lemma FeedDue(st: State, p: Packet, k: Kernel)
    requires p.sock in st.socks && SizeOf(st.pool, st.socks[p.sock].group) > 0
    ensures var sock := st.socks[p.sock];
      Feed(st, p, k).events
      == if Reportable(sock, p.report) then [Event(Arisen(sock, p.report), sock.userData)] else []
  {
    hide PollPort.Feed, Happens, Reportable;
    var sock, events := st.socks[p.sock], Feed(st, p, k).events;
    if Reportable(sock, p.report) {
      var x := events[0];
      assert x in events;
      assert x.events == Arisen(sock, p.report);
    }
  }

  lemma HeldKnown(st: State, t: ThreadId)
    requires Inv(st) && t in st.waiters && st.waiters[t].Woken?
    ensures Known(st.socks, st.waiters[t].packets)
  {
    hide PollPort.Core, PollPort.InterestInv, PollPort.WaiterInv, Deliverable, Known;
    ResumeReady(st, t);
    DeliverableKnown(st.(active := st.active - 1, waiters := st.waiters - {t}), st.waiters[t].packets);
  }

  /** What port_wait hands to its caller in this step. */
  ghost function Handed(st: State, a: Action): seq<Told>
    requires Inv(st) && Enabled(st, a)
  {
    if !a.Resume? then []
    else
      HeldKnown(st, a.t);
      if st.waiters[a.t].ok then Due(st.socks, st.waiters[a.t].packets) else []
  }
}
