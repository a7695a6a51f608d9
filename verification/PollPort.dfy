/** The socket and port state machine of wepoll, one function per source function.
    A call made while the port lock is held is one atomic step; the kernel is a parameter. */
module PollPort {
  import opened PollGroups

  /** Addresses of sock_state_t objects; an address may be reused after it has been freed. */
  type SockId = nat
  type ThreadId = nat

  /** A 32-bit event mask, as the set of its bit positions. */
  type Mask = set<nat>

  const EPOLLIN: nat := 0
  const EPOLLPRI: nat := 1
  const EPOLLOUT: nat := 2
  const EPOLLERR: nat := 3
  const EPOLLHUP: nat := 4
  const EPOLLRDNORM: nat := 6
  const EPOLLRDBAND: nat := 7
  const EPOLLWRNORM: nat := 8
  const EPOLLWRBAND: nat := 9
  const EPOLLMSG: nat := 10
  const EPOLLRDHUP: nat := 13
  const EPOLLONESHOT: nat := 30

  /** SOCK__KNOWN_EPOLL_EVENTS */
  const KNOWN_EVENTS: Mask := {
    EPOLLIN, EPOLLPRI, EPOLLOUT, EPOLLERR, EPOLLHUP, EPOLLRDNORM,
    EPOLLRDBAND, EPOLLWRNORM, EPOLLWRBAND, EPOLLMSG, EPOLLRDHUP}

  const AFD_RECEIVE: nat := 0
  const AFD_RECEIVE_EXPEDITED: nat := 1
  const AFD_SEND: nat := 2
  const AFD_DISCONNECT: nat := 3
  const AFD_ABORT: nat := 4
  const AFD_LOCAL_CLOSE: nat := 5
  const AFD_ACCEPT: nat := 7
  const AFD_CONNECT_FAIL: nat := 8

  datatype PollStatus = Idle | Pending | Cancelled

  datatype Sock = Sock(
    key: nat,
    group: GroupId,
    userEvents: Mask,
    userData: nat,
    pendingEvents: Mask,
    polled: Mask,                     // the AFD events that the outstanding poll asks for
    status: PollStatus,
    deletePending: bool)

  datatype Event = Event(events: Mask, data: nat)

  /** How a completed poll request reports back. */
  datatype Report = StatusCancelled | StatusFailed | NoHandles | Reported(afdEvents: Mask)

  datatype Packet = Packet(sock: SockId, report: Report)

  /** A thread inside port__poll between releasing the lock and taking it again:
      blocked in the completion port, or already holding what it dequeued. */
  datatype Waiter = Blocked | Woken(ok: bool, packets: seq<Packet>)

  datatype Submit = Accepted | InvalidHandle | SubmitError

  /** What the kernel answers during one step. */
  datatype Kernel = Kernel(submit: SockId -> Submit, cancel: SockId -> bool)

  datatype State = State(
    socks: map<SockId, Sock>,         // every allocated sock_state_t
    tree: map<nat, SockId>,           // sock_tree
    updates: seq<SockId>,             // sock_update_queue
    deleted: seq<SockId>,             // sock_deleted_queue
    pool: Pool,                       // poll_group_queue
    active: nat,                      // active_poll_count
    stuck: bool,                      // the last port__update_events returned -1
    inflight: set<SockId>,            // submitted polls whose completion has not been fed back
    waiters: map<ThreadId, Waiter>)

  // ---------- sock_state_t

  predicate Covered(user: Mask, pending: Mask) { user * KNOWN_EVENTS <= pending }

  predicate Enqueued(st: State, s: SockId) { s in st.updates || s in st.deleted }

  function SetSock(st: State, s: SockId, sock: Sock): State { st.(socks := st.socks[s := sock]) }

  /** queue_remove, whichever of the two queues the socket is in. */
  function Unqueue(st: State, s: SockId): State {
    st.(updates := Without(st.updates, s), deleted := Without(st.deleted, s))
  }

  function RequestUpdate(st: State, s: SockId): State {
    if Enqueued(st, s) then st else st.(updates := st.updates + [s])
  }

  /** sock__cancel_poll */
  function CancelPoll(sock: Sock, ok: bool): Sock {
    if ok then sock.(status := Cancelled, pendingEvents := {}) else sock
  }

  /** The first half of sock__delete: take a live socket out of the tree and the update queue. */
  function Retire(st: State, s: SockId, k: Kernel): State
    requires s in st.socks
  {
    var sock := st.socks[s];
    if sock.deletePending then st
    else
      var sock' := if sock.status == Pending then CancelPoll(sock, k.cancel(s)) else sock;
      SetSock(Unqueue(st, s).(tree := st.tree - {sock.key}), s, sock'.(deletePending := true))
  }

  /** sock__free, with the group slot given back. */
  function Free(st: State, s: SockId): State
    requires s in st.socks && SizeOf(st.pool, st.socks[s].group) > 0
  {
    Unqueue(st, s).(pool := Release(st.pool, st.socks[s].group), socks := st.socks - {s})
  }

  /** sock__delete without force: free now, or park the socket until its poll comes back. */
  function Delete(st: State, s: SockId, k: Kernel): State
    requires s in st.socks && SizeOf(st.pool, st.socks[s].group) > 0
  {
    var st1 := Retire(st, s, k);
    if st1.socks[s].status == Idle then Free(st1, s)
    else if Enqueued(st1, s) then st1
    else st1.(deleted := st1.deleted + [s])
  }

  /** sock_set_event: error and hang-up are always of interest. */
  function SetEvent(st: State, s: SockId, ev: Event): State
    requires s in st.socks
  {
    var events := ev.events + {EPOLLERR, EPOLLHUP};
    var st1 := SetSock(st, s, st.socks[s].(userEvents := events, userData := ev.data));
    if !Covered(events, st.socks[s].pendingEvents) then RequestUpdate(st1, s) else st1
  }

  /** sock__epoll_events_to_afd_events: a closed socket is always of interest. */
  function ToAfd(events: Mask): Mask {
      {AFD_LOCAL_CLOSE}
    + (if EPOLLIN in events || EPOLLRDNORM in events then {AFD_RECEIVE, AFD_ACCEPT} else {})
    + (if EPOLLPRI in events || EPOLLRDBAND in events then {AFD_RECEIVE_EXPEDITED} else {})
    + (if EPOLLOUT in events || EPOLLWRNORM in events || EPOLLWRBAND in events then {AFD_SEND} else {})
    + (if EPOLLIN in events || EPOLLRDNORM in events || EPOLLRDHUP in events then {AFD_DISCONNECT} else {})
    + (if EPOLLHUP in events then {AFD_ABORT} else {})
    + (if EPOLLERR in events then {AFD_CONNECT_FAIL} else {})
  }

  datatype Updated = Updated(st: State, ok: bool)

  /** sock_update */
  function Update(st: State, s: SockId, k: Kernel): Updated
    requires s in st.socks && SizeOf(st.pool, st.socks[s].group) > 0
  {
    var sock := st.socks[s];
    match sock.status
    case Pending =>
      if Covered(sock.userEvents, sock.pendingEvents) then Updated(Unqueue(st, s), true)
      else if k.cancel(s) then Updated(Unqueue(SetSock(st, s, CancelPoll(sock, true)), s), true)
      else Updated(st, false)
    case Cancelled => Updated(Unqueue(st, s), true)
    case Idle =>
      match k.submit(s)
      case Accepted =>
        var sock' := sock.(status := Pending, pendingEvents := sock.userEvents, polled := ToAfd(sock.userEvents));
        var st1 := SetSock(st, s, sock');
        Updated(Unqueue(st1.(inflight := st.inflight + {s}), s), true)
      case InvalidHandle => Updated(Delete(st, s, k), true)
      case SubmitError => Updated(st, false)
  }

  /** sock__afd_events_to_epoll_events */
  function ToEpoll(afd: Mask): Mask {
      (if AFD_RECEIVE in afd || AFD_ACCEPT in afd then {EPOLLIN, EPOLLRDNORM} else {})
    + (if AFD_RECEIVE_EXPEDITED in afd then {EPOLLPRI, EPOLLRDBAND} else {})
    + (if AFD_SEND in afd then {EPOLLOUT, EPOLLWRNORM, EPOLLWRBAND} else {})
    + (if AFD_DISCONNECT in afd then {EPOLLIN, EPOLLRDNORM, EPOLLRDHUP} else {})
    + (if AFD_ABORT in afd then {EPOLLHUP} else {})
    + (if AFD_CONNECT_FAIL in afd
       then {EPOLLIN, EPOLLOUT, EPOLLERR, EPOLLRDNORM, EPOLLWRNORM, EPOLLRDHUP} else {})
  }

  datatype Fed = Fed(st: State, events: seq<Event>)

  /** The events a report stands for, before filtering. */
  function RawEvents(r: Report): Mask {
    match r
    case StatusCancelled => {}
    case StatusFailed => {EPOLLERR}
    case NoHandles => {}
    case Reported(afd) => ToEpoll(afd)
  }

  /** The AFD events of which any one makes the epoll event `e` happen. */
  function Causes(e: nat): Mask {
    if e == EPOLLIN || e == EPOLLRDNORM then {AFD_RECEIVE, AFD_ACCEPT, AFD_DISCONNECT, AFD_CONNECT_FAIL}
    else if e == EPOLLPRI || e == EPOLLRDBAND then {AFD_RECEIVE_EXPEDITED}
    else if e == EPOLLOUT || e == EPOLLWRNORM then {AFD_SEND, AFD_CONNECT_FAIL}
    else if e == EPOLLWRBAND then {AFD_SEND}
    else if e == EPOLLRDHUP then {AFD_DISCONNECT, AFD_CONNECT_FAIL}
    else if e == EPOLLHUP then {AFD_ABORT}
    else if e == EPOLLERR then {AFD_CONNECT_FAIL}
    else {}
  }

  /** A report makes the event `e` happen; a poll that fails is an error. */
  predicate Happens(r: Report, e: nat) {
    (r.StatusFailed? && e == EPOLLERR) || (r.Reported? && exists b :: b in Causes(e) && b in r.afdEvents)
  }

  lemma EpollCauses(afd: Mask, e: nat)
    ensures e in ToEpoll(afd) <==> exists b :: b in Causes(e) && b in afd
  {
    if e in ToEpoll(afd) {
      var b :| b in Causes(e) && b in afd;
    }
  }

  lemma RawHappens(r: Report)
    ensures forall e: nat :: e in RawEvents(r) <==> Happens(r, e)
  {
    hide ToEpoll, Causes;
    forall e: nat
      ensures e in RawEvents(r) <==> Happens(r, e)
    {
      if r.Reported? {
        EpollCauses(r.afdEvents, e);
      }
    }
  }

  lemma RequestSame(st: State, s: SockId)
    ensures RequestUpdate(st, s).socks == st.socks && RequestUpdate(st, s).inflight == st.inflight
  {
  }

  /** A completion for `sock` is not a sign to drop it, and something that the user asked for has happened. */
  ghost predicate Reportable(sock: Sock, r: Report) {
    && !sock.deletePending && !(r.Reported? && AFD_LOCAL_CLOSE in r.afdEvents)
    && exists e :: e in sock.userEvents && Happens(r, e)
  }

  /** sock_feed_event: at most one event comes out. */
  function Feed(st: State, p: Packet, k: Kernel): (f: Fed)
    requires p.sock in st.socks && SizeOf(st.pool, st.socks[p.sock].group) > 0
    ensures |f.events| == if Reportable(st.socks[p.sock], p.report) then 1 else 0
    ensures forall x | x in f.events ::
      x.data == st.socks[p.sock].userData
      && forall e :: e in x.events <==> e in st.socks[p.sock].userEvents && Happens(p.report, e)
  {
    RawHappens(p.report);
    hide RawEvents, Happens, Delete, RequestUpdate;
    var s := p.sock;
    var st1 := SetSock(st, s, st.socks[s].(status := Idle, pendingEvents := {})).(inflight := st.inflight - {s});
    RequestSame(st1, s);
    if st.socks[s].deletePending || (p.report.Reported? && AFD_LOCAL_CLOSE in p.report.afdEvents)
    then Fed(Delete(st1, s, k), [])
    else
      var st2 := RequestUpdate(st1, s);
      var events := RawEvents(p.report) * st2.socks[s].userEvents;
      if events == {} then Fed(st2, [])
      else
        var sock := st2.socks[s];
        var st3 := if EPOLLONESHOT in sock.userEvents then SetSock(st2, s, sock.(userEvents := {})) else st2;
        Fed(st3, [Event(events, sock.userData)])
  }

  // ---------- what holds whenever the lock is free

  ghost predicate InTree(st: State, s: SockId) {
    && s in st.socks && st.socks[s].key in st.tree && st.tree[st.socks[s].key] == s
  }

  /** The tree indexes exactly the live sockets, each under its own key. */
  ghost predicate TreeInv(st: State) {
    && (forall key :: key in st.tree ==> st.tree[key] in st.socks && st.socks[st.tree[key]].key == key)
    && (forall s :: s in st.socks ==> (InTree(st, s) <==> !st.socks[s].deletePending))
  }

  /** Only live sockets wait for an update; exactly the delete-pending ones sit in the deleted queue. */
  ghost predicate QueueInv(st: State) {
    && NoDup(st.updates) && NoDup(st.deleted)
    && (forall s :: s in st.updates ==> s in st.socks && !st.socks[s].deletePending)
    && (forall s :: s in st.deleted <==> s in st.socks && st.socks[s].deletePending)
  }

  /** A poll is outstanding exactly when the status is not idle; deleted sockets only await theirs. */
  ghost predicate PollInv(st: State) {
    && (forall s :: s in st.inflight <==> s in st.socks && st.socks[s].status != Idle)
    && (forall s :: s in st.socks && st.socks[s].deletePending ==> st.socks[s].status != Idle)
  }

  ghost function Holders(socks: map<SockId, Sock>, g: GroupId): set<SockId> {
    set s | s in socks && socks[s].group == g
  }

  /** Every group size counts the sockets that hold the group. */
  ghost predicate GroupInv(st: State) {
    && Sound(st.pool)
    && (forall s :: s in st.socks ==> st.socks[s].group in st.pool.sizes)
    && (forall g :: g in st.pool.sizes ==> st.pool.sizes[g] == |Holders(st.socks, g)|)
  }

  /** The interest of one socket is looked after. */
  ghost predicate Attended(st: State, s: SockId)
    requires s in st.socks
  {
    || s in st.updates
    || (st.socks[s].status == Pending && Covered(st.socks[s].userEvents, st.socks[s].pendingEvents))
    || st.socks[s].status == Cancelled
  }

  ghost predicate InterestInv(st: State) {
    forall s :: s in st.socks && !st.socks[s].deletePending ==> Attended(st, s)
  }

  /** Thread `t` has dequeued at least `i + 1` packets and has not fed them back yet. */
  ghost predicate Holds(st: State, t: ThreadId, i: int) {
    t in st.waiters && st.waiters[t].Woken? && 0 <= i < |st.waiters[t].packets|
  }

  ghost function SockOf(st: State, t: ThreadId, i: int): SockId
    requires Holds(st, t, i)
  {
    st.waiters[t].packets[i].sock
  }

  /** Every dequeued completion belongs to an outstanding poll, and to one thread only. */
  ghost predicate WaiterInv(st: State) {
    && st.active == |st.waiters|
    && (forall t, i :: Holds(st, t, i) ==> SockOf(st, t, i) in st.inflight)
    && (forall t, i, t', i' ::
          Holds(st, t, i) && Holds(st, t', i') && (t != t' || i != i') ==> SockOf(st, t, i) != SockOf(st, t', i'))
  }

  /** While a thread waits, nothing is left to submit, unless the kernel refused the last attempt. */
  ghost predicate FlushInv(st: State) {
    st.active > 0 && !st.stuck ==> st.updates == []
  }

  /** What single socket operations rely on and keep. */
  ghost predicate Core(st: State) {
    TreeInv(st) && QueueInv(st) && PollInv(st) && GroupInv(st)
  }

  ghost predicate Inv(st: State) {
    Core(st) && InterestInv(st) && WaiterInv(st) && FlushInv(st)
  }
}
