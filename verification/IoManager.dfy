/** The registrations of the I/O manager (server_frame/iomanager.cc): what each descriptor waits for, what epoll
    was told, and who is scheduled. Each method is the part under the descriptor's lock. */
module IoManager {
  import opened MachineInts
  import opened Schedulers
  import opened Wrappers

  datatype Event = Read | Write

  /** A call of `scheduler->Schedule(task)`. */
  datatype Resumption = Resumption(scheduler: nat, task: Task)

  datatype EventContext = EventContext(scheduler: Option<nat>, fiber: Option<nat>, cb: Option<nat>)

  const EMPTY := EventContext(None, None, None)

  /** A scheduler and exactly one of fiber and callback. */
  predicate Holds(c: EventContext) {
    c.scheduler.Some? && c.fiber.Some? != c.cb.Some?
  }

  function Waiter(c: EventContext): Resumption
    requires Holds(c)
  {
    Resumption(c.scheduler.value, if c.cb.Some? then Call(c.cb.value) else Fiber(c.fiber.value))
  }

  // ---- the state of one descriptor ----

  datatype FdState = FdState(read: EventContext, write: EventContext, events: set<Event>) {
    function Context(e: Event): EventContext {
      if e == Read then read else write
    }

    function Put(e: Event, c: EventContext): FdState {
      if e == Read then this.(read := c) else this.(write := c)
    }

    function Add(e: Event, c: EventContext): FdState {
      Put(e, c).(events := events + {e})
    }

    function Remove(e: Event): FdState {
      Put(e, EMPTY).(events := events - {e})
    }

    function RemoveAll(es: set<Event>): FdState {
      FdState(if Read in es then EMPTY else read, if Write in es then EMPTY else write, events - es)
    }

    /** An event is set if and only if its context holds a waiter; otherwise the context is empty. */
    predicate Consistent() {
      forall e :: if e in events then Holds(Context(e)) else Context(e) == EMPTY
    }

    /** Those waiting for `es`, reader first. */
    function Waiters(es: set<Event>): seq<Resumption>
      requires Consistent() && es <= events
    {
      (if Read in es then [Waiter(read)] else []) + if Write in es then [Waiter(write)] else []
    }
  }

  const IDLE := FdState(EMPTY, EMPTY, {})

  type Fd = s: FdState | s.Consistent() witness IDLE

  // ---- all descriptors ----

  function Bits(events: set<Event>): nat {
    (if Read in events then 1 else 0) + if Write in events then 1 else 0
  }

  ghost function Held(s: Fd): multiset<Resumption> {
    multiset(s.Waiters(s.events))
  }

  /** How many event bits are set. */
  ghost function Count(t: seq<Fd>): nat {
    if t == [] then 0 else Bits(t[0].events) + Count(t[1..])
  }

  /** Everyone registered. */
  ghost function Waiting(t: seq<Fd>): multiset<Resumption> {
    if t == [] then multiset{} else Held(t[0]) + Waiting(t[1..])
  }

  lemma {:induction false} TableUpdate(t: seq<Fd>, i: nat, s: Fd)
    requires i < |t|
    ensures Count(t[i := s]) + Bits(t[i].events) == Count(t) + Bits(s.events)
    ensures Waiting(t[i := s]) + Held(t[i]) == Waiting(t) + Held(s)
  {
    hide Held;
    hide Bits;
    if i == 0 {
      assert t[0 := s][1..] == t[1..];
    } else {
      TableUpdate(t[1..], i - 1, s);
      var us := t[1..][i - 1 := s];
      assert t[i := s][1..] == us;
      assert Held(t[0]) + Waiting(us) + Held(t[i]) == Held(t[0]) + (Waiting(us) + Held(t[i]));
    }
  }

  ghost function Idles(n: nat): (t: seq<Fd>)
    ensures |t| == n && forall i :: 0 <= i < n ==> t[i] == IDLE
  {
    seq(n, _ => IDLE)
  }

  lemma {:induction false} IdlesHoldNobody(n: nat)
    ensures Count(Idles(n)) == 0 && Waiting(Idles(n)) == multiset{}
  {
    if n > 0 {
      IdlesHoldNobody(n - 1);
      assert Idles(n)[1..] == Idles(n - 1);
    }
  }

  lemma {:induction false} TableGrow(t: seq<Fd>, n: nat)
    ensures Count(t + Idles(n)) == Count(t)
    ensures Waiting(t + Idles(n)) == Waiting(t)
  {
    hide Held;
    hide Bits;
    hide Idles;
    if t == [] {
      IdlesHoldNobody(n);
      assert t + Idles(n) == Idles(n);
    } else {
      TableGrow(t[1..], n);
      assert (t + Idles(n))[1..] == t[1..] + Idles(n);
    }
  }

  /** Nothing pending means that no descriptor waits for anything and nobody is kept in a context. */
  lemma {:induction false} NothingPending(t: seq<Fd>)
    ensures Count(t) == 0 <==> forall s :: s in t ==> s == IDLE
    ensures Count(t) == |Waiting(t)|
  {
    if t != [] {
      NothingPending(t[1..]);
      assert t[0] in t && t[0].Consistent();
      assert Bits(t[0].events) == 0 ==>
        t[0].Context(Read) == EMPTY && t[0].Context(Write) == EMPTY && t[0].events == {};
      assert forall s :: s in t <==> s == t[0] || s in t[1..];
    }
  }

  // ---- what epoll reports ----

  datatype Flag = In | Out | Err | Hup

  function Reported(flags: set<Flag>): set<Event> {
    (if In in flags then {Read} else {}) + if Out in flags then {Write} else {}
  }

  /** `real_events`: an error or a hang-up counts as everything the descriptor waits for. */
  function Ready(flags: set<Flag>, events: set<Event>): set<Event> {
    var inOut := (if Read in events then {In} else {}) + if Write in events then {Out} else {};
    Reported(if Err in flags || Hup in flags then flags + inOut else flags)
  }

  /** Reading becomes ready by EPOLLIN, writing by EPOLLOUT, and whatever is waited for by an error or a hang-up; so on
      an error nothing is left waiting, unless the assertion is met. */
  lemma ErrorIsReady(flags: set<Flag>, events: set<Event>)
    ensures Read in Ready(flags, events) <==> In in flags || ((Err in flags || Hup in flags) && Read in events)
    ensures Write in Ready(flags, events) <==> Out in flags || ((Err in flags || Hup in flags) && Write in events)
    ensures (Err in flags || Hup in flags) && Ready(flags, events) <= events ==> Ready(flags, events) == events
  {
    var ready := Ready(flags, events);
    assert forall e :: e in events ==> e == Read || e == Write;
    assert Read in events <==> Read in events * ready || Read in events - ready;
  }

  /** Someone who waits for the event is to be woken by these flags. */
  predicate IsReady(e: Event, flags: set<Flag>) {
    Err in flags || Hup in flags || if e == Read then In in flags else Out in flags
  }

  /** What an event of `epoll_wait` wakes. */
  function Woken(events: set<Event>, flags: set<Flag>, allowed: bool): (es: set<Event>)
    ensures es <= events
  {
    if allowed then set e | e in events && IsReady(e, flags) else {}
  }

  /** Someone is to be woken, and EPOLLIN or EPOLLOUT is reported that nobody waits for. */
  predicate Aborts(events: set<Event>, flags: set<Flag>, allowed: bool) {
    && Woken(events, flags, allowed) != {}
    && ((In in flags && Read !in events) || (Out in flags && Write !in events))
  }

  lemma ReadyOrNot(events: set<Event>, flags: set<Flag>, e: Event)
    ensures e in Ready(flags, events) * events <==> e in events && IsReady(e, flags)
    ensures e in Ready(flags, events) && e !in events <==>
      e !in events && if e == Read then In in flags else Out in flags
  {
    ErrorIsReady(flags, events);
    hide Ready;
    assert e == Read || e == Write;
  }

  lemma Verdict(events: set<Event>, flags: set<Flag>, allowed: bool)
    ensures var ready := Ready(flags, events);
      && (events * ready == {} || !allowed ==> Woken(events, flags, allowed) == {} && !Aborts(events, flags, allowed))
      && (events * ready != {} && allowed ==> Aborts(events, flags, allowed) == !(ready <= events))
      && (allowed && ready <= events ==> Woken(events, flags, allowed) == ready)
  {
    var ready := Ready(flags, events);
    forall e: Event
      ensures e in ready * events <==> e in events && IsReady(e, flags)
    {
      ReadyOrNot(events, flags, e);
    }
    ReadyOrNot(events, flags, Read);
    ReadyOrNot(events, flags, Write);
    hide Ready;
    hide IsReady;
    assert ready <= events <==> (Read in ready ==> Read in events) && (Write in ready ==> Write in events) by {
      assert forall e :: e in ready ==> e == Read || e == Write;
    }
    assert allowed ==> Woken(events, flags, allowed) == ready * events;
    assert ready <= events ==> ready * events == ready;
  }

  // ---- one round of epoll_wait ----

  /** An event of `epoll_wait`: the wake-up pipe or a descriptor; `allowed` says whether `epoll_ctl` then succeeds. */
  datatype Report = Tickle | Poll(fd: nat, flags: set<Flag>, allowed: bool)

  ghost predicate Once(rs: seq<Report>) {
    forall i, j :: 0 <= i < j < |rs| && rs[i].Poll? && rs[j].Poll? ==> rs[i].fd != rs[j].fd
  }

  ghost predicate Untouched(rs: seq<Report>, fd: nat) {
    forall j :: 0 <= j < |rs| && rs[j].Poll? ==> rs[j].fd != fd
  }

  /** The state of a reported descriptor afterwards. */
  ghost function Served(t: seq<Fd>, r: Report): Fd
    requires r.Poll? && r.fd < |t|
  {
    Cleared(t[r.fd], Woken(t[r.fd].events, r.flags, r.allowed))
  }

  /** Whom the reports wake, by what each descriptor waited for at the start. */
  ghost function WokenBy(t: seq<Fd>, rs: seq<Report>): seq<Resumption> {
    if rs == [] then []
    else
      var last := rs[|rs| - 1];
      WokenBy(t, rs[..|rs| - 1]) +
      match last
      case Tickle => []
      case Poll(fd, flags, allowed) =>
        if fd < |t| then t[fd].Waiters(Woken(t[fd].events, flags, allowed)) else []
  }

  /** Each descriptor reported is served, the others are left alone. */
  ghost predicate AllServed(t: seq<Fd>, u: seq<Fd>, rs: seq<Report>) {
    && |u| == |t|
    && (forall j :: 0 <= j < |rs| && rs[j].Poll? && rs[j].fd < |t| ==> u[rs[j].fd] == Served(t, rs[j]))
    && (forall fd: nat :: fd < |t| && Untouched(rs, fd) ==> u[fd] == t[fd])
  }

  lemma ServedSnoc(t: seq<Fd>, u: seq<Fd>, rs: seq<Report>, r: Report)
    requires AllServed(t, u, rs) && Once(rs + [r])
    ensures r.Poll? && r.fd < |t| ==> Served(t, r) == Cleared(t[r.fd], Woken(t[r.fd].events, r.flags, r.allowed))
    ensures r == Tickle ==> AllServed(t, u, rs + [r])
    ensures r.Poll? && r.fd < |t| ==> u[r.fd] == t[r.fd] && AllServed(t, u[r.fd := Served(t, r)], rs + [r])
  {
    var qs := rs + [r];
    assert qs[|rs|] == r && forall j :: 0 <= j < |rs| ==> qs[j] == rs[j];
    if r.Poll? && r.fd < |t| {
      assert Untouched(rs, r.fd);
    }
    forall fd: nat | fd < |t| && Untouched(qs, fd)
      ensures Untouched(rs, fd) && (r.Poll? ==> fd != r.fd)
    {
    }
  }

  lemma OncePrefix(rs: seq<Report>, i: nat)
    requires Once(rs) && i < |rs|
    ensures rs[..i + 1] == rs[..i] + [rs[i]] && Once(rs[..i] + [rs[i]])
  {
  }

  /** The report meets the assertion, by what its descriptor waited for at the start. */
  ghost predicate ReportAborts(t: seq<Fd>, r: Report) {
    r.Poll? && r.fd < |t| && Aborts(t[r.fd].events, r.flags, r.allowed)
  }

  ghost predicate SomeAborts(t: seq<Fd>, rs: seq<Report>) {
    exists j :: 0 <= j < |rs| && ReportAborts(t, rs[j])
  }

  lemma SomeAbortsSnoc(t: seq<Fd>, rs: seq<Report>, i: nat)
    requires i < |rs|
    ensures SomeAborts(t, rs[..i + 1]) <==> SomeAborts(t, rs[..i]) || ReportAborts(t, rs[i])
    ensures ReportAborts(t, rs[i]) ==> SomeAborts(t, rs)
  {
    hide ReportAborts;
    assert rs[..i + 1] == rs[..i] + [rs[i]];
    if SomeAborts(t, rs[..i]) {
      var j :| 0 <= j < i && ReportAborts(t, rs[..i][j]);
      assert rs[..i + 1][j] == rs[j];
    } else if ReportAborts(t, rs[i]) {
      assert rs[..i + 1][i] == rs[i];
    }
  }

  ghost function WithWoken(t: seq<Fd>, rs: seq<Report>, r: Record): Record {
    r.(scheduled := r.scheduled + WokenBy(t, rs))
  }

  lemma WithWokenSnoc(t: seq<Fd>, rs: seq<Report>, q: Report, r: Record)
    ensures var r' := WithWoken(t, rs, r);
      WithWoken(t, rs + [q], r) == if q.Poll? && q.fd < |t| then
        r'.(scheduled := r'.scheduled + t[q.fd].Waiters(Woken(t[q.fd].events, q.flags, q.allowed))) else r'
  {
    hide Woken;
    hide FdState.Waiters;
    hide FdState.Consistent;
    assert (rs + [q])[..|rs|] == rs;
    var w := if q.Poll? && q.fd < |t| then t[q.fd].Waiters(Woken(t[q.fd].events, q.flags, q.allowed)) else [];
    assert WokenBy(t, rs + [q]) == WokenBy(t, rs) + w;
    assert r.scheduled + (WokenBy(t, rs) + w) == r.scheduled + WokenBy(t, rs) + w;
  }

  // ---- how long to wait ----

  const MAX_TIMEOUT := 3000

  /** The last argument of `epoll_wait`, from the time to the next timer. */
  function EpollTimeout(wait: nat): int {
    var next := if wait != U64 - 1 then if ToInt(wait) > MAX_TIMEOUT then MAX_TIMEOUT else wait else MAX_TIMEOUT;
    ToInt(next)
  }

  /** The cap works, and no deadline is overslept, unless the wait has bit 31 set: then the argument is negative and
      `epoll_wait` has no limit. */
  lemma TimeoutCapped(wait: nat)
    requires wait < U64
    ensures 0 <= EpollTimeout(wait) <= MAX_TIMEOUT <==> wait == U64 - 1 || wait % 0x1_0000_0000 < 0x8000_0000
    ensures 0 <= EpollTimeout(wait) ==> EpollTimeout(wait) <= wait
    ensures wait == U64 - 1 ==> EpollTimeout(wait) == 3000
    ensures wait < 0x8000_0000 ==> EpollTimeout(wait) == if wait > 3000 then 3000 else wait
  {
    assert wait % 0x1_0000_0000 <= wait;
  }

  /** A timer 25 days ahead. */
  lemma LongTimerUncapped()
    ensures EpollTimeout(25 * 24 * 60 * 60 * 1000) < 0
  {
  }

  datatype Op = Add | Mod | Del

  /** Epoll knows exactly the descriptors with events, each with its events. */
  ghost predicate Mirrors(kernel: map<nat, set<Event>>, t: seq<Fd>) {
    && (forall fd: nat :: fd in kernel <==> fd < |t| && t[fd].events != {})
    && (forall fd: nat :: fd in kernel ==> fd < |t| && kernel[fd] == t[fd].events)
  }

  /** The registrations accepted, taken back and scheduled so far. */
  datatype Record = Record(added: multiset<Resumption>, deleted: multiset<Resumption>, scheduled: seq<Resumption>)

  datatype Registry = Registry(table: seq<Fd>, record: Record)

  /** Each registration was deleted, scheduled once, or still waits. */
  ghost predicate Accounted(s: Registry) {
    s.record.added == s.record.deleted + multiset(s.record.scheduled) + Waiting(s.table)
  }

  /** The pending count is the number of bits set, and every registration is accounted for. */
  ghost predicate Counted(pending: int, t: seq<Fd>, r: Record) {
    pending == Count(t) && Accounted(Registry(t, r))
  }

  lemma GrowKeeps(kernel: map<nat, set<Event>>, pending: int, t: seq<Fd>, r: Record, n: nat)
    requires Mirrors(kernel, t) && Counted(pending, t, r)
    ensures Mirrors(kernel, t + Idles(n)) && Counted(pending, t + Idles(n), r)
  {
    TableGrow(t, n);
    var u := t + Idles(n);
    forall fd: nat
      ensures fd in kernel <==> fd < |u| && u[fd].events != {}
    {
      assert fd < |t| ==> u[fd] == t[fd];
    }
    assert forall fd: nat :: fd in kernel ==> fd < |t| && u[fd] == t[fd];
  }

  /** What the table is after room was made for `fd`. */
  ghost function Grown(t: seq<Fd>, fd: nat): (u: seq<Fd>)
    requires |t| >= 32
    ensures fd < |u| && t <= u && forall i :: |t| <= i < |u| ==> u[i] == IDLE
    ensures |u| == if fd < |t| then |t| else fd * 3 / 2
  {
    if fd < |t| then t else t + Idles(fd + fd / 2 - |t|)
  }

  function NewContext(cb: Option<nat>, scheduler: nat, fiber: nat): (c: EventContext)
    ensures Holds(c)
  {
    EventContext(Some(scheduler), if cb.Some? then None else Some(fiber), cb)
  }

  /** The callback is called, or else the fiber goes on. */
  lemma NewWaiter(cb: Option<nat>, scheduler: nat, fiber: nat)
    ensures Waiter(NewContext(cb, scheduler, fiber)) ==
      Resumption(scheduler, if cb.Some? then Call(cb.value) else Fiber(fiber))
  {
  }

  lemma StateOf(t: seq<Fd>, kernel: map<nat, set<Event>>, fd: nat)
    requires Mirrors(kernel, t) && fd < |t|
    ensures fd in kernel <==> t[fd].events != {}
  {
  }

  function Registered(s: Fd, e: Event, c: EventContext): Fd
    requires Holds(c)
  {
    s.Add(e, c)
  }

  function Unregistered(s: Fd, e: Event): Fd {
    s.Remove(e)
  }

  function Cleared(s: Fd, es: set<Event>): Fd {
    s.RemoveAll(es)
  }

  lemma AddKeeps(s: Fd, e: Event, c: EventContext)
    requires Holds(c) && e !in s.events
    ensures s.Context(e) == EMPTY && Registered(s, e, c) == s.Add(e, c)
    ensures Bits(s.Add(e, c).events) == Bits(s.events) + 1
    ensures Held(Registered(s, e, c)) == Held(s) + multiset{Waiter(c)}
  {
  }

  lemma RemoveKeeps(s: Fd, e: Event)
    requires e in s.events
    ensures Holds(s.Context(e)) && Unregistered(s, e) == s.Remove(e)
    ensures Bits(s.events) == Bits(s.Remove(e).events) + 1
    ensures Held(s) == Held(Unregistered(s, e)) + multiset{Waiter(s.Context(e))}
  {
  }

  lemma RemoveAllKeeps(s: Fd, es: set<Event>)
    requires es <= s.events
    ensures Cleared(s, es) == s.RemoveAll(es) && s.RemoveAll(es).events == s.events - es
    ensures es == s.events ==> s.RemoveAll(es) == IDLE
    ensures Bits(s.events) == Bits(s.RemoveAll(es).events) + Bits(es)
    ensures Held(s) == Held(Cleared(s, es)) + multiset(s.Waiters(es))
  {
  }

  lemma ClearedNone(t: seq<Fd>, fd: nat)
    requires fd < |t|
    ensures t[fd := Cleared(t[fd], {})] == t && t[fd].Waiters({}) == []
  {
    var s := t[fd];
    assert s.events - {} == s.events;
    assert s.RemoveAll({}) == s;
  }

  lemma Balance<T>(before: multiset<T>, after: multiset<T>, w: multiset<T>, w': multiset<T>, h: multiset<T>,
                   h': multiset<T>, plus: multiset<T>, minus: multiset<T>)
    requires w' + h == w + h' && h' + minus == h + plus
    requires after == before + minus
    ensures before + w + plus == after + w'
  {
    forall x
      ensures (before + w + plus)[x] == (after + w')[x]
    {
      assert (w' + h)[x] == (w + h')[x] && (h' + minus)[x] == (h + plus)[x];
    }
  }

  lemma MirrorsStep(kernel: map<nat, set<Event>>, t: seq<Fd>, fd: nat, s: Fd)
    requires Mirrors(kernel, t) && fd < |t|
    ensures Mirrors(if s.events == {} then kernel - {fd} else kernel[fd := s.events], t[fd := s])
  {
  }

  lemma AccountedStep(s: Registry, fd: nat, f: Fd, r: Record, plus: multiset<Resumption>, minus: multiset<Resumption>)
    requires Accounted(s) && fd < |s.table|
    requires r.added == s.record.added + plus
    requires r.deleted + multiset(r.scheduled) == s.record.deleted + multiset(s.record.scheduled) + minus
    requires Held(f) + minus == Held(s.table[fd]) + plus
    ensures Accounted(Registry(s.table[fd := f], r))
  {
    hide Held;
    hide Waiting;
    TableUpdate(s.table, fd, f);
    Balance(s.record.deleted + multiset(s.record.scheduled), r.deleted + multiset(r.scheduled),
            Waiting(s.table), Waiting(s.table[fd := f]), Held(s.table[fd]), Held(f), plus, minus);
  }

  /** A change at one descriptor that tells epoll, the count and the record keeps them in step. */
  lemma StepKeeps(kernel: map<nat, set<Event>>, pending: int, t: seq<Fd>, r: Record, fd: nat, s: Fd,
                  pending': int, r': Record, plus: multiset<Resumption>, minus: multiset<Resumption>)
    requires Mirrors(kernel, t) && Counted(pending, t, r) && fd < |t|
    requires pending' + Bits(t[fd].events) == pending + Bits(s.events)
    requires r'.added == r.added + plus
    requires r'.deleted + multiset(r'.scheduled) == r.deleted + multiset(r.scheduled) + minus
    requires Held(s) + minus == Held(t[fd]) + plus
    ensures Mirrors(if s.events == {} then kernel - {fd} else kernel[fd := s.events], t[fd := s])
    ensures Counted(pending', t[fd := s], r')
  {
    hide Held;
    hide Bits;
    hide Waiting;
    hide Count;
    hide FdState.Consistent;
    MirrorsStep(kernel, t, fd, s);
    hide Mirrors;
    TableUpdate(t, fd, s);
    AccountedStep(Registry(t, r), fd, s, r', plus, minus);
    hide Accounted;
  }

  class FdContext {
    var read: EventContext
    var write: EventContext
    const fd: nat
    var events: set<Event>

    constructor (fd: nat)
      ensures this.fd == fd && State() == IDLE
    {
      this.fd := fd;
      read, write, events := EMPTY, EMPTY, {};
    }

    function State(): FdState
      reads this
    {
      FdState(read, write, events)
    }

    method SetContext(e: Event, c: EventContext)
      modifies this`read, this`write
      ensures State() == old(State()).Put(e, c)
    {
      match e
      case Read => read := c;
      case Write => write := c;
    }

    method Register(e: Event, c: EventContext)
      modifies this
      ensures State() == old(State()).Add(e, c)
    {
      events := events + {e};
      SetContext(e, c);
    }

    /** Hands the waiter to its scheduler; the context is empty afterwards. */
    method TriggerEvent(e: Event) returns (woken: Resumption)
      requires State().Consistent() && e in events
      modifies this
      ensures State() == old(State()).Remove(e) && State().Consistent()
      ensures woken == old(Waiter(State().Context(e)))
    {
      events := events - {e};
      var ctx := State().Context(e);
      if ctx.cb.Some? {
        woken := Resumption(ctx.scheduler.value, Call(ctx.cb.value));
        ctx := ctx.(cb := None);
      } else {
        woken := Resumption(ctx.scheduler.value, Fiber(ctx.fiber.value));
        ctx := ctx.(fiber := None);
      }
      ctx := ctx.(scheduler := None);
      SetContext(e, ctx);
    }
  }

  class IOManager {
    var fdContexts: seq<FdContext>
    var pending: int                       // pending_event_count_
    ghost var table: seq<Fd>               // the states of fdContexts
    ghost var kernel: map<nat, set<Event>> // what epoll has registered
    ghost var record: Record

    ghost predicate Valid()
      reads this, fdContexts
    {
      && Matches()
      && |table| >= 32
      && Mirrors(kernel, table)
      && Counted(pending, table, record)
    }

    ghost predicate Matches()
      reads this`fdContexts, this`table, fdContexts
    {
      && |fdContexts| == |table|
      && (forall i :: 0 <= i < |fdContexts| ==> fdContexts[i].fd == i && fdContexts[i].State() == table[i])
    }

    lemma WaitersCounted()
      requires Valid()
      ensures pending == |Waiting(table)|
      ensures record.added == record.deleted + multiset(record.scheduled) + Waiting(table)
    {
      NothingPending(table);
    }

    constructor ()
      ensures Valid() && table == Idles(32) && record == Record(multiset{}, multiset{}, []) && fresh(fdContexts)
    {
      fdContexts, pending, table, kernel := [], 0, [], map[];
      record := Record(multiset{}, multiset{}, []);
      new;
      ContextResize(32);
    }

    /** `epoll_ctl`, called only with an operation that is legal for what is registered; it may still fail. */
    method EpollCtl(op: Op, fd: nat, mask: set<Event>, allowed: bool) returns (rt: int)
      requires op == Add <==> fd !in kernel
      modifies this`kernel
      ensures rt == if allowed then 0 else -1
      ensures kernel ==
        if !allowed then old(kernel) else if op == Del then old(kernel) - {fd} else old(kernel)[fd := mask]
    {
      if !allowed {
        return -1;
      }
      kernel := if op == Del then kernel - {fd} else kernel[fd := mask];
      return 0;
    }

    /** Grows the table; the new descriptors wait for nothing. */
    method ContextResize(size: nat)
      requires Matches() && Mirrors(kernel, table) && Counted(pending, table, record) && |fdContexts| <= size
      modifies this`fdContexts, this`table
      ensures Matches() && Mirrors(kernel, table) && Counted(pending, table, record)
      ensures table == old(table) + Idles(size - |old(table)|)
      ensures fdContexts[..|old(fdContexts)|] == old(fdContexts)
      ensures forall i :: |old(fdContexts)| <= i < size ==> fresh(fdContexts[i])
    {
      hide Mirrors;
      hide Counted;
      hide FdState.Consistent;
      hide FdContext.State;
      hide Idles;
      GrowKeeps(kernel, pending, table, record, size - |table|);
      table := table + Idles(size - |table|);
      var more := NewContexts(|fdContexts|, size);
      fdContexts := fdContexts + more;
    }

    static method NewContexts(from: nat, size: nat) returns (more: seq<FdContext>)
      requires from <= size
      ensures |more| == size - from && fresh(more)
      ensures forall i :: 0 <= i < |more| ==> more[i].fd == from + i && more[i].State() == IDLE
    {
      more := [];
      while |more| < size - from
        invariant |more| <= size - from && fresh(more)
        invariant forall i :: 0 <= i < |more| ==> more[i].fd == from + i && more[i].State() == IDLE
      {
        var ctx := new FdContext(from + |more|);
        more := more + [ctx];
      }
    }

    /** The descriptor's context; the table grows by half when it is too small. */
    method ContextOf(fd: nat) returns (ctx: FdContext)
      requires Valid()
      modifies this`fdContexts, this`table
      ensures Valid() && table == Grown(old(table), fd)
      ensures ctx == fdContexts[fd] && (ctx in old(fdContexts) || fresh(ctx))
      ensures forall i :: 0 <= i < |fdContexts| ==> fdContexts[i] in old(fdContexts) || fresh(fdContexts[i])
    {
      hide Mirrors;
      hide Counted;
      hide Idles;
      if fd >= |fdContexts| {
        ContextResize(fd + fd / 2);
        assert forall i :: 0 <= i < |old(fdContexts)| ==> fdContexts[i] == fdContexts[..|old(fdContexts)|][i];
      }
      ctx := fdContexts[fd];
    }

    /** Registers `cb`, or the running fiber when there is none. A second registration of the event is stopped by an
        assertion, so it is the caller's duty. */
    method AddEvent(fd: nat, event: Event, cb: Option<nat>, scheduler: nat, fiber: nat, allowed: bool) returns (rt: int)
      requires Valid()
      requires fd < |table| ==> event !in table[fd].events
      modifies this, fdContexts
      ensures Valid()
      ensures forall i :: 0 <= i < |fdContexts| ==> fdContexts[i] in old(fdContexts) || fresh(fdContexts[i])
      ensures rt == if allowed then 0 else -1
      ensures table == if !allowed then Grown(old(table), fd) else
        Grown(old(table), fd)[fd := Registered(Grown(old(table), fd)[fd], event, NewContext(cb, scheduler, fiber))]
      ensures record == if !allowed then old(record) else
        old(record).(added := old(record.added) +
          multiset{Resumption(scheduler, if cb.Some? then Call(cb.value) else Fiber(fiber))})
    {
      NewWaiter(cb, scheduler, fiber);
      hide Mirrors;
      hide Counted;
      hide Idles;
      hide Held;
      hide Bits;
      hide Registered;
      hide FdState.Consistent;
      var ctx := ContextOf(fd);
      StateOf(table, kernel, fd);
      hide Grown;
      hide NewContext;
      ghost var c := NewContext(cb, scheduler, fiber);
      ghost var s := Registered(table[fd], event, c);
      ghost var r := record.(added := record.added + multiset{Waiter(c)});
      AddKeeps(table[fd], event, c);
      var result := EpollCtl(if ctx.events != {} then Mod else Add, fd, ctx.events + {event}, allowed);
      if result != 0 {
        return -1;
      }
      StepKeeps(old(kernel), pending, table, record, fd, s, pending + 1, r, multiset{Waiter(c)}, multiset{});
      pending := pending + 1;
      // The assertions that the context is empty.
      assert ctx.State().Context(event) == EMPTY;
      hide FdContext.State;
      ctx.Register(event, NewContext(cb, scheduler, fiber));
      table, record := table[fd := s], r;
      return 0;
    }

    /** Takes a registration back without waking anyone. */
    method DelEvent(fd: nat, event: Event, allowed: bool) returns (done: bool)
      requires Valid()
      modifies this`kernel, this`pending, this`table, this`record, fdContexts
      ensures Valid()
      ensures done == (fd < |old(table)| && event in old(table)[fd].events && allowed)
      ensures table == if done then old(table)[fd := Unregistered(old(table)[fd], event)] else old(table)
      ensures record == if !done then old(record) else
        old(record).(deleted := old(record.deleted) + multiset{Waiter(old(table)[fd].Context(event))})
    {
      hide Mirrors;
      hide Counted;
      hide Held;
      hide Bits;
      hide Registered;
      hide Unregistered;
      hide Cleared;
      if |fdContexts| <= fd {
        return false;
      }
      var ctx := fdContexts[fd];
      if event !in ctx.events {
        return false;
      }
      StateOf(table, kernel, fd);
      var events := ctx.events - {event};
      var result := EpollCtl(if events != {} then Mod else Del, fd, events, allowed);
      if result != 0 {
        return false;
      }
      ghost var s := Unregistered(table[fd], event);
      ghost var woken := Waiter(table[fd].Context(event));
      ghost var r := record.(deleted := record.deleted + multiset{woken});
      RemoveKeeps(table[fd], event);
      StepKeeps(old(kernel), pending, table, record, fd, s, pending - 1, r, multiset{}, multiset{woken});
      pending := pending - 1;
      ctx.events := events;
      ctx.SetContext(event, EMPTY);
      table, record := table[fd := s], r;
      return true;
    }

    /** Takes a registration back and wakes its waiter. */
    method CancelEvent(fd: nat, event: Event, allowed: bool) returns (done: bool)
      requires Valid()
      modifies this`kernel, this`pending, this`table, this`record, fdContexts
      ensures Valid()
      ensures done == (fd < |old(table)| && event in old(table)[fd].events && allowed)
      ensures table == if done then old(table)[fd := Unregistered(old(table)[fd], event)] else old(table)
      ensures record == if !done then old(record) else
        old(record).(scheduled := old(record.scheduled) + [Waiter(old(table)[fd].Context(event))])
    {
      hide Mirrors;
      hide Counted;
      hide Held;
      hide Bits;
      hide Registered;
      hide Unregistered;
      hide Cleared;
      if |fdContexts| <= fd {
        return false;
      }
      var ctx := fdContexts[fd];
      if event !in ctx.events {
        return false;
      }
      StateOf(table, kernel, fd);
      var events := ctx.events - {event};
      var result := EpollCtl(if events != {} then Mod else Del, fd, events, allowed);
      if result != 0 {
        return false;
      }
      ghost var s := Unregistered(table[fd], event);
      RemoveKeeps(table[fd], event);
      var woken := ctx.TriggerEvent(event);
      ghost var r := record.(scheduled := record.scheduled + [woken]);
      StepKeeps(old(kernel), pending, table, record, fd, s, pending - 1, r, multiset{}, multiset{woken});
      pending := pending - 1;
      table, record := table[fd := s], r;
      return true;
    }

    /** Takes all registrations of a descriptor back and wakes the waiters, reader first. */
    method CancelAll(fd: nat, allowed: bool) returns (done: bool)
      requires Valid()
      modifies this`kernel, this`pending, this`table, this`record, fdContexts
      ensures Valid()
      ensures done == (fd < |old(table)| && old(table)[fd].events != {} && allowed)
      ensures table == if done then old(table)[fd := IDLE] else old(table)
      ensures record == if !done then old(record) else
        old(record).(scheduled := old(record.scheduled) + old(table)[fd].Waiters(old(table)[fd].events))
    {
      hide Mirrors;
      hide Counted;
      hide Held;
      hide Bits;
      hide Registered;
      hide Unregistered;
      hide Cleared;
      if |fdContexts| <= fd {
        return false;
      }
      var ctx := fdContexts[fd];
      if ctx.events == {} {
        return false;
      }
      StateOf(table, kernel, fd);
      var result := EpollCtl(Del, fd, {}, allowed);
      if result != 0 {
        return false;
      }
      RemoveAllKeeps(table[fd], table[fd].events);
      var woken := Trigger(ctx, ctx.events);
      ghost var r := record.(scheduled := record.scheduled + woken);
      StepKeeps(old(kernel), old(pending), table, record, fd, IDLE, pending, r, multiset{}, multiset(woken));
      assert ctx.events == {};
      table, record := table[fd := IDLE], r;
      return true;
    }

    /** Triggers the events among `es`, reader first, and counts them off. */
    method Trigger(ctx: FdContext, es: set<Event>) returns (woken: seq<Resumption>)
      requires ctx.State().Consistent() && es <= ctx.events
      modifies this`pending, ctx
      ensures ctx.State() == old(ctx.State()).RemoveAll(es) && ctx.State().Consistent()
      ensures woken == old(ctx.State().Waiters(es))
      ensures pending == old(pending) - Bits(es)
    {
      woken := [];
      if Read in es {
        var w := ctx.TriggerEvent(Read);
        pending := pending - 1;
        woken := woken + [w];
      }
      if Write in es {
        var w := ctx.TriggerEvent(Write);
        pending := pending - 1;
        woken := woken + [w];
      }
    }

    /** One event of `epoll_wait`: the waiters of what is ready are scheduled. An assertion stops the program if
        something is ready, epoll accepts the change, and something reported is no longer waited for. */
    method Dispatch(fd: nat, flags: set<Flag>, allowed: bool) returns (aborted: bool)
      requires Valid() && fd < |table|
      modifies this`kernel, this`pending, this`table, this`record, fdContexts
      ensures aborted == Aborts(old(table)[fd].events, flags, allowed)
      ensures !aborted ==> Valid()
      ensures !aborted ==>
        table == old(table)[fd := Cleared(old(table)[fd], Woken(old(table)[fd].events, flags, allowed))]
      ensures !aborted ==> record == old(record).(scheduled := old(record.scheduled) +
        old(table)[fd].Waiters(Woken(old(table)[fd].events, flags, allowed)))
    {
      hide Mirrors;
      hide Counted;
      hide Held;
      hide Bits;
      hide Ready;
      hide Woken;
      hide Aborts;
      hide FdState.Waiters;
      hide FdState.Consistent;
      hide FdState.RemoveAll;
      hide Reported;
      hide IsReady;
      hide Cleared;
      Verdict(table[fd].events, flags, allowed);
      ClearedNone(table, fd);
      var ctx := fdContexts[fd];
      var ready := Ready(flags, ctx.events);
      if ctx.events * ready == {} {
        return false;
      }
      StateOf(table, kernel, fd);
      var left := ctx.events - ready;
      var result := EpollCtl(if left != {} then Mod else Del, fd, left, allowed);
      if result != 0 {
        return false;
      }
      if !(ready <= ctx.events) {
        return true;
      }
      ghost var s := Cleared(table[fd], ready);
      RemoveAllKeeps(table[fd], ready);
      var woken := Trigger(ctx, ready);
      ghost var r := record.(scheduled := record.scheduled + woken);
      StepKeeps(old(kernel), old(pending), table, record, fd, s, pending, r, multiset{}, multiset(woken));
      table, record := table[fd := s], r;
      return false;
    }

    /** One turn of the loop. */
    method DispatchReport(reports: seq<Report>, i: nat, ghost t: seq<Fd>, ghost r: Record) returns (aborted: bool)
      requires Valid() && |table| == |t| && Once(reports) && i < |reports|
      requires reports[i].Poll? ==> reports[i].fd < |table|
      requires AllServed(t, table, reports[..i]) && record == WithWoken(t, reports[..i], r)
      requires !SomeAborts(t, reports[..i])
      modifies this`kernel, this`pending, this`table, this`record, fdContexts
      ensures aborted ==> SomeAborts(t, reports)
      ensures !aborted ==> Valid() && |table| == |t| && !SomeAborts(t, reports[..i + 1])
      ensures !aborted ==> AllServed(t, table, reports[..i + 1]) && record == WithWoken(t, reports[..i + 1], r)
    {
      hide Woken;
      hide Cleared;
      hide Reported;
      hide FdState.Waiters;
      hide FdState.Consistent;
      hide WithWoken;
      hide AllServed;
      hide Once;
      hide Aborts;
      hide Served;
      hide IOManager.Valid;
      SomeAbortsSnoc(t, reports, i);
      hide SomeAborts;
      WithWokenSnoc(t, reports[..i], reports[i], r);
      OncePrefix(reports, i);
      ServedSnoc(t, table, reports[..i], reports[i]);
      match reports[i] {
        case Tickle =>
          return false;
        case Poll(fd, flags, allowed) =>
          aborted := Dispatch(fd, flags, allowed);
      }
    }

    /** The loop over what one `epoll_wait` returned, which names a descriptor once. It stops at an assertion if and
        only if a report meets it; otherwise exactly those waiting for what is ready are scheduled, in order. */
    method DispatchAll(reports: seq<Report>) returns (aborted: bool)
      requires Valid() && Once(reports)
      requires forall j :: 0 <= j < |reports| && reports[j].Poll? ==> reports[j].fd < |table|
      modifies this`kernel, this`pending, this`table, this`record, fdContexts
      ensures aborted <==> SomeAborts(old(table), reports)
      ensures !aborted ==> Valid() && AllServed(old(table), table, reports)
      ensures !aborted ==> record == WithWoken(old(table), reports, old(record))
    {
      ghost var t, r := table, record;
      assert WithWoken(t, reports[..0], r) == r && AllServed(t, table, reports[..0]) && !SomeAborts(t, reports[..0]);
      hide WithWoken;
      hide AllServed;
      hide SomeAborts;
      hide Once;
      hide IOManager.Valid;
      for i := 0 to |reports|
        invariant Valid() && |table| == |t|
        invariant !SomeAborts(t, reports[..i])
        invariant AllServed(t, table, reports[..i]) && record == WithWoken(t, reports[..i], r)
      {
        aborted := DispatchReport(reports, i, t, r);
        if aborted {
          return;
        }
      }
      assert reports[..|reports|] == reports;
      return false;
    }

    /** Stops only when no timer is left, nobody waits on a descriptor, and the scheduler may stop. */
    method Stopping(wait: nat, schedulerStopping: bool) returns (stop: bool)
      requires Valid()
      ensures stop == (wait == U64 - 1 && schedulerStopping && forall s :: s in table ==> s == IDLE)
    {
      NothingPending(table);
      stop := wait == U64 - 1 && pending == 0 && schedulerStopping;
    }
  }

  // ---- any operations in any order ----

  /** An operation under a descriptor's lock; other threads may take theirs between any two. */
  datatype Operation =
    | AddOp(fd: nat, event: Event, cb: Option<nat>, scheduler: nat, fiber: nat, allowed: bool)
    | DelOp(fd: nat, event: Event, allowed: bool)
    | CancelOp(fd: nat, event: Event, allowed: bool)
    | CancelAllOp(fd: nat, allowed: bool)
    | ReportOp(fd: nat, flags: set<Flag>, allowed: bool)

  /** No assertion is met: the event is not there yet, or what is reported is waited for. */
  ghost predicate MayDo(s: Registry, op: Operation) {
    match op
    case AddOp(fd, event, _, _, _, _) => fd < |s.table| ==> event !in s.table[fd].events
    case ReportOp(fd, flags, allowed) => fd < |s.table| && !Aborts(s.table[fd].events, flags, allowed)
    case _ => true
  }

  /** The state of the descriptor becomes `s` and `woken` are scheduled. */
  ghost function Woke(r: Registry, fd: nat, s: Fd, woken: seq<Resumption>): Registry
    requires fd < |r.table|
  {
    Registry(r.table[fd := s], r.record.(scheduled := r.record.scheduled + woken))
  }

  ghost function Do(s: Registry, op: Operation): (r: Registry)
    requires |s.table| >= 32 && MayDo(s, op)
    ensures |r.table| >= 32
  {
    match op
    case AddOp(fd, event, cb, scheduler, fiber, allowed) =>
      var t, c := Grown(s.table, fd), NewContext(cb, scheduler, fiber);
      if !allowed then Registry(t, s.record)
      else Registry(t[fd := Registered(t[fd], event, c)], s.record.(added := s.record.added + multiset{Waiter(c)}))
    case DelOp(fd, event, allowed) =>
      if !(fd < |s.table| && event in s.table[fd].events && allowed) then s
      else
        Registry(s.table[fd := Unregistered(s.table[fd], event)],
                 s.record.(deleted := s.record.deleted + multiset{Waiter(s.table[fd].Context(event))}))
    case CancelOp(fd, event, allowed) =>
      if !(fd < |s.table| && event in s.table[fd].events && allowed) then s
      else Woke(s, fd, Unregistered(s.table[fd], event), [Waiter(s.table[fd].Context(event))])
    case CancelAllOp(fd, allowed) =>
      if !(fd < |s.table| && s.table[fd].events != {} && allowed) then s
      else Woke(s, fd, IDLE, s.table[fd].Waiters(s.table[fd].events))
    case ReportOp(fd, flags, allowed) =>
      var es := Woken(s.table[fd].events, flags, allowed);
      Woke(s, fd, Cleared(s.table[fd], es), s.table[fd].Waiters(es))
  }

  ghost predicate MayDoAll(s: Registry, ops: seq<Operation>)
    requires |s.table| >= 32
    decreases |ops|
  {
    ops == [] || (MayDo(s, ops[0]) && MayDoAll(Do(s, ops[0]), ops[1..]))
  }

  ghost function DoAll(s: Registry, ops: seq<Operation>): (r: Registry)
    requires |s.table| >= 32 && MayDoAll(s, ops)
    ensures |r.table| >= 32
    decreases |ops|
  {
    if ops == [] then s else DoAll(Do(s, ops[0]), ops[1..])
  }

  lemma DoAccounts(s: Registry, op: Operation)
    requires |s.table| >= 32 && MayDo(s, op) && Accounted(s)
    ensures Accounted(Do(s, op))
  {
    hide Accounted;
    hide Held;
    hide Registered;
    hide Unregistered;
    hide Cleared;
    match op {
      case AddOp(fd, event, cb, scheduler, fiber, allowed) =>
        GrownAccounts(s, fd);
        if allowed {
          var g, c := Registry(Grown(s.table, fd), s.record), NewContext(cb, scheduler, fiber);
          AddKeeps(g.table[fd], event, c);
          AccountedStep(g, fd, Registered(g.table[fd], event, c), Do(s, op).record, multiset{Waiter(c)}, multiset{});
        }
      case DelOp(fd, event, allowed) =>
        if fd < |s.table| && event in s.table[fd].events && allowed {
          RemoveKeeps(s.table[fd], event);
          var w := multiset{Waiter(s.table[fd].Context(event))};
          AccountedStep(s, fd, Unregistered(s.table[fd], event), Do(s, op).record, multiset{}, w);
        }
      case CancelOp(fd, event, allowed) =>
        if fd < |s.table| && event in s.table[fd].events && allowed {
          RemoveKeeps(s.table[fd], event);
          WokeAccounts(s, fd, Unregistered(s.table[fd], event), [Waiter(s.table[fd].Context(event))]);
        }
      case CancelAllOp(fd, allowed) =>
        if fd < |s.table| && s.table[fd].events != {} && allowed {
          RemoveAllKeeps(s.table[fd], s.table[fd].events);
          WokeAccounts(s, fd, IDLE, s.table[fd].Waiters(s.table[fd].events));
        }
      case ReportOp(fd, flags, allowed) =>
        var es := Woken(s.table[fd].events, flags, allowed);
        RemoveAllKeeps(s.table[fd], es);
        WokeAccounts(s, fd, Cleared(s.table[fd], es), s.table[fd].Waiters(es));
    }
  }

  lemma GrownAccounts(s: Registry, fd: nat)
    requires |s.table| >= 32 && Accounted(s)
    ensures Accounted(Registry(Grown(s.table, fd), s.record))
  {
    if fd >= |s.table| {
      TableGrow(s.table, fd + fd / 2 - |s.table|);
    }
  }

  lemma WokeAccounts(s: Registry, fd: nat, f: Fd, woken: seq<Resumption>)
    requires fd < |s.table| && Accounted(s) && Held(s.table[fd]) == Held(f) + multiset(woken)
    ensures Accounted(Woke(s, fd, f, woken))
  {
    AccountedStep(s, fd, f, Woke(s, fd, f, woken).record, multiset{}, multiset(woken));
  }

  /** After any operations in any order every registration was deleted, scheduled exactly once, or still waits. */
  lemma {:induction false} AnyOrder(s: Registry, ops: seq<Operation>)
    requires |s.table| >= 32 && MayDoAll(s, ops) && Accounted(s)
    ensures Accounted(DoAll(s, ops))
    decreases |ops|
  {
    if ops != [] {
      DoAccounts(s, ops[0]);
      hide Accounted;
      hide Do;
      AnyOrder(Do(s, ops[0]), ops[1..]);
    }
  }

  /** One operation through the object. */
  method Perform(m: IOManager, op: Operation)
    requires m.Valid() && MayDo(Registry(m.table, m.record), op)
    modifies m, m.fdContexts
    ensures m.Valid() && |m.table| >= 32
    ensures Registry(m.table, m.record) == old(Do(Registry(m.table, m.record), op))
    ensures forall i :: 0 <= i < |m.fdContexts| ==> m.fdContexts[i] in old(m.fdContexts) || fresh(m.fdContexts[i])
  {
    hide Mirrors;
    hide Counted;
    hide Registered;
    hide Unregistered;
    hide Cleared;
    hide Woken;
    hide Grown;
    match op {
      case AddOp(fd, event, cb, scheduler, fiber, allowed) =>
        var _ := m.AddEvent(fd, event, cb, scheduler, fiber, allowed);
      case DelOp(fd, event, allowed) =>
        var _ := m.DelEvent(fd, event, allowed);
      case CancelOp(fd, event, allowed) =>
        var _ := m.CancelEvent(fd, event, allowed);
      case CancelAllOp(fd, allowed) =>
        var _ := m.CancelAll(fd, allowed);
      case ReportOp(fd, flags, allowed) =>
        var _ := m.Dispatch(fd, flags, allowed);
    }
  }

  /** No descriptor in use, nothing recorded. */
  ghost function Fresh(): Registry {
    Registry(Idles(32), Record(multiset{}, multiset{}, []))
  }

  /** A new manager taken through any operations: it ends where they lead, the pending count is the number of waiters,
      and every registration is accounted for. */
  method Drive(ops: seq<Operation>) returns (m: IOManager)
    requires MayDoAll(Fresh(), ops)
    ensures m.Valid() && Registry(m.table, m.record) == DoAll(Fresh(), ops)
    ensures m.pending == |Waiting(m.table)|
    ensures m.record.added == m.record.deleted + multiset(m.record.scheduled) + Waiting(m.table)
  {
    hide Do;
    hide Idles;
    hide IOManager.Valid;
    m := new IOManager();
    var left := ops;
    ghost var end := DoAll(Registry(m.table, m.record), ops);
    while left != []
      invariant m.Valid() && |m.table| >= 32
      invariant fresh(m) && forall i :: 0 <= i < |m.fdContexts| ==> fresh(m.fdContexts[i])
      invariant MayDoAll(Registry(m.table, m.record), left) && DoAll(Registry(m.table, m.record), left) == end
      decreases |left|
    {
      Perform(m, left[0]);
      left := left[1..];
    }
    m.WaitersCounted();
  }

  /** One registration on a new manager, and one report of its descriptor. The waiter is scheduled if and only if the
      flag of its event is reported, or an error or a hang-up is. */
  method RegisterThenReport(fd: nat, event: Event, cb: Option<nat>, scheduler: nat, fiber: nat, flags: set<Flag>)
    returns (m: IOManager, aborted: bool)
    ensures event == Read ==> aborted == ((In in flags || Err in flags || Hup in flags) && Out in flags)
    ensures event == Write ==> aborted == ((Out in flags || Err in flags || Hup in flags) && In in flags)
    ensures !aborted ==>
      m.record.scheduled == if Err in flags || Hup in flags || (if event == Read then In else Out) in flags
        then [Resumption(scheduler, if cb.Some? then Call(cb.value) else Fiber(fiber))] else []
    ensures !aborted ==> fd < |m.table| && (event in m.table[fd].events <==> m.record.scheduled == [])
  {
    hide Mirrors;
    hide Counted;
    hide Idles;
    m := new IOManager();
    var _ := m.AddEvent(fd, event, cb, scheduler, fiber, true);
    aborted := m.Dispatch(fd, flags, true);
  }

  /** A reader and a writer of one descriptor, and a hang-up or `CancelAll`: both are scheduled, the reader first. */
  method BothWoken(fd: nat, scheduler: nat, reader: nat, writer: nat, hangUp: bool) returns (m: IOManager)
    ensures m.record.scheduled == [Resumption(scheduler, Fiber(reader)), Resumption(scheduler, Fiber(writer))]
  {
    hide Mirrors;
    hide Counted;
    hide Idles;
    m := new IOManager();
    var _ := m.AddEvent(fd, Read, None, scheduler, reader, true);
    var _ := m.AddEvent(fd, Write, None, scheduler, writer, true);
    if hangUp {
      var _ := m.Dispatch(fd, {Hup}, true);
    } else {
      var _ := m.CancelAll(fd, true);
    }
  }

  /** Reader and writer are waited for and reported ready; before the report is looked at, the writer is taken back.
      The assertion stops the program. */
  method StaleReport(fd: nat, scheduler: nat, reader: nat, writer: nat) returns (aborted: bool)
    ensures aborted
  {
    hide Mirrors;
    hide Counted;
    hide Idles;
    hide FdState.Consistent;
    var m := new IOManager();
    var _ := m.AddEvent(fd, Read, None, scheduler, reader, true);
    var _ := m.AddEvent(fd, Write, None, scheduler, writer, true);
    var _ := m.DelEvent(fd, Write, true);
    aborted := m.Dispatch(fd, {In, Out}, true);
  }
}
