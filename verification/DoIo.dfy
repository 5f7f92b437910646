/** The blocking protocol of the hooked calls (server_frame/hook.cc, `DoIo` and `connect_with_timeout`) as a step
    system. Calls, timers and readiness interleave freely; each locked region and each look at the shared
    `TimerInfo` is one step. */
module DoIo {
  import opened Wrappers

  /** What a call returns: the function's own result, a failed `AddEvent`, or -1 with `ETIMEDOUT`. */
  datatype Result = Value | Failed | TimedOut

  datatype Phase =
    | Trying                 // about to call the function
    | Armed                  // the timer is set, AddEvent comes next
    | Added(reg: nat)        // registered, still running
    | Waiting(reg: nat)      // has yielded
    | Resumed                // about to cancel its timer
    | Checking               // about to look at TimerInfo
    | Done(result: Result)

  /** A call in progress. `retries` is false for `connect`, which asks for the outcome once. `cancelled` names the
      timer that set it. */
  datatype Io = Io(key: nat, timed: bool, retries: bool, phase: Phase, timer: Option<nat>, cancelled: Option<nat>)

  datatype TimerPhase =
    | Pending                // in the timer set
    | Listed                 // its callback is on the run queue
    | Cancelling             // has set `cancelled`, CancelEvent comes next
    | Over

  datatype Timer = Timer(call: nat, phase: TimerPhase)

  /** A registration: its number and the call that waits. */
  datatype Reg = Reg(reg: nat, call: nat)

  /** A key is a descriptor with an event. */
  datatype State = State(
    calls: map<nat, Io>,
    timers: map<nat, Timer>,
    regs: map<nat, Reg>,     // the registrations of the I/O manager, by key
    queue: seq<Reg>,         // the run queue
    next: nat,               // the number of registrations made
    wakes: multiset<nat>)    // how often each registration was put on the run queue

  datatype Step =
    | Begin(call: nat, key: nat, timed: bool, retries: bool)
    | Return(call: nat)                  // the function gave a result
    | Again(call: nat, timer: nat)       // EAGAIN, or EINPROGRESS for connect
    | AddOk(call: nat)
    | AddFails(call: nat)
    | Yield(call: nat)
    | Wake(key: nat)                     // readiness, an error, CancelEvent or CancelAll
    | Resume(at: nat)
    | CancelTimer(call: nat)
    | Look(call: nat)
    | Expire(timer: nat)
    | Mark(timer: nat)
    | CancelWait(timer: nat)
    | CancelFails(timer: nat)            // CancelEvent finds the registration, but epoll_ctl fails

  const START := State(map[], map[], map[], [], 0, multiset{})

  predicate InPhase(s: State, c: nat, p: Phase) {
    c in s.calls && s.calls[c].phase == p
  }

  /** `Timer::Cancel`: only a pending timer can be taken off. */
  function Cancelled(s: State, t: Option<nat>): map<nat, Timer> {
    if t.Some? && t.value in s.timers && s.timers[t.value].phase == Pending
    then s.timers[t.value := s.timers[t.value].(phase := Over)] else s.timers
  }

  function Move(s: State, c: nat, p: Phase): State
    requires c in s.calls
  {
    s.(calls := s.calls[c := s.calls[c].(phase := p)])
  }

  function MoveTimer(s: State, t: nat, p: TimerPhase): State
    requires t in s.timers
  {
    s.(timers := s.timers[t := s.timers[t].(phase := p)])
  }

  /** Whoever is registered under the key is put on the run queue. */
  function Woken(s: State, key: nat): State {
    if key !in s.regs then s
    else s.(regs := s.regs - {key}, queue := s.queue + [s.regs[key]], wakes := s.wakes + multiset{s.regs[key].reg})
  }

  predicate Enabled(s: State, step: Step) {
    match step
    case Begin(c, _, _, _) => c !in s.calls
    case Return(c) => InPhase(s, c, Trying)
    case Again(c, t) => InPhase(s, c, Trying) && t !in s.timers
    case AddOk(c) => InPhase(s, c, Armed) && s.calls[c].key !in s.regs
    case AddFails(c) => InPhase(s, c, Armed)
    case Yield(c) => c in s.calls && s.calls[c].phase.Added?
    case Wake(key) => key in s.regs
    case Resume(at) => at < |s.queue| && InPhase(s, s.queue[at].call, Waiting(s.queue[at].reg))
    case CancelTimer(c) => InPhase(s, c, Resumed)
    case Look(c) => InPhase(s, c, Checking)
    case Expire(t) => t in s.timers && s.timers[t].phase == Pending
    case Mark(t) => t in s.timers && s.timers[t].phase == Listed && s.timers[t].call in s.calls
    case CancelWait(t) => t in s.timers && s.timers[t].phase == Cancelling && s.timers[t].call in s.calls
    case CancelFails(t) =>
      && t in s.timers && s.timers[t].phase == Cancelling && s.timers[t].call in s.calls
      && s.calls[s.timers[t].call].key in s.regs
  }

  function Apply(s: State, step: Step): State
    requires Enabled(s, step)
  {
    match step
    case Begin(c, key, timed, retries) => s.(calls := s.calls[c := Io(key, timed, retries, Trying, None, None)])
    case Return(c) => Move(s, c, Done(Value))
    case Again(c, t) =>
      if s.calls[c].timed then
        s.(calls := s.calls[c := s.calls[c].(phase := Armed, timer := Some(t))],
           timers := s.timers[t := Timer(c, Pending)])
      else Move(s, c, Armed)
    case AddOk(c) =>
      Move(s, c, Added(s.next)).(regs := s.regs[s.calls[c].key := Reg(s.next, c)], next := s.next + 1)
    case AddFails(c) =>
      Move(s, c, Done(if s.calls[c].retries then Failed else Value)).(timers := Cancelled(s, s.calls[c].timer))
    case Yield(c) => Move(s, c, Waiting(s.calls[c].phase.reg))
    case Wake(key) => Woken(s, key)
    case Resume(at) => Move(s, s.queue[at].call, Resumed).(queue := s.queue[..at] + s.queue[at + 1..])
    case CancelTimer(c) => Move(s, c, Checking).(timers := Cancelled(s, s.calls[c].timer))
    case Look(c) =>
      var io := s.calls[c];
      Move(s, c, if io.cancelled.Some? then Done(TimedOut) else if io.retries then Trying else Done(Value))
    case Expire(t) => MoveTimer(s, t, Listed)
    case Mark(t) =>
      var c := s.timers[t].call;
      if s.calls[c].phase.Done? || s.calls[c].cancelled.Some? then MoveTimer(s, t, Over)
      else MoveTimer(s, t, Cancelling).(calls := s.calls[c := s.calls[c].(cancelled := Some(t))])
    case CancelWait(t) => Woken(MoveTimer(s, t, Over), s.calls[s.timers[t].call].key)
    case CancelFails(t) => MoveTimer(s, t, Over)
  }

  // ---- where a blocked call is ----

  predicate Blocked(s: State, c: nat) {
    c in s.calls && (s.calls[c].phase.Added? || s.calls[c].phase.Waiting?)
  }

  predicate Registered(s: State, c: nat) {
    c in s.calls && s.calls[c].key in s.regs && s.regs[s.calls[c].key].call == c
  }

  ghost predicate OnQueue(s: State, r: Reg) {
    r in s.queue
  }

  /** A blocked call is registered under its key or on the run queue, never both; who is there is blocked. */
  ghost predicate OnePlace(s: State) {
    && (forall c :: Blocked(s, c) ==> (Registered(s, c) <==> !OnQueue(s, Reg(s.calls[c].phase.reg, c))))
    && (forall key :: key in s.regs ==> KeyOf(s, key))
    && (forall r :: OnQueue(s, r) ==> Blocked(s, r.call) && s.calls[r.call].phase.reg == r.reg && r.reg < s.next)
    && (forall i, j :: 0 <= i < j < |s.queue| ==> s.queue[i] != s.queue[j])
  }

  ghost predicate KeyOf(s: State, key: nat)
    requires key in s.regs
  {
    var r := s.regs[key];
    Blocked(s, r.call) && s.calls[r.call].key == key && s.calls[r.call].phase.reg == r.reg && r.reg < s.next
  }

  ghost predicate IsRegistered(regs: map<nat, Reg>, reg: nat) {
    exists key :: key in regs && regs[key].reg == reg
  }

  /** Each registration was put on the run queue exactly once, or is still there to be. */
  ghost predicate WokenOnce(regs: map<nat, Reg>, next: nat, wakes: multiset<nat>) {
    && (forall reg: nat :: reg < next ==> wakes[reg] == if IsRegistered(regs, reg) then 0 else 1)
    && (forall reg: nat :: reg >= next ==> wakes[reg] == 0)
    && (forall k, l :: k in regs && l in regs && regs[k].reg == regs[l].reg ==> k == l)
  }

  /** Only timed calls have timers; only a timer the call itself armed, whose callback ran, marks the call; only a
      marked call times out; and until it is marked, the timer of a timed wait has not run. */
  ghost predicate OwnTimer(s: State) {
    && (forall t :: t in s.timers ==> s.timers[t].call in s.calls && s.calls[s.timers[t].call].timed)
    && (forall c :: c in s.calls ==> Owns(s, c))
  }

  ghost predicate Owns(s: State, c: nat)
    requires c in s.calls
  {
    var io := s.calls[c];
    && (io.cancelled.Some? ==> Ran(s, io.cancelled.value, c))
    && (io.phase == Done(TimedOut) ==> io.cancelled.Some?)
    && (io.timer.Some? ==> io.timer.value in s.timers && s.timers[io.timer.value].call == c)
    && (io.timed && (io.phase == Armed || Blocked(s, c)) ==>
      io.timer.Some? && (io.cancelled == None ==> s.timers[io.timer.value].phase in {Pending, Listed}))
  }

  /** Timer `t` was armed by call `c`, and its callback has run. */
  ghost predicate Ran(s: State, t: nat, c: nat) {
    t in s.timers && s.timers[t].call == c && s.timers[t].phase in {Cancelling, Over}
  }

  ghost predicate Inv(s: State) {
    OnePlace(s) && WokenOnce(s.regs, s.next, s.wakes) && OwnTimer(s)
  }

  // ---- the steps keep it ----

  lemma OnceAdd(regs: map<nat, Reg>, next: nat, wakes: multiset<nat>, key: nat, c: nat)
    requires WokenOnce(regs, next, wakes) && key !in regs && forall k :: k in regs ==> regs[k].reg < next
    ensures WokenOnce(regs[key := Reg(next, c)], next + 1, wakes)
  {
    var after := regs[key := Reg(next, c)];
    assert after[key].reg == next;
    forall reg: nat | reg < next
      ensures IsRegistered(after, reg) == IsRegistered(regs, reg)
    {
      if IsRegistered(regs, reg) {
        var k :| k in regs && regs[k].reg == reg;
        assert after[k].reg == reg;
      }
    }
  }

  lemma OnceWake(regs: map<nat, Reg>, next: nat, wakes: multiset<nat>, key: nat)
    requires WokenOnce(regs, next, wakes) && key in regs && regs[key].reg < next
    ensures WokenOnce(regs - {key}, next, wakes + multiset{regs[key].reg})
  {
    var after := regs - {key};
    forall reg: nat | reg < next
      ensures IsRegistered(after, reg) == (IsRegistered(regs, reg) && reg != regs[key].reg)
    {
      if IsRegistered(regs, reg) && reg != regs[key].reg {
        var k :| k in regs && regs[k].reg == reg;
        assert k in after;
      }
    }
  }

  lemma WokenKeeps(s: State, key: nat)
    requires OnePlace(s) && WokenOnce(s.regs, s.next, s.wakes)
    ensures OnePlace(Woken(s, key))
    ensures WokenOnce(Woken(s, key).regs, s.next, Woken(s, key).wakes)
  {
    if key in s.regs {
      assert KeyOf(s, key);
      OnceWake(s.regs, s.next, s.wakes, key);
      hide WokenOnce;
      var r, s' := s.regs[key], Woken(s, key);
      forall r'
        ensures OnQueue(s', r') <==> OnQueue(s, r') || r' == r
      {
      }
      assert !OnQueue(s, r);
      forall k | k in s'.regs
        ensures KeyOf(s', k)
      {
        assert KeyOf(s, k);
      }
      forall c | Blocked(s', c)
        ensures Registered(s', c) <==> !OnQueue(s', Reg(s'.calls[c].phase.reg, c))
      {
        assert Blocked(s, c);
      }
    }
  }

  /** A change of a call that is blocked neither before nor after. */
  lemma FreeCall(s: State, s': State, c: nat)
    requires OnePlace(s) && s'.regs == s.regs && s'.queue == s.queue && s'.next == s.next
    requires c in s'.calls && s'.calls == s.calls[c := s'.calls[c]] && !Blocked(s, c) && !Blocked(s', c)
    ensures OnePlace(s')
  {
    forall k | k in s'.regs
      ensures KeyOf(s', k)
    {
      assert KeyOf(s, k);
    }
    forall r | OnQueue(s', r)
      ensures Blocked(s', r.call) && s'.calls[r.call].phase.reg == r.reg && r.reg < s'.next
    {
      assert OnQueue(s, r);
    }
    forall d | Blocked(s', d)
      ensures Registered(s', d) <==> !OnQueue(s', Reg(s'.calls[d].phase.reg, d))
    {
      assert Blocked(s, d) && OnQueue(s, Reg(s.calls[d].phase.reg, d)) == OnQueue(s', Reg(s.calls[d].phase.reg, d));
    }
  }

  /** A change of a call that leaves its key and, if it is blocked, its registration alone. */
  lemma SameCall(s: State, s': State, c: nat)
    requires OnePlace(s) && s'.regs == s.regs && s'.queue == s.queue && s'.next == s.next
    requires c in s.calls && c in s'.calls && s'.calls == s.calls[c := s'.calls[c]]
    requires s'.calls[c].key == s.calls[c].key && Blocked(s', c) == Blocked(s, c)
    requires Blocked(s, c) ==> s'.calls[c].phase.reg == s.calls[c].phase.reg
    ensures OnePlace(s')
  {
    forall k | k in s'.regs
      ensures KeyOf(s', k)
    {
      assert KeyOf(s, k);
    }
    forall r
      ensures OnQueue(s', r) == OnQueue(s, r)
    {
    }
  }

  lemma AddKeeps(s: State, c: nat)
    requires OnePlace(s) && Enabled(s, AddOk(c))
    ensures OnePlace(Apply(s, AddOk(c)))
  {
    var s' := Apply(s, AddOk(c));
    forall k | k in s'.regs
      ensures KeyOf(s', k)
    {
      assert k in s.regs ==> KeyOf(s, k);
    }
    forall r
      ensures OnQueue(s', r) == OnQueue(s, r)
    {
    }
  }

  lemma RemoveAt(q: seq<Reg>, at: nat)
    requires at < |q| && forall i, j :: 0 <= i < j < |q| ==> q[i] != q[j]
    ensures var p := q[..at] + q[at + 1..];
      && (forall r :: r in p <==> r in q && r != q[at])
      && (forall i, j :: 0 <= i < j < |p| ==> p[i] != p[j])
  {
    var p := q[..at] + q[at + 1..];
    assert q == q[..at] + [q[at]] + q[at + 1..];
    assert forall i :: 0 <= i < |p| ==> p[i] == q[if i < at then i else i + 1];
  }

  lemma ResumeKeeps(s: State, at: nat)
    requires OnePlace(s) && Enabled(s, Resume(at))
    ensures OnePlace(Apply(s, Resume(at)))
  {
    var s' := Apply(s, Resume(at));
    assert OnQueue(s, s.queue[at]);
    RemoveAt(s.queue, at);
    forall k | k in s'.regs
      ensures KeyOf(s', k)
    {
      assert KeyOf(s, k);
    }
    forall r | OnQueue(s', r)
      ensures Blocked(s', r.call) && s'.calls[r.call].phase.reg == r.reg && r.reg < s'.next
    {
      assert OnQueue(s, r);
    }
    forall d | Blocked(s', d)
      ensures Registered(s', d) <==> !OnQueue(s', Reg(s'.calls[d].phase.reg, d))
    {
      assert Blocked(s, d);
      assert OnQueue(s', Reg(s.calls[d].phase.reg, d)) == OnQueue(s, Reg(s.calls[d].phase.reg, d));
    }
  }

  lemma OnePlaceStep(s: State, step: Step)
    requires OnePlace(s) && Enabled(s, step) && !step.Wake? && !step.CancelWait?
    ensures OnePlace(Apply(s, step))
  {
    hide OnePlace;
    hide Cancelled;
    match step {
      case AddOk(c) => AddKeeps(s, c);
      case Resume(at) => ResumeKeeps(s, at);
      case Yield(c) => SameCall(s, Apply(s, step), c);
      case Mark(t) => SameCall(s, Apply(s, step), s.timers[t].call);
      case Expire(t) => NoCall(s, Apply(s, step));
      case CancelFails(t) => NoCall(s, Apply(s, step));
      case Begin(c, _, _, _) => FreeCall(s, Apply(s, step), c);
      case Return(c) => FreeCall(s, Apply(s, step), c);
      case Again(c, _) => FreeCall(s, Apply(s, step), c);
      case AddFails(c) => FreeCall(s, Apply(s, step), c);
      case CancelTimer(c) => FreeCall(s, Apply(s, step), c);
      case Look(c) => FreeCall(s, Apply(s, step), c);
      case Wake(_) => assert false;
      case CancelWait(_) => assert false;
    }
  }

  lemma NoCall(s: State, s': State)
    requires OnePlace(s) && s'.regs == s.regs && s'.queue == s.queue && s'.next == s.next && s'.calls == s.calls
    ensures OnePlace(s')
  {
    forall k | k in s'.regs
      ensures KeyOf(s', k)
    {
      assert KeyOf(s, k);
    }
    forall r
      ensures OnQueue(s', r) == OnQueue(s, r)
    {
    }
  }

  lemma WokenOnceStep(s: State, step: Step)
    requires OnePlace(s) && WokenOnce(s.regs, s.next, s.wakes)
    requires Enabled(s, step) && !step.Wake? && !step.CancelWait?
    ensures WokenOnce(Apply(s, step).regs, Apply(s, step).next, Apply(s, step).wakes)
  {
    if step.AddOk? {
      forall k | k in s.regs
        ensures s.regs[k].reg < s.next
      {
        assert KeyOf(s, k);
      }
      OnceAdd(s.regs, s.next, s.wakes, s.calls[step.call].key, step.call);
    }
    hide OnePlace;
    hide WokenOnce;
    hide Cancelled;
  }

  lemma OwnTimerMarks(s: State, step: Step)
    requires OwnTimer(s) && Enabled(s, step) && (step.Expire? || step.Mark?)
    ensures OwnTimer(Apply(s, step))
  {
    var s' := Apply(s, step);
    forall c | c in s'.calls
      ensures Owns(s', c)
    {
      assert c in s.calls ==> Owns(s, c);
    }
  }

  lemma OwnTimerWakes(s: State, step: Step)
    requires OwnTimer(s) && Enabled(s, step) && (step.CancelWait? || step.CancelFails? || step.Wake?)
    ensures OwnTimer(Apply(s, step))
  {
    var s' := Apply(s, step);
    forall c | c in s'.calls
      ensures Owns(s', c)
    {
      assert c in s.calls ==> Owns(s, c);
    }
  }

  lemma OwnTimerTries(s: State, step: Step)
    requires OwnTimer(s) && Enabled(s, step) && (step.Begin? || step.Return? || step.Again?)
    ensures OwnTimer(Apply(s, step))
  {
    var s' := Apply(s, step);
    forall c | c in s'.calls
      ensures Owns(s', c)
    {
      assert c in s.calls ==> Owns(s, c);
    }
  }

  lemma OwnTimerBlocks(s: State, step: Step)
    requires OwnTimer(s) && Enabled(s, step) && (step.AddOk? || step.Yield? || step.Resume? || step.Look?)
    ensures OwnTimer(Apply(s, step))
  {
    var s' := Apply(s, step);
    forall c | c in s'.calls
      ensures Owns(s', c)
    {
      assert c in s.calls ==> Owns(s, c);
    }
  }

  lemma OwnTimerCancels(s: State, step: Step)
    requires OwnTimer(s) && Enabled(s, step) && (step.AddFails? || step.CancelTimer?)
    ensures OwnTimer(Apply(s, step))
  {
    var s' := Apply(s, step);
    forall c | c in s'.calls
      ensures Owns(s', c)
    {
      assert c in s.calls ==> Owns(s, c);
    }
  }

  lemma OwnTimerStep(s: State, step: Step)
    requires OwnTimer(s) && Enabled(s, step)
    ensures OwnTimer(Apply(s, step))
  {
    hide OwnTimer;
    hide Apply;
    hide Enabled;
    if step.Expire? || step.Mark? {
      OwnTimerMarks(s, step);
    } else if step.CancelWait? || step.CancelFails? || step.Wake? {
      OwnTimerWakes(s, step);
    } else if step.Begin? || step.Return? || step.Again? {
      OwnTimerTries(s, step);
    } else if step.AddOk? || step.Yield? || step.Resume? || step.Look? {
      OwnTimerBlocks(s, step);
    } else {
      OwnTimerCancels(s, step);
    }
  }

  lemma {:induction false} InvStep(s: State, step: Step)
    requires Inv(s) && Enabled(s, step)
    ensures Inv(Apply(s, step))
  {
    OwnTimerStep(s, step);
    hide OwnTimer;
    if step.CancelWait? {
      var c := s.timers[step.timer].call;
      NoCall(s, MoveTimer(s, step.timer, Over));
      WokenKeeps(MoveTimer(s, step.timer, Over), s.calls[c].key);
    } else if step.Wake? {
      WokenKeeps(s, step.key);
    } else {
      OnePlaceStep(s, step);
      WokenOnceStep(s, step);
    }
  }

  // ---- runs ----

  ghost predicate Possible(s: State, steps: seq<Step>)
    decreases |steps|
  {
    steps == [] || (Enabled(s, steps[0]) && Possible(Apply(s, steps[0]), steps[1..]))
  }

  ghost function After(s: State, steps: seq<Step>): State
    requires Possible(s, steps)
    decreases |steps|
  {
    if steps == [] then s else After(Apply(s, steps[0]), steps[1..])
  }

  lemma {:induction false} RunInv(s: State, steps: seq<Step>)
    requires Inv(s) && Possible(s, steps)
    ensures Inv(After(s, steps))
    decreases |steps|
  {
    hide Inv;
    hide Apply;
    hide Enabled;
    if steps != [] {
      InvStep(s, steps[0]);
      RunInv(Apply(s, steps[0]), steps[1..]);
    }
  }

  /** In every run: a blocked call is registered or on the run queue, not both; each registration reaches the run queue
      once at most, and exactly once when it is gone; and only a timed call times out, after a timer of its own ran. */
  lemma EveryRun(steps: seq<Step>)
    requires Possible(START, steps)
    ensures var s := After(START, steps);
      && (forall c :: Blocked(s, c) ==> (Registered(s, c) <==> !OnQueue(s, Reg(s.calls[c].phase.reg, c))))
      && (forall reg: nat :: reg < s.next ==> s.wakes[reg] == if IsRegistered(s.regs, reg) then 0 else 1)
      && (forall c :: InPhase(s, c, Done(TimedOut)) ==> s.calls[c].timed && exists t :: Ran(s, t, c))
  {
    RunInv(START, steps);
    var s := After(START, steps);
    forall c | InPhase(s, c, Done(TimedOut))
      ensures s.calls[c].timed && exists t :: Ran(s, t, c)
    {
      assert Owns(s, c) && Ran(s, s.calls[c].cancelled.value, c);
    }
  }

  // ---- the timeout and the registration ----

  /** The call waits, and its timeout has come and gone: no timer of its own will wake it any more. */
  ghost predicate Lost(s: State, c: nat) {
    && Blocked(s, c) && Registered(s, c) && s.calls[c].timed
    && s.calls[c].cancelled.Some? && TimerOver(s, s.calls[c].cancelled.value)
  }

  ghost predicate TimerOver(s: State, t: nat) {
    t in s.timers && s.timers[t].phase == Over
  }

  ghost predicate MarkedOver(s: State, c: nat)
    requires c in s.calls
  {
    s.calls[c].timed && s.calls[c].cancelled.Some? && TimerOver(s, s.calls[c].cancelled.value)
  }

  lemma LostByAdding(s: State, d: nat, c: nat)
    requires OwnTimer(s) && Enabled(s, AddOk(d)) && !Lost(s, c)
    ensures Lost(Apply(s, AddOk(d)), c) <==> c == d && MarkedOver(s, c)
  {
  }

  /** One step loses a timeout if and only if it registers a call whose callback is already over, or is the callback's
      own failing `CancelEvent`. */
  lemma {:induction false} LostByStep(s: State, step: Step, c: nat)
    requires OwnTimer(s) && Enabled(s, step) && !Lost(s, c)
    ensures Lost(Apply(s, step), c) <==>
      (step == AddOk(c) && MarkedOver(s, c)) || (step.CancelFails? && FailsFor(s, step.timer, c))
  {
    assert c in s.calls ==> Owns(s, c);
    if step.AddOk? {
      LostByAdding(s, step.call, c);
    }
  }

  ghost predicate FailsFor(s: State, t: nat, c: nat) {
    Blocked(s, c) && Registered(s, c) && s.calls[c].timed && s.calls[c].cancelled == Some(t)
  }

  /** Lost is lost: only a wake-up of the call's key, by readiness or by somebody else's cancelling, ends the wait. */
  lemma LostStays(s: State, step: Step, c: nat)
    requires Inv(s) && Enabled(s, step) && Lost(s, c) && !Wakes(s, step, s.calls[c].key)
    ensures Lost(Apply(s, step), c) && Apply(s, step).calls[c] == (if step == Yield(c)
      then s.calls[c].(phase := Waiting(s.calls[c].phase.reg)) else s.calls[c])
  {
    hide WokenOnce;
    hide OwnTimer;
    hide KeyOf;
  }

  predicate Wakes(s: State, step: Step, key: nat) {
    || step == Wake(key)
    || (step.CancelWait? && step.timer in s.timers && s.timers[step.timer].call in s.calls &&
        s.calls[s.timers[step.timer].call].key == key)
  }

  ghost predicate NeverWakes(s: State, steps: seq<Step>, key: nat)
    requires Possible(s, steps)
    decreases |steps|
  {
    steps == [] || (!Wakes(s, steps[0], key) && NeverWakes(Apply(s, steps[0]), steps[1..], key))
  }

  /** So the wait has no limit of its own: in every run that does not wake the key the call goes on waiting. */
  lemma {:induction false} LostUntilWoken(s: State, steps: seq<Step>, c: nat)
    requires Inv(s) && Lost(s, c) && Possible(s, steps) && NeverWakes(s, steps, s.calls[c].key)
    ensures Lost(After(s, steps), c)
    decreases |steps|
  {
    if steps != [] {
      InvStep(s, steps[0]);
      LostStays(s, steps[0], c);
      hide Inv;
      hide Lost;
      hide Apply;
      hide Enabled;
      LostUntilWoken(Apply(s, steps[0]), steps[1..], c);
    }
  }

  // ---- losing a timeout, by the order of the steps ----

  lemma {:induction false} Snoc(s: State, steps: seq<Step>, x: Step)
    ensures Possible(s, steps + [x]) <==> Possible(s, steps) && Enabled(After(s, steps), x)
    ensures Possible(s, steps + [x]) ==> After(s, steps + [x]) == Apply(After(s, steps), x)
    decreases |steps|
  {
    hide Apply;
    hide Enabled;
    if steps == [] {
      assert [] + [x] == [x] && [x][1..] == [];
      assert Possible(s, [x]) <==> Enabled(s, x);
    } else {
      assert (steps + [x])[1..] == steps[1..] + [x];
      if Enabled(s, steps[0]) {
        Snoc(Apply(s, steps[0]), steps[1..], x);
      }
    }
  }

  /** The last registration of the call is step `i`. */
  ghost predicate AddsLast(steps: seq<Step>, i: nat, c: nat) {
    i < |steps| && steps[i] == AddOk(c) && forall k :: i < k < |steps| ==> steps[k] != AddOk(c)
  }

  /** The callback of timer `u` is over with step `j`. */
  ghost predicate EndsAt(steps: seq<Step>, j: nat, u: nat) {
    j < |steps| && (steps[j] == CancelWait(u) || steps[j] == CancelFails(u))
  }

  ghost predicate Marked(s: State, c: nat, u: nat) {
    c in s.calls && s.calls[c].cancelled == Some(u)
  }

  lemma {:induction false} BlockedAdded(steps: seq<Step>, c: nat)
    requires Possible(START, steps) && Blocked(After(START, steps), c)
    ensures exists i :: AddsLast(steps, i, c)
    decreases |steps|
  {
    if steps != [] {
      var p, x := steps[..|steps| - 1], steps[|steps| - 1];
      assert steps == p + [x];
      Snoc(START, p, x);
      if x == AddOk(c) {
        assert AddsLast(steps, |p|, c);
      } else {
        BlockedBefore(After(START, p), x, c);
        BlockedAdded(p, c);
        var i :| AddsLast(p, i, c);
        assert AddsLast(steps, i, c);
      }
    }
  }

  lemma BlockedBefore(s: State, x: Step, c: nat)
    requires Enabled(s, x) && x != AddOk(c) && Blocked(Apply(s, x), c)
    ensures Blocked(s, c)
  {
  }

  lemma {:induction false} OverEnded(steps: seq<Step>, c: nat, u: nat)
    requires Possible(START, steps) && Marked(After(START, steps), c, u) && TimerOver(After(START, steps), u)
    ensures exists j :: EndsAt(steps, j, u)
    decreases |steps|
  {
    if steps != [] {
      var p, x := steps[..|steps| - 1], steps[|steps| - 1];
      assert steps == p + [x];
      Snoc(START, p, x);
      RunInv(START, p);
      if x == CancelWait(u) || x == CancelFails(u) {
        assert EndsAt(steps, |p|, u);
      } else {
        OverBefore(After(START, p), x, c, u);
        OverEnded(p, c, u);
        var j :| EndsAt(p, j, u);
        assert EndsAt(steps, j, u);
      }
    }
  }

  lemma OverBefore(s: State, x: Step, c: nat, u: nat)
    requires OwnTimer(s) && Enabled(s, x) && x != CancelWait(u) && x != CancelFails(u)
    requires Marked(Apply(s, x), c, u) && TimerOver(Apply(s, x), u)
    ensures Marked(s, c, u) && TimerOver(s, u)
  {
    assert c in s.calls ==> Owns(s, c);
  }

  lemma {:induction false} EndedIsOver(steps: seq<Step>, j: nat, u: nat)
    requires Possible(START, steps) && EndsAt(steps, j, u)
    ensures TimerOver(After(START, steps), u)
    decreases |steps|
  {
    var p, x := steps[..|steps| - 1], steps[|steps| - 1];
    assert steps == p + [x];
    Snoc(START, p, x);
    if j < |p| {
      assert EndsAt(p, j, u);
      EndedIsOver(p, j, u);
    }
    OverStays(After(START, p), x, u);
  }

  lemma OverStays(s: State, x: Step, u: nat)
    requires Enabled(s, x) && (TimerOver(s, u) || x == CancelWait(u) || x == CancelFails(u))
    ensures TimerOver(Apply(s, x), u)
  {
  }

  /** The callback that marked the call ended before the call was last registered, or its `CancelEvent` failed. */
  ghost predicate LosingOrder(s: State, steps: seq<Step>, c: nat, u: nat, i: nat, j: nat) {
    Marked(s, c, u) && AddsLast(steps, i, c) && EndsAt(steps, j, u) && (j < i || steps[j] == CancelFails(u))
  }

  lemma {:induction false} LostHasOrder(steps: seq<Step>, c: nat)
    requires Possible(START, steps) && Lost(After(START, steps), c)
    ensures exists u, i, j :: LosingOrder(After(START, steps), steps, c, u, i, j)
    decreases |steps|
  {
    if steps != [] {
      var p, x := steps[..|steps| - 1], steps[|steps| - 1];
      assert steps == p + [x];
      Snoc(START, p, x);
      RunInv(START, p);
      var s, s' := After(START, p), After(START, steps);
      if Lost(s, c) {
        LostHasOrder(p, c);
        var u, i, j :| LosingOrder(s, p, c, u, i, j);
        StaysMarked(s, x, c, u);
        assert LosingOrder(s', steps, c, u, i, j);
      } else {
        NewlyLost(p, x, c);
      }
    }
  }

  lemma NewlyLost(p: seq<Step>, x: Step, c: nat)
    requires Possible(START, p) && Enabled(After(START, p), x) && Inv(After(START, p))
    requires !Lost(After(START, p), c) && Lost(Apply(After(START, p), x), c)
    ensures exists u, i, j :: LosingOrder(Apply(After(START, p), x), p + [x], c, u, i, j)
  {
    var s, s' := After(START, p), Apply(After(START, p), x);
    LostByStep(s, x, c);
    var u := s'.calls[c].cancelled.value;
    if x == AddOk(c) {
      OverEnded(p, c, u);
      var j :| EndsAt(p, j, u);
      assert LosingOrder(s', p + [x], c, u, |p|, j);
    } else {
      BlockedAdded(p, c);
      var i :| AddsLast(p, i, c);
      assert LosingOrder(s', p + [x], c, u, i, |p|);
    }
  }

  lemma StaysMarked(s: State, x: Step, c: nat, u: nat)
    requires Enabled(s, x) && Marked(s, c, u)
    ensures Marked(Apply(s, x), c, u)
    ensures Blocked(s, c) ==> x != AddOk(c)
  {
  }

  /** In every run, a timed call that waits has lost its timeout if and only if the callback that marked it was over
      before the call was registered, or failed to cancel the registration. */
  lemma LostExactly(steps: seq<Step>, c: nat)
    requires Possible(START, steps)
    ensures var s := After(START, steps);
      Lost(s, c) <==> Blocked(s, c) && Registered(s, c) && s.calls[c].timed &&
                      exists u, i, j :: LosingOrder(s, steps, c, u, i, j)
  {
    var s := After(START, steps);
    if Lost(s, c) {
      LostHasOrder(steps, c);
    } else if exists u, i, j :: LosingOrder(s, steps, c, u, i, j) {
      var u, i, j :| LosingOrder(s, steps, c, u, i, j);
      EndedIsOver(steps, j, u);
    }
  }

  /** The call was put on the run queue by a timeout. */
  ghost predicate TimeoutQueued(s: State, c: nat) {
    Blocked(s, c) && !Registered(s, c) && OnQueue(s, Reg(s.calls[c].phase.reg, c)) && s.calls[c].cancelled.Some?
  }

  lemma CancelWakes(s: State, c: nat, t: nat)
    requires OnePlace(s) && Blocked(s, c) && Registered(s, c) && s.calls[c].cancelled.Some?
    requires t in s.timers && s.timers[t] == Timer(c, Cancelling)
    ensures Possible(s, [CancelWait(t)]) && TimeoutQueued(After(s, [CancelWait(t)]), c)
    ensures After(s, [CancelWait(t)]).calls[c].phase == s.calls[c].phase
  {
    assert KeyOf(s, s.calls[c].key);
    var s' := Apply(s, CancelWait(t));
    assert s'.queue[|s.queue|] == Reg(s.calls[c].phase.reg, c);
    assert Possible(s', []) && After(s', []) == s';
  }

  lemma MarkWakes(s: State, c: nat, t: nat)
    requires Inv(s) && Blocked(s, c) && Registered(s, c) && s.calls[c].cancelled == None
    requires t in s.timers && s.timers[t] == Timer(c, Listed)
    ensures Possible(s, [Mark(t), CancelWait(t)]) && TimeoutQueued(After(s, [Mark(t), CancelWait(t)]), c)
    ensures After(s, [Mark(t), CancelWait(t)]).calls[c].phase == s.calls[c].phase
  {
    InvStep(s, Mark(t));
    CancelWakes(Apply(s, Mark(t)), c, t);
    hide Inv;
    Cons(s, Mark(t), [CancelWait(t)]);
  }

  lemma Cons(s: State, step: Step, steps: seq<Step>)
    requires Enabled(s, step) && Possible(Apply(s, step), steps)
    ensures Possible(s, [step] + steps) && After(s, [step] + steps) == After(Apply(s, step), steps)
  {
    hide Apply;
    assert ([step] + steps)[1..] == steps;
  }

  /** The steps of the timer that are left. */
  ghost function TimerSteps(s: State, c: nat): seq<Step>
    requires c in s.calls && (s.calls[c].timer.Some? || s.calls[c].cancelled.Some?)
  {
    var io := s.calls[c];
    if io.cancelled.Some? then [CancelWait(io.cancelled.value)]
    else
      var t := io.timer.value;
      (if t in s.timers && s.timers[t].phase == Pending then [Expire(t)] else []) + [Mark(t), CancelWait(t)]
  }

  /** Otherwise the timer can still run, and when its `CancelEvent` succeeds the waiting call goes to the run queue. */
  lemma {:induction false} TimeoutWakes(s: State, c: nat)
    requires Inv(s) && Blocked(s, c) && Registered(s, c) && s.calls[c].timed && !Lost(s, c)
    ensures s.calls[c].timer.Some? && Possible(s, TimerSteps(s, c)) && TimeoutQueued(After(s, TimerSteps(s, c)), c)
    ensures After(s, TimerSteps(s, c)).calls[c].phase == s.calls[c].phase
  {
    assert Owns(s, c);
    var io := s.calls[c];
    if io.cancelled.Some? {
      CancelWakes(s, c, io.cancelled.value);
    } else if s.timers[io.timer.value].phase == Listed {
      MarkWakes(s, c, io.timer.value);
      assert [] + [Mark(io.timer.value), CancelWait(io.timer.value)] ==
        [Mark(io.timer.value), CancelWait(io.timer.value)];
    } else {
      InvStep(s, Expire(io.timer.value));
      MarkWakes(Apply(s, Expire(io.timer.value)), c, io.timer.value);
      hide Inv;
      Cons(s, Expire(io.timer.value), [Mark(io.timer.value), CancelWait(io.timer.value)]);
    }
  }

  // ---- timers in the set ----

  /** A timer in the set is the current timer of a call that has not come back from its wait; so a call that has ended,
      or tries again, leaves none behind. */
  ghost predicate NoStray(s: State) {
    forall t :: t in s.timers && s.timers[t].phase == Pending ==> InUse(s, t)
  }

  ghost predicate InUse(s: State, t: nat)
    requires t in s.timers
  {
    var c := s.timers[t].call;
    && c in s.calls && s.calls[c].timer == Some(t)
    && (s.calls[c].phase == Armed || Blocked(s, c) || s.calls[c].phase == Resumed)
  }

  lemma NoStrayStep(s: State, step: Step)
    requires NoStray(s) && Enabled(s, step)
    ensures NoStray(Apply(s, step))
  {
    var s' := Apply(s, step);
    forall t | t in s'.timers && s'.timers[t].phase == Pending
      ensures InUse(s', t)
    {
      assert t in s.timers && s.timers[t].phase == Pending ==> InUse(s, t);
    }
  }

  lemma {:induction false} NoStrayRun(s: State, steps: seq<Step>)
    requires NoStray(s) && Possible(s, steps)
    ensures NoStray(After(s, steps))
    decreases |steps|
  {
    if steps != [] {
      NoStrayStep(s, steps[0]);
      hide NoStray;
      hide Apply;
      hide Enabled;
      NoStrayRun(Apply(s, steps[0]), steps[1..]);
    }
  }

  /** A callback that runs after its call has ended, or after another has marked it, changes nothing else. */
  lemma LateCallback(s: State, t: nat)
    requires Enabled(s, Mark(t))
    requires var io := s.calls[s.timers[t].call]; io.phase.Done? || io.cancelled.Some?
    ensures var s' := Apply(s, Mark(t));
      && s'.calls == s.calls && s'.regs == s.regs && s'.queue == s.queue && s'.wakes == s.wakes
      && !Enabled(s', CancelWait(t)) && !Enabled(s', CancelFails(t))
  {
  }

  // ---- how a call ends ----

  /** Between the registration and the look at `TimerInfo`. */
  predicate Underway(p: Phase) {
    p.Added? || p.Waiting? || p == Resumed || p == Checking
  }

  /** By which steps a call gets each of its results, and by which it tries again. */
  lemma EndsByStep(s: State, step: Step, c: nat)
    requires Enabled(s, step) && c in s.calls && !s.calls[c].phase.Done?
    ensures var io, s' := s.calls[c], Apply(s, step);
      && (InPhase(s', c, Done(TimedOut)) <==> step == Look(c) && io.cancelled.Some?)
      && (InPhase(s', c, Done(Failed)) <==> step == AddFails(c) && io.retries)
      && (InPhase(s', c, Done(Value)) <==>
          || step == Return(c)
          || (!io.retries && (step == AddFails(c) || (step == Look(c) && io.cancelled == None))))
      && (InPhase(s', c, Trying) <==>
          || (io.phase == Trying && !(step == Return(c) || (step.Again? && step.call == c)))
          || (step == Look(c) && io.retries && io.cancelled == None))
  {
  }

  /** What was asked for stays, a mark stays, and a result stays. */
  lemma CallStays(s: State, step: Step, c: nat)
    requires Enabled(s, step) && c in s.calls
    ensures var io, s' := s.calls[c], Apply(s, step);
      && c in s'.calls && s'.calls[c].key == io.key
      && s'.calls[c].timed == io.timed && s'.calls[c].retries == io.retries
      && (io.cancelled.Some? ==> s'.calls[c].cancelled == io.cancelled)
      && (io.phase.Done? ==> s'.calls[c].phase == io.phase)
  {
  }

  /** At some step the call looks at `TimerInfo` and finds its mark. */
  ghost predicate SeesMark(s: State, steps: seq<Step>, c: nat)
    requires Possible(s, steps)
    decreases |steps|
  {
    steps != [] &&
    ((steps[0] == Look(c) && c in s.calls && s.calls[c].cancelled.Some?) || SeesMark(Apply(s, steps[0]), steps[1..], c))
  }

  /** In every run a call has timed out if and only if it looked at `TimerInfo` after a timer had marked it. */
  lemma {:induction false} TimedOutExactly(s: State, steps: seq<Step>, c: nat)
    requires Possible(s, steps)
    ensures InPhase(After(s, steps), c, Done(TimedOut)) <==>
            InPhase(s, c, Done(TimedOut)) || SeesMark(s, steps, c)
    decreases |steps|
  {
    if steps != [] {
      var s' := Apply(s, steps[0]);
      if c !in s.calls {
        assert !InPhase(s', c, Done(TimedOut));
      } else if s.calls[c].phase.Done? {
        CallStays(s, steps[0], c);
      } else {
        EndsByStep(s, steps[0], c);
      }
      hide Apply;
      hide Enabled;
      TimedOutExactly(s', steps[1..], c);
      DoneSeesNothing(s, steps, c);
    }
  }

  lemma {:induction false} DoneSeesNothing(s: State, steps: seq<Step>, c: nat)
    requires Possible(s, steps)
    ensures c in s.calls && s.calls[c].phase.Done? ==> !SeesMark(s, steps, c)
    decreases |steps|
  {
    if steps != [] && c in s.calls && s.calls[c].phase.Done? {
      CallStays(s, steps[0], c);
      assert steps[0] != Look(c);
      DoneSeesNothing(Apply(s, steps[0]), steps[1..], c);
    }
  }

  /** Once a call that waits is marked, it times out or is still on its way there, whatever happens. */
  lemma {:induction false} MarkedTimesOut(s: State, steps: seq<Step>, c: nat)
    requires Possible(s, steps) && c in s.calls && s.calls[c].cancelled.Some? && Underway(s.calls[c].phase)
    ensures var s' := After(s, steps);
      && c in s'.calls && s'.calls[c].cancelled.Some?
      && (Underway(s'.calls[c].phase) || s'.calls[c].phase == Done(TimedOut))
    decreases |steps|
  {
    if steps != [] {
      var s' := Apply(s, steps[0]);
      CallStays(s, steps[0], c);
      EndsByStep(s, steps[0], c);
      UnderwayStep(s, steps[0], c);
      hide Apply;
      hide Enabled;
      if Underway(s'.calls[c].phase) {
        MarkedTimesOut(s', steps[1..], c);
      } else {
        StaysDone(s', steps[1..], c);
      }
    }
  }

  lemma UnderwayStep(s: State, step: Step, c: nat)
    requires Enabled(s, step) && c in s.calls && Underway(s.calls[c].phase)
    ensures Underway(Apply(s, step).calls[c].phase) || step == Look(c)
  {
  }

  lemma {:induction false} StaysDone(s: State, steps: seq<Step>, c: nat)
    requires Possible(s, steps) && c in s.calls && s.calls[c].phase.Done?
    ensures c in After(s, steps).calls
    ensures After(s, steps).calls[c].phase == s.calls[c].phase
    ensures s.calls[c].cancelled.Some? ==> After(s, steps).calls[c].cancelled == s.calls[c].cancelled
    decreases |steps|
  {
    if steps != [] {
      CallStays(s, steps[0], c);
      hide Apply;
      hide Enabled;
      StaysDone(Apply(s, steps[0]), steps[1..], c);
    }
  }

  lemma {:induction false} Joined(s: State, p: seq<Step>, q: seq<Step>)
    requires Possible(s, p) && Possible(After(s, p), q)
    ensures Possible(s, p + q) && After(s, p + q) == After(After(s, p), q)
    decreases |p|
  {
    hide Apply;
    hide Enabled;
    if p == [] {
      assert p + q == q;
    } else {
      assert (p + q)[1..] == p[1..] + q;
      Joined(Apply(s, p[0]), p[1..], q);
    }
  }

  /** A waiting call that a timeout put on the run queue can be resumed, and comes back with `ETIMEDOUT`. */
  lemma QueuedTimesOut(s: State, c: nat) returns (at: nat)
    requires Inv(s) && TimeoutQueued(s, c) && s.calls[c].phase.Waiting?
    ensures var steps := [Resume(at), CancelTimer(c), Look(c)];
      Possible(s, steps) && InPhase(After(s, steps), c, Done(TimedOut))
  {
    at :| 0 <= at < |s.queue| && s.queue[at] == Reg(s.calls[c].phase.reg, c);
    var s1 := Apply(s, Resume(at));
    assert s1.calls[c].cancelled.Some? && InPhase(s1, c, Resumed);
    var s2 := Apply(s1, CancelTimer(c));
    assert s2.calls[c].cancelled.Some? && InPhase(s2, c, Checking);
    EndsByStep(s2, Look(c), c);
    hide Apply;
    Cons(s2, Look(c), []);
    Cons(s1, CancelTimer(c), [Look(c)]);
    Cons(s, Resume(at), [CancelTimer(c), Look(c)]);
  }

  /** So a timed call that waits and has not lost its timeout can always end with `ETIMEDOUT`. */
  lemma TimeoutReturns(s: State, c: nat) returns (steps: seq<Step>)
    requires Inv(s) && c in s.calls && s.calls[c].phase.Waiting? && Registered(s, c)
    requires s.calls[c].timed && !Lost(s, c)
    ensures Possible(s, steps) && InPhase(After(s, steps), c, Done(TimedOut))
  {
    TimeoutWakes(s, c);
    var first := TimerSteps(s, c);
    var s' := After(s, first);
    RunInv(s, first);
    hide Inv;
    var at := QueuedTimesOut(s', c);
    steps := first + [Resume(at), CancelTimer(c), Look(c)];
    Joined(s, first, [Resume(at), CancelTimer(c), Look(c)]);
  }

  /** A wait that ends by readiness: the call tries again, or, for `connect`, returns, and leaves no timer behind. */
  lemma ReadyRun(key: nat, timed: bool, retries: bool)
    ensures var steps := [Begin(0, key, timed, retries), Again(0, 0), AddOk(0), Yield(0), Wake(key), Resume(0),
                          CancelTimer(0), Look(0)];
      && Possible(START, steps)
      && InPhase(After(START, steps), 0, if retries then Trying else Done(Value))
      && After(START, steps).timers == (if timed then map[0 := Timer(0, Over)] else map[])
  {
    var s1 := Apply(START, Begin(0, key, timed, retries));
    var s2 := Apply(s1, Again(0, 0));
    var s3 := Apply(s2, AddOk(0));
    var s4 := Apply(s3, Yield(0));
    assert s4.calls == map[0 := Io(key, timed, retries, Waiting(0), if timed then Some(0) else None, None)];
    assert s4.timers == if timed then map[0 := Timer(0, Pending)] else map[];
    ReadyEnd(s4, key, timed, retries);
    var end := [Wake(key), Resume(0), CancelTimer(0), Look(0)];
    Cons(s3, Yield(0), end);
    Cons(s2, AddOk(0), [Yield(0)] + end);
    Cons(s1, Again(0, 0), [AddOk(0)] + ([Yield(0)] + end));
    Cons(START, Begin(0, key, timed, retries), [Again(0, 0)] + ([AddOk(0)] + ([Yield(0)] + end)));
    assert [Begin(0, key, timed, retries)] + ([Again(0, 0)] + ([AddOk(0)] + ([Yield(0)] + end))) ==
      [Begin(0, key, timed, retries), Again(0, 0), AddOk(0), Yield(0), Wake(key), Resume(0), CancelTimer(0), Look(0)];
  }

  lemma ReadyEnd(s: State, key: nat, timed: bool, retries: bool)
    requires s.calls == map[0 := Io(key, timed, retries, Waiting(0), if timed then Some(0) else None, None)]
    requires s.timers == if timed then map[0 := Timer(0, Pending)] else map[]
    requires s.regs == map[key := Reg(0, 0)] && s.queue == []
    ensures var steps := [Wake(key), Resume(0), CancelTimer(0), Look(0)];
      && Possible(s, steps)
      && InPhase(After(s, steps), 0, if retries then Trying else Done(Value))
      && After(s, steps).timers == (if timed then map[0 := Timer(0, Over)] else map[])
  {
    var s1 := Apply(s, Wake(key));
    assert s1.queue == [Reg(0, 0)];
    var s2 := Apply(s1, Resume(0));
    var s3 := Apply(s2, CancelTimer(0));
    assert s3.timers == if timed then map[0 := Timer(0, Over)] else map[];
    Cons(s3, Look(0), []);
    Cons(s2, CancelTimer(0), [Look(0)]);
    Cons(s1, Resume(0), [CancelTimer(0), Look(0)]);
    Cons(s, Wake(key), [Resume(0), CancelTimer(0), Look(0)]);
  }

  /** A run that loses a timeout before the call is registered. */
  lemma LostRun(key: nat)
    ensures var steps :=
        [Begin(0, key, true, true), Again(0, 0), Expire(0), Mark(0), CancelWait(0), AddOk(0), Yield(0)];
      Possible(START, steps) && Lost(After(START, steps), 0) && After(START, steps).calls[0].phase == Waiting(0)
  {
    var s1 := Apply(START, Begin(0, key, true, true));
    var s2 := Apply(s1, Again(0, 0));
    var s3 := Apply(s2, Expire(0));
    var s4 := Apply(s3, Mark(0));
    var s5 := Apply(s4, CancelWait(0));
    LostEnd(s5, key);
    Cons(s4, CancelWait(0), [AddOk(0), Yield(0)]);
    Cons(s3, Mark(0), [CancelWait(0), AddOk(0), Yield(0)]);
    Cons(s2, Expire(0), [Mark(0), CancelWait(0), AddOk(0), Yield(0)]);
    Cons(s1, Again(0, 0), [Expire(0), Mark(0), CancelWait(0), AddOk(0), Yield(0)]);
    Cons(START, Begin(0, key, true, true), [Again(0, 0), Expire(0), Mark(0), CancelWait(0), AddOk(0), Yield(0)]);
  }

  lemma LostEnd(s: State, key: nat)
    requires s.calls == map[0 := Io(key, true, true, Armed, Some(0), Some(0))] && s.timers == map[0 := Timer(0, Over)]
    requires s.regs == map[] && s.next == 0
    ensures var steps := [AddOk(0), Yield(0)];
      Possible(s, steps) && Lost(After(s, steps), 0) && After(s, steps).calls[0].phase == Waiting(0)
  {
    var s1 := Apply(s, AddOk(0));
    Cons(s1, Yield(0), []);
    Cons(s, AddOk(0), [Yield(0)]);
  }

  /** A run that loses it afterwards. */
  lemma FailedCancelRun(key: nat)
    ensures var steps :=
        [Begin(0, key, true, true), Again(0, 0), AddOk(0), Yield(0), Expire(0), Mark(0), CancelFails(0)];
      Possible(START, steps) && Lost(After(START, steps), 0) && After(START, steps).calls[0].phase == Waiting(0)
  {
    var s1 := Apply(START, Begin(0, key, true, true));
    var s2 := Apply(s1, Again(0, 0));
    var s3 := Apply(s2, AddOk(0));
    var s4 := Apply(s3, Yield(0));
    FailedCancelEnd(s4, key);
    Cons(s3, Yield(0), [Expire(0), Mark(0), CancelFails(0)]);
    Cons(s2, AddOk(0), [Yield(0), Expire(0), Mark(0), CancelFails(0)]);
    Cons(s1, Again(0, 0), [AddOk(0), Yield(0), Expire(0), Mark(0), CancelFails(0)]);
    Cons(START, Begin(0, key, true, true), [Again(0, 0), AddOk(0), Yield(0), Expire(0), Mark(0), CancelFails(0)]);
  }

  lemma FailedCancelEnd(s: State, key: nat)
    requires s.calls == map[0 := Io(key, true, true, Waiting(0), Some(0), None)]
    requires s.timers == map[0 := Timer(0, Pending)]
    requires s.regs == map[key := Reg(0, 0)]
    ensures var steps := [Expire(0), Mark(0), CancelFails(0)];
      Possible(s, steps) && Lost(After(s, steps), 0) && After(s, steps).calls[0].phase == Waiting(0)
  {
    var s1 := Apply(s, Expire(0));
    var s2 := Apply(s1, Mark(0));
    Cons(s2, CancelFails(0), []);
    Cons(s1, Mark(0), [CancelFails(0)]);
    Cons(s, Expire(0), [Mark(0), CancelFails(0)]);
  }
}
