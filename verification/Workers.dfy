/** The workers of a scheduler as a step system (server_frame/base/scheduler.cc, fiber.cc). A step is what happens
    under the scheduler's lock, or what one worker does between two such regions; any worker may take the next step. */
module Workers {
  import opened Schedulers

  datatype FiberState = Init | Hold | Exec | Term | Ready | Except

  /** Where a worker is in `Run`. */
  datatype Phase =
    | Scan                         // about to search the queue
    | Taken(ticket: nat)           // has removed an entry
    | Running(ticket: nat, fiber: nat)
    | InHand(fiber: nat)           // the fiber came back ready and is about to be queued again
    | Idling                       // inside the idle fiber
    | Exited

  /** Accepted entries are numbered in order; `log` has them all, the queue holds numbers. */
  datatype State = State(
    log: seq<FiberAndThread>,
    queue: seq<nat>,
    taken: map<nat, int>,          // by which worker
    returned: set<nat>,            // those whose resumption is over
    workers: map<int, Phase>,
    idleDone: set<int>,            // the workers whose idle fiber has ended
    active: int,                   // active_thread_count_
    fibers: map<nat, FiberState>,
    stopAsked: bool)               // auto_stop_ and stopping_

  datatype Step =
    | Create(fiber: nat)
    | Schedule(task: Task, thread: int)
    | Stop
    | Take(w: int, at: nat)
    | Resume(w: int, newFiber: nat)
    | Drop(w: int)
    | Finish(w: int, how: FiberState)
    | Requeue(w: int)
    | GoIdle(w: int, at: nat)
    | LeaveIdle(w: int, done: bool)  // whether the idle fiber has ended
    | Exit(w: int, at: nat)

  function Start(threads: set<int>): State {
    State([], [], map[], {}, map w | w in threads :: Scan, {}, 0, map[], false)
  }

  /** The numbers in use are those of accepted entries. */
  predicate Numbered(s: State) {
    && (forall i :: 0 <= i < |s.queue| ==> s.queue[i] < |s.log|)
    && (forall w :: w in s.workers && Busy(s.workers[w]) ==> s.workers[w].ticket < |s.log|)
  }

  /** Between taking an entry and counting it off. */
  predicate Busy(p: Phase) {
    p.Taken? || p.Running?
  }

  function ExecSet(s: State): set<nat> {
    set f | f in s.fibers && s.fibers[f] == Exec
  }

  function Entries(s: State): seq<FiberAndThread>
    requires Numbered(s)
  {
    seq(|s.queue|, i requires 0 <= i < |s.queue| => s.log[s.queue[i]])
  }

  predicate At(s: State, w: int) {
    w in s.workers
  }

  function Push(s: State, task: Task, thread: int): State {
    s.(log := s.log + [FiberAndThread(task, thread)], queue := s.queue + [|s.log|])
  }

  /** `Stopping()`. */
  predicate Stopping(s: State) {
    s.stopAsked && s.queue == [] && s.active == 0
  }

  /** `SwapIn` asserts that the fiber is not executing; a callback gets a fiber of its own. */
  predicate Resumable(s: State, task: Task, newFiber: nat) {
    if task.Fiber? then task.id in s.fibers && s.fibers[task.id] !in {Exec, Term, Except} else newFiber !in s.fibers
  }

  predicate Finished(s: State, task: Task) {
    task.Fiber? && task.id in s.fibers && s.fibers[task.id] in {Term, Except}
  }

  ghost predicate Enabled(s: State, step: Step)
    requires Numbered(s)
  {
    match step
    case Create(f) => f !in s.fibers
    case Schedule(task, thread) => task.Fiber? ==> task.id in s.fibers
    case Stop => true
    case Take(w, at) =>
      At(s, w) && s.workers[w] == Scan && at < |s.queue| && Picks(Entries(s), w, ExecSet(s), at)
    case Resume(w, newFiber) =>
      At(s, w) && s.workers[w].Taken? && Resumable(s, s.log[s.workers[w].ticket].task, newFiber)
    case Drop(w) =>
      At(s, w) && s.workers[w].Taken? && Finished(s, s.log[s.workers[w].ticket].task)
    case Finish(w, how) => At(s, w) && s.workers[w].Running?
    case Requeue(w) => At(s, w) && s.workers[w].InHand? && s.workers[w].fiber in s.fibers
    case GoIdle(w, at) =>
      At(s, w) && s.workers[w] == Scan && at == |s.queue| && Picks(Entries(s), w, ExecSet(s), at) && w !in s.idleDone
    case LeaveIdle(w, done) => At(s, w) && s.workers[w] == Idling && (done ==> Stopping(s))
    case Exit(w, at) =>
      At(s, w) && s.workers[w] == Scan && at == |s.queue| && Picks(Entries(s), w, ExecSet(s), at) && w in s.idleDone
  }

  /** What becomes of a fiber that swapped out in state `how`. */
  function Settled(how: FiberState): FiberState {
    if how in {Ready, Term, Except} then how else Hold
  }

  function Apply(s: State, step: Step): State
    requires Numbered(s)
    requires Enabled(s, step)
  {
    match step
    case Create(f) => s.(fibers := s.fibers[f := Init])
    case Schedule(task, thread) => Push(s, task, thread)
    case Stop => s.(stopAsked := true)
    case Take(w, at) =>
      s.(queue := s.queue[..at] + s.queue[at + 1..], taken := s.taken[s.queue[at] := w], active := s.active + 1,
         workers := s.workers[w := Taken(s.queue[at])])
    case Resume(w, newFiber) =>
      var t := s.workers[w].ticket;
      var f := if s.log[t].task.Fiber? then s.log[t].task.id else newFiber;
      s.(fibers := s.fibers[f := Exec], workers := s.workers[w := Running(t, f)])
    case Drop(w) =>
      s.(active := s.active - 1, returned := s.returned + {s.workers[w].ticket}, workers := s.workers[w := Scan])
    case Finish(w, how) =>
      var f := s.workers[w].fiber;
      s.(active := s.active - 1, returned := s.returned + {s.workers[w].ticket}, fibers := s.fibers[f := Settled(how)],
         workers := s.workers[w := if how == Ready then InHand(f) else Scan])
    case Requeue(w) => Push(s.(workers := s.workers[w := Scan]), Fiber(s.workers[w].fiber), ANY)
    case GoIdle(w, _) => s.(workers := s.workers[w := Idling])
    case LeaveIdle(w, done) =>
      s.(workers := s.workers[w := Scan], idleDone := if done then s.idleDone + {w} else s.idleDone)
    case Exit(w, _) => s.(workers := s.workers[w := Exited])
  }

  // ---- every entry in one place ----

  /** The queue is in the order of acceptance, without repetition. */
  ghost predicate Ordered(s: State) {
    forall i, j :: 0 <= i < j < |s.queue| ==> s.queue[i] < s.queue[j]
  }

  /** Every accepted entry is queued or taken, never both; a pinned one is taken only by its thread. */
  ghost predicate Conserved(s: State) {
    && (forall t: nat :: t < |s.log| ==> t in s.queue || t in s.taken)
    && (forall t :: t in s.queue ==> t !in s.taken)
    && (forall t :: t in s.taken ==> t < |s.log| && (s.log[t].thread == ANY || s.log[t].thread == s.taken[t]))
  }

  /** An entry taken is over, or its worker is busy with it. */
  ghost predicate Accounted(s: State) {
    && (forall t :: t in s.returned ==> t in s.taken)
    && (forall t :: t in s.taken && t !in s.returned ==>
      s.taken[t] in s.workers && Busy(s.workers[s.taken[t]]) && s.workers[s.taken[t]].ticket == t)
    && (forall w :: w in s.workers && Busy(s.workers[w]) ==> HasTaken(s, w, s.workers[w].ticket))
  }

  ghost predicate HasTaken(s: State, w: int, t: nat) {
    t in s.taken && s.taken[t] == w && t !in s.returned
  }

  ghost function BusySet(ws: map<int, Phase>): set<int> {
    set w | w in ws && Busy(ws[w])
  }

  lemma BusyUpdate(ws: map<int, Phase>, w: int, p: Phase)
    requires w in ws
    ensures |BusySet(ws[w := p])| == |BusySet(ws)| + (if Busy(p) then 1 else 0) - if Busy(ws[w]) then 1 else 0
  {
    var others := BusySet(ws) - {w};
    assert BusySet(ws) == if Busy(ws[w]) then others + {w} else others;
    assert BusySet(ws[w := p]) == if Busy(p) then others + {w} else others;
  }

  /** The active count is the number of busy workers. */
  ghost predicate ActiveCounts(s: State) {
    s.active == |BusySet(s.workers)|
  }

  /** Only fibers that exist are scheduled. */
  ghost predicate Created(s: State) {
    forall t: nat :: t < |s.log| && s.log[t].task.Fiber? ==> s.log[t].task.id in s.fibers
  }

  ghost predicate Inv(s: State) {
    Numbered(s) && Ordered(s) && Conserved(s) && Accounted(s) && ActiveCounts(s) && Created(s)
  }

  lemma NobodyBusy(ws: map<int, Phase>)
    requires forall w :: w in ws ==> !Busy(ws[w])
    ensures BusySet(ws) == {}
  {
    forall w
      ensures w !in BusySet(ws)
    {
    }
    assert BusySet(ws) == {};
  }

  lemma StartInv(threads: set<int>)
    ensures Inv(Start(threads))
  {
    NobodyBusy(Start(threads).workers);
  }

  lemma NumberedStep(s: State, step: Step)
    requires Inv(s) && Enabled(s, step)
    ensures Numbered(Apply(s, step))
  {
  }

  lemma OrderedStep(s: State, step: Step)
    requires Inv(s) && Enabled(s, step)
    ensures Ordered(Apply(s, step))
  {
  }

  lemma ConservedStep(s: State, step: Step)
    requires Inv(s) && Enabled(s, step)
    ensures Conserved(Apply(s, step))
  {
    if step.Take? {
      TakeSplits(s.queue, step.at);
      assert s.queue[step.at] in s.queue;
      assert Entries(s)[step.at] == s.log[s.queue[step.at]];
    }
  }

  lemma TakeSplits(q: seq<nat>, at: nat)
    requires at < |q| && forall i, j :: 0 <= i < j < |q| ==> q[i] < q[j]
    ensures forall t :: t in q <==> t == q[at] || t in q[..at] + q[at + 1..]
    ensures q[at] !in q[..at] + q[at + 1..]
  {
    assert q == q[..at] + [q[at]] + q[at + 1..];
  }

  lemma AccountedStep(s: State, step: Step)
    requires Inv(s) && Enabled(s, step)
    ensures Accounted(Apply(s, step))
  {
    if step.Take? {
      assert s.queue[step.at] in s.queue;
    }
  }

  lemma ActiveStep(s: State, step: Step)
    requires Inv(s) && Enabled(s, step)
    ensures ActiveCounts(Apply(s, step))
  {
    hide BusySet;
    var ws := Apply(s, step).workers;
    if ws != s.workers {
      var w := step.w;
      assert ws == s.workers[w := ws[w]];
      BusyUpdate(s.workers, w, ws[w]);
    }
  }

  lemma CreatedStep(s: State, step: Step)
    requires Inv(s) && Enabled(s, step)
    ensures Created(Apply(s, step))
  {
    hide Conserved;
    hide Accounted;
    hide ActiveCounts;
    hide Ordered;
  }

  lemma InvStep(s: State, step: Step)
    requires Inv(s) && Enabled(s, step)
    ensures Inv(Apply(s, step))
  {
    NumberedStep(s, step);
    OrderedStep(s, step);
    ConservedStep(s, step);
    AccountedStep(s, step);
    ActiveStep(s, step);
    CreatedStep(s, step);
  }

  lemma HeadIn(q: seq<nat>)
    ensures q != [] ==> q[0] in q
  {
  }

  /** Everything accepted so far was taken, and its resumption is over. */
  ghost predicate AllOver(s: State) {
    forall t: nat :: t < |s.log| ==> t in s.taken && t in s.returned
  }

  /** `Stopping()` is true if and only if a stop was asked for and every accepted entry was taken and is over; then no
      worker is busy, though a fiber that came back ready may still be in the hands of one. */
  lemma StoppingMeansDone(s: State)
    requires Inv(s)
    ensures Stopping(s) <==> s.stopAsked && AllOver(s)
    ensures Stopping(s) ==> forall w :: w in s.workers ==> !Busy(s.workers[w])
  {
    if Stopping(s) {
      assert BusySet(s.workers) == {};
      assert forall w :: w in s.workers ==> (w in BusySet(s.workers) <==> Busy(s.workers[w]));
    }
    if s.stopAsked && AllOver(s) {
      NobodyBusy(s.workers);
      HeadIn(s.queue);
    }
  }

  // ---- runs ----

  /** The steps can be taken one after the other. */
  ghost predicate Possible(s: State, steps: seq<Step>)
    decreases |steps|
  {
    steps == [] || (Numbered(s) && Enabled(s, steps[0]) && Possible(Apply(s, steps[0]), steps[1..]))
  }

  ghost function After(s: State, steps: seq<Step>): State
    requires Possible(s, steps)
    decreases |steps|
  {
    if steps == [] then s else After(Apply(s, steps[0]), steps[1..])
  }

  /** What was accepted and taken stays so: an entry is taken once, by one worker. */
  ghost predicate Extends(s: State, s': State) {
    && s.log <= s'.log
    && (forall t :: t in s.taken ==> t in s'.taken && s'.taken[t] == s.taken[t])
    && s.returned <= s'.returned
  }

  lemma StepExtends(s: State, step: Step)
    requires Inv(s) && Enabled(s, step)
    ensures Extends(s, Apply(s, step))
  {
    if step.Take? {
      assert s.queue[step.at] in s.queue;
    }
  }

  /** Every run keeps the invariant, and no entry is taken twice. */
  lemma {:induction false} RunInv(s: State, steps: seq<Step>)
    requires Inv(s) && Possible(s, steps)
    ensures Inv(After(s, steps)) && Extends(s, After(s, steps))
    decreases |steps|
  {
    hide Inv;
    hide Apply;
    hide Enabled;
    if steps != [] {
      InvStep(s, steps[0]);
      StepExtends(s, steps[0]);
      RunInv(Apply(s, steps[0]), steps[1..]);
    }
  }

  /** In every run from the start, `Stopping()` is true if and only if a stop was asked for and everything accepted so
      far was taken once and is over. */
  lemma RunThenStopping(threads: set<int>, steps: seq<Step>)
    requires Possible(Start(threads), steps)
    ensures Inv(After(Start(threads), steps))
    ensures var s := After(Start(threads), steps); Stopping(s) <==> s.stopAsked && AllOver(s)
  {
    StartInv(threads);
    RunInv(Start(threads), steps);
    StoppingMeansDone(After(Start(threads), steps));
  }

  predicate HasExited(s: State, w: int) {
    w in s.workers && s.workers[w] == Exited
  }

  /** How a worker that scans or idles leaves the loop. */
  function LastSteps(s: State, w: int): seq<Step>
    requires w in s.workers
  {
    (if s.workers[w] == Idling then [LeaveIdle(w, true)]
     else if w in s.idleDone then [] else [GoIdle(w, 0), LeaveIdle(w, true)]) + [Exit(w, 0)]
  }

  /** Once everything is over and a stop was asked for, a worker that scans or idles can exit. */
  lemma WorkerExits(s: State, w: int)
    requires Inv(s) && s.stopAsked && AllOver(s) && w in s.workers && s.workers[w] in {Scan, Idling}
    ensures Possible(s, LastSteps(s, w)) && HasExited(After(s, LastSteps(s, w)), w)
  {
    StoppingMeansDone(s);
    hide Inv;
    if s.workers[w] == Idling {
      IdlerExits(s, w);
    } else if w in s.idleDone {
      Cons(s, Exit(w, 0), []);
      assert [] + [Exit(w, 0)] == [Exit(w, 0)] + [];
    } else {
      var s1 := Apply(s, GoIdle(w, 0));
      IdlerExits(s1, w);
      Cons(s, GoIdle(w, 0), [LeaveIdle(w, true), Exit(w, 0)]);
      assert [GoIdle(w, 0)] + [LeaveIdle(w, true), Exit(w, 0)] == LastSteps(s, w);
    }
  }

  lemma IdlerExits(s: State, w: int)
    requires Numbered(s) && Stopping(s) && w in s.workers && s.workers[w] == Idling
    ensures var steps := [LeaveIdle(w, true), Exit(w, 0)];
      Possible(s, steps) && HasExited(After(s, steps), w)
  {
    var s1 := Apply(s, LeaveIdle(w, true));
    Cons(s1, Exit(w, 0), []);
    Cons(s, LeaveIdle(w, true), [Exit(w, 0)]);
    assert [Exit(w, 0)] + [] == [Exit(w, 0)];
  }

  /** At some step the worker's idle fiber ends, while `Stopping()` is true. */
  ghost predicate SawStop(s: State, steps: seq<Step>, w: int)
    requires Possible(s, steps)
    decreases |steps|
  {
    steps != [] && ((steps[0] == LeaveIdle(w, true) && Stopping(s)) || SawStop(Apply(s, steps[0]), steps[1..], w))
  }

  lemma NotYetExited(s: State, step: Step, w: int)
    requires Numbered(s) && Enabled(s, step) && !HasExited(s, w) && w !in s.idleDone
    ensures !HasExited(Apply(s, step), w)
    ensures if step == LeaveIdle(w, true) then Stopping(s) else w !in Apply(s, step).idleDone
  {
  }

  /** And no worker exits before: its idle fiber ended at a moment when everything accepted was over and a stop was
      asked for. */
  lemma {:induction false} ExitSawStop(s: State, steps: seq<Step>, w: int)
    requires Possible(s, steps) && !HasExited(s, w) && w !in s.idleDone && HasExited(After(s, steps), w)
    ensures SawStop(s, steps, w)
    decreases |steps|
  {
    NotYetExited(s, steps[0], w);
    if steps[0] != LeaveIdle(w, true) {
      hide Apply;
      hide Enabled;
      ExitSawStop(Apply(s, steps[0]), steps[1..], w);
    }
  }

  /** What a worker takes is the earliest accepted of the entries it may run; it exits when there is none. */
  lemma EarliestFirst(s: State, step: Step)
    requires Inv(s) && Enabled(s, step)
    ensures step.Take? ==> forall t :: t in s.queue && t < s.queue[step.at] ==> !Eligible(s.log[t], step.w, ExecSet(s))
    ensures step.Exit? ==> forall t :: t in s.queue ==> !Eligible(s.log[t], step.w, ExecSet(s))
  {
    forall t | t in s.queue && (step.Exit? || (step.Take? && t < s.queue[step.at]))
      ensures !Eligible(s.log[t], step.w, ExecSet(s))
    {
      var j :| 0 <= j < |s.queue| && s.queue[j] == t;
      assert j < step.at;
      assert Entries(s)[j] == s.log[t];
    }
  }

  /** A fiber that came back ready is not stranded: its worker queues it, and exits only when that entry has been taken
      or the fiber executes on another worker. */
  lemma NotStranded(s: State, w: int, steps: seq<Step>, at: nat)
    requires Inv(s) && Enabled(s, Requeue(w)) && Possible(s, [Requeue(w)] + steps + [Exit(w, at)])
    ensures Possible(s, [Requeue(w)] + steps)
    ensures var s' := After(s, [Requeue(w)] + steps);
      |s.log| < |s'.log| && s'.log[|s.log|] == FiberAndThread(Fiber(s.workers[w].fiber), -1)
    ensures var s' := After(s, [Requeue(w)] + steps);
      |s.log| in s'.taken || s.workers[w].fiber in ExecSet(s')
  {
    var p, t, f := [Requeue(w)] + steps, |s.log|, s.workers[w].fiber;
    Snoc(s, p, Exit(w, at));
    RunInv(s, p);
    var s1, s' := Apply(s, Requeue(w)), After(s, p);
    InvStep(s, Requeue(w));
    assert p[1..] == steps;
    RunInv(s1, steps);
    assert s1.log[t] == FiberAndThread(Fiber(f), ANY) && s1.log <= s'.log;
    assert s'.log[t] == s1.log[t];
    EarliestFirst(s', Exit(w, at));
  }

  // ---- what becomes of a fiber that swaps out ----

  /** The fiber of a running worker executes, and on that worker only. */
  ghost predicate Runners(s: State) {
    && (forall w :: w in s.workers && s.workers[w].Running? ==> Executing(s, s.workers[w].fiber))
    && OneRunner(s)
  }

  lemma RunnersStep(s: State, step: Step)
    requires Numbered(s) && Runners(s) && Enabled(s, step)
    ensures Runners(Apply(s, step))
  {
    var s' := Apply(s, step);
    forall v, w, f | Runs(s', v, f) && Runs(s', w, f)
      ensures v == w
    {
      assert Runs(s, v, f) && Runs(s, w, f) ==> v == w;
      assert Runs(s, v, f) ==> Executing(s, f);
      assert Runs(s, w, f) ==> Executing(s, f);
    }
    forall w | w in s'.workers && s'.workers[w].Running?
      ensures Executing(s', s'.workers[w].fiber)
    {
      var f := s'.workers[w].fiber;
      if step.Finish? && w != step.w {
        assert Runs(s, w, f);
        assert Runs(s, step.w, s.workers[step.w].fiber);
      }
    }
  }

  /** The fiber's function has returned or thrown. */
  predicate Ended(s: State, f: nat) {
    f in s.fibers && s.fibers[f] in {Term, Except}
  }

  /** The fiber the step swaps in. */
  ghost predicate Resumes(s: State, step: Step, f: nat) {
    && step.Resume? && step.w in s.workers && s.workers[step.w].Taken? && s.workers[step.w].ticket < |s.log|
    && f == (var task := s.log[s.workers[step.w].ticket].task; if task.Fiber? then task.id else step.newFiber)
  }

  ghost predicate NeverResumes(s: State, steps: seq<Step>, f: nat)
    requires Possible(s, steps)
    decreases |steps|
  {
    steps == [] || (!Resumes(s, steps[0], f) && NeverResumes(Apply(s, steps[0]), steps[1..], f))
  }

  lemma EndedStays(s: State, step: Step, f: nat)
    requires Numbered(s) && Runners(s) && Enabled(s, step) && Ended(s, f)
    ensures Ended(Apply(s, step), f) && Apply(s, step).fibers[f] == s.fibers[f] && !Resumes(s, step, f)
  {
    if step.Finish? {
      assert Executing(s, s.workers[step.w].fiber);
    }
  }

  /** A fiber that has ended is never resumed again, in whatever entries it still stands. */
  lemma {:induction false} EndedForGood(s: State, steps: seq<Step>, f: nat)
    requires Inv(s) && Runners(s) && Possible(s, steps) && Ended(s, f)
    ensures NeverResumes(s, steps, f)
    ensures f in After(s, steps).fibers && After(s, steps).fibers[f] == s.fibers[f]
    decreases |steps|
  {
    if steps != [] {
      InvStep(s, steps[0]);
      RunnersStep(s, steps[0]);
      EndedStays(s, steps[0], f);
      hide Inv;
      hide Runners;
      hide Apply;
      hide Enabled;
      hide Resumes;
      EndedForGood(Apply(s, steps[0]), steps[1..], f);
    }
  }

  /** So is one whose worker comes back from it with `TERM` or `EXCEPT`. */
  lemma FinishedForGood(s: State, w: int, how: FiberState, steps: seq<Step>)
    requires Inv(s) && Runners(s) && Possible(s, [Finish(w, how)] + steps) && how in {Term, Except}
    ensures w in s.workers && s.workers[w].Running?
    ensures var f, s' := s.workers[w].fiber, Apply(s, Finish(w, how));
      Possible(s', steps) && NeverResumes(s', steps, f) && Ended(After(s', steps), f)
  {
    assert ([Finish(w, how)] + steps)[0] == Finish(w, how) && ([Finish(w, how)] + steps)[1..] == steps;
    InvStep(s, Finish(w, how));
    RunnersStep(s, Finish(w, how));
    EndedForGood(Apply(s, Finish(w, how)), steps, s.workers[w].fiber);
  }

  /** What a worker can do with an entry it has taken: resume the fiber, a new one for a callback; drop it when the
      fiber has ended; or meet the assertion when it executes. */
  lemma TakenGoesOn(s: State, w: int, newFiber: nat)
    requires Inv(s) && w in s.workers && s.workers[w].Taken? && newFiber !in s.fibers
    ensures var t := s.workers[w].ticket;
      var task := s.log[t].task;
      && (Enabled(s, Drop(w)) <==> task.Fiber? && Ended(s, task.id))
      && (Fires(s, w, t) <==> task.Fiber? && Executing(s, task.id))
      && (Enabled(s, Resume(w, newFiber)) <==> !Enabled(s, Drop(w)) && !Fires(s, w, t))
  {
  }

  ghost predicate InSomeHand(s: State, f: nat) {
    exists w :: w in s.workers && s.workers[w] == InHand(f)
  }

  ghost predicate QueuedFiber(s: State, f: nat) {
    exists t: nat :: t < |s.log| && t in s.queue && s.log[t].task == Fiber(f)
  }

  ghost predicate TakenFiber(s: State, f: nat) {
    exists w :: w in s.workers && s.workers[w].Taken? && s.workers[w].ticket < |s.log| &&
      s.log[s.workers[w].ticket].task == Fiber(f)
  }

  /** A fiber that came back ready is in the hands of a worker, queued, or taken. */
  ghost predicate ReadyKept(s: State) {
    forall f :: f in s.fibers && s.fibers[f] == Ready ==> InSomeHand(s, f) || QueuedFiber(s, f) || TakenFiber(s, f)
  }

  lemma InHandKept(s: State, step: Step, f: nat)
    requires Inv(s) && Enabled(s, step) && InSomeHand(s, f)
    ensures var s' := Apply(s, step); InSomeHand(s', f) || QueuedFiber(s', f)
  {
    var s' := Apply(s, step);
    var w :| w in s.workers && s.workers[w] == InHand(f);
    if step == Requeue(w) {
      assert s'.log[|s.log|].task == Fiber(f) && s'.queue[|s.queue|] == |s.log|;
    } else {
      assert s'.workers[w] == InHand(f);
    }
  }

  lemma QueuedKept(s: State, step: Step, f: nat)
    requires Inv(s) && Enabled(s, step) && QueuedFiber(s, f)
    ensures var s' := Apply(s, step); QueuedFiber(s', f) || TakenFiber(s', f)
  {
    hide Accounted;
    hide ActiveCounts;
    var s' := Apply(s, step);
    var t: nat :| t < |s.log| && t in s.queue && s.log[t].task == Fiber(f);
    assert s'.log[t] == s.log[t];
    if step.Take? {
      TakeSplits(s.queue, step.at);
      assert t == s.queue[step.at] ==> s'.workers[step.w] == Taken(t);
    }
  }

  lemma TakenKept(s: State, step: Step, f: nat)
    requires Inv(s) && Enabled(s, step) && TakenFiber(s, f) && f in s.fibers && s.fibers[f] == Ready
    ensures var s' := Apply(s, step); TakenFiber(s', f) || s'.fibers[f] != Ready
  {
    var s' := Apply(s, step);
    var w :| w in s.workers && s.workers[w].Taken? && s.workers[w].ticket < |s.log| &&
      s.log[s.workers[w].ticket].task == Fiber(f);
    if step != Resume(w, if step.Resume? then step.newFiber else 0) {
      assert s'.workers[w] == s.workers[w] && s'.log[s.workers[w].ticket] == s.log[s.workers[w].ticket];
    }
  }

  lemma ReadyStep(s: State, step: Step)
    requires Inv(s) && ReadyKept(s) && Enabled(s, step)
    ensures ReadyKept(Apply(s, step))
  {
    var s' := Apply(s, step);
    forall f | f in s'.fibers && s'.fibers[f] == Ready
      ensures InSomeHand(s', f) || QueuedFiber(s', f) || TakenFiber(s', f)
    {
      if f in s.fibers && s.fibers[f] == Ready {
        if InSomeHand(s, f) {
          InHandKept(s, step, f);
        } else if QueuedFiber(s, f) {
          QueuedKept(s, step, f);
        } else {
          TakenKept(s, step, f);
        }
      } else {
        assert step.Finish? && s'.workers[step.w] == InHand(f);
      }
    }
  }

  lemma StartKept(threads: set<int>)
    ensures Inv(Start(threads)) && Runners(Start(threads)) && ReadyKept(Start(threads))
  {
    StartInv(threads);
  }

  /** In every run a fiber executes on one worker at most, and one that came back ready is not lost. */
  lemma {:induction false} FibersKept(s: State, steps: seq<Step>)
    requires Inv(s) && Runners(s) && ReadyKept(s) && Possible(s, steps)
    ensures Runners(After(s, steps)) && ReadyKept(After(s, steps))
    decreases |steps|
  {
    if steps != [] {
      InvStep(s, steps[0]);
      RunnersStep(s, steps[0]);
      ReadyStep(s, steps[0]);
      hide Inv;
      hide Runners;
      hide ReadyKept;
      hide Apply;
      hide Enabled;
      FibersKept(Apply(s, steps[0]), steps[1..]);
    }
  }

  lemma KeptFromStart(threads: set<int>, steps: seq<Step>)
    requires Possible(Start(threads), steps)
    ensures Runners(After(Start(threads), steps)) && ReadyKept(After(Start(threads), steps))
  {
    StartKept(threads);
    FibersKept(Start(threads), steps);
  }

  // ---- no fiber on two workers ----

  /** The one place from which a fiber will be resumed. */
  datatype Holder = Queued(ticket: nat) | By(w: int)

  ghost predicate Exclusive(s: State, held: map<nat, Holder>) {
    Known(s, held) && QueueHeld(s, held) && WorkersHeld(s, held) && OneRunner(s)
  }

  ghost predicate Known(s: State, held: map<nat, Holder>) {
    forall f :: f in held ==> f in s.fibers
  }

  ghost predicate QueueHeld(s: State, held: map<nat, Holder>) {
    forall t: nat :: t < |s.log| && t in s.queue && s.log[t].task.Fiber? ==> Holds(held, s.log[t].task.id, Queued(t))
  }

  ghost predicate WorkersHeld(s: State, held: map<nat, Holder>) {
    forall w :: w in s.workers ==> WorkerExclusive(s, held, w)
  }

  ghost predicate Runs(s: State, w: int, f: nat) {
    w in s.workers && s.workers[w].Running? && s.workers[w].fiber == f
  }

  ghost predicate OneRunner(s: State) {
    forall v, w, f :: Runs(s, v, f) && Runs(s, w, f) ==> v == w
  }

  ghost predicate Holds(held: map<nat, Holder>, f: nat, h: Holder) {
    f in held && held[f] == h
  }

  /** A fiber taken is not executing, one in hand is ready, one that runs is executing. */
  ghost predicate WorkerExclusive(s: State, held: map<nat, Holder>, w: int)
    requires w in s.workers
  {
    match s.workers[w]
    case Taken(t) =>
      t < |s.log| && (s.log[t].task.Fiber? ==>
        Holds(held, s.log[t].task.id, By(w)) && s.log[t].task.id in s.fibers && s.fibers[s.log[t].task.id] != Exec)
    case InHand(f) => Holds(held, f, By(w)) && f in s.fibers && s.fibers[f] == Ready
    case Running(_, f) => f in s.fibers && s.fibers[f] == Exec
    case _ => true
  }

  /** The caller's duty: no fiber is scheduled again, or comes back ready, while a place is already holding it. */
  ghost predicate Disciplined(s: State, held: map<nat, Holder>, step: Step)
    requires Numbered(s) && Enabled(s, step)
  {
    match step
    case Schedule(task, _) => task.Fiber? ==> task.id !in held
    case Finish(w, how) => how == Ready ==> s.workers[w].fiber !in held
    case _ => true
  }

  ghost function HeldAfter(s: State, held: map<nat, Holder>, step: Step): map<nat, Holder>
    requires Numbered(s) && Enabled(s, step)
  {
    match step
    case Schedule(task, _) => if task.Fiber? then held[task.id := Queued(|s.log|)] else held
    case Take(w, at) =>
      var task := s.log[s.queue[at]].task;
      if task.Fiber? then held[task.id := By(w)] else held
    case Resume(w, _) => Released(held, s.log[s.workers[w].ticket].task)
    case Drop(w) => Released(held, s.log[s.workers[w].ticket].task)
    case Finish(w, how) => if how == Ready then held[s.workers[w].fiber := By(w)] else held
    case Requeue(w) => held[s.workers[w].fiber := Queued(|s.log|)]
    case _ => held
  }

  ghost function Released(held: map<nat, Holder>, task: Task): map<nat, Holder> {
    if task.Fiber? then held - {task.id} else held
  }

  lemma KnownStep(s: State, held: map<nat, Holder>, step: Step)
    requires Inv(s) && Exclusive(s, held) && Enabled(s, step) && Disciplined(s, held, step)
    ensures Known(Apply(s, step), HeldAfter(s, held, step))
  {
  }

  lemma QueueHeldStep(s: State, held: map<nat, Holder>, step: Step)
    requires Inv(s) && Exclusive(s, held) && Enabled(s, step) && Disciplined(s, held, step)
    ensures QueueHeld(Apply(s, step), HeldAfter(s, held, step))
  {
    hide OneRunner;
  }

  lemma WorkersHeldStep(s: State, held: map<nat, Holder>, step: Step)
    requires Inv(s) && Exclusive(s, held) && Enabled(s, step) && Disciplined(s, held, step)
    ensures WorkersHeld(Apply(s, step), HeldAfter(s, held, step))
  {
    hide ActiveCounts;
    hide Accounted;
    hide Conserved;
    hide Ordered;
    if step.Take? {
      assert s.queue[step.at] in s.queue;
      assert Entries(s)[step.at] == s.log[s.queue[step.at]];
    }
    forall w | w in Apply(s, step).workers
      ensures WorkerExclusive(Apply(s, step), HeldAfter(s, held, step), w)
    {
      assert WorkerExclusive(s, held, w);
      if step.Finish? && s.workers[w].Running? {
        assert Runs(s, step.w, s.workers[step.w].fiber) && Runs(s, w, s.workers[w].fiber);
      }
    }
  }

  lemma OneRunnerStep(s: State, held: map<nat, Holder>, step: Step)
    requires Inv(s) && Exclusive(s, held) && Enabled(s, step)
    ensures OneRunner(Apply(s, step))
  {
    hide QueueHeld;
    hide Accounted;
    hide ActiveCounts;
    forall v, w, f | Runs(Apply(s, step), v, f) && Runs(Apply(s, step), w, f)
      ensures v == w
    {
      assert WorkerExclusive(s, held, v) && WorkerExclusive(s, held, w);
      assert Runs(s, v, f) && Runs(s, w, f) ==> v == w;
    }
  }

  /** A disciplined step keeps every fiber on at most one worker. */
  lemma ExclusiveStep(s: State, held: map<nat, Holder>, step: Step)
    requires Inv(s) && Exclusive(s, held) && Enabled(s, step) && Disciplined(s, held, step)
    ensures Exclusive(Apply(s, step), HeldAfter(s, held, step))
  {
    KnownStep(s, held, step);
    QueueHeldStep(s, held, step);
    WorkersHeldStep(s, held, step);
    OneRunnerStep(s, held, step);
  }

  ghost predicate DisciplinedRun(s: State, held: map<nat, Holder>, steps: seq<Step>)
    requires Possible(s, steps)
    decreases |steps|
  {
    steps == [] || (Disciplined(s, held, steps[0]) &&
                    DisciplinedRun(Apply(s, steps[0]), HeldAfter(s, held, steps[0]), steps[1..]))
  }

  /** In every disciplined run no two workers run the same fiber, and the assertion in `SwapIn` cannot fire: the fiber
      of an entry taken is not executing. */
  lemma {:induction false} NeverTwice(s: State, held: map<nat, Holder>, steps: seq<Step>)
    requires Inv(s) && Exclusive(s, held) && Possible(s, steps) && DisciplinedRun(s, held, steps)
    ensures OneRunner(After(s, steps))
    ensures forall w, t: nat :: !Fires(After(s, steps), w, t)
    decreases |steps|
  {
    if steps != [] {
      hide Inv;
      hide Apply;
      hide Enabled;
      hide Exclusive;
      InvStep(s, steps[0]);
      ExclusiveStep(s, held, steps[0]);
      NeverTwice(Apply(s, steps[0]), HeldAfter(s, held, steps[0]), steps[1..]);
    } else {
      forall w, t: nat
        ensures !Fires(s, w, t)
      {
        assert w in s.workers ==> WorkerExclusive(s, held, w);
      }
    }
  }

  ghost predicate HasTicket(s: State, w: int, t: nat) {
    w in s.workers && s.workers[w] == Taken(t) && t < |s.log|
  }

  ghost predicate Executing(s: State, f: nat) {
    f in s.fibers && s.fibers[f] == Exec
  }

  /** Worker `w` is about to resume the fiber of entry `t`, and finds it executing: the assertion in `SwapIn`. */
  ghost predicate Fires(s: State, w: int, t: nat) {
    HasTicket(s, w, t) && s.log[t].task.Fiber? && Executing(s, s.log[t].task.id)
  }

  /** Two workers have taken entries of the same fiber, and it can be resumed. */
  ghost predicate DoublyTaken(s: State, v: int, u: nat, w: int, t: nat) {
    && v != w && HasTicket(s, v, u) && HasTicket(s, w, t)
    && s.log[u].task == s.log[t].task && s.log[t].task.Fiber? && Resumable(s, s.log[t].task, 0)
  }

  /** The step is another worker's resumption of the fiber whose entry worker `w` has taken. */
  ghost predicate ResumesOther(s: State, step: Step, w: int, t: nat) {
    && step.Resume? && step.w in s.workers && s.workers[step.w].Taken?
    && DoublyTaken(s, step.w, s.workers[step.w].ticket, w, t)
  }

  /** A step makes the assertion due if and only if another worker resumes the fiber. */
  lemma FiresByStep(s: State, step: Step, w: int, t: nat)
    requires Inv(s) && Enabled(s, step) && !Fires(s, w, t)
    ensures Fires(Apply(s, step), w, t) <==> ResumesOther(s, step, w, t)
  {
    hide Conserved;
    hide Accounted;
    hide ActiveCounts;
    hide Ordered;
    if step.Take? {
      assert Entries(s)[step.at] == s.log[s.queue[step.at]];
    }
  }

  lemma {:induction false} Snoc(s: State, steps: seq<Step>, x: Step)
    ensures Possible(s, steps + [x]) <==> Possible(s, steps) && Numbered(After(s, steps)) && Enabled(After(s, steps), x)
    ensures Possible(s, steps + [x]) ==> After(s, steps + [x]) == Apply(After(s, steps), x)
    decreases |steps|
  {
    hide Apply;
    hide Enabled;
    hide Numbered;
    if steps == [] {
      assert [] + [x] == [x] && [x][1..] == [];
      assert Possible(s, [x]) <==> Numbered(s) && Enabled(s, x);
    } else {
      assert (steps + [x])[1..] == steps[1..] + [x];
      if Numbered(s) && Enabled(s, steps[0]) {
        Snoc(Apply(s, steps[0]), steps[1..], x);
      }
    }
  }

  /** After the first `k` steps of the run. */
  ghost function StateAt(s: State, steps: seq<Step>, k: nat): State
    requires Possible(s, steps) && k <= |steps|
  {
    PossibleFront(s, steps, k);
    After(s, steps[..k])
  }

  lemma {:induction false} PossibleFront(s: State, steps: seq<Step>, k: nat)
    requires Possible(s, steps) && k <= |steps|
    ensures Possible(s, steps[..k])
    decreases |steps|
  {
    hide Apply;
    hide Enabled;
    hide Numbered;
    if k > 0 {
      assert steps[..k][1..] == steps[1..][..k - 1];
      PossibleFront(Apply(s, steps[0]), steps[1..], k - 1);
    }
  }

  lemma NextState(s: State, steps: seq<Step>, k: nat)
    requires Inv(s) && Possible(s, steps) && k < |steps|
    ensures Inv(StateAt(s, steps, k)) && Enabled(StateAt(s, steps, k), steps[k])
    ensures StateAt(s, steps, k + 1) == Apply(StateAt(s, steps, k), steps[k])
  {
    hide Apply;
    hide Enabled;
    PossibleFront(s, steps, k);
    PossibleFront(s, steps, k + 1);
    assert steps[..k + 1] == steps[..k] + [steps[k]];
    Snoc(s, steps[..k], steps[k]);
    RunInv(s, steps[..k]);
  }

  /** The assertion is due for `w` and its entry `t` after the first `k` steps. */
  ghost predicate DueAt(s: State, steps: seq<Step>, k: nat, w: int, t: nat)
    requires Possible(s, steps)
  {
    k <= |steps| && Fires(StateAt(s, steps, k), w, t)
  }

  /** Step `k` is another worker's resumption of the fiber. */
  ghost predicate ResumedAt(s: State, steps: seq<Step>, k: nat, w: int, t: nat)
    requires Possible(s, steps)
  {
    k < |steps| && ResumesOther(StateAt(s, steps, k), steps[k], w, t)
  }

  lemma {:induction false} DueWasResumed(s: State, steps: seq<Step>, k: nat, w: int, t: nat) returns (j: nat)
    requires Inv(s) && !Fires(s, w, t) && Possible(s, steps) && DueAt(s, steps, k, w, t)
    ensures j < k && ResumedAt(s, steps, j, w, t)
    decreases k
  {
    hide Apply;
    hide Enabled;
    hide Fires;
    assert steps[..0] == [];
    assert k > 0;
    NextState(s, steps, k - 1);
    if DueAt(s, steps, k - 1, w, t) {
      j := DueWasResumed(s, steps, k - 1, w, t);
    } else {
      FiresByStep(StateAt(s, steps, k - 1), steps[k - 1], w, t);
      j := k - 1;
    }
  }

  /** In a run the assertion falls due for a worker and its entry if and only if, at some step, another worker that has
      taken an entry of the same fiber resumes that fiber. */
  lemma FiresExactly(s: State, steps: seq<Step>, w: int, t: nat)
    requires Inv(s) && !Fires(s, w, t) && Possible(s, steps)
    ensures (exists k: nat :: DueAt(s, steps, k, w, t)) <==> exists k: nat :: ResumedAt(s, steps, k, w, t)
  {
    hide Apply;
    hide Enabled;
    hide Fires;
    if k: nat :| DueAt(s, steps, k, w, t) {
      var j := DueWasResumed(s, steps, k, w, t);
    }
    if k: nat :| ResumedAt(s, steps, k, w, t) {
      NextState(s, steps, k);
      if !DueAt(s, steps, k, w, t) {
        FiresByStep(StateAt(s, steps, k), steps[k], w, t);
        assert DueAt(s, steps, k + 1, w, t);
      }
    }
  }

  /** A run from the start in which the assertion is due at the end. */
  ghost predicate FiringRun(threads: set<int>, steps: seq<Step>, w: int, t: nat) {
    Possible(Start(threads), steps) && Fires(After(Start(threads), steps), w, t)
  }

  lemma {:induction false} SameWorkers(s: State, steps: seq<Step>)
    requires Possible(s, steps)
    ensures After(s, steps).workers.Keys == s.workers.Keys
    decreases |steps|
  {
    if steps != [] {
      assert Apply(s, steps[0]).workers.Keys == s.workers.Keys;
      SameWorkers(Apply(s, steps[0]), steps[1..]);
    }
  }

  lemma FiringNeedsTwo(threads: set<int>, steps: seq<Step>, w: int, t: nat) returns (v: int)
    requires FiringRun(threads, steps, w, t)
    ensures v != w && v in threads && w in threads
  {
    var s := Start(threads);
    StartInv(threads);
    assert steps[..|steps|] == steps;
    assert DueAt(s, steps, |steps|, w, t);
    var k := DueWasResumed(s, steps, |steps|, w, t);
    hide Apply;
    hide Enabled;
    PossibleFront(s, steps, k);
    SameWorkers(s, steps[..k]);
    v := steps[k].w;
  }

  /** While a worker holds an entry of a fiber that can be resumed, another takes a second one: the run goes on to the
      assertion. */
  lemma SecondTakeFires(s: State, w: int, t: nat, v: int, i: nat)
    requires Inv(s) && HasTicket(s, w, t) && s.log[t].task.Fiber? && Resumable(s, s.log[t].task, 0)
    requires Enabled(s, Take(v, i)) && s.log[s.queue[i]].task == s.log[t].task
    ensures var steps := [Take(v, i), Resume(v, 0)];
      Possible(s, steps) && Fires(After(s, steps), w, t)
  {
    var s1 := Apply(s, Take(v, i));
    InvStep(s, Take(v, i));
    assert HasTicket(s1, v, s.queue[i]) && HasTicket(s1, w, t) && v != w;
    var s2 := Apply(s1, Resume(v, 0));
    assert Fires(s2, w, t);
    assert Possible(s2, []) && After(s2, []) == s2;
    hide Inv;
    hide Apply;
    hide Enabled;
    Cons(s1, Resume(v, 0), []);
    Cons(s, Take(v, i), [Resume(v, 0)]);
  }

  /** The discipline is needed: a fiber is scheduled whose entry a worker has already taken, and another worker may take
      the new entry. */
  lemma ScheduledWhileTakenFires(s: State, w: int, t: nat, thread: int, v: int, i: nat)
    requires Inv(s) && HasTicket(s, w, t) && s.log[t].task.Fiber? && Resumable(s, s.log[t].task, 0)
    requires var s1 := Apply(s, Schedule(s.log[t].task, thread));
      Enabled(s1, Take(v, i)) && s1.log[s1.queue[i]].task == s.log[t].task
    ensures var steps := [Schedule(s.log[t].task, thread), Take(v, i), Resume(v, 0)];
      Possible(s, steps) && Fires(After(s, steps), w, t)
  {
    var schedule := Schedule(s.log[t].task, thread);
    var s1 := Apply(s, schedule);
    InvStep(s, schedule);
    assert HasTicket(s1, w, t) && s1.log[t] == s.log[t] && Resumable(s1, s.log[t].task, 0);
    SecondTakeFires(s1, w, t, v, i);
    hide Inv;
    hide Apply;
    hide Enabled;
    Cons(s, schedule, [Take(v, i), Resume(v, 0)]);
  }

  lemma TwoTakesFire(s: State, v: int, i: nat, w: int, j: nat)
    requires Inv(s) && Enabled(s, Take(v, i)) && s.log[s.queue[i]].task.Fiber?
    requires Resumable(s, s.log[s.queue[i]].task, 0)
    requires var s1 := Apply(s, Take(v, i));
      Numbered(s1) && Enabled(s1, Take(w, j)) && s1.log[s1.queue[j]].task == s.log[s.queue[i]].task
    ensures var steps := [Take(v, i), Take(w, j), Resume(w, 0)];
      Possible(s, steps) && Fires(After(s, steps), v, s.queue[i])
  {
    var s1 := Apply(s, Take(v, i));
    InvStep(s, Take(v, i));
    assert HasTicket(s1, v, s.queue[i]);
    SecondTakeFires(s1, v, s.queue[i], w, j);
    hide Inv;
    hide Apply;
    hide Enabled;
    hide Possible;
    hide After;
    Cons(s, Take(v, i), [Take(w, j), Resume(w, 0)]);
    assert [Take(v, i)] + [Take(w, j), Resume(w, 0)] == [Take(v, i), Take(w, j), Resume(w, 0)];
  }

  /** Or a fiber is scheduled that is queued already, and two workers may take the two entries. */
  lemma ScheduledAgainFires(s: State, f: nat, thread: int, v: int, i: nat, w: int, j: nat)
    requires Inv(s) && f in s.fibers && Resumable(s, Fiber(f), 0)
    requires var s1 := Apply(s, Schedule(Fiber(f), thread));
      && Enabled(s1, Take(v, i)) && s1.log[s1.queue[i]].task == Fiber(f)
      && var s2 := Apply(s1, Take(v, i));
      Numbered(s2) && Enabled(s2, Take(w, j)) && s2.log[s2.queue[j]].task == Fiber(f)
    ensures var steps := [Schedule(Fiber(f), thread), Take(v, i), Take(w, j), Resume(w, 0)];
      Possible(s, steps) && Fires(After(s, steps), v, Apply(s, Schedule(Fiber(f), thread)).queue[i])
  {
    hide Picks;
    hide Conserved;
    hide Accounted;
    var schedule := Schedule(Fiber(f), thread);
    var s1 := Apply(s, schedule);
    InvStep(s, schedule);
    assert Resumable(s1, Fiber(f), 0);
    hide Resumable;
    hide Fires;
    TwoTakesFire(s1, v, i, w, j);
    hide Inv;
    hide Apply;
    hide Enabled;
    hide Possible;
    hide After;
    Cons(s, schedule, [Take(v, i), Take(w, j), Resume(w, 0)]);
    assert [schedule] + [Take(v, i), Take(w, j), Resume(w, 0)] == [schedule, Take(v, i), Take(w, j), Resume(w, 0)];
  }

  function Prepared(threads: set<int>): State {
    Apply(Apply(Start(threads), Create(0)), Schedule(Fiber(0), ANY))
  }

  lemma PreparedState(threads: set<int>)
    ensures var s := Prepared(threads);
      && Inv(s)
      && s.workers == Start(threads).workers && s.fibers == map[0 := Init]
      && s.log == [FiberAndThread(Fiber(0), ANY)] && s.queue == [0]
  {
    StartInv(threads);
    InvStep(Start(threads), Create(0));
    InvStep(Apply(Start(threads), Create(0)), Schedule(Fiber(0), ANY));
  }

  lemma MayTakeTwice(s: State, v: int, w: int)
    requires Inv(s) && v != w && v in s.workers && w in s.workers
    requires s.workers[v] == s.workers[w] == Scan && s.fibers == map[0 := Init]
    requires s.log == [FiberAndThread(Fiber(0), ANY)] && s.queue == [0]
    ensures var steps := [Schedule(Fiber(0), ANY), Take(v, 0), Take(w, 0), Resume(w, 0)];
      Possible(s, steps) && Fires(After(s, steps), v, 0)
  {
    var s1 := Apply(s, Schedule(Fiber(0), ANY));
    assert s1.queue == [0, 1] && s1.log[0] == s1.log[1] == FiberAndThread(Fiber(0), ANY) && ExecSet(s1) == {};
    InvStep(s, Schedule(Fiber(0), ANY));
    var s2 := Apply(s1, Take(v, 0));
    InvStep(s1, Take(v, 0));
    assert s2.queue == [1] && ExecSet(s2) == {};
    hide Inv;
    hide Possible;
    hide After;
    hide Fires;
    ScheduledAgainFires(s, 0, ANY, v, 0, w, 0);
  }

  /** Two workers and one fiber are enough. */
  lemma ScheduledTwice(threads: set<int>, v: int, w: int)
    requires v in threads && w in threads && v != w
    ensures var schedule := Schedule(Fiber(0), ANY);
      FiringRun(threads, [Create(0), schedule, schedule, Take(v, 0), Take(w, 0), Resume(w, 0)], v, 0)
  {
    var schedule := Schedule(Fiber(0), ANY);
    var s0 := Start(threads);
    var s1 := Apply(s0, Create(0));
    PreparedState(threads);
    MayTakeTwice(Prepared(threads), v, w);
    hide Inv;
    hide Fires;
    hide Possible;
    hide After;
    Cons(s1, schedule, [schedule, Take(v, 0), Take(w, 0), Resume(w, 0)]);
    assert [schedule] + [schedule, Take(v, 0), Take(w, 0), Resume(w, 0)] ==
      [schedule, schedule, Take(v, 0), Take(w, 0), Resume(w, 0)];
    Cons(s0, Create(0), [schedule, schedule, Take(v, 0), Take(w, 0), Resume(w, 0)]);
  }

  /** So some run of a scheduler meets the assertion if and only if it has two workers. */
  lemma SomeRunFires(threads: set<int>)
    ensures (exists steps, w, t :: FiringRun(threads, steps, w, t)) <==>
            exists v, w :: v in threads && w in threads && v != w
  {
    hide FiringRun;
    if steps, w, t :| FiringRun(threads, steps, w, t) {
      var v := FiringNeedsTwo(threads, steps, w, t);
    }
    if v, w :| v in threads && w in threads && v != w {
      ScheduledTwice(threads, v, w);
    }
  }

  lemma Cons(s: State, step: Step, steps: seq<Step>)
    requires Numbered(s) && Enabled(s, step) && Possible(Apply(s, step), steps)
    ensures Possible(s, [step] + steps) && After(s, [step] + steps) == After(Apply(s, step), steps)
  {
    assert ([step] + steps)[1..] == steps;
  }
}
