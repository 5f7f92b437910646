/** The run queue of the fiber scheduler (server_frame/base/scheduler.h, scheduler.cc). */
module Schedulers {
  import opened Wrappers

  datatype Task = Fiber(id: nat) | Call(id: nat)

  /** `FiberAndThread`; thread -1 is any thread. */
  datatype FiberAndThread = FiberAndThread(task: Task, thread: int)

  const ANY: int := -1

  /** Whether thread `self` may take the entry while the fibers `exec` are executing. */
  predicate Eligible(e: FiberAndThread, self: int, exec: set<nat>) {
    && (e.thread == ANY || e.thread == self)
    && !(e.task.Fiber? && e.task.id in exec)
  }

  /** `i` is the first eligible entry, or the length when there is none. */
  ghost predicate Picks(q: seq<FiberAndThread>, self: int, exec: set<nat>, i: nat) {
    && i <= |q|
    && (forall j :: 0 <= j < i ==> !Eligible(q[j], self, exec))
    && (i < |q| ==> Eligible(q[i], self, exec))
  }

  /** The tasks that are not null, pinned to no thread. */
  function Accepted(tasks: seq<Option<Task>>): seq<FiberAndThread> {
    if tasks == [] then []
    else (if tasks[0].Some? then [FiberAndThread(tasks[0].value, ANY)] else []) + Accepted(tasks[1..])
  }

  class Scheduler {
    var fibers: seq<FiberAndThread>
    var active: int      // active_thread_count_
    var stopping: bool
    var autoStop: bool
    var tickles: nat     // how often Tickle was called

    constructor ()
      ensures fibers == [] && active == 0 && stopping && !autoStop && tickles == 0
    {
      fibers, active, stopping, autoStop, tickles := [], 0, true, false, 0;
    }

    /** A null task is dropped; the queue was empty is what calls for a wake-up. */
    method ScheduleNoLock(task: Option<Task>, thread: int) returns (needTickle: bool)
      modifies this`fibers
      ensures needTickle == (old(fibers) == [])
      ensures fibers == old(fibers) + if task.Some? then [FiberAndThread(task.value, thread)] else []
    {
      needTickle := fibers == [];
      if task.Some? {
        fibers := fibers + [FiberAndThread(task.value, thread)];
      }
    }

    method Schedule(task: Option<Task>, thread: int)
      modifies this`fibers, this`tickles
      ensures fibers == old(fibers) + if task.Some? then [FiberAndThread(task.value, thread)] else []
      ensures tickles == old(tickles) + if old(fibers) == [] then 1 else 0
    {
      var needTickle := ScheduleNoLock(task, thread);
      if needTickle {
        tickles := tickles + 1;
      }
    }

    /** The batch form keeps the order, and wakes once if it was given anything and the queue was empty. */
    method ScheduleAll(tasks: seq<Option<Task>>)
      modifies this`fibers, this`tickles
      ensures fibers == old(fibers) + Accepted(tasks)
      ensures tickles == old(tickles) + if old(fibers) == [] && tasks != [] then 1 else 0
    {
      var needTickle := false;
      var begin := 0;
      while begin < |tasks|
        invariant 0 <= begin <= |tasks|
        invariant fibers + Accepted(tasks[begin..]) == old(fibers) + Accepted(tasks)
        invariant old(fibers) <= fibers && tickles == old(tickles)
        invariant needTickle == (begin > 0 && old(fibers) == [])
      {
        ghost var before := fibers;
        var empty := ScheduleNoLock(tasks[begin], ANY);
        assert tasks[begin..][1..] == tasks[begin + 1..];
        assert fibers + Accepted(tasks[begin + 1..]) == before + Accepted(tasks[begin..]);
        needTickle := empty || needTickle;
        begin := begin + 1;
      }
      if needTickle {
        tickles := tickles + 1;
      }
    }

    /** The locked search of a worker: it takes the earliest entry it may run, and says whether others are left for
        somebody else. */
    method TakeTask(self: int, exec: set<nat>) returns (ft: Option<FiberAndThread>, ghost at: nat)
      modifies this`fibers, this`active, this`tickles
      ensures Picks(old(fibers), self, exec, at)
      ensures ft.Some? ==> ft.value.thread in {-1, self} && !(ft.value.task.Fiber? && ft.value.task.id in exec)
      ensures forall j :: 0 <= j < at ==>
        old(fibers)[j].thread !in {-1, self} || (old(fibers)[j].task.Fiber? && old(fibers)[j].task.id in exec)
      ensures ft == if at < |old(fibers)| then Some(old(fibers)[at]) else None
      ensures fibers == if ft.Some? then old(fibers)[..at] + old(fibers)[at + 1..] else old(fibers)
      ensures active == old(active) + if ft.Some? then 1 else 0
      ensures tickles == old(tickles) +
        if (exists j :: 0 <= j < at && old(fibers)[j].thread !in {-1, self}) || at + 1 < |old(fibers)| then 1 else 0
    {
      var tickleMe := false;
      ft := None;
      var it: nat := 0;
      while it < |fibers|
        invariant it <= |fibers| && ft == None
        invariant forall j :: 0 <= j < it ==> !Eligible(fibers[j], self, exec)
        invariant tickleMe <==> exists j :: 0 <= j < it && fibers[j].thread != ANY && fibers[j].thread != self
        invariant fibers == old(fibers) && active == old(active)
      {
        if fibers[it].thread != ANY && fibers[it].thread != self {
          it := it + 1;
          tickleMe := true;
          continue;
        }
        if fibers[it].task.Fiber? && fibers[it].task.id in exec {
          it := it + 1;
          continue;
        }
        ft := Some(fibers[it]);
        fibers := fibers[..it] + fibers[it + 1..];
        active := active + 1;
        break;
      }
      at := it;
      tickleMe := tickleMe || it < |fibers|;
      if tickleMe {
        tickles := tickles + 1;
      }
    }

    /** Stopping is asked for, nothing is queued, and no worker runs a task. */
    method Stopping() returns (stop: bool)
      ensures stop == (autoStop && stopping && fibers == [] && active == 0)
    {
      stop := autoStop && stopping && fibers == [] && active == 0;
    }
  }
}
