/** The timer manager (server_frame/base/timer.cc). Times are `uint64_t` milliseconds; the clock readings the code
    takes are parameters. */
module Timers {
  import opened MachineInts
  import opened Wrappers

  datatype Callback = Callback(id: nat)

  const HOUR: nat := 60 * 60 * 1000

  /** Unsigned 64-bit addition and subtraction. */
  function Plus(a: nat, b: nat): (c: nat)
    ensures c < U64
    ensures a + b < U64 ==> c == a + b
  {
    (a + b) % U64
  }

  function Minus(a: nat, b: nat): (c: nat)
    ensures c < U64
    ensures b <= a < U64 ==> c == a - b
  {
    (a - b) % U64
  }

  /** A start time survives a change of period, wrap-around or not. */
  lemma StartSurvives(start: nat, ms: nat)
    requires start < U64
    ensures Minus(Plus(start, ms), ms) == start
  {
    var w := (start + ms) / U64;
    assert Plus(start, ms) == start + ms - w * U64;
    assert start - w * U64 == (start - w * U64) / U64 * U64 + (start - w * U64) % U64;
  }

  // ---- the order of the set ----

  /** The key of a timer in the set: its deadline and its address. */
  datatype SetKey = SetKey(next: nat, addr: nat)

  predicate KeyLess(lhs: SetKey, rhs: SetKey) {
    if lhs.next < rhs.next then true
    else if rhs.next < lhs.next then false
    else lhs.addr < rhs.addr
  }

  /** `Timer::Comparator`; a null pointer precedes every timer. */
  predicate Less(lhs: Option<SetKey>, rhs: Option<SetKey>) {
    if lhs.None? && rhs.None? then false
    else if lhs.None? then true
    else if rhs.None? then false
    else KeyLess(lhs.value, rhs.value)
  }

  /** A strict total order: exactly one of less, equal and greater, and transitive. Null comes first, and an earlier
      deadline before a later one. */
  lemma ComparatorIsStrictOrder(a: Option<SetKey>, b: Option<SetKey>, c: Option<SetKey>)
    ensures !Less(a, a)
    ensures Less(a, b) ==> !Less(b, a)
    ensures !Less(a, b) && !Less(b, a) <==> a == b
    ensures Less(a, b) && Less(b, c) ==> Less(a, c)
    ensures a == None && b.Some? ==> Less(a, b)
    ensures a.Some? && b.Some? && a.value.next < b.value.next ==> Less(a, b)
  {
  }

  ghost predicate Before(a: Timer, b: Timer)
    reads a`next, b`next
  {
    KeyLess(a.Key(), b.Key())
  }

  ghost predicate Sorted(ts: seq<Timer>)
    reads ts
  {
    forall i, j :: 0 <= i < j < |ts| ==> Before(ts[i], ts[j])
  }

  /** An ordered sequence is determined by its elements, so saying which timers a set holds says what it is. */
  lemma {:induction false} SortedIsUnique(s: seq<Timer>, t: seq<Timer>)
    requires Sorted(s) && Sorted(t)
    requires forall x :: x in s <==> x in t
    ensures s == t
  {
    hide KeyLess;
    if s == [] {
      FirstIn(t);
    } else {
      assert s[0] in t && t[0] in s;
      assert s[0] == t[0] by {
        var i :| 0 <= i < |t| && t[i] == s[0];
        var j :| 0 <= j < |s| && s[j] == t[0];
        if i > 0 && j > 0 {
          assert Before(t[0], t[i]) && Before(s[0], s[j]);
          ComparatorIsStrictOrder(Some(s[0].Key()), Some(t[0].Key()), None);
        }
      }
      forall x
        ensures x in s[1..] <==> x in t[1..]
      {
        SortedFirst(s);
        SortedFirst(t);
        assert x in s <==> x == s[0] || x in s[1..];
        assert x in t <==> x == t[0] || x in t[1..];
      }
      SortedIsUnique(s[1..], t[1..]);
    }
  }

  lemma FirstIn(s: seq<Timer>)
    ensures s != [] ==> s[0] in s
  {
  }

  lemma SortedFirst(s: seq<Timer>)
    requires Sorted(s) && s != []
    ensures s[0] !in s[1..]
  {
    forall i | 1 <= i < |s|
      ensures s[i] != s[0]
    {
      assert Before(s[0], s[i]);
    }
  }

  lemma SortedRemove(ts: seq<Timer>, i: nat)
    requires Sorted(ts) && i < |ts|
    ensures Sorted(ts[..i] + ts[i + 1..])
    ensures forall s :: s in ts[..i] + ts[i + 1..] <==> s in ts && s != ts[i]
  {
    var us := ts[..i] + ts[i + 1..];
    forall x, y | 0 <= x < y < |us|
      ensures Before(us[x], us[y])
    {
      var u, v := if x < i then x else x + 1, if y < i then y else y + 1;
      assert us[x] == ts[u] && us[y] == ts[v] && Before(ts[u], ts[v]);
    }
    assert ts == ts[..i] + [ts[i]] + ts[i + 1..];
    forall x | 0 <= x < |us|
      ensures us[x] != ts[i]
    {
      assert us[x] == ts[if x < i then x else x + 1];
      assert if x < i then Before(ts[x], ts[i]) else Before(ts[i], ts[x + 1]);
    }
  }

  lemma SortedInsert(ts: seq<Timer>, t: Timer, i: nat)
    requires Sorted(ts) && i <= |ts|
    requires forall j :: 0 <= j < i ==> Before(ts[j], t)
    requires forall j :: i <= j < |ts| ==> Before(t, ts[j])
    ensures Sorted(ts[..i] + [t] + ts[i..])
    ensures forall s :: s in ts[..i] + [t] + ts[i..] <==> s in ts || s == t
  {
    hide KeyLess;
    var us := ts[..i] + [t] + ts[i..];
    forall x, y | 0 <= x < y < |us|
      ensures Before(us[x], us[y])
    {
      var u, v := if x < i then x else x - 1, if y < i then y else y - 1;
      if x == i {
        assert us[y] == ts[v];
      } else if y == i {
        assert us[x] == ts[u];
      } else {
        assert us[x] == ts[u] && us[y] == ts[v];
      }
    }
    assert ts == ts[..i] + ts[i..];
  }

  lemma SortedSuffix(ts: seq<Timer>, lo: nat)
    requires Sorted(ts) && lo <= |ts|
    ensures Sorted(ts[lo..])
  {
    forall i, j | 0 <= i < j < |ts| - lo
      ensures Before(ts[lo..][i], ts[lo..][j])
    {
      assert Before(ts[lo + i], ts[lo + j]);
    }
  }

  lemma FrontIsFirst(ts: seq<Timer>)
    requires Sorted(ts)
    ensures forall j :: 0 <= j < |ts| ==> ts[0].next <= ts[j].next
    ensures forall s :: s in ts ==> ts[0].next <= s.next
  {
    forall j | 0 <= j < |ts|
      ensures ts[0].next <= ts[j].next
    {
      assert j > 0 ==> Before(ts[0], ts[j]);
    }
  }

  lemma SortedDistinct(ts: seq<Timer>, k: nat)
    requires Sorted(ts) && k <= |ts|
    ensures forall i, j :: 0 <= i < j < k ==> ts[..k][i] != ts[..k][j]
    ensures forall s, t :: s in ts[..k] && t in ts[k..] ==> s != t
  {
    forall i, j | 0 <= i < j < |ts|
      ensures ts[i] != ts[j]
    {
      assert Before(ts[i], ts[j]);
    }
  }

  class Timer {
    const recurring: bool
    const addr: nat
    const manager: TimerManager
    var ms: nat
    var next: nat
    var cb: Option<Callback>
    ghost const given: Option<Callback>  // the callback it was created with

    constructor (ms: nat, cb: Option<Callback>, recurring: bool, manager: TimerManager, now: nat, addr: nat)
      ensures this.ms == ms && this.cb == cb && this.recurring == recurring && this.manager == manager
      ensures next == Plus(now, ms) && this.addr == addr && given == cb
    {
      this.ms, this.cb, this.recurring, this.manager, this.addr := ms, cb, recurring, manager, addr;
      next := Plus(now, ms);
      given := cb;
    }

    function Key(): SetKey
      reads this`next
    {
      SetKey(next, addr)
    }

    /** Takes the timer off; false when it has already run or been cancelled. */
    method Cancel() returns (r: bool)
      requires manager.Valid() && this in manager.all
      modifies manager`timers, this`cb
      ensures manager.Valid()
      ensures r == old(cb).Some? && cb == None
      ensures forall t :: t in manager.timers <==> t in old(manager.timers) && !(r && t == this)
      ensures old(manager.Watching()) ==> manager.Watching()
    {
      if cb.Some? {
        cb := None;
        var it := manager.Find(this);
        manager.EraseAt(it);
        return true;
      }
      return false;
    }

    /** Starts the period again from now. No announcement is needed: under a clock that does not go back the new
        deadline is not earlier than the old one. */
    method Refresh(now: nat) returns (r: bool)
      requires manager.Valid() && this in manager.all
      modifies manager`timers, manager`clock, this`next
      ensures manager.Valid()
      ensures r == cb.Some?
      ensures next == if r then Plus(now, ms) else old(next)
      ensures forall t :: t in manager.timers <==> t in old(manager.timers)
      ensures manager.clock == if r && now > old(manager.clock) then now else old(manager.clock)
      ensures old(manager.Watching()) && old(manager.clock) <= now && now + ms < U64 ==> manager.Watching()
    {
      hide Plus;
      hide Sorted;
      if !cb.Some? {
        return false;
      }
      var it := manager.Find(this);
      if it == |manager.timers| {
        return false;
      }
      manager.EraseAt(it);
      next := Plus(now, ms);
      var _ := manager.Insert(this);
      manager.Reached(now);
      return true;
    }

    /** Changes the period, counted from now or from the old start; the same period from the old start is accepted
        without a look at the timer. */
    method Reset(ms: nat, fromNow: bool, now: nat) returns (r: bool)
      requires manager.Valid() && this in manager.all
      requires ms < U64 && this.ms < U64 && next < U64
      modifies manager`timers, manager`clock, manager`tickled, manager`raised, this`next, this`ms
      ensures manager.Valid()
      ensures r == (cb.Some? || (ms == old(this.ms) && !fromNow))
      ensures this.ms == if r then ms else old(this.ms)
      ensures !r ==> next == old(next)
      ensures r && fromNow ==> next == Plus(now, ms)
      ensures forall t :: t in manager.timers <==> t in old(manager.timers)
      ensures next < U64 && (!fromNow ==> Minus(next, this.ms) == old(Minus(next, this.ms)))
      ensures var front := cb.Some? && (ms != old(this.ms) || fromNow) && manager.timers[0] == this;
        && manager.tickled == (old(manager.tickled) || front)
        && manager.raised == old(manager.raised) + if !old(manager.tickled) && front then 1 else 0
      ensures old(manager.Watching()) && (if fromNow then now else old(manager.clock)) + ms < U64 ==> manager.Watching()
      ensures var latest := if fromNow && now > old(manager.clock) then now else old(manager.clock);
        old(manager.Watching()) ==> manager.clock <= latest
    {
      hide Plus;
      hide Minus;
      hide Sorted;
      hide Before;
      hide Timer.Key;
      if ms == this.ms && !fromNow {
        return true;
      }
      if !cb.Some? {
        return false;
      }
      var it := manager.Find(this);
      if it == |manager.timers| {
        return false;
      }
      var start := if fromNow then now else Minus(next, this.ms);
      if !fromNow {
        StartSurvives(start, ms);
      }
      Restart(it, start, ms);
      return true;
    }

    /** The timer at `it` leaves the set and comes back with a new period and start. */
    method Restart(it: nat, start: nat, ms: nat)
      requires manager.Valid() && it < |manager.timers| && manager.timers[it] == this
      modifies manager`timers, manager`clock, manager`tickled, manager`raised, this`next, this`ms
      ensures manager.Valid()
      ensures this.ms == ms && next == Plus(start, ms)
      ensures this in manager.timers && forall t :: t in manager.timers <==> t in old(manager.timers)
      ensures manager.tickled == (old(manager.tickled) || manager.timers[0] == this)
      ensures manager.raised ==
        old(manager.raised) + if !old(manager.tickled) && manager.timers[0] == this then 1 else 0
      ensures old(manager.Watching()) && start + ms < U64 ==> manager.Watching()
      ensures manager.clock == if start > old(manager.clock) then start else old(manager.clock)
    {
      hide Plus;
      hide Sorted;
      hide Before;
      hide Timer.Key;
      manager.EraseAt(it);
      assert this !in manager.timers;
      this.ms := ms;
      next := Plus(start, ms);
      manager.Reached(start);
      manager.AddTimerLocked(this);
    }
  }

  /** The clock went back by more than an hour; in the first hour of the epoch the subtraction wraps, and any step
      back counts. */
  predicate RolledOver(now: nat, previous: nat) {
    now < previous && (previous < HOUR || now + HOUR < previous)
  }

  class TimerManager {
    var timers: seq<Timer>     // the ordered set
    var tickled: bool
    var previous: nat
    var raised: nat            // how often OnTimerInsertedAtFront was called
    ghost var all: set<Timer>  // the timers alive
    ghost var seen: nat        // the front deadline the last GetNextTimer saw, U64 for none
    ghost var clock: nat       // the latest clock reading that was used
    ghost var raisedAtLook: nat

    ghost predicate Valid()
      reads this`timers, this`all, all
    {
      && (forall t :: t in timers ==> t in all)
      && (forall t :: t in all ==> t.manager == this)
      && (forall s, t :: s in all && t in all && s.addr == t.addr ==> s == t)
      && Sorted(timers)
      && (forall t :: t in all ==> t.cb == None || t.cb == t.given)
      && (forall t :: t in all && t.given.Some? ==> (t in timers <==> t.cb.Some?))
    }

    /** Nothing due earlier than what the last look saw waits unannounced: unless an insertion at the front has been
        announced since, every deadline is at least the one seen. A deadline lies one period after a past time. */
    ghost predicate Watching()
      reads this, all
    {
      && (forall t :: t in timers ==> t in all && t.ms <= t.next && t.next - t.ms <= clock)
      && (!tickled ==> forall t :: t in timers ==> t in all && seen <= t.next)
      && raised >= raisedAtLook + if tickled then 1 else 0
    }

    /** No period counted from `now` wraps around. */
    ghost predicate NoWrap(now: nat)
      reads this, all
    {
      forall t :: t in all ==> now + t.ms < U64
    }

    ghost method Reached(now: nat)
      modifies this`clock
      ensures clock == if now > old(clock) then now else old(clock)
    {
      if now > clock {
        clock := now;
      }
    }

    /** `lower_bound`: the first timer not before the key. */
    method LowerBound(key: SetKey) returns (i: nat)
      requires Sorted(timers)
      ensures i <= |timers|
      ensures forall j :: 0 <= j < i ==> KeyLess(timers[j].Key(), key)
      ensures forall j :: i <= j < |timers| ==> !KeyLess(timers[j].Key(), key)
    {
      i := 0;
      while i < |timers| && KeyLess(timers[i].Key(), key)
        invariant i <= |timers|
        invariant forall j :: 0 <= j < i ==> KeyLess(timers[j].Key(), key)
      {
        i := i + 1;
      }
      forall j | i <= j < |timers|
        ensures !KeyLess(timers[j].Key(), key)
      {
        assert j > i ==> Before(timers[i], timers[j]);
      }
    }

    /** `find`: a search by key, which meets the timer itself or nothing. */
    method Find(t: Timer) returns (i: nat)
      requires Sorted(timers)
      requires forall s :: s in timers && s.addr == t.addr ==> s == t
      ensures i <= |timers|
      ensures if t in timers then i < |timers| && timers[i] == t else i == |timers|
    {
      if t in timers {
        ghost var j :| 0 <= j < |timers| && timers[j] == t;
        forall x | 0 <= x < j
          ensures KeyLess(timers[x].Key(), t.Key())
        {
          assert Before(timers[x], timers[j]);
        }
      }
      i := LowerBound(t.Key());
      if i < |timers| && KeyLess(t.Key(), timers[i].Key()) {
        i := |timers|;
      }
    }

    method EraseAt(i: nat)
      requires i < |timers| && Sorted(timers)
      modifies this`timers
      ensures Sorted(timers)
      ensures forall s :: s in timers <==> s in old(timers) && s != old(timers[i])
    {
      SortedRemove(timers, i);
      timers := timers[..i] + timers[i + 1..];
    }

    constructor (now: nat)
      ensures Valid() && Watching() && timers == [] && all == {}
      ensures !tickled && previous == clock == now && raised == 0
    {
      timers, tickled, previous, raised := [], false, now, 0;
      all, seen, clock, raisedAtLook := {}, 0, now, 0;
    }

    /** `timers_.insert(t)`, for a timer that is not in the set. */
    method Insert(t: Timer) returns (i: nat)
      requires Sorted(timers)
      requires forall s :: s in timers ==> s.addr != t.addr
      modifies this`timers
      ensures Sorted(timers) && i < |timers| && timers[i] == t
      ensures forall s :: s in timers <==> s in old(timers) || s == t
    {
      i := LowerBound(t.Key());
      SortedInsert(timers, t, i);
      timers := timers[..i] + [t] + timers[i..];
    }

    /** The locked part of adding a timer: a new first timer is announced, once between two looks. */
    method AddTimerLocked(t: Timer)
      requires Sorted(timers)
      requires forall s :: s in timers ==> s.addr != t.addr
      modifies this`timers, this`tickled, this`raised
      ensures Sorted(timers)
      ensures forall s :: s in timers <==> s in old(timers) || s == t
      ensures t in timers && timers[0] in timers && forall s :: s in timers ==> timers[0].next <= s.next
      ensures tickled == (old(tickled) || timers[0] == t)
      ensures raised == old(raised) + if !old(tickled) && timers[0] == t then 1 else 0
    {
      var i := Insert(t);
      if i > 0 {
        assert Before(timers[0], timers[i]);
      }
      FrontIsFirst(timers);
      var atFront := i == 0 && !tickled;
      if atFront {
        tickled := true;
      }
      if atFront {
        raised := raised + 1;
      }
    }

    /** `AddTimer(ms, cb, recurring)`: the deadline is computed before the lock is taken. */
    method AddTimer(ms: nat, cb: Option<Callback>, recurring: bool, now: nat, addr: nat) returns (t: Timer)
      requires Valid()
      requires forall s :: s in all ==> s.addr != addr
      modifies this
      ensures Valid() && fresh(t) && all == old(all) + {t}
      ensures t.ms == ms && t.cb == t.given == cb && t.recurring == recurring
      ensures t.next == Plus(now, ms) && t.addr == addr
      ensures forall s :: s in timers <==> s in old(timers) || s == t
      ensures tickled == (old(tickled) || timers[0] == t)
      ensures raised == old(raised) + if !old(tickled) && timers[0] == t then 1 else 0
      ensures previous == old(previous) && seen == old(seen) && raisedAtLook == old(raisedAtLook)
      ensures clock == if now > old(clock) then now else old(clock)
      ensures old(Watching()) && now + ms < U64 ==> Watching()
    {
      hide Sorted;
      hide Plus;
      t := new Timer(ms, cb, recurring, this, now, addr);
      AddTimerLocked(t);
      all := all + {t};
      Reached(now);
    }

    /** A timer outside the set is freed; its address may be used again. */
    ghost method Forget(t: Timer)
      requires Valid() && t !in timers
      modifies this`all
      ensures Valid() && all == old(all) - {t} && (old(Watching()) ==> Watching())
    {
      all := all - {t};
    }

    /** How long to wait: to the first deadline, 0 when it is due, all ones for no timer. */
    method GetNextTimer(now: nat) returns (wait: nat)
      requires Valid() && now < U64
      requires forall t :: t in timers ==> t.next < U64
      modifies this`tickled, this`seen, this`raisedAtLook
      ensures Valid() && !tickled && (old(Watching()) ==> Watching())
      ensures timers == [] ==> wait == U64 - 1 && seen == U64
      ensures wait == 0 <==> exists t :: t in timers && t.next <= now
      ensures forall t :: t in timers && wait > 0 ==> now + wait <= t.next
      ensures timers != [] && wait > 0 ==> exists t :: t in timers && now + wait == t.next
      ensures forall t :: t in timers ==> seen <= t.next
      ensures timers != [] ==> exists t :: t in timers && t.next == seen
    {
      hide Sorted;
      hide KeyLess;
      FrontIsFirst(timers);
      hide Before;
      assert forall t :: t in timers ==> t in all;
      hide TimerManager.Valid;
      tickled := false;
      seen, raisedAtLook := if timers == [] then U64 else timers[0].next, raised;
      if timers == [] {
        return U64 - 1;
      }
      var next := timers[0];
      assert next in timers;
      if now >= next.next {
        return 0;
      } else {
        return next.next - now;
      }
    }

    method DetectClockRollover(now: nat) returns (rollover: bool)
      requires now < U64 && previous < U64
      modifies this`previous
      ensures rollover == RolledOver(now, old(previous))
      ensures old(previous) >= 3_600_000 ==> (rollover <==> old(previous) - now > 3_600_000)
      ensures old(previous) < 3_600_000 ==> (rollover <==> now < old(previous))
      ensures previous == now
      ensures old(Valid()) ==> Valid()
      ensures old(Watching()) ==> Watching()
    {
      rollover := false;
      if now < previous && now < Minus(previous, HOUR) {
        rollover := true;
      }
      previous := now;
    }

    /** The timers up to the first one later than `now`, wherever the probe's address falls among those due now. */
    method DueCount(now: nat, probe: nat, rollover: bool) returns (it: nat)
      requires Sorted(timers)
      ensures it <= |timers|
      ensures rollover ==> it == |timers|
      ensures forall j :: 0 <= j < it ==> rollover || timers[j].next <= now
      ensures forall j :: it <= j < |timers| ==> timers[j].next > now
    {
      if rollover {
        it := |timers|;
      } else {
        it := LowerBound(SetKey(now, probe));
      }
      while it < |timers| && timers[it].next == now
        invariant it <= |timers|
        invariant forall j :: 0 <= j < it ==> rollover || timers[j].next <= now
        invariant rollover ==> it == |timers|
        invariant forall j :: it <= j < |timers| ==> timers[j].next >= now
      {
        it := it + 1;
      }
      if it < |timers| {
        forall j | it <= j < |timers|
          ensures timers[j].next > now
        {
          assert j > it ==> Before(timers[it], timers[j]);
        }
      }
    }

    /** How many timers are to be taken out: none, without a search, when the first is not due yet. */
    method Due(now: nat, probe: nat) returns (it: nat, rollover: bool)
      requires Sorted(timers) && timers != [] && now < U64 && previous < U64
      modifies this`previous
      ensures previous == now && rollover == RolledOver(now, old(previous))
      ensures it <= |timers| && (rollover ==> it == |timers|)
      ensures forall j :: 0 <= j < it ==> rollover || timers[j].next <= now
      ensures forall j :: it <= j < |timers| ==> timers[j].next > now
      ensures old(Valid()) ==> Valid()
      ensures old(Watching()) ==> Watching()
    {
      hide TimerManager.Valid;
      hide TimerManager.Watching;
      hide RolledOver;
      FrontIsFirst(timers);
      hide Sorted;
      rollover := DetectClockRollover(now);
      if !rollover && timers[0].next > now {
        forall j | 0 <= j < |timers|
          ensures timers[j].next > now
        {
          assert timers[0].next <= timers[j].next;
        }
        return 0, rollover;
      }
      it := DueCount(now, probe, rollover);
    }

    static lemma OtherAddress(before: seq<Timer>, after: seq<Timer>, due: seq<Timer>, i: nat)
      requires i < |due| && forall t :: t in after ==> t in before || t in due[..i]
      requires forall s, t :: s in due && t in before ==> s.addr != t.addr
      requires forall j, k :: 0 <= j < k < |due| ==> due[j].addr != due[k].addr
      ensures forall t :: t in after ==> t.addr != due[i].addr
    {
      forall t | t in after
        ensures t.addr != due[i].addr
      {
        assert due[i] in due;
        if t !in before {
          var j :| 0 <= j < i && due[j] == t;
        }
      }
    }

    method PutBackOne(timer: Timer, now: nat)
      requires Sorted(timers)
      requires forall s :: s in timers ==> s.addr != timer.addr
      modifies this`timers, timer`next, timer`cb
      ensures Sorted(timers)
      ensures forall t :: t in timers <==> t in old(timers) || (t == timer && timer.recurring)
      ensures timer.next == if timer.recurring then Plus(now, timer.ms) else old(timer.next)
      ensures timer.cb == if timer.recurring then old(timer.cb) else None
    {
      hide Plus;
      if timer.recurring {
        timer.next := Plus(now, timer.ms);
        var _ := Insert(timer);
      } else {
        timer.cb := None;
      }
    }

    /** Each expired timer gives its callback; a recurring one goes back in for its next period. */
    method PutBack(due: seq<Timer>, now: nat, cbs0: seq<Option<Callback>>) returns (cbs: seq<Option<Callback>>)
      requires Sorted(timers)
      requires forall s, t :: s in due && t in timers ==> s.addr != t.addr
      requires forall i, j :: 0 <= i < j < |due| ==> due[i].addr != due[j].addr
      modifies this`timers, due`next, due`cb
      ensures Sorted(timers)
      ensures forall t :: t in timers <==> t in old(timers) || (t in due && t.recurring)
      ensures forall t :: t in due ==> t.next == if t.recurring then Plus(now, t.ms) else old(t.next)
      ensures forall t :: t in due ==> t.cb == if t.recurring then old(t.cb) else None
      ensures |cbs| == |cbs0| + |due| && cbs[..|cbs0|] == cbs0
      ensures forall j :: 0 <= j < |due| ==> cbs[|cbs0| + j] == old(due[j].cb)
    {
      hide KeyLess;
      hide Before;
      hide Plus;
      hide Sorted;
      cbs := cbs0;
      for i := 0 to |due|
        invariant Sorted(timers)
        invariant forall t :: t in timers <==> t in old(timers) || (t in due[..i] && t.recurring)
        invariant forall j :: 0 <= j < i ==>
          due[j].next == if due[j].recurring then Plus(now, due[j].ms) else old(due[j].next)
        invariant forall j :: 0 <= j < i ==> due[j].cb == if due[j].recurring then old(due[j].cb) else None
        invariant forall j :: i <= j < |due| ==> due[j].next == old(due[j].next) && due[j].cb == old(due[j].cb)
        invariant |cbs| == |cbs0| + i && cbs[..|cbs0|] == cbs0
        invariant forall j :: 0 <= j < i ==> cbs[|cbs0| + j] == old(due[j].cb)
      {
        var timer := due[i];
        cbs := cbs + [timer.cb];
        assert due[..i + 1] == due[..i] + [timer];
        OtherAddress(old(timers), timers, due, i);
        PutBackOne(timer, now);
      }
      assert due[..|due|] == due;
    }

    /** Takes the first `it` timers out and puts the recurring ones back. */
    method Expire(it: nat, now: nat, cbs0: seq<Option<Callback>>) returns (cbs: seq<Option<Callback>>)
      requires Valid() && it <= |timers|
      modifies this`timers, all`next, all`cb
      ensures Valid()
      ensures |cbs| == |cbs0| + it && cbs[..|cbs0|] == cbs0
      ensures forall j :: 0 <= j < it ==> cbs[|cbs0| + j] == old(timers[j].cb)
      ensures forall t :: t in timers <==> t in old(timers)[it..] || (t in old(timers)[..it] && t.recurring)
      ensures forall t :: t in old(timers)[..it] ==> t.next == if t.recurring then Plus(now, t.ms) else old(t.next)
      ensures forall t :: t in old(timers)[..it] ==> t.cb == if t.recurring then old(t.cb) else None
      ensures forall t :: t in all && t !in old(timers)[..it] ==> t.next == old(t.next) && t.cb == old(t.cb)
      ensures old(Watching()) && now <= clock && (tickled || it == 0 || seen <= now) && NoWrap(now) ==> Watching()
    {
      hide Plus;
      hide Sorted;
      hide KeyLess;
      var due := timers[..it];
      SortedSuffix(timers, it);
      SortedDistinct(timers, it);
      assert timers == due + timers[it..];
      timers := timers[it..];
      cbs := PutBack(due, now, cbs0);
    }

    /** Takes the callbacks of the expired timers, in order, and puts the recurring ones back. */
    method ListExpiredCb(now: nat, probe: nat, cbs0: seq<Option<Callback>>)
      returns (cbs: seq<Option<Callback>>, rollover: bool, expired: nat)
      requires Valid() && now < U64 && previous < U64
      modifies this`timers, this`previous, this`clock, all`next, all`cb
      ensures Valid()
      ensures old(timers) == [] ==> !rollover && previous == old(previous)
      ensures old(timers) != [] ==> previous == now
      ensures old(timers) != [] ==> rollover == RolledOver(now, old(previous))
      ensures expired <= |old(timers)|
      ensures rollover ==> expired == |old(timers)|
      ensures forall j :: 0 <= j < expired ==> rollover || old(timers[j].next) <= now
      ensures forall j :: expired <= j < |old(timers)| ==> old(timers[j].next) > now
      ensures |cbs| == |cbs0| + expired && cbs[..|cbs0|] == cbs0
      ensures forall j :: 0 <= j < expired ==> cbs[|cbs0| + j] == old(timers[j].cb)
      ensures forall t :: t in timers <==> t in old(timers)[expired..] || (t in old(timers)[..expired] && t.recurring)
      ensures forall t :: t in old(timers)[..expired] ==>
        t.next == if t.recurring then Plus(now, t.ms) else old(t.next)
      ensures forall t :: t in old(timers)[..expired] ==> t.cb == if t.recurring then old(t.cb) else None
      ensures forall t :: t in all && t !in old(timers)[..expired] ==> t.next == old(t.next) && t.cb == old(t.cb)
      ensures old(Watching()) && !rollover && NoWrap(now) ==> Watching()
      ensures clock <= if now > old(clock) then now else old(clock)
    {
      hide Plus;
      hide Sorted;
      hide KeyLess;
      hide RolledOver;
      hide Before;
      cbs, rollover, expired := cbs0, false, 0;
      if timers == [] {
        return;
      }
      assert Sorted(timers) && timers[0] in timers;
      FrontIsFirst(timers);
      assert Watching() && !tickled ==> seen <= timers[0].next;
      Reached(now);
      assert Valid() && (old(Watching()) ==> Watching());
      hide TimerManager.Valid;
      hide TimerManager.Watching;
      hide TimerManager.NoWrap;
      expired, rollover := Due(now, probe);
      cbs := Expire(expired, now, cbs);
    }
  }

  // ---- any operations ----

  /** A call, with the clock reading it takes. Timers are named by their place among those alive. */
  datatype Operation =
    | Add(ms: nat, cb: Option<Callback>, recurring: bool, addr: nat, now: nat)
    | Cancel(i: nat)
    | Refresh(i: nat, now: nat)
    | Reset(i: nat, ms: nat, fromNow: bool, now: nat)
    | Free(i: nat)                        // the last pointer to a timer outside the set is dropped
    | Look(now: nat)                      // GetNextTimer
    | Collect(now: nat, probe: nat)       // ListExpiredCb

  /** The clock does not go back, and no sum wraps around. */
  predicate Clocked(now: nat, ops: seq<Operation>)
    decreases |ops|
  {
    now <= LONG_MAX &&
    (ops != [] ==>
      now <= Reading(now, ops[0]) && Period(ops[0]) <= LONG_MAX && Clocked(Reading(now, ops[0]), ops[1..]))
  }

  function Reading(now: nat, op: Operation): nat {
    match op
    case Cancel(_) => now
    case Free(_) => now
    case _ => op.now
  }

  function Period(op: Operation): nat {
    if op.Add? || op.Reset? then op.ms else 0
  }

  /** What became of the timers: all that were added, those cancelled, the one-shot ones that have expired, and the
      timers whose callbacks were handed out, in order. */
  datatype Past = Past(added: set<Timer>, cancelled: set<Timer>, ended: set<Timer>, fired: seq<Timer>)

  /** Every timer added is waiting, was cancelled, or has ended, and only one of these; a one-shot timer has fired once
      if it has ended, and otherwise not at all. */
  ghost predicate Accounted(timers: seq<Timer>, p: Past) {
    && p.added == (set t | t in timers) + p.cancelled + p.ended
    && (forall t :: t in timers ==> t !in p.cancelled && t !in p.ended)
    && p.cancelled !! p.ended
    && (forall t :: t in p.ended ==> !t.recurring)
    && (forall t :: t in p.added && !t.recurring ==> multiset(p.fired)[t] == if t in p.ended then 1 else 0)
    && (forall t :: t in p.fired ==> t in p.added)
  }

  /** The callbacks handed out are those the timers were created with. */
  ghost predicate HandedOut(p: Past, cbs: seq<Option<Callback>>) {
    |cbs| == |p.fired| && forall k :: 0 <= k < |cbs| ==> cbs[k] == p.fired[k].given
  }

  ghost function Fired(p: Past, due: seq<Timer>): Past {
    p.(ended := p.ended + (set t | t in due && !t.recurring), fired := p.fired + due)
  }

  lemma {:induction false} CountOnce(ts: seq<Timer>, t: Timer)
    requires forall i, j :: 0 <= i < j < |ts| ==> ts[i] != ts[j]
    ensures multiset(ts)[t] == if t in ts then 1 else 0
  {
    if ts != [] {
      assert ts == [ts[0]] + ts[1..];
      CountOnce(ts[1..], t);
    }
  }

  lemma SameTimers(before: seq<Timer>, after: seq<Timer>, p: Past)
    requires Accounted(before, p) && forall t :: t in after <==> t in before
    ensures Accounted(after, p)
  {
    assert (set t | t in after) == set t | t in before;
  }

  lemma OneMore(before: seq<Timer>, after: seq<Timer>, p: Past, t: Timer)
    requires Accounted(before, p) && t !in p.added && forall s :: s in after <==> s in before || s == t
    ensures Accounted(after, p.(added := p.added + {t}))
  {
    assert (set s | s in after) == (set s | s in before) + {t};
    assert t !in p.fired;
  }

  lemma OneCancelled(before: seq<Timer>, after: seq<Timer>, p: Past, t: Timer)
    requires Accounted(before, p) && t in before && forall s :: s in after <==> s in before && s != t
    ensures Accounted(after, p.(cancelled := p.cancelled + {t}))
  {
    assert (set s | s in before) == (set s | s in after) + {t};
  }

  /** The first timers expire, and the recurring ones stay. */
  lemma SomeFired(before: seq<Timer>, k: nat, after: seq<Timer>, p: Past)
    requires k <= |before| && Accounted(before, p)
    requires forall i, j :: 0 <= i < j < |before| ==> before[i] != before[j]
    requires forall t :: t in after <==> t in before[k..] || (t in before[..k] && t.recurring)
    ensures Accounted(after, Fired(p, before[..k]))
  {
    var due := before[..k];
    var gone := set t | t in due && !t.recurring;
    assert before == due + before[k..];
    assert forall j :: k <= j < |before| ==> before[j] !in due;
    assert (set t | t in before) == (set t | t in after) + gone;
    forall t | t in p.added && !t.recurring
      ensures multiset(p.fired + due)[t] == if t in p.ended + gone then 1 else 0
    {
      CountOnce(due, t);
    }
  }

  lemma MoreHandedOut(p: Past, due: seq<Timer>, cbs0: seq<Option<Callback>>, cbs: seq<Option<Callback>>)
    requires HandedOut(p, cbs0) && |cbs| == |cbs0| + |due| && cbs[..|cbs0|] == cbs0
    requires forall j :: 0 <= j < |due| ==> cbs[|cbs0| + j] == due[j].given
    ensures HandedOut(Fired(p, due), cbs)
  {
    forall k | 0 <= k < |cbs|
      ensures cbs[k] == (p.fired + due)[k].given
    {
      if k < |cbs0| {
        assert cbs[..|cbs0|][k] == cbs0[k];
      } else {
        assert cbs[|cbs0| + (k - |cbs0|)] == due[k - |cbs0|].given;
      }
    }
  }

  /** The timers alive are listed, and no reading or period is large enough for a sum to wrap around. */
  ghost predicate Ready(m: TimerManager, live: seq<Timer>, now: nat)
    reads m, m.all
  {
    && m.Valid() && m.Watching() && Listed(m, live)
    && m.clock <= now && m.previous <= now && now <= LONG_MAX
    && forall t :: t in m.all ==> t.ms <= LONG_MAX && t.next < U64
  }

  ghost predicate Listed(m: TimerManager, live: seq<Timer>)
    reads m`all
  {
    && (forall i :: 0 <= i < |live| ==> live[i] in m.all)
    && (forall i, j :: 0 <= i < j < |live| ==> live[i] != live[j])
    && forall t :: t in m.all ==> t in live
  }

  lemma ListedRemove(live: seq<Timer>, i: nat, t: Timer)
    requires i < |live|
    ensures t in live && t != live[i] ==> t in live[..i] + live[i + 1..]
  {
    if t !in live || t == live[i] {
      return;
    }
    var j :| 0 <= j < |live| && live[j] == t;
    assert (live[..i] + live[i + 1..])[if j < i then j else j - 1] == t;
  }

  /** `TimerManager::AddTimer`, at an address that is free. */
  method PerformAdd(m: TimerManager, live0: seq<Timer>, op: Operation, ghost p0: Past)
    returns (live: seq<Timer>, ghost p: Past)
    requires op.Add? && Ready(m, live0, op.now) && op.ms <= LONG_MAX && Accounted(m.timers, p0) && m.all <= p0.added
    modifies m
    ensures Ready(m, live, op.now) && Accounted(m.timers, p) && m.all <= p.added && p.fired == p0.fired
    ensures forall i :: 0 <= i < |live| ==> live[i] in live0 || fresh(live[i])
  {
    hide TimerManager.Watching;
    hide Sorted;
    live, p := live0, p0;
    if forall t :: t in live ==> t.addr != op.addr {
      ghost var before := m.timers;
      var t := m.AddTimer(op.ms, op.cb, op.recurring, op.now, op.addr);
      OneMore(before, m.timers, p, t);
      p := p.(added := p.added + {t});
      live := live + [t];
    }
  }

  /** A call on one of the timers alive. */
  method PerformOn(m: TimerManager, live: seq<Timer>, op: Operation, ghost now: nat, ghost p0: Past)
    returns (ghost p: Past)
    requires (op.Cancel? || op.Refresh? || op.Reset?) && op.i < |live|
    requires Ready(m, live, now) && now == Reading(now, op) && Period(op) <= LONG_MAX
    requires Accounted(m.timers, p0) && m.all <= p0.added
    modifies m, m.all
    ensures Ready(m, live, now) && Accounted(m.timers, p) && m.all <= p.added && p.fired == p0.fired
    ensures m.all == old(m.all)
  {
    hide TimerManager.Watching;
    hide Sorted;
    hide Plus;
    hide Minus;
    hide Accounted;
    p := p0;
    var t := live[op.i];
    ghost var before := m.timers;
    match op
    case Cancel(_) =>
      var r := t.Cancel();
      if r {
        OneCancelled(before, m.timers, p, t);
        p := p.(cancelled := p.cancelled + {t});
      } else {
        SameTimers(before, m.timers, p);
      }
    case Refresh(_, _) =>
      var r := t.Refresh(op.now);
      SameTimers(before, m.timers, p);
    case Reset(_, ms, fromNow, _) =>
      var r := t.Reset(ms, fromNow, op.now);
      SameTimers(before, m.timers, p);
  }

  /** `TimerManager::ListExpiredCb`. */
  method PerformCollect(m: TimerManager, live: seq<Timer>, op: Operation, ghost p0: Past, cbs0: seq<Option<Callback>>)
    returns (ghost p: Past, cbs: seq<Option<Callback>>)
    requires op.Collect? && Ready(m, live, op.now)
    requires Accounted(m.timers, p0) && m.all <= p0.added && HandedOut(p0, cbs0)
    modifies m, m.all
    ensures Ready(m, live, op.now) && Accounted(m.timers, p) && m.all <= p.added && HandedOut(p, cbs)
    ensures m.all == old(m.all)
  {
    hide Sorted;
    hide Plus;
    hide Accounted;
    hide HandedOut;
    ghost var before := m.timers;
    SortedDistinct(before, |before|);
    assert before[..|before|] == before;
    assert m.NoWrap(op.now) && !RolledOver(op.now, m.previous);
    assert forall j :: 0 <= j < |before| ==> before[j].cb == before[j].given;
    hide TimerManager.Valid;
    hide TimerManager.Watching;
    hide RolledOver;
    hide Listed;
    var rollover, k;
    cbs, rollover, k := m.ListExpiredCb(op.now, op.probe, cbs0);
    forall t | t in m.all
      ensures t.ms <= LONG_MAX && t.next < U64
    {
      assert t in before[..k] || t.next == old(t.next);
    }
    assert Ready(m, live, op.now);
    hide Ready;
    p := Fired(p0, before[..k]);
    SomeFired(before, k, m.timers, p0);
    MoreHandedOut(p0, before[..k], cbs0, cbs);
  }

  /** The last pointer to a timer is dropped. */
  method PerformFree(m: TimerManager, live0: seq<Timer>, i: nat, ghost now: nat) returns (live: seq<Timer>)
    requires i < |live0| && Ready(m, live0, now)
    modifies m`all
    ensures Ready(m, live, now) && m.all <= old(m.all)
    ensures forall j :: 0 <= j < |live| ==> live[j] in live0
  {
    hide Sorted;
    hide Plus;
    live := live0;
    if live0[i] in m.timers {
      return;
    }
    m.Forget(live0[i]);
    live := live0[..i] + live0[i + 1..];
    forall t | t in m.all
      ensures t in live
    {
      ListedRemove(live0, i, t);
    }
    assert forall j :: 0 <= j < |live| ==> live[j] == live0[if j < i then j else j + 1];
  }

  /** One operation; a call on a timer that is not there does nothing. */
  method Perform(m: TimerManager, live0: seq<Timer>, op: Operation, ghost now0: nat, ghost p0: Past,
                 cbs0: seq<Option<Callback>>)
    returns (live: seq<Timer>, ghost p: Past, cbs: seq<Option<Callback>>)
    requires Ready(m, live0, now0) && now0 <= Reading(now0, op) <= LONG_MAX && Period(op) <= LONG_MAX
    requires Accounted(m.timers, p0) && m.all <= p0.added && HandedOut(p0, cbs0)
    modifies m, m.all
    ensures Ready(m, live, Reading(now0, op))
    ensures Accounted(m.timers, p) && m.all <= p.added && HandedOut(p, cbs)
    ensures forall j :: 0 <= j < |live| ==> live[j] in live0 || fresh(live[j])
  {
    hide Accounted;
    hide TimerManager.Valid;
    hide TimerManager.Watching;
    hide Listed;
    live, p, cbs := live0, p0, cbs0;
    ghost var now := Reading(now0, op);
    assert Ready(m, live, now);
    hide Ready;
    match op
    case Add(_, _, _, _, _) =>
      live, p := PerformAdd(m, live, op, p);
    case Free(i) =>
      if i < |live| {
        live := PerformFree(m, live, i, now);
      }
    case Look(now) =>
      PerformLook(m, live, now);
    case Collect(_, _) =>
      p, cbs := PerformCollect(m, live, op, p, cbs);
    case _ =>
      if op.i < |live| {
        p := PerformOn(m, live, op, now, p);
      }
  }

  method PerformLook(m: TimerManager, live: seq<Timer>, now: nat)
    requires Ready(m, live, now)
    modifies m`tickled, m`seen, m`raisedAtLook
    ensures Ready(m, live, now)
  {
    hide Sorted;
    hide TimerManager.Watching;
    assert forall t :: t in m.timers ==> t.next < U64;
    var _ := m.GetNextTimer(now);
  }

  /** A new manager taken through any operations under a clock that does not go back. Unless an insertion at the front
      was announced since the last look, nothing is due before the deadline it saw; every timer added waits, was
      cancelled or has ended; and the callbacks handed out are those of the timers that fired. */
  method Drive(start: nat, ops: seq<Operation>)
    returns (m: TimerManager, live: seq<Timer>, cbs: seq<Option<Callback>>, ghost p: Past)
    requires Clocked(start, ops)
    ensures m.Valid() && m.Watching() && Listed(m, live)
    ensures m.raised == m.raisedAtLook ==> forall t :: t in m.timers ==> m.seen <= t.next
    ensures Accounted(m.timers, p) && HandedOut(p, cbs)
  {
    m := new TimerManager(start);
    live, cbs, p := [], [], Past({}, {}, {}, []);
    ghost var now := start;
    var left := ops;
    NothingYet(m, start);
    hide Accounted;
    hide HandedOut;
    hide TimerManager.Valid;
    hide TimerManager.Watching;
    hide Reading;
    hide Period;
    while left != []
      invariant Clocked(now, left) && Ready(m, live, now)
      invariant Accounted(m.timers, p) && m.all <= p.added && HandedOut(p, cbs)
      invariant fresh(m) && forall i :: 0 <= i < |live| ==> fresh(live[i])
      decreases |left|
    {
      assert forall t :: t in m.all ==> fresh(t);
      live, p, cbs := Perform(m, live, left[0], now, p, cbs);
      now := Reading(now, left[0]);
      left := left[1..];
    }
    if m.raised == m.raisedAtLook {
      Unannounced(m);
    }
  }

  lemma NothingYet(m: TimerManager, now: nat)
    requires m.Valid() && m.Watching() && m.timers == [] && m.all == {} && m.clock == m.previous == now <= LONG_MAX
    ensures Ready(m, [], now) && Accounted([], Past({}, {}, {}, [])) && HandedOut(Past({}, {}, {}, []), [])
  {
  }

  lemma Unannounced(m: TimerManager)
    requires m.Watching() && m.raised == m.raisedAtLook
    ensures forall t :: t in m.timers ==> m.seen <= t.next
  {
  }
}
