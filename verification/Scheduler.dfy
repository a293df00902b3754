/** kernel/sched.c: schedule and do_timer, on the task array and in place, with the bounds of the time slices
    and the freedom from starvation. */
module Scheduler {
  const NR_TASKS := 64
  const TASK_RUNNING := 0
  const TASK_INTERRUPTIBLE := 1
  const SIGKILL := 9
  const SIGALRM := 14
  const SIGSTOP := 19

  /** The fields of task_struct that scheduling uses; signals are numbered from 1. */
  datatype Task = Task(state: int, counter: int, priority: int, signal: set<int>, blocked: set<int>, alarm: int,
                       stime: int, utime: int)

  datatype Slot = Empty | Used(t: Task)

  type Tasks = ts: seq<Slot> | |ts| == 64 witness seq(64, _ => Empty)

  predicate Runnable(ts: Tasks, i: int) {
    1 <= i < |ts| && ts[i].Used? && ts[i].t.state == TASK_RUNNING
  }

  /** Time slices: 0 <= counter <= 2 * priority - 1, with priorities of at least 1. */
  ghost predicate Bounded(ts: Tasks) {
    forall i :: 0 <= i < |ts| && ts[i].Used? ==>
      ts[i].t.priority >= 1 && 0 <= ts[i].t.counter <= 2 * ts[i].t.priority - 1
  }

  // ---------------------------------------------------------------- schedule

  /** A signal that can wake the task: the code leaves out SIGKILL and SIGSTOP, for all that they cannot be blocked. */
  predicate Deliverable(t: Task) {
    t.signal - t.blocked - {SIGKILL, SIGSTOP} != {}
  }

  /** The alarm test. */
  function Alarmed(t: Task, jiffies: int): Task {
    if t.alarm != 0 && t.alarm < jiffies then t.(signal := t.signal + {SIGALRM}, alarm := 0) else t
  }

  function Wake(t: Task, jiffies: int): Task {
    var u := Alarmed(t, jiffies);
    if Deliverable(u) && u.state == TASK_INTERRUPTIBLE then u.(state := TASK_RUNNING) else u
  }

  /** What the comment above the test promises: blocking holds back no SIGKILL and no SIGSTOP. */
  predicate Promised(t: Task) {
    t.signal - (t.blocked - {SIGKILL, SIGSTOP}) != {}
  }

  /** The code wakes an interruptible task as the comment promises, if and only if, after the alarm test, neither
      SIGKILL nor SIGSTOP is pending or some other signal, not blocked, is. */
  lemma WakesAsPromised(t: Task, jiffies: int)
    requires t.state == TASK_INTERRUPTIBLE
    ensures var u := Alarmed(t, jiffies);
      ((Wake(t, jiffies).state == TASK_RUNNING) <==> Promised(u))
      <==> (u.signal * {SIGKILL, SIGSTOP} == {} || u.signal - u.blocked - {SIGKILL, SIGSTOP} != {})
  {
    var u := Alarmed(t, jiffies);
    if u.signal * {SIGKILL, SIGSTOP} == {} {
      forall x | x in u.signal ensures x != SIGKILL && x != SIGSTOP {
        assert x !in u.signal * {SIGKILL, SIGSTOP};
      }
      assert u.signal - u.blocked - {SIGKILL, SIGSTOP} == u.signal - (u.blocked - {SIGKILL, SIGSTOP});
    } else {
      var x :| x in u.signal * {SIGKILL, SIGSTOP};
      assert x in u.signal - (u.blocked - {SIGKILL, SIGSTOP});
    }
  }

  /** A sleeping task that has only been killed sleeps on. */
  lemma KillWakesNobody(t: Task, jiffies: int)
    requires t.state == TASK_INTERRUPTIBLE && t.signal == {SIGKILL} && t.blocked == {} && t.alarm == 0
    ensures Wake(t, jiffies) == t && Promised(t)
  {
    assert SIGKILL in t.signal - (t.blocked - {SIGKILL, SIGSTOP});
    assert t.signal - t.blocked - {SIGKILL, SIGSTOP} == {};
  }

  /** What the first loop makes of a task, field by field: an alarm that has passed becomes signal 14 and is cleared; a
      task in state 1 with a signal that is not blocked, other than 9 and 19, goes to state 0; nothing else changes. */
  ghost predicate Woke(t: Task, u: Task, jiffies: int) {
    && u == t.(state := u.state, signal := u.signal, alarm := u.alarm)
    && (if t.alarm != 0 && t.alarm < jiffies then u.signal == t.signal + {14} && u.alarm == 0
        else u.signal == t.signal && u.alarm == t.alarm)
    && u.state ==
         if t.state == 1 && exists x :: x in u.signal && x !in t.blocked && x != 9 && x != 19 then 0 else t.state
  }

  lemma WakeExactly(t: Task, jiffies: int)
    ensures Woke(t, Wake(t, jiffies), jiffies)
  {
    var u := Alarmed(t, jiffies);
    var rest := u.signal - u.blocked - {SIGKILL, SIGSTOP};
    if x :| x in rest {
      assert x in u.signal && x !in t.blocked && x != 9 && x != 19;
    } else {
      forall x | x in u.signal && x !in t.blocked ensures x == 9 || x == 19 {
        assert x !in rest;
      }
    }
  }

  /** An alarm wakes: whatever else is pending, a sleeping task whose alarm has passed runs unless it blocks signal
      14. */
  lemma AlarmWakes(t: Task, jiffies: int)
    requires t.state == 1 && t.alarm != 0 && t.alarm < jiffies && 14 !in t.blocked
    ensures Wake(t, jiffies).state == 0 && Wake(t, jiffies).alarm == 0 && 14 in Wake(t, jiffies).signal
  {
    WakeExactly(t, jiffies);
  }

  function WakeSlot(x: Slot, jiffies: int): Slot {
    if x.Used? then Used(Wake(x.t, jiffies)) else x
  }

  /** The first loop of schedule, on the tasks from 1 on. */
  function Woken(ts: Tasks, jiffies: int): Tasks {
    seq(|ts|, i requires 0 <= i < |ts| => if i >= 1 then WakeSlot(ts[i], jiffies) else ts[i])
  }

  function RechargeSlot(x: Slot): Slot {
    if x.Used? then Used(x.t.(counter := x.t.counter / 2 + x.t.priority)) else x
  }

  function Recharged(ts: Tasks): Tasks {
    seq(|ts|, i requires 0 <= i < |ts| => if i >= 1 then RechargeSlot(ts[i]) else ts[i])
  }

  datatype Pick = Pick(next: int, c: int)

  /** The scan of schedule over the tasks i - 1 down to 1, with the best found so far. */
  function Scan(ts: Tasks, i: int, best: Pick): Pick
    requires 1 <= i <= |ts|
    decreases i
  {
    if i == 1 then best
    else if Runnable(ts, i - 1) && ts[i - 1].t.counter > best.c then Scan(ts, i - 1, Pick(i - 1, ts[i - 1].t.counter))
    else Scan(ts, i - 1, best)
  }

  function Choose(ts: Tasks): Pick {
    Scan(ts, |ts|, Pick(0, -1))
  }

  /** Of the tasks from i on, best is the runnable one with the largest counter, the highest number among equals;
      0 and -1 if none is runnable. */
  ghost predicate Best(ts: Tasks, i: int, best: Pick) {
    if best.next == 0 then best.c == -1 && forall j :: i <= j ==> !Runnable(ts, j)
    else
      && i <= best.next && Runnable(ts, best.next) && best.c == ts[best.next].t.counter
      && forall j :: i <= j && Runnable(ts, j) ==>
           ts[j].t.counter <= best.c && (j > best.next ==> ts[j].t.counter < best.c)
  }

  lemma {:induction false} ScanBest(ts: Tasks, i: int, best: Pick)
    requires Bounded(ts) && 1 <= i <= |ts| && Best(ts, i, best)
    ensures Best(ts, 1, Scan(ts, i, best))
    decreases i
  {
    if i > 1 {
      var better := Runnable(ts, i - 1) && ts[i - 1].t.counter > best.c;
      ScanBest(ts, i - 1, if better then Pick(i - 1, ts[i - 1].t.counter) else best);
    }
  }

  lemma ChooseBest(ts: Tasks)
    requires Bounded(ts)
    ensures Best(ts, 1, Choose(ts))
  {
    ScanBest(ts, |ts|, Pick(0, -1));
  }

  /** schedule: the tasks, woken and, if the largest counter of a runnable task is 0, recharged once; and who is
      next. */
  function Scheduled(ts: Tasks, jiffies: int): (Tasks, int) {
    var w := Woken(ts, jiffies);
    if Choose(w).c != 0 then (w, Choose(w).next) else (Recharged(w), Choose(Recharged(w)).next)
  }

  lemma WokenBounded(ts: Tasks, jiffies: int)
    requires Bounded(ts)
    ensures Bounded(Woken(ts, jiffies))
  {
  }

  lemma RechargedBounded(ts: Tasks)
    requires Bounded(ts)
    ensures Bounded(Recharged(ts))
    ensures forall i :: Runnable(Recharged(ts), i) <==> Runnable(ts, i)
    ensures forall i :: Runnable(ts, i) ==> Recharged(ts)[i].t.counter >= 1
  {
  }

  /** The second pass never sees a largest counter of 0: the loop of schedule ends within two passes. */
  lemma SecondPass(ts: Tasks)
    requires Bounded(ts) && Choose(ts).c == 0
    ensures Choose(Recharged(ts)).c > 0 && Choose(Recharged(ts)).next != 0
  {
    ChooseBest(ts);
    RechargedBounded(ts);
    ChooseBest(Recharged(ts));
    assert Runnable(ts, Choose(ts).next);
  }

  /** next is a runnable task with time left and the largest counter, the highest number among equals; or 0, and
      no other task is runnable. */
  ghost predicate RunsNext(ts: Tasks, next: int) {
    if next == 0 then forall j :: !Runnable(ts, j)
    else
      && Runnable(ts, next) && ts[next].t.counter > 0
      && forall j :: Runnable(ts, j) ==>
           ts[j].t.counter <= ts[next].t.counter && (j > next ==> ts[j].t.counter < ts[next].t.counter)
  }

  /** What schedule promises: whom it runs, the bounds, and that it recharges exactly when nobody runnable has time
      left. */
  lemma ScheduledBest(ts: Tasks, jiffies: int)
    requires Bounded(ts)
    ensures var (ts', next) := Scheduled(ts, jiffies);
      && Bounded(ts') && RunsNext(ts', next)
      && ts' == (if OutOfTime(Woken(ts, jiffies)) then Recharged(Woken(ts, jiffies)) else Woken(ts, jiffies))
  {
    var w := Woken(ts, jiffies);
    WokenBounded(ts, jiffies);
    ChooseBest(w);
    if Choose(w).c == 0 {
      RechargedBounded(w);
      SecondPass(w);
      ChooseBest(Recharged(w));
      assert Runnable(w, Choose(w).next);
    }
  }

  /** What schedule does to every task: the first loop, and the recharge to half the counter plus the priority. */
  ghost predicate Treated(t: Task, u: Task, jiffies: int, recharge: bool) {
    && Woke(t, u.(counter := t.counter), jiffies)
    && u.counter == if recharge then t.counter / 2 + t.priority else t.counter
  }

  /** The same of the tasks, without reference to the loops: every task but task 0 is treated, running or not, and all
      of them are recharged exactly when some task is runnable then and none that is has time left. */
  lemma ScheduledExactly(ts: Tasks, jiffies: int)
    requires Bounded(ts)
    ensures var (ts', next) := Scheduled(ts, jiffies);
      && RunsNext(ts', next) && ts'[0] == ts[0]
      && (forall i :: 1 <= i < 64 && ts[i].Empty? ==> ts'[i].Empty?)
      && forall i :: 1 <= i < 64 && ts[i].Used? ==>
           && ts'[i].Used?
           && Treated(ts[i].t, ts'[i].t, jiffies,
                (exists j :: Runnable(ts', j)) && forall j :: Runnable(ts', j) ==> ts[j].Used? && ts[j].t.counter == 0)
  {
    var w := Woken(ts, jiffies);
    var (ts', next) := Scheduled(ts, jiffies);
    ScheduledBest(ts, jiffies);
    WokenBounded(ts, jiffies);
    RechargedBounded(w);
    forall i | 1 <= i < 64 && ts[i].Used? ensures w[i].Used? && Woke(ts[i].t, w[i].t, jiffies) {
      WakeExactly(ts[i].t, jiffies);
    }
    assert forall j :: Runnable(ts', j) <==> Runnable(w, j);
    assert forall j :: Runnable(w, j) ==> w[j].t.counter == ts[j].t.counter;
  }

  /** Some task is runnable, and none that is has time left. */
  ghost predicate OutOfTime(ts: Tasks) {
    (exists i :: Runnable(ts, i)) && forall i :: Runnable(ts, i) ==> ts[i].t.counter == 0
  }

  // ---------------------------------------------------------------- the clock

  datatype Sys = Sys(ts: Tasks, current: int, jiffies: int)

  ghost predicate Valid(s: Sys) {
    Bounded(s.ts) && 0 <= s.current < |s.ts| && s.ts[s.current].Used? && s.ts[0].Used?
  }

  function Call(s: Sys): Sys {
    var (ts, next) := Scheduled(s.ts, s.jiffies);
    Sys(ts, next, s.jiffies)
  }

  /** The part of do_timer before its call of schedule. */
  function Charge(t: Task, user: bool): Task {
    var u := if user then t.(utime := t.utime + 1) else t.(stime := t.stime + 1);
    u.(counter := if u.counter - 1 > 0 then u.counter - 1 else 0)
  }

  /** do_timer(cpl), user being cpl != 0. */
  function Timer(s: Sys, user: bool): Sys
    requires 0 <= s.current < |s.ts| && s.ts[s.current].Used?
  {
    var t := s.ts[s.current].t;
    var s1 := s.(ts := s.ts[s.current := Used(Charge(t, user))]);
    if t.counter - 1 <= 0 && user then Call(s1) else s1
  }

  lemma CallValid(s: Sys)
    requires Valid(s)
    ensures Valid(Call(s)) && RunsNext(Call(s).ts, Call(s).current)
  {
    ScheduledBest(s.ts, s.jiffies);
  }

  lemma TimerValid(s: Sys, user: bool)
    requires Valid(s)
    ensures Valid(Timer(s, user))
  {
    var t := s.ts[s.current].t;
    var s1 := s.(ts := s.ts[s.current := Used(Charge(t, user))]);
    if t.counter - 1 <= 0 && user {
      CallValid(s1);
    }
  }

  /** do_timer, field by field: one tick of the running task's time is charged, to user or to system time, and only a
      user tick that uses up its slice calls schedule. */
  lemma TimerExactly(s: Sys, user: bool)
    requires Valid(s)
    ensures var t, s' := s.ts[s.current].t, Timer(s, user);
      var c := if t.counter > 1 then t.counter - 1 else 0;
      var u := if user then t.(counter := c, utime := t.utime + 1) else t.(counter := c, stime := t.stime + 1);
      && s'.jiffies == s.jiffies
      && (s'.ts, s'.current) ==
           if user && t.counter <= 1 then Scheduled(s.ts[s.current := Used(u)], s.jiffies)
           else (s.ts[s.current := Used(u)], s.current)
  {
  }

  // ---------------------------------------------------------------- fairness

  /** What can happen: a clock tick in user or kernel mode; a call of schedule, as from sleep_on; or anything that
      leaves the set of tasks, their counters and priorities alone: tasks stop, wake up, get signals and alarms. */
  datatype Event = Tick(user: bool) | Schedule | Change(ts: Tasks, jiffies: int)

  predicate SameClock(x: Slot, y: Slot) {
    x.Used? == y.Used? && (x.Used? ==> x.t.counter == y.t.counter && x.t.priority == y.t.priority)
  }

  ghost predicate SameClocks(ts: Tasks, ts': Tasks) {
    forall i :: 0 <= i < |ts| ==> SameClock(ts[i], ts'[i])
  }

  function Step(s: Sys, e: Event): Sys
    requires 0 <= s.current < |s.ts| && s.ts[s.current].Used?
  {
    match e
    case Tick(user) => Timer(s, user)
    case Schedule => Call(s)
    case Change(ts, jiffies) => s.(ts := ts, jiffies := jiffies)
  }

  /** Event e leaves task k runnable. */
  ghost predicate Legal(s: Sys, e: Event, k: int) {
    e.Change? ==> SameClocks(s.ts, e.ts) && Runnable(e.ts, k)
  }

  /** A run up to the moment when task k is current. */
  ghost predicate Run(s: Sys, es: seq<Event>, k: int)
    requires Valid(s)
    decreases |es|
  {
    es == [] || s.current == k || (Legal(s, es[0], k) && Valid(Step(s, es[0])) && Run(Step(s, es[0]), es[1..], k))
  }

  ghost predicate Chosen(s: Sys, es: seq<Event>, k: int)
    requires Valid(s) && Run(s, es, k)
    decreases |es|
  {
    s.current == k || (es != [] && Chosen(Step(s, es[0]), es[1..], k))
  }

  function UserTicks(es: seq<Event>): nat {
    if es == [] then 0 else (if es[0] == Tick(true) then 1 else 0) + UserTicks(es[1..])
  }

  function Sum(f: seq<int>): int {
    if f == [] then 0 else f[0] + Sum(f[1..])
  }

  /** The time that task j can still take from task k before the next recharge. */
  function Weight(s: Sys, k: int, j: int): int
    requires 0 <= j < |s.ts|
  {
    if j == k || s.ts[j].Empty? then 0
    else if j == s.current && s.ts[j].t.counter == 0 then 1
    else s.ts[j].t.counter
  }

  function Weights(s: Sys, k: int): seq<int> {
    seq(|s.ts|, j requires 0 <= j < |s.ts| => Weight(s, k, j))
  }

  function Cap(ts: Tasks, k: int, j: int): int
    requires 0 <= j < |ts|
  {
    if j == k || ts[j].Empty? then 0 else 2 * ts[j].t.priority - 1
  }

  function Caps(ts: Tasks, k: int): seq<int> {
    seq(|ts|, j requires 0 <= j < |ts| => Cap(ts, k, j))
  }

  /** How many user-mode ticks can still pass before task k runs. */
  function Potential(s: Sys, k: int): int
    requires 0 <= k < |s.ts|
  {
    Sum(Weights(s, k)) + (if s.ts[k].Used? && s.ts[k].t.counter == 0 then Sum(Caps(s.ts, k)) else 0)
  }

  lemma {:induction false} SumLeq(f: seq<int>, g: seq<int>)
    requires |f| == |g| && forall i :: 0 <= i < |f| ==> f[i] <= g[i]
    ensures Sum(f) <= Sum(g)
    decreases |f|
  {
    if f != [] {
      SumLeq(f[1..], g[1..]);
    }
  }

  lemma {:induction false} SumLess(f: seq<int>, g: seq<int>, k: int)
    requires |f| == |g| && 0 <= k < |f| && f[k] < g[k] && forall i :: 0 <= i < |f| ==> f[i] <= g[i]
    ensures Sum(f) < Sum(g)
    decreases |f|
  {
    if k == 0 {
      SumLeq(f[1..], g[1..]);
    } else {
      SumLess(f[1..], g[1..], k - 1);
    }
  }

  lemma {:induction false} SumZeros(n: nat)
    ensures Sum(seq(n, _ => 0)) == 0
    decreases n
  {
    if n > 0 {
      SumZeros(n - 1);
      assert seq(n, _ => 0)[1..] == seq(n - 1, _ => 0);
    }
  }

  /** Weights are within the caps; while task k is not current, some weight is positive. */
  lemma WeightsWithinCaps(s: Sys, k: int)
    requires Valid(s) && 0 <= k < |s.ts|
    ensures 0 <= Sum(Weights(s, k)) <= Sum(Caps(s.ts, k))
    ensures s.current != k ==> Sum(Weights(s, k)) >= 1
  {
    var w, z := Weights(s, k), seq(|s.ts|, _ => 0);
    SumZeros(|s.ts|);
    SumLeq(w, Caps(s.ts, k));
    SumLeq(z, w);
    if s.current != k {
      SumLess(z, w, s.current);
    }
  }

  /** s0 and s agree on all clocks, but that the current one may have had a tick more in s0. */
  ghost predicate SameButCurrent(s0: Sys, s: Sys)
    requires 0 <= s.current < |s.ts|
  {
    && (forall j :: 0 <= j < |s.ts| && j != s.current ==> SameClock(s0.ts[j], s.ts[j]))
    && s0.ts[s.current].Used? && s.ts[s.current].Used? && s0.ts[s.current].t.priority == s.ts[s.current].t.priority
    && s.ts[s.current].t.counter <= s0.ts[s.current].t.counter
  }

  lemma SameCaps(ts: Tasks, ts': Tasks, k: int)
    requires forall j :: 0 <= j < |ts| ==>
      ts[j].Used? == ts'[j].Used? && (ts[j].Used? ==> ts[j].t.priority == ts'[j].t.priority)
    ensures Caps(ts, k) == Caps(ts', k)
  {
  }

  /** Without a recharge: the next task has time left, so what the current one counted for beyond its time is gone. */
  lemma WeightsFall(s0: Sys, s: Sys, s': Sys, k: int)
    requires Valid(s) && Valid(s0) && Valid(s') && s0.current == s.current != k && SameButCurrent(s0, s)
    requires SameClocks(s.ts, s'.ts) && 0 <= k < |s.ts|
    requires s'.ts[s'.current].t.counter > 0
    ensures Sum(Weights(s', k)) <= Sum(Weights(s0, k)) - (if s.ts[s.current].t.counter == 0 then 1 else 0)
  {
    var f, g := Weights(s', k), Weights(s0, k);
    forall j | 0 <= j < |f| ensures f[j] <= g[j] && (j == s.current && s.ts[j].t.counter == 0 ==> f[j] < g[j]) {
      assert SameClock(s.ts[j], s'.ts[j]);
    }
    SumLeq(f, g);
    if s.ts[s.current].t.counter == 0 {
      SumLess(f, g, s.current);
    }
  }

  lemma WokenClocks(ts: Tasks, jiffies: int, k: int)
    requires Runnable(ts, k)
    ensures Runnable(Woken(ts, jiffies), k) && SameClocks(ts, Woken(ts, jiffies))
  {
  }

  ghost predicate SamePriorities(ts: Tasks, ts': Tasks) {
    forall j :: 0 <= j < |ts| ==> ts[j].Used? == ts'[j].Used? && (ts[j].Used? ==> ts[j].t.priority == ts'[j].t.priority)
  }

  /** What schedule does to the clocks while task k is runnable: nothing, or a recharge when k has no time left. */
  lemma CallClocks(s: Sys, k: int)
    requires Valid(s) && Runnable(s.ts, k)
    ensures var s' := Call(s);
      && Valid(s') && Runnable(s'.ts, k) && s'.ts[s'.current].t.counter > 0 && SamePriorities(s.ts, s'.ts)
      && (SameClocks(s.ts, s'.ts) || (s.ts[k].t.counter == 0 && s'.ts[k].t.counter >= 1))
  {
    var s', w := Call(s), Woken(s.ts, s.jiffies);
    CallValid(s);
    WokenClocks(s.ts, s.jiffies, k);
    ScheduledBest(s.ts, s.jiffies);
    WokenBounded(s.ts, s.jiffies);
    RechargedBounded(w);
    assert SameClock(s.ts[k], w[k]);
    hide Scheduled, Woken;
    if OutOfTime(w) {
      assert forall j :: 0 <= j < |w| ==> SameClock(s.ts[j], w[j]);
    }
  }

  /** schedule either runs task k or does not raise the potential; it lowers it if the current task has no time left. */
  lemma CallLowers(s0: Sys, s: Sys, k: int)
    requires Valid(s) && Runnable(s.ts, k) && s.current != k && Call(s).current != k
    requires Valid(s0) && s0.current == s.current && SameButCurrent(s0, s)
    ensures Runnable(Call(s).ts, k)
    ensures Potential(Call(s), k) <= Potential(s0, k) - (if s.ts[s.current].t.counter == 0 then 1 else 0)
  {
    var s' := Call(s);
    CallClocks(s, k);
    assert SameClock(s0.ts[k], s.ts[k]);
    hide Call, Sum;
    WeightsWithinCaps(s0, k);
    assert Caps(s'.ts, k) == Caps(s0.ts, k) by {
      SameCaps(s0.ts, s'.ts, k);
    }
    if SameClocks(s.ts, s'.ts) {
      WeightsFall(s0, s, s', k);
      assert SameClock(s.ts[k], s'.ts[k]);
    } else {
      WeightsWithinCaps(s', k);
    }
  }

  /** Every user-mode tick that does not bring task k on brings it nearer, and nothing else puts it off. */
  lemma StepLowers(s: Sys, e: Event, k: int)
    requires Valid(s) && Runnable(s.ts, k) && s.current != k && Legal(s, e, k) && Valid(Step(s, e))
    requires Step(s, e).current != k
    ensures Runnable(Step(s, e).ts, k)
    ensures Potential(Step(s, e), k) <= Potential(s, k) - (if e == Tick(true) then 1 else 0)
  {
    match e {
      case Schedule => CallLowers(s, s, k);
      case Change(ts, jiffies) => ChangeKeeps(s, ts, jiffies, k);
      case Tick(user) => TickLowers(s, user, k);
    }
  }

  lemma ChangeKeeps(s: Sys, ts: Tasks, jiffies: int, k: int)
    requires Valid(s) && SameClocks(s.ts, ts) && 0 <= k < |ts|
    ensures Potential(Sys(ts, s.current, jiffies), k) == Potential(s, k)
  {
    var s' := Sys(ts, s.current, jiffies);
    assert forall j :: 0 <= j < |ts| ==> SameClock(s.ts[j], ts[j]);
    SameCaps(s.ts, ts, k);
    assert Weights(s', k) == Weights(s, k);
  }

  lemma TickLowers(s: Sys, user: bool, k: int)
    requires Valid(s) && Runnable(s.ts, k) && s.current != k && Timer(s, user).current != k
    ensures Runnable(Timer(s, user).ts, k)
    ensures Potential(Timer(s, user), k) <= Potential(s, k) - (if user then 1 else 0)
  {
    var t := s.ts[s.current].t;
    var s1 := s.(ts := s.ts[s.current := Used(Charge(t, user))]);
    if t.counter - 1 <= 0 && user {
      CallLowers(s, s1, k);
    } else {
      SameCaps(s.ts, s1.ts, k);
      var f, g := Weights(s1, k), Weights(s, k);
      SumLeq(f, g);
      if user {
        SumLess(f, g, s.current);
      }
    }
  }

  lemma {:induction false} ChosenWithinPotential(s: Sys, es: seq<Event>, k: int)
    requires Valid(s) && Runnable(s.ts, k) && Run(s, es, k) && UserTicks(es) >= Potential(s, k)
    ensures Chosen(s, es, k)
    decreases |es|
  {
    if s.current != k {
      WeightsWithinCaps(s, k);
      var s' := Step(s, es[0]);
      if s'.current != k {
        StepLowers(s, es[0], k);
        ChosenWithinPotential(s', es[1..], k);
      }
    }
  }

  /** schedule does not starve: with a fixed set of tasks, one that stays runnable runs within twice the sum of the
      others' largest time slices, 2 * priority - 1, counted in user-mode ticks, whatever else happens meanwhile. */
  lemma NoStarvation(s: Sys, es: seq<Event>, k: int)
    requires Valid(s) && Runnable(s.ts, k) && Run(s, es, k) && UserTicks(es) >= 2 * Sum(Caps(s.ts, k))
    ensures Chosen(s, es, k)
  {
    WeightsWithinCaps(s, k);
    ChosenWithinPotential(s, es, k);
  }

  // ---------------------------------------------------------------- in place

  class Cpu {
    const task: array<Slot>
    var current: int
    var jiffies: int

    ghost predicate Shape()
      reads this, task
    {
      task.Length == NR_TASKS && Bounded(task[..]) && 0 <= current < NR_TASKS && task[current].Used? && task[0].Used?
    }

    ghost function Abs(): Sys
      reads this, task
      requires Shape()
    {
      Sys(task[..], current, jiffies)
    }

    /** sched_init: task 0 alone. */
    constructor (init: Task)
      requires init.priority >= 1 && 0 <= init.counter <= 2 * init.priority - 1
      ensures Shape() && fresh(task) && current == 0 && task[0] == Used(init)
      ensures forall i :: 1 <= i < NR_TASKS ==> task[i] == Empty
    {
      task := new Slot[NR_TASKS](i => if i == 0 then Used(init) else Empty);
      current := 0;
      jiffies := 0;
    }

    /** The first loop of schedule. */
    method WakeAll()
      requires Shape()
      modifies task
      ensures Shape() && task[..] == Woken(old(task[..]), jiffies)
    {
      for i := NR_TASKS downto 1
        invariant forall j :: 0 <= j < NR_TASKS ==>
          task[j] == if j >= i then WakeSlot(old(task[j]), jiffies) else old(task[j])
      {
        if task[i].Used? {
          var t := task[i].t;
          if t.alarm != 0 && t.alarm < jiffies {
            t := t.(signal := t.signal + {SIGALRM}, alarm := 0);
          }
          if Deliverable(t) && t.state == TASK_INTERRUPTIBLE {
            t := t.(state := TASK_RUNNING);
          }
          task[i] := Used(t);
        }
      }
      WokenBounded(old(task[..]), jiffies);
      assert task[..] == Woken(old(task[..]), jiffies);
    }

    /** The scan for the runnable task with the largest counter. */
    method FindNext() returns (next: int, c: int)
      requires Shape()
      ensures Pick(next, c) == Choose(task[..])
    {
      next, c := 0, -1;
      var i := NR_TASKS;
      while i > 1
        invariant 1 <= i <= NR_TASKS && Scan(task[..], i, Pick(next, c)) == Choose(task[..])
      {
        i := i - 1;
        if task[i].Used? && task[i].t.state == TASK_RUNNING && task[i].t.counter > c {
          next, c := i, task[i].t.counter;
        }
      }
    }

    /** counter = (counter >> 1) + priority for all tasks but task 0. */
    method Recharge()
      requires Shape()
      modifies task
      ensures Shape() && task[..] == Recharged(old(task[..]))
    {
      for i := NR_TASKS downto 1
        invariant forall j :: 0 <= j < NR_TASKS ==>
          task[j] == if j >= i then RechargeSlot(old(task[j])) else old(task[j])
      {
        if task[i].Used? {
          task[i] := Used(task[i].t.(counter := task[i].t.counter / 2 + task[i].t.priority));
        }
      }
      RechargedBounded(old(task[..]));
      assert task[..] == Recharged(old(task[..]));
    }

    /** schedule; switch_to sets the current task. The loop ends after at most two passes. */
    method Schedule()
      requires Shape()
      modifies this`current, task
      ensures Shape() && Abs() == Call(old(Abs())) && RunsNext(task[..], current)
    {
      CallValid(Abs());
      WakeAll();
      ghost var w := task[..];
      var next, c := FindNext();
      ghost var passes := 1;
      while c == 0
        invariant Shape() && 1 <= passes <= 2 && Pick(next, c) == Choose(task[..])
        invariant if passes == 1 then task[..] == w else Choose(w).c == 0 && task[..] == Recharged(w) && c > 0
        decreases 2 - passes
      {
        SecondPass(task[..]);
        Recharge();
        next, c := FindNext();
        passes := passes + 1;
      }
      ChooseBest(task[..]);
      current := next;
    }

    /** do_timer(cpl). */
    method DoTimer(cpl: int)
      requires Shape()
      modifies this`current, task
      ensures Shape() && Abs() == Timer(old(Abs()), cpl != 0)
    {
      ghost var s := Abs();
      TimerValid(s, cpl != 0);
      var t := task[current].t;
      t := if cpl == 0 then t.(stime := t.stime + 1) else t.(utime := t.utime + 1);
      t := t.(counter := t.counter - 1);
      task[current] := Used(if t.counter > 0 then t else t.(counter := 0));
      assert task[..] == s.ts[s.current := Used(Charge(s.ts[s.current].t, cpl != 0))];
      if t.counter > 0 || cpl == 0 {
        return;
      }
      Schedule();
    }
  }
}
