/** schedule() and the clock tick of VLinux0.11/kernel/sched.c. */
module Schedule {
  import opened Counting

  const NrTasks := 64
  const SigAlrm: bv32 := 0x2000
  const Blockable: bv32 := 0xFFFBFEFF

  datatype State = Running | Interruptible | Uninterruptible | Zombie | Stopped

  datatype Proc = Proc(state: State, counter: int, priority: int, alarm: int, signal: bv32, blocked: bv32)

  datatype Slot = Null | Some(p: Proc)

  type Table = seq<Slot>

  /** Time slices are not negative and shorter than twice the priority, which is at least 1. */
  predicate GoodProc(p: Proc) { p.priority >= 1 && 0 <= p.counter < 2 * p.priority }

  ghost predicate Good(t: Table) { |t| == NrTasks && forall i :: 0 <= i < NrTasks && t[i].Some? ==> GoodProc(t[i].p) }

  predicate Runnable(t: Table, i: int) { 0 < i < |t| && t[i].Some? && t[i].p.state.Running? }

  function WithAlarm(signal: bv32): bv32 { signal | SigAlrm }

  /** A signal is pending that is not blocked; SIGKILL and SIGSTOP cannot be. */
  predicate Pending(p: Proc) { Unblocked(p.signal, p.blocked) }

  predicate Unblocked(signal: bv32, blocked: bv32) { signal & !(Blockable & blocked) != 0 }

  /** The alarm goes off, and a signal that is not blocked wakes an interruptible sleeper. */
  function Signalled(s: Slot, jiffies: int): Slot {
    if s.Null? then s else
      var p := if s.p.alarm != 0 && s.p.alarm < jiffies then s.p.(signal := WithAlarm(s.p.signal), alarm := 0) else s.p;
      Some(if Pending(p) && p.state.Interruptible? then p.(state := Running) else p)
  }

  /** Half of what is left and a new slice. */
  function Recharged(s: Slot): Slot {
    if s.Null? then s else Some(s.p.(counter := s.p.counter / 2 + s.p.priority))
  }

  ghost predicate SignalledTo(t: Table, t': Table, jiffies: int, n: nat) {
    |t'| == |t| && forall i :: 0 <= i < |t| ==> t'[i] == if i >= n && i > 0 then Signalled(t[i], jiffies) else t[i]
  }

  ghost predicate RechargedTo(t: Table, t': Table, n: nat) {
    |t'| == |t| && forall i :: 0 <= i < |t| ==> t'[i] == if i >= n && i > 0 then Recharged(t[i]) else t[i]
  }

  /** The runnable task with the longest slice, the last of them in the table; 0 if nothing can run. */
  ghost predicate IsChoice(t: Table, next: nat) {
    if next == 0 then forall i :: 0 < i < |t| ==> !Runnable(t, i)
    else Runnable(t, next) && forall i :: Runnable(t, i) ==>
           t[i].p.counter < t[next].p.counter || (t[i].p.counter == t[next].p.counter && i <= next)
  }

  lemma ChoiceIsOne(t: Table, a: nat, b: nat)
    requires IsChoice(t, a) && IsChoice(t, b)
    ensures a == b
  {
    if a != 0 { assert Runnable(t, a); }
    if b != 0 { assert Runnable(t, b); }
  }

  lemma RechargeKeeps(t: Table, t': Table)
    requires Good(t) && RechargedTo(t, t', 1)
    ensures Good(t') && forall i :: Runnable(t', i) ==> t'[i].p.counter > 0
    ensures forall i :: Runnable(t', i) <==> Runnable(t, i)
  {
    forall i | 0 <= i < NrTasks && t'[i].Some? ensures GoodProc(t'[i].p) && (i > 0 ==> t'[i].p.counter > 0) {
      assert GoodProc(t[i].p);
    }
  }

  /** What schedule() does with the table, s after the alarms, and which task it picks. */
  ghost predicate Scheduled(t: Table, s: Table, t': Table, jiffies: int, next: nat) {
    && SignalledTo(t, s, jiffies, 0) && IsChoice(t', next)
    && if next == 0 || HasSlice(s) then t' == s else RechargedTo(s, t', 1)
  }

  /** Some runnable task has time left. */
  ghost predicate HasSlice(t: Table) { exists i :: Runnable(t, i) && t[i].p.counter > 0 }

  lemma SignalledStays(s: Slot, jiffies: int)
    ensures s.Some? <==> Signalled(s, jiffies).Some?
    ensures s.Some? ==>
      Signalled(s, jiffies).p.counter == s.p.counter && Signalled(s, jiffies).p.priority == s.p.priority
    ensures s.Some? && s.p.state.Running? ==> Signalled(s, jiffies).p.state.Running?
  {
  }

  class Scheduler {
    var task: Table
    var current: nat
    var jiffies: int

    ghost predicate Valid()
      reads this
    {
      Good(task) && current < NrTasks && task[0].Some? && task[current].Some?
    }

    /** The loop ends in its second pass at the latest. pnext is the task whose structure switch_to gets, next the one
        whose segments it gets: they are the same task only when no task can run. */
    method Schedule() returns (next: nat, pnext: nat, ghost s: Table)
      requires Valid()
      modifies this`task
      ensures Valid() && Scheduled(old(task), s, task, jiffies, next) && next < NrTasks && task[next].Some?
      ensures pnext == 0 && (pnext == next <==> forall i :: !Runnable(task, i))
    {
      hide SignalledTo;
      pnext := 0;
      CheckAlarms();
      s := task;
      ghost var again := false;
      while true
        invariant Valid() && (if again then RechargedTo(s, task, 1) else task == s)
        invariant again ==> (exists i :: Runnable(task, i)) && !HasSlice(s)
        decreases if again then 0 else 1
      {
        var c;
        c, next := Pick();
        if c != 0 { break; }
        RechargeAll();
        RechargeKeeps(s, task);
        again := true;
      }
    }

    method CheckAlarms()
      requires Valid()
      modifies this`task
      ensures Valid() && SignalledTo(old(task), task, jiffies, 0)
    {
      hide Signalled;
      var i := NrTasks - 1;
      while i > 0
        invariant 0 <= i < NrTasks && SignalledTo(old(task), task, jiffies, i + 1)
        decreases i
      {
        SignalledStays(task[i], jiffies);
        CheckOne(i);
        i := i - 1;
      }
      forall k | 0 <= k < NrTasks ensures old(task)[k].Some? <==> task[k].Some? {
        SignalledStays(old(task)[k], jiffies);
      }
      forall k | 0 <= k < NrTasks && task[k].Some? ensures GoodProc(task[k].p) {
        SignalledStays(old(task)[k], jiffies);
      }
    }

    method CheckOne(i: nat)
      requires 0 < i < |task|
      modifies this`task
      ensures task == old(task)[i := Signalled(old(task)[i], jiffies)]
    {
      hide Pending, WithAlarm;
      if task[i].Some? {
        if task[i].p.alarm != 0 && task[i].p.alarm < jiffies {
          task := task[i := Some(task[i].p.(signal := WithAlarm(task[i].p.signal)))];
          task := task[i := Some(task[i].p.(alarm := 0))];
        }
        if Pending(task[i].p) && task[i].p.state.Interruptible? {
          task := task[i := Some(task[i].p.(state := Running))];
        }
      }
    }

    /** One pass over the table: the longest slice c, -1 if nothing can run. */
    method Pick() returns (c: int, next: nat)
      requires Valid()
      ensures IsChoice(task, next) && next < NrTasks
      ensures if next == 0 then c == -1 else c == task[next].p.counter
    {
      c, next := -1, 0;
      var i := NrTasks;
      while i > 1
        invariant 1 <= i <= NrTasks && next < NrTasks
        invariant next == 0 ==> c == -1 && forall j :: i <= j < NrTasks ==> !Runnable(task, j)
        invariant next != 0 ==> next >= i && Runnable(task, next) && c == task[next].p.counter
        invariant next != 0 ==>
          forall j :: i <= j < NrTasks && Runnable(task, j) ==>
            task[j].p.counter < c || (task[j].p.counter == c && j <= next)
        decreases i
      {
        i := i - 1;
        if task[i].Some? && task[i].p.state.Running? && task[i].p.counter > c {
          c, next := task[i].p.counter, i;
        }
      }
    }

    method RechargeAll()
      requires Valid()
      modifies this`task
      ensures Valid() && RechargedTo(old(task), task, 1)
    {
      var i := NrTasks - 1;
      while i > 0
        invariant 0 <= i < NrTasks && RechargedTo(old(task), task, i + 1)
        decreases i
      {
        if task[i].Some? { task := task[i := Some(task[i].p.(counter := task[i].p.counter / 2 + task[i].p.priority))]; }
        i := i - 1;
      }
      RechargeKeeps(old(task), task);
    }

    /** The end of do_timer: a tick of the running task; in user mode (cpl not 0) it may lose the processor to the
        task that schedule() chose. */
    method Tick(cpl: nat) returns (ghost s: Table)
      requires Valid()
      modifies this`task, this`current
      ensures Valid()
      ensures old(task[current].p.counter) > 1 || cpl == 0 ==>
        task == Ticked(old(task), old(current)) && current == old(current)
      ensures old(task[current].p.counter) <= 1 && cpl != 0 ==>
        Scheduled(Ticked(old(task), old(current)), s, task, jiffies, current)
      ensures cpl != 0 && SameRunnable(Ticked(old(task), old(current)), s) ==>
        UserTick(old(task), old(current), task, current, jiffies)
    {
      hide Scheduled, SameRunnable;
      s := task;
      var p := task[current].p;
      p := p.(counter := p.counter - 1);
      task := task[current := Some(p)];
      if p.counter > 0 { return; }
      task := task[current := Some(p.(counter := 0))];
      assert task == Ticked(old(task), current);
      if cpl == 0 { return; }
      var next, pnext;
      next, pnext, s := Schedule();
      current := next;
    }
  }

  /** The running task has used one tick of its slice. */
  function Ticked(t: Table, cur: nat): Table
    requires cur < |t| && t[cur].Some?
  {
    t[cur := Some(t[cur].p.(counter := if t[cur].p.counter > 1 then t[cur].p.counter - 1 else 0))]
  }

  // ---------- slices over several recharges ----------

  lemma HalfOf(c: int, priority: int, d: int)
    requires d == 2 * priority - c
    ensures 2 * (2 * priority - (c / 2 + priority)) - 1 <= d <= 2 * (2 * priority - (c / 2 + priority))
  {
  }

  lemma ScaledBounds(d: int, d': int, p: nat, d0: int)
    requires (d - 1) * p < d0 <= d * p && 2 * d' - 1 <= d <= 2 * d'
    ensures (d' - 1) * (2 * p) < d0 <= d' * (2 * p)
  {
    ScaledUp(d, 2 * d', p);
    ScaledUp(2 * d' - 2, d - 1, p);
    assert (2 * d') * p == d' * (2 * p) && (2 * d' - 2) * p == (d' - 1) * (2 * p);
  }

  lemma ScaledUp(a: int, b: int, p: nat)
    requires a <= b
    ensures a * p <= b * p
  {
    assert b * p - a * p == (b - a) * p;
  }

  /** A recharge halves, rounding up, what the slice is below twice the priority. After n of them it is that much
      divided by 2^n, and nothing else of the task has changed. */
  lemma {:induction false} SliceAfter(tables: seq<Table>, n: nat, i: nat)
    requires n < |tables| && 0 < i < |tables[0]| && tables[0][i].Some?
    requires forall k :: 0 <= k < n ==> RechargedTo(tables[k], tables[k + 1], 1)
    ensures i < |tables[n]| && tables[n][i].Some?
    ensures tables[n][i].p == tables[0][i].p.(counter := tables[n][i].p.counter)
    ensures (2 * tables[0][i].p.priority - tables[n][i].p.counter - 1) * Pow2(n)
      < 2 * tables[0][i].p.priority - tables[0][i].p.counter
      <= (2 * tables[0][i].p.priority - tables[n][i].p.counter) * Pow2(n)
  {
    if n > 0 {
      SliceAfter(tables, n - 1, i);
      assert RechargedTo(tables[n - 1], tables[n - 1 + 1], 1);
      var c, priority := tables[n - 1][i].p.counter, tables[0][i].p.priority;
      assert tables[n][i].p.counter == c / 2 + priority;
      HalfOf(c, priority, 2 * priority - c);
      ScaledBounds(2 * priority - c, 2 * priority - (c / 2 + priority), Pow2(n - 1),
        2 * priority - tables[0][i].p.counter);
    }
  }

  /** A task that sleeps long enough comes to one tick less than twice its priority, and stays there. */
  lemma SliceLimit(tables: seq<Table>, n: nat, i: nat)
    requires n < |tables| && Good(tables[0]) && 0 < i < NrTasks && tables[0][i].Some?
    requires forall k :: 0 <= k < n ==> RechargedTo(tables[k], tables[k + 1], 1)
    requires Pow2(n) >= 2 * tables[0][i].p.priority
    ensures i < |tables[n]| && tables[n][i].Some? && tables[n][i].p.counter == 2 * tables[0][i].p.priority - 1
  {
    SliceAfter(tables, n, i);
    assert GoodProc(tables[0][i].p);
    hide RechargedTo, Good, Pow2;
    var d := 2 * tables[0][i].p.priority - tables[n][i].p.counter;
    if d >= 2 { ScaledUp(1, d - 1, Pow2(n)); }
    if d <= 0 { ScaledUp(d, 0, Pow2(n)); }
  }

  // ---------- alarms and signals ----------

  /** Signals wake a sleeper unless they are blocked; SIGKILL (9) and SIGSTOP (19) always do. */
  lemma PendingIs(p: Proc)
    ensures Pending(p) <==> p.signal & !p.blocked != 0 || p.signal & 0x40100 != 0
  {
    BlockableIs(p.signal, p.blocked);
  }

  lemma BlockableIs(signal: bv32, blocked: bv32)
    ensures signal & !(0xFFFBFEFF & blocked) == (signal & !blocked) | (signal & 0x40100)
    ensures signal & !(0xFFFBFEFF & blocked) == 0 <==> signal & !blocked == 0 && signal & 0x40100 == 0
  {
  }

  /** What schedule() does to one task before it chooses: an alarm whose time has passed sets the bit of SIGALRM (14)
      and is cleared; a sleeper that can be interrupted runs exactly when a signal is then pending for it. */
  ghost predicate Alarmed(p: Proc, q: Proc, jiffies: int) {
    && (if p.alarm != 0 && p.alarm < jiffies then q.signal == WithAlarm(p.signal) && q.alarm == 0
        else q.signal == p.signal && q.alarm == p.alarm)
    && q.state == (if p.state.Interruptible? && Pending(q) then Running else p.state)
    && q.counter == p.counter && q.priority == p.priority && q.blocked == p.blocked
  }

  lemma SignalledIs(s: Slot, jiffies: int)
    requires s.Some?
    ensures Signalled(s, jiffies).Some? && Alarmed(s.p, Signalled(s, jiffies).p, jiffies)
  {
    hide Unblocked, WithAlarm;
  }

  lemma WithAlarmIs(signal: bv32)
    ensures WithAlarm(signal) == signal | 0x2000
  {
  }

  lemma AlarmIs(t: Table, s: Table, jiffies: int, i: nat)
    requires SignalledTo(t, s, jiffies, 0) && 0 < i < |t| && t[i].Some?
    ensures i < |s| && s[i].Some? && Alarmed(t[i].p, s[i].p, jiffies)
  {
    hide Signalled, Alarmed;
    assert s[i] == Signalled(t[i], jiffies);
    SignalledIs(t[i], jiffies);
  }

  /** Calls of schedule(), the k-th at times[k] with the table before[k], between which others may do anything but
      change this task's alarm. */
  ghost predicate AlarmRun(before: seq<Table>, after: seq<Table>, times: seq<int>, i: nat) {
    && |before| == |after| == |times| && i > 0
    && (forall k :: 0 <= k < |before| ==> SignalledTo(before[k], after[k], times[k], 0))
    && (forall k :: 0 <= k < |before| ==> i < |before[k]| && before[k][i].Some?)
    && (forall k :: 0 <= k < |before| - 1 ==> SameAlarm(after[k], before[k + 1], i))
  }

  ghost predicate SameAlarm(t: Table, t': Table, i: nat) {
    i < |t| && i < |t'| && t[i].Some? && t'[i].Some? && t'[i].p.alarm == t[i].p.alarm
  }

  lemma RunStep(before: seq<Table>, after: seq<Table>, times: seq<int>, i: nat, n: nat)
    requires AlarmRun(before, after, times, i) && n < |before|
    ensures i < |before[n]| && before[n][i].Some? && i < |after[n]| && after[n][i].Some?
    ensures Alarmed(before[n][i].p, after[n][i].p, times[n])
    ensures n > 0 ==> SameAlarm(after[n - 1], before[n], i)
  {
    hide SignalledTo, SameAlarm, Alarmed;
    AlarmIs(before[n], after[n], times[n], i);
    if n > 0 { assert SameAlarm(after[n - 1], before[n - 1 + 1], i); }
  }

  /** Until its time has passed an alarm stays set and sends nothing; the first schedule() after that sends SIGALRM. */
  lemma {:induction false} AlarmSent(before: seq<Table>, after: seq<Table>, times: seq<int>, i: nat, alarm: int, n: nat)
    requires AlarmRun(before, after, times, i) && n < |before| && alarm != 0
    requires i < |before[0]| && before[0][i].Some? && before[0][i].p.alarm == alarm
    requires forall k :: 0 <= k < n ==> times[k] <= alarm
    ensures i < |before[n]| && before[n][i].Some? && i < |after[n]| && after[n][i].Some?
    ensures before[n][i].p.alarm == alarm
    ensures times[n] <= alarm ==> after[n][i].p.signal == before[n][i].p.signal && after[n][i].p.alarm == alarm
    ensures times[n] > alarm ==> after[n][i].p.signal == before[n][i].p.signal | 0x2000 && after[n][i].p.alarm == 0
  {
    hide Pending, AlarmRun, WithAlarm;
    RunStep(before, after, times, i, n);
    WithAlarmIs(before[n][i].p.signal);
    if n > 0 { AlarmSent(before, after, times, i, alarm, n - 1); }
  }

  /** And once sent it is not sent again. */
  lemma {:induction false} AlarmOnce(before: seq<Table>, after: seq<Table>, times: seq<int>, i: nat, n: nat, m: nat)
    requires AlarmRun(before, after, times, i) && n <= m < |before|
    requires i < |after[n]| && after[n][i].Some? && after[n][i].p.alarm == 0
    ensures i < |before[m]| && before[m][i].Some? && i < |after[m]| && after[m][i].Some?
    ensures after[m][i].p.alarm == 0 && (n < m ==> after[m][i].p.signal == before[m][i].p.signal)
  {
    hide Pending, AlarmRun, WithAlarm;
    RunStep(before, after, times, i, m);
    if n < m { AlarmOnce(before, after, times, i, n, m - 1); }
  }

  // ---------- how long a task waits ----------

  ghost predicate SameRunnable(t: Table, t': Table) { forall i :: Runnable(t, i) <==> Runnable(t', i) }

  /** A user-mode tick with a fixed runnable set: alarms and signals may arrive, but wake nobody. */
  ghost predicate UserTick(t: Table, cur: nat, t': Table, cur': nat, jiffies: int) {
    && cur < |t| && t[cur].Some?
    && if t[cur].p.counter > 1 then t' == Ticked(t, cur) && cur' == cur
       else exists s :: Scheduled(Ticked(t, cur), s, t', jiffies, cur') && SameRunnable(Ticked(t, cur), s)
  }

  /** The same slices for the same runnable tasks. */
  ghost predicate SameSlices(t: Table, t': Table) {
    |t'| == |t| && SameRunnable(t, t')
      && forall i :: Runnable(t, i) && Runnable(t', i) ==> t'[i].p.counter == t[i].p.counter
  }

  lemma SignalsKeep(t: Table, s: Table, jiffies: int)
    requires Good(t) && SignalledTo(t, s, jiffies, 0) && SameRunnable(t, s)
    ensures Good(s) && SameSlices(t, s)
  {
    forall i | 0 <= i < |t|
      ensures (s[i].Some? <==> t[i].Some?) && (s[i].Some? ==> GoodProc(s[i].p) && s[i].p.counter == t[i].p.counter)
    {
      SignalledStays(t[i], jiffies);
      if t[i].Some? { assert GoodProc(t[i].p); }
    }
  }

  /** The slices of the other runnable tasks below n. */
  ghost function Others(t: Table, w: nat, n: nat): int
    requires n <= |t|
  {
    if n == 0 then 0 else Others(t, w, n - 1) + if n - 1 != w && Runnable(t, n - 1) then t[n - 1].p.counter else 0
  }

  lemma {:induction false} OthersTicked(t: Table, w: nat, cur: nat, n: nat)
    requires n <= |t| && Runnable(t, cur) && cur != w && t[cur].p.counter >= 0
    ensures Others(Ticked(t, cur), w, n) == Others(t, w, n) - if cur < n && t[cur].p.counter > 0 then 1 else 0
  {
    if n > 0 { OthersTicked(t, w, cur, n - 1); }
  }

  lemma {:induction false} OthersPositive(t: Table, w: nat, n: nat, cur: nat)
    requires Good(t) && n <= |t|
    ensures Others(t, w, n) >= 0
    ensures cur < n && cur != w && Runnable(t, cur) ==> Others(t, w, n) >= t[cur].p.counter
  {
    if n > 0 {
      OthersPositive(t, w, n - 1, cur);
      if Runnable(t, n - 1) { assert GoodProc(t[n - 1].p); }
    }
  }

  lemma {:induction false} OthersSame(t: Table, t': Table, w: nat, n: nat)
    requires n <= |t| && SameSlices(t, t')
    ensures Others(t', w, n) == Others(t, w, n)
  {
    if n > 0 {
      OthersSame(t, t', w, n - 1);
      assert Runnable(t, n - 1) <==> Runnable(t', n - 1);
    }
  }

  lemma TickedKeeps(t: Table, cur: nat)
    requires Good(t) && cur < |t| && t[cur].Some?
    ensures Good(Ticked(t, cur)) && SameRunnable(t, Ticked(t, cur))
  {
    assert GoodProc(t[cur].p);
  }

  /** While task w waits with time left there is no recharge, and every tick uses up time of the others. */
  lemma WaitStep(t: Table, cur: nat, t': Table, cur': nat, jiffies: int, w: nat)
    requires Good(t) && UserTick(t, cur, t', cur', jiffies) && Runnable(t, w) && Runnable(t, cur) && w != cur
      && t[w].p.counter > 0
    ensures Good(t') && SameRunnable(t, t') && SameSlices(Ticked(t, cur), t') && Runnable(t', w)
      && t'[w].p.counter == t[w].p.counter
    ensures Runnable(t', cur') && t'[cur'].p.counter > 0
    ensures Others(t', w, NrTasks) == Others(t, w, NrTasks) - if t[cur].p.counter > 0 then 1 else 0
  {
    var t1 := Ticked(t, cur);
    assert GoodProc(t[cur].p);
    TickedKeeps(t, cur);
    assert Runnable(t1, w) && t1[w].p.counter > 0;
    OthersTicked(t, w, cur, NrTasks);
    if t[cur].p.counter <= 1 {
      var s: Table :| Scheduled(t1, s, t', jiffies, cur') && SameRunnable(t1, s);
      SignalsKeep(t1, s, jiffies);
      assert Runnable(s, w) && s[w].p.counter > 0;
      assert t' == s;
      assert Runnable(t', w) && cur' != 0;
    }
    OthersSame(t1, t', w, NrTasks);
  }

  /** A runnable task with time left is chosen before the next recharge, within as many user ticks as the others
      have time left, and one more if the running task has none. */
  lemma {:induction false} WaitBound(tables: seq<Table>, curs: seq<nat>, times: seq<int>, w: nat, n: nat)
    requires |tables| == |curs| == |times| && n < |tables| && Good(tables[0])
    requires forall k :: 0 <= k < n ==> UserTick(tables[k], curs[k], tables[k + 1], curs[k + 1], times[k])
    requires Runnable(tables[0], w) && tables[0][w].p.counter > 0 && Runnable(tables[0], curs[0])
    requires forall k :: 0 <= k <= n ==> curs[k] != w
    ensures n <= Others(tables[0], w, NrTasks) + if tables[0][curs[0]].p.counter > 0 then 0 else 1
    ensures Runnable(tables[n], w) && tables[n][w].p.counter == tables[0][w].p.counter
    decreases n
  {
    hide Others;
    OthersPositive(tables[0], w, NrTasks, curs[0]);
    if n > 0 {
      assert UserTick(tables[0], curs[0], tables[0 + 1], curs[0 + 1], times[0]);
      WaitStep(tables[0], curs[0], tables[1], curs[1], times[0], w);
      hide UserTick;
      forall k | 0 <= k < n - 1
        ensures UserTick(tables[1..][k], curs[1..][k], tables[1..][k + 1], curs[1..][k + 1], times[1..][k])
      {
        assert UserTick(tables[k + 1], curs[k + 1], tables[k + 1 + 1], curs[k + 1 + 1], times[k + 1]);
      }
      WaitBound(tables[1..], curs[1..], times[1..], w, n - 1);
      OthersPositive(tables[1], w, NrTasks, curs[1]);
    }
  }
}
