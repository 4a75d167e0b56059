/** sleep_on and wake_up of VLinux0.11/kernel/sched.c. A wait queue is one pointer; the rest of the queue
    lives in the saved `tmp` of the sleepers. */
module WaitQueues {

  /** A task inside sleep_on has saved tmp (-1 is NULL) and waits in schedule() until its state is 0 again. */
  datatype Task = Outside | Sleeping(tmp: int, state0: bool)

  /** The queue pointers and the tasks. */
  datatype World = World(head: map<nat, int>, tasks: map<nat, Task>)

  /** A pointer that starts a chain of sleepers: a queue's, or the tmp of a task
      that is awake but still inside sleep_on. */
  datatype Source = Queue(q: nat) | By(r: nat)

  /** The sleepers behind each pointer, in order: who will wake whom. */
  type Lines = map<Source, seq<nat>>

  function First(line: seq<nat>): int { if line == [] then -1 else line[0] }

  predicate Asleep(w: World, t: nat) { t in w.tasks && w.tasks[t].Sleeping? && !w.tasks[t].state0 }
  predicate Released(w: World, t: nat) { t in w.tasks && w.tasks[t].Sleeping? && w.tasks[t].state0 }

  /** The tasks of the line sleep, and each has saved the next. */
  ghost predicate Linked(w: World, line: seq<nat>) {
    && (forall i, j :: 0 <= i < j < |line| ==> line[i] != line[j])
    && forall i :: 0 <= i < |line| ==> LinkAt(w, line, i)
  }

  predicate LinkAt(w: World, line: seq<nat>, i: nat)
    requires i < |line|
  {
    Asleep(w, line[i]) && w.tasks[line[i]].tmp == First(line[i + 1..])
  }

  ghost predicate Apart(a: seq<nat>, b: seq<nat>) { forall t :: t in a ==> t !in b }

  predicate IsSource(w: World, s: Source) { if s.Queue? then s.q in w.head else Released(w, s.r) }

  function Pointer(w: World, s: Source): int
    requires IsSource(w, s)
  {
    if s.Queue? then w.head[s.q] else w.tasks[s.r].tmp
  }

  ghost predicate Disjoint(l: Lines) { forall s, p :: s in l && p in l && s != p ==> Apart(l[s], l[p]) }

  ghost predicate Started(w: World, l: Lines) {
    && (forall s :: s in l <==> IsSource(w, s))
    && (forall s :: s in l ==> Pointer(w, s) == First(l[s]) && Linked(w, l[s]))
  }

  ghost predicate InLine(l: Lines, t: nat) { exists s :: s in l && t in l[s] }

  ghost predicate Covered(w: World, l: Lines) { forall t :: Asleep(w, t) ==> InLine(l, t) }

  /** The chains start at the sources, share nobody, and hold every sleeper. */
  ghost predicate Inv(w: World, l: Lines) { Started(w, l) && Disjoint(l) && Covered(w, l) }

  // ---------- the steps ----------

  /** sleep_on up to schedule(). */
  function Slept(w: World, t: nat, q: nat): World
    requires q in w.head
  {
    w.(head := w.head[q := t], tasks := w.tasks[t := Sleeping(w.head[q], false)])
  }

  function SleptLines(l: Lines, t: nat, q: nat): Lines
    requires Queue(q) in l
  {
    l[Queue(q) := [t] + l[Queue(q)]]
  }

  /** The task named by pointer t gets state 0. */
  function Awoken(tasks: map<nat, Task>, t: int): map<nat, Task> {
    if t >= 0 && t in tasks && tasks[t].Sleeping? then tasks[t := tasks[t].(state0 := true)] else tasks
  }

  function Woken(w: World, q: nat): World
    requires q in w.head
  {
    World(w.head[q := -1], Awoken(w.tasks, w.head[q]))
  }

  /** The end of sleep_on: the task saved in tmp gets state 0. */
  function Returned(w: World, r: nat): World
    requires Released(w, r)
  {
    w.(tasks := Awoken(w.tasks, w.tasks[r].tmp)[r := Outside])
  }

  /** The first of the line behind source s is released and takes the rest of the line over. */
  function Passed(l: Lines, s: Source): Lines
    requires s in l
  {
    if l[s] == [] then l else l[s := []][By(l[s][0]) := l[s][1..]]
  }

  /** A line whose tasks did not change. */
  lemma LinkedSame(w: World, w': World, line: seq<nat>)
    requires Linked(w, line) && forall t :: t in line ==> t in w'.tasks && t in w.tasks && w'.tasks[t] == w.tasks[t]
    ensures Linked(w', line)
  {
    forall i | 0 <= i < |line| ensures LinkAt(w', line, i) { assert LinkAt(w, line, i) && line[i] in line; }
  }

  lemma LinkedTail(w: World, line: seq<nat>)
    requires Linked(w, line) && line != []
    ensures Linked(w, line[1..]) && Asleep(w, line[0]) && w.tasks[line[0]].tmp == First(line[1..])
      && line[0] !in line[1..]
  {
    assert LinkAt(w, line, 0);
    forall i | 0 <= i < |line[1..]| ensures LinkAt(w, line[1..], i) {
      assert LinkAt(w, line, i + 1) && line[1..][i + 1..] == line[i + 1 + 1..];
    }
  }

  lemma LinkedMore(w: World, line: seq<nat>, t: nat)
    requires Linked(w, line) && t !in line && Asleep(w, t) && w.tasks[t].tmp == First(line)
    ensures Linked(w, [t] + line)
  {
    var more := [t] + line;
    forall i | 0 <= i < |more| ensures LinkAt(w, more, i) {
      if i > 0 {
        assert LinkAt(w, line, i - 1) && more[i + 1..] == line[i - 1 + 1..];
      } else {
        assert more[1..] == line;
      }
    }
  }

  lemma SleepersOnly(w: World, line: seq<nat>, t: nat)
    requires Linked(w, line) && t in line
    ensures Asleep(w, t)
  {
    var i :| 0 <= i < |line| && line[i] == t;
    assert LinkAt(w, line, i);
  }

  lemma Still(w: World, w': World, line: seq<nat>, t: nat)
    requires Linked(w, line) && t !in line
      && (forall u :: u in w.tasks && u != t ==> u in w'.tasks && w'.tasks[u] == w.tasks[u])
    ensures Linked(w', line)
  {
    forall u | u in line ensures u in w.tasks { SleepersOnly(w, line, u); }
    LinkedSame(w, w', line);
  }

  /** A running task joins queue q. */
  lemma SleepKeeps(w: World, l: Lines, t: nat, q: nat)
    requires Inv(w, l) && t in w.tasks && w.tasks[t].Outside? && q in w.head
    ensures Queue(q) in l && Inv(Slept(w, t, q), SleptLines(l, t, q))
  {
    var w', l' := Slept(w, t, q), SleptLines(l, t, q);
    forall s | s in l ensures t !in l[s] && Linked(w', l[s]) {
      if t in l[s] { SleepersOnly(w, l[s], t); }
      Still(w, w', l[s], t);
    }
    LinkedMore(w', l[Queue(q)], t);
    assert Started(w', l');
    forall u | Asleep(w', u) ensures InLine(l', u) {
      if u == t {
        assert u in l'[Queue(q)];
      } else {
        assert Asleep(w, u);
        var s :| s in l && u in l[s];
        assert u in l'[s];
      }
    }
  }

  /** The first of a line gets state 0; source s has nobody behind it any more. */
  lemma PassKeeps(w: World, l: Lines, s: Source, w': World)
    requires Inv(w, l) && s in l && w'.tasks == Awoken(w.tasks, Pointer(w, s))
    requires if s.Queue? then w'.head == w.head[s.q := -1] else w'.head == w.head
    ensures forall p :: p in Passed(l, s) && p != s ==> IsSource(w', p) && Pointer(w', p) == First(Passed(l, s)[p])
    ensures forall p :: p in Passed(l, s) ==> Linked(w', Passed(l, s)[p])
    ensures forall p :: p in Passed(l, s) <==> IsSource(w', p)
    ensures Disjoint(Passed(l, s)) && Covered(w', Passed(l, s))
    ensures Passed(l, s)[s] == [] && (s.Queue? ==> Pointer(w', s) == -1)
  {
    hide Covered;
    var l', line := Passed(l, s), l[s];
    if line == [] {
      assert w'.tasks == w.tasks;
      forall p | p in l ensures Linked(w', l[p]) {
        forall u | u in l[p] ensures u in w.tasks { SleepersOnly(w, l[p], u); }
        LinkedSame(w, w', l[p]);
      }
    } else {
      LinkedTail(w, line);
      var t := line[0];
      assert w'.tasks == w.tasks[t := w.tasks[t].(state0 := true)];
      forall p | p in l && p != s ensures t !in l[p] && Linked(w', l[p]) {
        assert t in line && Apart(l[s], l[p]);
        Still(w, w', l[p], t);
      }
      Still(w, w', line[1..], t);
      PassApart(l, s);
    }
    PassCovers(w, l, s, w');
  }

  lemma PassApart(l: Lines, s: Source)
    requires Disjoint(l) && s in l && l[s] != []
    ensures Disjoint(Passed(l, s))
  {
    var l', t := Passed(l, s), l[s][0];
    forall a, b | a in l' && b in l' && a != b ensures Apart(l'[a], l'[b]) {
      var a0, b0 := if a == By(t) then s else a, if b == By(t) then s else b;
      if a0 != b0 { assert Apart(l[a0], l[b0]); }
    }
  }

  lemma PassCovers(w: World, l: Lines, s: Source, w': World)
    requires Inv(w, l) && s in l && w'.tasks == Awoken(w.tasks, Pointer(w, s))
    ensures Covered(w', Passed(l, s))
  {
    if l[s] != [] {
      LinkedTail(w, l[s]);
      assert !IsSource(w, By(l[s][0]));
    }
    forall u | Asleep(w', u) ensures InLine(Passed(l, s), u) {
      assert Asleep(w, u);
      var p :| p in l && u in l[p];
      if p == s {
        assert u == l[s][0] || u in l[s][1..];
        assert u in Passed(l, s)[By(l[s][0])];
      } else {
        assert u in Passed(l, s)[p];
      }
    }
  }

  lemma WakeKeeps(w: World, l: Lines, q: nat)
    requires Inv(w, l) && q in w.head
    ensures Queue(q) in l && Inv(Woken(w, q), Passed(l, Queue(q)))
  {
    PassKeeps(w, l, Queue(q), Woken(w, q));
  }

  lemma ReturnKeeps(w: World, l: Lines, r: nat)
    requires Inv(w, l) && Released(w, r)
    ensures By(r) in l && Inv(Returned(w, r), Passed(l, By(r)) - {By(r)})
  {
    hide Covered, Linked, Awoken;
    var w1 := w.(tasks := Awoken(w.tasks, w.tasks[r].tmp));
    PassKeeps(w, l, By(r), w1);
    if l[By(r)] != [] { LinkedTail(w, l[By(r)]); }
    Leaves(w1, Returned(w, r), Passed(l, By(r)), r);
    LeftCovers(w1, Returned(w, r), Passed(l, By(r)), r);
  }

  /** A released task in front of nobody leaves sleep_on. */
  lemma Leaves(w: World, w': World, l: Lines, r: nat)
    requires w' == w.(tasks := w.tasks[r := Outside]) && By(r) in l && Disjoint(l) && Released(w, r)
    requires forall p :: p in l ==> Linked(w, l[p])
    requires forall p :: p in l <==> IsSource(w, p)
    requires forall p :: p in l && p != By(r) ==> Pointer(w, p) == First(l[p])
    ensures Started(w', l - {By(r)}) && Disjoint(l - {By(r)})
  {
    hide Linked;
    var l' := l - {By(r)};
    forall p | p in l' ensures Linked(w', l'[p]) {
      if r in l'[p] { SleepersOnly(w, l'[p], r); }
      Still(w, w', l'[p], r);
    }
  }

  lemma LeftCovers(w: World, w': World, l: Lines, r: nat)
    requires Covered(w, l) && (By(r) in l ==> l[By(r)] == []) && w' == w.(tasks := w.tasks[r := Outside])
    ensures Covered(w', l - {By(r)})
  {
    forall u | Asleep(w', u) ensures InLine(l - {By(r)}, u) {
      assert Asleep(w, u);
      var p :| p in l && u in l[p];
      assert u in (l - {By(r)})[p];
    }
  }

  // ---------- what it means ----------

  /** Pointer s, of a queue or saved by a task inside sleep_on, names task t. */
  predicate Names(w: World, s: Source, t: nat) {
    if s.Queue? then s.q in w.head && w.head[s.q] == t
    else s.r in w.tasks && w.tasks[s.r].Sleeping? && w.tasks[s.r].tmp == t
  }

  /** Every sleeper has exactly one waker, and every waker names a sleeper: nobody is lost or woken twice. */
  lemma OneWaker(w: World, l: Lines, t: nat)
    requires Inv(w, l)
    ensures Asleep(w, t) <==> exists s :: Names(w, s, t)
    ensures forall s, p :: Names(w, s, t) && Names(w, p, t) ==> s == p
  {
    forall s | Names(w, s, t) ensures Asleep(w, t) && exists p, i :: At(l, p, i, t) && s == WakerAt(l, p, i) {
      WakerIs(w, l, s, t);
    }
    if Asleep(w, t) {
      var p :| p in l && t in l[p];
      var i :| 0 <= i < |l[p]| && l[p][i] == t;
      NamedAt(w, l, p, i);
    }
    forall s, p | Names(w, s, t) && Names(w, p, t) ensures s == p {
      var a, i :| At(l, a, i, t) && s == WakerAt(l, a, i);
      var b, j :| At(l, b, j, t) && p == WakerAt(l, b, j);
      OnePlace(w, l, a, i, b, j, t);
    }
  }

  /** t is the i-th of the line behind s. */
  predicate At(l: Lines, s: Source, i: nat, t: nat) { s in l && i < |l[s]| && l[s][i] == t }

  /** Who names the i-th of a line: the source, or the task before it. */
  function WakerAt(l: Lines, s: Source, i: nat): Source
    requires s in l && i < |l[s]|
  {
    if i == 0 then s else By(l[s][i - 1])
  }

  lemma NamedAt(w: World, l: Lines, s: Source, i: nat)
    requires Inv(w, l) && s in l && i < |l[s]|
    ensures Names(w, WakerAt(l, s, i), l[s][i])
  {
    if i > 0 { assert LinkAt(w, l[s], i - 1); }
  }

  lemma OnePlace(w: World, l: Lines, a: Source, i: nat, b: Source, j: nat, t: nat)
    requires Inv(w, l) && At(l, a, i, t) && At(l, b, j, t)
    ensures a == b && i == j
  {
    assert t in l[a] && t in l[b];
  }

  lemma WakerIs(w: World, l: Lines, s: Source, t: nat)
    requires Inv(w, l) && Names(w, s, t)
    ensures Asleep(w, t) && exists p, i :: At(l, p, i, t) && s == WakerAt(l, p, i)
  {
    if s in l {
      assert Pointer(w, s) == First(l[s]);
      assert At(l, s, 0, t) && s == WakerAt(l, s, 0);
      SleepersOnly(w, l[s], t);
    } else {
      assert Asleep(w, s.r);
      var p :| p in l && s.r in l[p];
      var i :| 0 <= i < |l[p]| && l[p][i] == s.r;
      assert LinkAt(w, l[p], i);
      assert At(l, p, i + 1, t) && s == WakerAt(l, p, i + 1);
      SleepersOnly(w, l[p], t);
    }
  }

  // ---------- one wake_up releases the whole queue ----------

  datatype Event = Sleep(t: nat, q: nat) | Wake(q: nat) | Return(r: nat)

  function Step(w: World, e: Event): World {
    match e
    case Sleep(t, q) => if t in w.tasks && w.tasks[t].Outside? && q in w.head then Slept(w, t, q) else w
    case Wake(q) => if q in w.head then Woken(w, q) else w
    case Return(r) => if Released(w, r) then Returned(w, r) else w
  }

  function StepLines(w: World, l: Lines, e: Event): Lines {
    match e
    case Sleep(t, q) =>
      if t in w.tasks && w.tasks[t].Outside? && q in w.head && Queue(q) in l then SleptLines(l, t, q) else l
    case Wake(q) => if Queue(q) in l then Passed(l, Queue(q)) else l
    case Return(r) => if By(r) in l then Passed(l, By(r)) - {By(r)} else l
  }

  lemma StepKeeps(w: World, l: Lines, e: Event)
    requires Inv(w, l)
    ensures Inv(Step(w, e), StepLines(w, l, e))
  {
    hide Inv;
    SourcesAre(w, l);
    match e
    case Sleep(t, q) => if t in w.tasks && w.tasks[t].Outside? && q in w.head { SleepKeeps(w, l, t, q); }
    case Wake(q) => if q in w.head { WakeKeeps(w, l, q); }
    case Return(r) => if Released(w, r) { ReturnKeeps(w, l, r); }
  }

  lemma SourcesAre(w: World, l: Lines)
    requires Inv(w, l)
    ensures forall q: nat :: Queue(q) in l <==> q in w.head
    ensures forall r: nat :: By(r) in l <==> Released(w, r)
  {
  }

  /** t is on its way out: behind the awake task r with `ahead` tasks to be released
      before it or, awake itself, with none. */
  predicate Freed(l: Lines, t: nat, r: nat, ahead: nat) {
    if ahead == 0 then r == t && By(t) in l else At(l, By(r), ahead - 1, t)
  }

  /** Only the task that t waits behind brings t forward, by one; that task can run. */
  lemma FreedStep(w: World, l: Lines, e: Event, t: nat, r: nat, ahead: nat)
    requires Inv(w, l) && Freed(l, t, r, ahead) && e != Return(t)
    ensures Released(w, r) && (ahead == 0 <==> Released(w, t))
    ensures e != Return(r) ==> Freed(StepLines(w, l, e), t, r, ahead)
    ensures e == Return(r) ==> ahead > 0 && Freed(StepLines(w, l, e), t, l[By(r)][0], ahead - 1)
  {
    hide Covered;
    if ahead > 0 { SleepersOnly(w, l[By(r)], t); }
    if e.Wake? && Queue(e.q) in l && l[Queue(e.q)] != [] {
      LinkedTail(w, l[Queue(e.q)]);
      assert By(l[Queue(e.q)][0]) !in l;
    }
    if e.Return? && By(e.r) in l && l[By(e.r)] != [] {
      LinkedTail(w, l[By(e.r)]);
      assert By(l[By(e.r)][0]) !in l;
    }
  }

  /** How often, in a run, the task that t waits behind returns from sleep_on. */
  function Forward(w: World, l: Lines, events: seq<Event>, t: nat, r: nat, ahead: nat): nat
    decreases |events|
  {
    if events == [] || ahead == 0 then 0
    else if events[0] == Return(r) && By(r) in l && l[By(r)] != [] then
      1 + Forward(Step(w, events[0]), StepLines(w, l, events[0]), events[1..], t, l[By(r)][0], ahead - 1)
    else Forward(Step(w, events[0]), StepLines(w, l, events[0]), events[1..], t, r, ahead)
  }

  function RunOf(w: World, events: seq<Event>): World
    decreases |events|
  {
    if events == [] then w else RunOf(Step(w, events[0]), events[1..])
  }

  /** While t has tasks ahead, an awake one stands before it; after `ahead` returns of those, t is awake. */
  lemma {:induction false} RunFrees(w: World, l: Lines, events: seq<Event>, t: nat, r: nat, ahead: nat)
    requires Inv(w, l) && Freed(l, t, r, ahead) && Return(t) !in events
    ensures Forward(w, l, events, t, r, ahead) <= ahead
    ensures Released(RunOf(w, events), t) <==> Forward(w, l, events, t, r, ahead) == ahead
    ensures Forward(w, l, events, t, r, ahead) < ahead ==>
      exists leader :: leader != t && Released(RunOf(w, events), leader)
    decreases |events|
  {
    hide Inv, Freed, Step, StepLines, Released;
    FreedNow(w, l, t, r, ahead);
    if events != [] {
      var e := events[0];
      FreedStep(w, l, e, t, r, ahead);
      StepKeeps(w, l, e);
      if e == Return(r) {
        RunFrees(Step(w, e), StepLines(w, l, e), events[1..], t, l[By(r)][0], ahead - 1);
      } else {
        RunFrees(Step(w, e), StepLines(w, l, e), events[1..], t, r, ahead);
      }
    }
  }

  lemma FreedNow(w: World, l: Lines, t: nat, r: nat, ahead: nat)
    requires Inv(w, l) && Freed(l, t, r, ahead)
    ensures Released(w, r) && (ahead == 0 <==> Released(w, t)) && (ahead > 0 ==> r != t && By(r) in l && l[By(r)] != [])
    ensures ahead == 0 ==> r == t
  {
    if ahead > 0 { SleepersOnly(w, l[By(r)], t); }
  }

  /** After a wake_up the i-th of the queue has i tasks ahead of it, whatever else happens. */
  lemma WakeFrees(w: World, l: Lines, q: nat, i: nat, t: nat)
    requires Inv(w, l) && At(l, Queue(q), i, t)
    ensures Inv(Step(w, Wake(q)), StepLines(w, l, Wake(q)))
    ensures Freed(StepLines(w, l, Wake(q)), t, l[Queue(q)][0], i)
  {
    StepKeeps(w, l, Wake(q));
  }

  // ---------- fair runs ----------

  /** The queues and tasks after the first n events of an endless run. */
  function WorldAt(w: World, run: nat -> Event, n: nat): World {
    if n == 0 then w else Step(WorldAt(w, run, n - 1), run(n - 1))
  }

  function LinesAt(w: World, l: Lines, run: nat -> Event, n: nat): Lines {
    if n == 0 then l else StepLines(WorldAt(w, run, n - 1), LinesAt(w, l, run, n - 1), run(n - 1))
  }

  ghost predicate ReturnsFrom(run: nat -> Event, r: nat, n: nat) { exists m :: m >= n && run(m) == Return(r) }

  /** Whoever is awake inside sleep_on gets the processor some time later and returns. */
  ghost predicate Fair(w: World, run: nat -> Event) {
    forall n, r :: Released(WorldAt(w, run, n), r) ==> ReturnsFrom(run, r, n)
  }

  lemma {:induction false} RunKeeps(w: World, l: Lines, run: nat -> Event, n: nat)
    requires Inv(w, l)
    ensures Inv(WorldAt(w, run, n), LinesAt(w, l, run, n))
  {
    if n > 0 {
      RunKeeps(w, l, run, n - 1);
      StepKeeps(WorldAt(w, run, n - 1), LinesAt(w, l, run, n - 1), run(n - 1));
    }
  }

  /** A task that is still asleep cannot return: that event changes nothing. */
  lemma NoReturnYet(w: World, l: Lines, t: nat, r: nat, ahead: nat)
    requires Inv(w, l) && Freed(l, t, r, ahead) && ahead > 0
    ensures StepLines(w, l, Return(t)) == l && r != t
  {
    hide Inv, Freed;
    FreedNow(w, l, t, r, ahead);
    SourcesAre(w, l);
  }

  predicate FreedAt(w: World, l: Lines, run: nat -> Event, n: nat, t: nat, r: nat, ahead: nat) {
    Freed(LinesAt(w, l, run, n), t, r, ahead)
  }

  predicate MovedUp(w: World, l: Lines, run: nat -> Event, n: nat, t: nat, r: nat, ahead: nat) {
    ahead > 0 && FreedAt(w, l, run, n, t, r, ahead - 1)
  }

  /** When the task that t waits behind returns at event m, t has moved up by then. */
  lemma {:induction false} MovesUp(w: World, l: Lines, run: nat -> Event, n: nat, m: nat, t: nat, r: nat, ahead: nat)
    requires Inv(w, l) && n <= m && run(m) == Return(r) && ahead > 0 && FreedAt(w, l, run, n, t, r, ahead)
    ensures exists k, leader :: k > n && MovedUp(w, l, run, k, t, leader, ahead)
    decreases m - n
  {
    hide Inv, Freed, Step, StepLines;
    RunKeeps(w, l, run, n);
    var now, lines := WorldAt(w, run, n), LinesAt(w, l, run, n);
    FreedNow(now, lines, t, r, ahead);
    if run(n) == Return(t) {
      NoReturnYet(now, lines, t, r, ahead);
    } else {
      FreedStep(now, lines, run(n), t, r, ahead);
    }
    if run(n) == Return(r) {
      assert MovedUp(w, l, run, n + 1, t, lines[By(r)][0], ahead);
    } else {
      MovesUp(w, l, run, n + 1, m, t, r, ahead);
    }
  }

  /** In a fair run a task on its way out gets out. */
  lemma {:induction false} FairFrees(w: World, l: Lines, run: nat -> Event, n: nat, t: nat, r: nat, ahead: nat)
    requires Inv(w, l) && Fair(w, run) && FreedAt(w, l, run, n, t, r, ahead)
    ensures exists k :: k >= n && Released(WorldAt(w, run, k), t)
    decreases ahead
  {
    hide Inv, Freed, Released;
    RunKeeps(w, l, run, n);
    FreedNow(WorldAt(w, run, n), LinesAt(w, l, run, n), t, r, ahead);
    if ahead > 0 {
      var m :| m >= n && run(m) == Return(r);
      MovesUp(w, l, run, n, m, t, r, ahead);
      var k, leader :| k > n && MovedUp(w, l, run, k, t, leader, ahead);
      FairFrees(w, l, run, k, t, leader, ahead - 1);
    }
  }

  /** Under fair scheduling one wake_up releases everyone who is queued at that moment. */
  lemma WakeReleasesAll(w: World, l: Lines, q: nat, run: nat -> Event, t: nat)
    requires Inv(w, l) && Queue(q) in l && t in l[Queue(q)] && Fair(Step(w, Wake(q)), run)
    ensures exists k :: Released(WorldAt(Step(w, Wake(q)), run, k), t)
  {
    hide Inv, Freed, Released, Step, StepLines, Fair;
    var i :| 0 <= i < |l[Queue(q)]| && l[Queue(q)][i] == t;
    WakeFrees(w, l, q, i, t);
    var lines := StepLines(w, l, Wake(q));
    assert LinesAt(Step(w, Wake(q)), lines, run, 0) == lines;
    FairFrees(Step(w, Wake(q)), lines, run, 0, t, l[Queue(q)][0], i);
  }

  // ---------- the queues in memory ----------

  class WaitQueues {
    var head: map<nat, int>
    var tasks: map<nat, Task>
    ghost var lines: Lines

    ghost function W(): World
      reads this
    {
      World(head, tasks)
    }

    ghost predicate Valid()
      reads this
    {
      Inv(W(), lines)
    }

    constructor (queues: set<nat>, users: set<nat>)
      ensures Valid() && head.Keys == queues && tasks.Keys == users
    {
      head := map q | q in queues :: -1;
      tasks := map t | t in users :: Outside;
      lines := map q | q in queues :: Queue(q) := [];
    }

    /** Up to the call of schedule(); task 0 must not sleep (false: the kernel panics). */
    method SleepOn(current: nat, q: nat) returns (ok: bool)
      requires Valid() && q in head && current in tasks && tasks[current].Outside?
      modifies this
      ensures Valid() && ok == (current != 0)
      ensures W() == if ok then Step(old(W()), Sleep(current, q)) else old(W())
      ensures lines == if ok then StepLines(old(W()), old(lines), Sleep(current, q)) else old(lines)
    {
      if current == 0 { return false; }
      StepKeeps(W(), lines, Sleep(current, q));
      SourcesAre(W(), lines);
      lines := StepLines(W(), lines, Sleep(current, q));
      var tmp := head[q];
      head := head[q := current];
      tasks := tasks[current := Sleeping(tmp, false)];
      return true;
    }

    /** The rest of sleep_on, once the task has been woken and scheduled. */
    method Wakened(current: nat)
      requires Valid() && Released(W(), current)
      modifies this
      ensures Valid() && W() == Step(old(W()), Return(current))
        && lines == StepLines(old(W()), old(lines), Return(current))
    {
      StepKeeps(W(), lines, Return(current));
      TmpSleeps(W(), lines, current);
      lines := StepLines(W(), lines, Return(current));
      var tmp := tasks[current].tmp;
      if tmp != -1 {
        var t: nat := tmp;
        tasks := tasks[t := tasks[t].(state0 := true)];
      }
      tasks := tasks[current := Outside];
    }

    method WakeUp(q: nat)
      requires Valid() && q in head
      modifies this
      ensures Valid() && W() == Step(old(W()), Wake(q)) && lines == StepLines(old(W()), old(lines), Wake(q))
    {
      StepKeeps(W(), lines, Wake(q));
      HeadSleeps(W(), lines, q);
      lines := StepLines(W(), lines, Wake(q));
      if head[q] != -1 {
        var t: nat := head[q];
        tasks := tasks[t := tasks[t].(state0 := true)];
        head := head[q := -1];
      } else {
        assert head[q := -1] == head;
      }
    }
  }

  lemma TmpSleeps(w: World, l: Lines, r: nat)
    requires Inv(w, l) && Released(w, r)
    ensures w.tasks[r].tmp == -1 || (w.tasks[r].tmp >= 0 && Asleep(w, w.tasks[r].tmp))
  {
    assert Pointer(w, By(r)) == First(l[By(r)]);
    if l[By(r)] != [] { LinkedTail(w, l[By(r)]); }
  }

  lemma HeadSleeps(w: World, l: Lines, q: nat)
    requires Inv(w, l) && q in w.head
    ensures w.head[q] == -1 || (w.head[q] >= 0 && Asleep(w, w.head[q]))
  {
    assert Pointer(w, Queue(q)) == First(l[Queue(q)]);
    if l[Queue(q)] != [] { LinkedTail(w, l[Queue(q)]); }
  }
}
