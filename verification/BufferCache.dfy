/** The buffer cache of VLinux0.11/fs/buffer.c, shared by tasks that may sleep inside getblk,
    get_hash_table, bread and brelse; the driver (ll_rw_blk.c, blk.h) moves data behind their backs. */
module BufferCache {
  import opened BufferQueues

  datatype Key = Key(dev: bv32, block: bv32)

  /** What the driver does with a buffer: nothing, make_request has locked it, or the request is queued. */
  datatype Io = NoIo | Waiting(write: bool) | Queued(write: bool)

  /** Who asked for the buffer: get_hash_table itself, getblk or bread. */
  datatype Aim = Find | Get | Read

  /** Where a task is: outside the cache, or asleep at one of the sleeping points. */
  datatype Pc =
    | Running
    | InHash(dev: bv32, block: bv32, bh: nat, aim: Aim)
    | InFreeSleep(dev: bv32, block: bv32, aim: Aim)
    | InVictim(dev: bv32, block: bv32, bh: nat, aim: Aim)
    | InSync(dev: bv32, block: bv32, bh: nat, aim: Aim)
    | ReadLock(dev: bv32, block: bv32, bh: nat)
    | ReadWait(dev: bv32, block: bv32, bh: nat)
    | Releasing(bh: nat)

  /** A task and the buffers it got and has not released. */
  datatype Task = Task(pc: Pc, held: multiset<nat>)

  datatype World = World(q: Queues, io: seq<Io>, disk: map<Key, Data>, tasks: map<nat, Task>)

  /** Proof data: the chains and the ring, who uses each buffer, and the plain disk that the cache stands for. */
  datatype View = View(chains: seq<seq<int>>, ring: seq<int>, users: seq<multiset<nat>>, image: map<Key, Data>)

  function At(m: map<Key, Data>, k: Key): Data { if k in m then m[k] else [] }

  function KeyOf(h: Head): Key { Key(h.dev, h.blocknr) }

  /** The task counts in b_count of b through its program counter. */
  predicate PcHolds(pc: Pc, b: nat) {
    match pc
    case InHash(_, _, bh, _) => bh == b
    case ReadLock(_, _, bh) => bh == b
    case ReadWait(_, _, bh) => bh == b
    case Releasing(bh) => bh == b
    case _ => false
  }

  function Holds(t: Task, b: nat): nat { t.held[b] + if PcHolds(t.pc, b) then 1 else 0 }

  /** b_count is the number of uses, task by task. */
  ghost predicate Counted(buf: seq<Head>, tasks: map<nat, Task>, users: seq<multiset<nat>>) {
    && |users| == |buf|
    && (forall b :: 0 <= b < |buf| ==> |users[b]| == buf[b].count)
    && (forall t, b :: t in tasks && 0 <= b < |buf| ==> users[b][t] == Holds(tasks[t], b))
    && (forall t, b :: t !in tasks && 0 <= b < |buf| ==> users[b][t] == 0)
  }

  /** Program counters and held buffers name buffers; a task that waits for a buffer waits for the right one. */
  ghost predicate Placed(buf: seq<Head>, tasks: map<nat, Task>) {
    && (forall t :: t in tasks ==> PcPlaced(buf, tasks[t].pc))
    && (forall t, b :: t in tasks && b in tasks[t].held ==> b < |buf|)
  }

  predicate PcPlaced(buf: seq<Head>, pc: Pc) {
    match pc
    case InHash(dev, block, bh, _) => bh < |buf| && buf[bh].dev == dev && buf[bh].blocknr == block && dev != 0
    case InFreeSleep(_, _, aim) => !aim.Find?
    case InVictim(_, _, bh, aim) => bh < |buf| && !aim.Find?
    case InSync(_, _, bh, aim) => bh < |buf| && !aim.Find?
    case ReadLock(dev, block, bh) => bh < |buf| && buf[bh].dev == dev && buf[bh].blocknr == block
    case ReadWait(dev, block, bh) => bh < |buf| && buf[bh].dev == dev && buf[bh].blocknr == block
    case Releasing(bh) => bh < |buf|
    case _ => true
  }

  predicate Reading(io: Io) { !io.NoIo? && !io.write }
  predicate Writing(io: Io) { io.Queued? && io.write }

  /** Locks and flags of one buffer. */
  predicate FlagsOk(h: Head, io: Io) {
    && (h.lock <==> io != NoIo)
    && (h.dirt ==> h.dev != 0)
    && (Reading(io) ==> !h.uptodate)
    && (!io.NoIo? && io.write ==> h.dev != 0)
    && (io == Waiting(true) ==> h.dirt)
  }

  ghost predicate Flags(buf: seq<Head>, io: seq<Io>) {
    |io| == |buf| && forall b :: 0 <= b < |buf| ==> FlagsOk(buf[b], io[b])
  }

  /** The data of one buffer against the device and the plain disk. */
  predicate DataOk(h: Head, io: Io, disk: map<Key, Data>, image: map<Key, Data>) {
    h.dev != 0 && h.uptodate ==>
      && h.data == At(image, KeyOf(h))
      && (!h.dirt && !Writing(io) ==> h.data == At(disk, KeyOf(h)))
  }

  predicate Cached(h: Head, k: Key) { h.uptodate && KeyOf(h) == k }

  /** The plain disk is what the up-to-date buffers hold, and elsewhere the device. */
  ghost predicate Mirrors(buf: seq<Head>, io: seq<Io>, disk: map<Key, Data>, image: map<Key, Data>) {
    && |io| == |buf|
    && (forall b :: 0 <= b < |buf| ==> DataOk(buf[b], io[b], disk, image))
    && (forall k: Key :: k.dev != 0 && (forall b :: 0 <= b < |buf| ==> !Cached(buf[b], k)) ==>
       At(disk, k) == At(image, k))
  }

  ghost predicate Inv(w: World, v: View) {
    && Linked(w.q, v.chains, v.ring) && Counted(w.q.buf, w.tasks, v.users) && Placed(w.q.buf, w.tasks)
    && Flags(w.q.buf, w.io) && Mirrors(w.q.buf, w.io, w.disk, v.image)
  }

  /** What no step does to a buffer in use: give it to another block or take its data away. */
  ghost predicate Steady(w: World, w': World) {
    && |w'.q.buf| == |w.q.buf|
    && forall b :: 0 <= b < |w.q.buf| && w.q.buf[b].count > 0 ==>
         && w'.q.buf[b].dev == w.q.buf[b].dev && w'.q.buf[b].blocknr == w.q.buf[b].blocknr
         && (w.q.buf[b].uptodate ==> w'.q.buf[b].uptodate)
  }

  /** The same but for buffer bh, which a failed write may make invalid. */
  ghost predicate SteadyBut(w: World, w': World, bh: nat) {
    && |w'.q.buf| == |w.q.buf|
    && forall b :: 0 <= b < |w.q.buf| && w.q.buf[b].count > 0 ==>
         && w'.q.buf[b].dev == w.q.buf[b].dev && w'.q.buf[b].blocknr == w.q.buf[b].blocknr
         && (b != bh && w.q.buf[b].uptodate ==> w'.q.buf[b].uptodate)
  }

  // ---------- changes that leave the queues alone ----------

  /** The same buffers in the same queues for the same blocks. */
  ghost predicate SameQueues(q: Queues, q': Queues) {
    && q'.hash == q.hash && q'.free == q.free && SameFree(q.buf, q'.buf) && SameHash(q.buf, q'.buf)
    && forall b :: 0 <= b < |q.buf| ==> q'.buf[b].dev == q.buf[b].dev && q'.buf[b].blocknr == q.buf[b].blocknr
  }

  lemma LinkedSame(q: Queues, q': Queues, chains: seq<seq<int>>, ring: seq<int>)
    requires Linked(q, chains, ring) && SameQueues(q, q')
    ensures Linked(q', chains, ring)
  {
    HashedSame(q, q', chains, -1);
    RingSame(q.buf, q'.buf, q.free, ring);
  }

  /** Only the state of buffer b changes, not its place. */
  function Set(q: Queues, b: nat, h: Head): Queues
    requires b < |q.buf|
  {
    q.(buf := q.buf[b := h])
  }

  predicate SamePlace(h: Head, h': Head) {
    h'.dev == h.dev && h'.blocknr == h.blocknr && h'.prev == h.prev && h'.next == h.next
    && h'.prevFree == h.prevFree && h'.nextFree == h.nextFree
  }

  lemma SetKeepsQueues(q: Queues, b: nat, h: Head)
    requires b < |q.buf| && SamePlace(q.buf[b], h)
    ensures SameQueues(q, Set(q, b, h))
  {
  }

  /** Task t takes or drops one use of b. */
  lemma UseChanges(buf: seq<Head>, tasks: map<nat, Task>, users: seq<multiset<nat>>, t: nat, b: nat, task: Task,
                   h: Head, uses: multiset<nat>)
    requires Counted(buf, tasks, users) && t in tasks && b < |buf| && h.count == |uses|
    requires forall x :: x != t ==> uses[x] == users[b][x]
    requires uses[t] == Holds(task, b)
    requires forall c: nat :: c != b ==> Holds(task, c) == Holds(tasks[t], c)
    ensures Counted(buf[b := h], tasks[t := task], users[b := uses])
  {
  }

  /** Task t moves one use of b between its program counter and its hands, or only moves on. */
  lemma UseStays(buf: seq<Head>, tasks: map<nat, Task>, users: seq<multiset<nat>>, t: nat, task: Task)
    requires Counted(buf, tasks, users) && t in tasks
    requires forall c: nat :: Holds(task, c) == Holds(tasks[t], c)
    ensures Counted(buf, tasks[t := task], users)
  {
  }

  lemma PlacedAfter(buf: seq<Head>, buf': seq<Head>, tasks: map<nat, Task>, t: nat, task: Task)
    requires Placed(buf, tasks) && PcPlaced(buf', task.pc) && (forall b :: b in task.held ==> b < |buf'|)
    requires |buf'| == |buf|
      && forall b :: 0 <= b < |buf| ==> buf'[b].dev == buf[b].dev && buf'[b].blocknr == buf[b].blocknr
    ensures Placed(buf', tasks[t := task])
  {
  }

  /** The data part does not see uses and links. */
  lemma MirrorsSame(buf: seq<Head>, buf': seq<Head>, io: seq<Io>, disk: map<Key, Data>, image: map<Key, Data>)
    requires Mirrors(buf, io, disk, image) && Flags(buf, io) && |buf'| == |buf|
    requires forall b :: 0 <= b < |buf| ==> SameData(buf[b], buf'[b])
    ensures Mirrors(buf', io, disk, image) && Flags(buf', io)
  {
    forall k: Key | k.dev != 0 && (forall b :: 0 <= b < |buf'| ==> !Cached(buf'[b], k))
      ensures At(disk, k) == At(image, k)
    {
      forall b | 0 <= b < |buf| ensures !Cached(buf[b], k) { assert SameData(buf[b], buf'[b]) && !Cached(buf'[b], k); }
    }
  }

  predicate SameData(h: Head, h': Head) {
    h'.dev == h.dev && h'.blocknr == h.blocknr && h'.uptodate == h.uptodate && h'.dirt == h.dirt && h'.lock == h.lock
      && h'.data == h.data
  }

  // ---------- steps of tasks ----------

  /** b_count++ for task t, which is then `task`. */
  lemma TakeUse(w: World, v: View, t: nat, b: nat, task: Task)
    requires Inv(w, v) && t in w.tasks && b < |w.q.buf| && PcPlaced(w.q.buf, task.pc)
      && (forall c :: c in task.held ==> c < |w.q.buf|)
    requires forall c: nat :: Holds(task, c) == Holds(w.tasks[t], c) + if c == b then 1 else 0
    ensures |v.users| == |w.q.buf|
    ensures Inv(w.(q := Set(w.q, b, w.q.buf[b].(count := w.q.buf[b].count + 1)), tasks := w.tasks[t := task]),
                v.(users := v.users[b := v.users[b] + multiset{t}]))
  {
    UseStep(w, v, t, b, task, w.q.buf[b].count + 1, v.users[b] + multiset{t});
  }

  /** b_count-- for task t; its count was not 0. */
  lemma DropUse(w: World, v: View, t: nat, b: nat, task: Task)
    requires Inv(w, v) && t in w.tasks && b < |w.q.buf| && PcPlaced(w.q.buf, task.pc)
      && (forall c :: c in task.held ==> c < |w.q.buf|)
    requires forall c: nat :: Holds(w.tasks[t], c) == Holds(task, c) + if c == b then 1 else 0
    ensures |v.users| == |w.q.buf| && w.q.buf[b].count > 0
    ensures Inv(w.(q := Set(w.q, b, w.q.buf[b].(count := w.q.buf[b].count - 1)), tasks := w.tasks[t := task]),
                v.(users := v.users[b := v.users[b] - multiset{t}]))
  {
    assert v.users[b][t] == Holds(w.tasks[t], b) >= 1;
    assert t in v.users[b];
    assert |v.users[b] - multiset{t}| == |v.users[b]| - 1;
    UseStep(w, v, t, b, task, w.q.buf[b].count - 1, v.users[b] - multiset{t});
  }

  lemma UseStep(w: World, v: View, t: nat, b: nat, task: Task, count: nat, uses: multiset<nat>)
    requires Inv(w, v) && t in w.tasks && b < |w.q.buf| && PcPlaced(w.q.buf, task.pc)
      && (forall c :: c in task.held ==> c < |w.q.buf|)
    requires count == |uses| && |v.users| == |w.q.buf| && uses[t] == Holds(task, b)
    requires forall x :: x != t ==> uses[x] == v.users[b][x]
    requires forall c: nat :: c != b ==> Holds(task, c) == Holds(w.tasks[t], c)
    ensures Inv(w.(q := Set(w.q, b, w.q.buf[b].(count := count)), tasks := w.tasks[t := task]),
      v.(users := v.users[b := uses]))
  {
    hide Linked, Counted, Placed, Flags, Mirrors, Holds, PcPlaced, SameQueues, FlagsOk, DataOk;
    var h := w.q.buf[b].(count := count);
    SetKeepsQueues(w.q, b, h);
    LinkedSame(w.q, Set(w.q, b, h), v.chains, v.ring);
    UseChanges(w.q.buf, w.tasks, v.users, t, b, task, h, uses);
    PlacedSame(w.q.buf, Set(w.q, b, h).buf, task.pc);
    PlacedAfter(w.q.buf, Set(w.q, b, h).buf, w.tasks, t, task);
    MirrorsSame(w.q.buf, Set(w.q, b, h).buf, w.io, w.disk, v.image);
  }

  lemma PlacedSame(buf: seq<Head>, buf': seq<Head>, pc: Pc)
    requires PcPlaced(buf, pc) && |buf'| == |buf|
    requires forall b :: 0 <= b < |buf| ==> buf'[b].dev == buf[b].dev && buf'[b].blocknr == buf[b].blocknr
    ensures PcPlaced(buf', pc)
  {
  }

  /** Task t moves on with the same uses. */
  lemma MoveOn(w: World, v: View, t: nat, task: Task)
    requires Inv(w, v) && t in w.tasks && PcPlaced(w.q.buf, task.pc) && (forall c :: c in task.held ==> c < |w.q.buf|)
    requires forall c: nat :: Holds(task, c) == Holds(w.tasks[t], c)
    ensures Inv(w.(tasks := w.tasks[t := task]), v)
  {
    hide Linked, Flags, Mirrors, Holds, PcPlaced;
    UseStays(w.q.buf, w.tasks, v.users, t, task);
    PlacedAfter(w.q.buf, w.q.buf, w.tasks, t, task);
  }

  /** The head that getblk makes of the buffer it takes, apart from the links. */
  function TakenHead(h: Head, dev: bv32, block: bv32): Head {
    h.(count := 1, dirt := false, uptodate := false, dev := dev, blocknr := block)
  }

  /** The queues after getblk has taken buffer b. */
  function Taken(q: Queues, b: nat, dev: bv32, block: bv32): Queues
    requires b < |q.buf| && |q.hash| == NrHash && 0 <= Unlisted(Unhashed(Cleaned(q, b), b), b).free < |q.buf|
  {
    Requeued(Cleaned(q, b), b, dev, block)
  }

  function Cleaned(q: Queues, b: nat): Queues
    requires b < |q.buf|
  {
    Set(q, b, q.buf[b].(count := 1, dirt := false, uptodate := false))
  }

  ghost predicate Free(q: Queues, b: nat, dev: bv32, block: bv32) {
    && b < |q.buf| && q.buf[b].count == 0 && !q.buf[b].lock && !q.buf[b].dirt
    && forall j :: 0 <= j < |q.buf| && dev != 0 ==> q.buf[j].dev != dev || q.buf[j].blocknr != block
  }

  /** Buffer b has gone from its place in the free list to the end. */
  ghost predicate MovedToEnd(ring: seq<int>, ring': seq<int>, b: int) {
    exists k :: 0 <= k < |ring| && ring[k] == b && ring' == ring[..k] + ring[k + 1..] + [b]
  }

  lemma MovesToEnd(q: Queues, chains: seq<seq<int>>, ring: seq<int>, b: nat)
    requires Linked(q, chains, ring) && b < |q.buf|
    ensures MovedToEnd(ring, NewRing(ring, b), b)
  {
    hide Hashed, Unique;
    assert b in ring;
    var k :| 0 <= k < |ring| && ring[k] == b;
    WithoutAt(ring, k);
  }

  /** An unused, unlocked, clean buffer is given to a block that has none: nothing is lost. */
  lemma TakeKeeps(w: World, v: View, t: nat, b: nat, dev: bv32, block: bv32, task: Task)
    requires Inv(w, v) && t in w.tasks && Free(w.q, b, dev, block)
    requires forall c: nat :: Holds(task, c) == Holds(w.tasks[t], c) + if c == b then 1 else 0
    requires (forall c :: c in task.held ==> c < |w.q.buf|) && (task.pc.Running? || task.pc == ReadLock(dev, block, b))
    ensures |w.q.hash| == NrHash && 0 <= Unlisted(Unhashed(Cleaned(w.q, b), b), b).free < |w.q.buf|
    ensures exists v' ::
      Inv(w.(q := Taken(w.q, b, dev, block), tasks := w.tasks[t := task]), v') && v'.image == v.image
      && MovedToEnd(v.ring, v'.ring, b)
    ensures Steady(w, w.(q := Taken(w.q, b, dev, block), tasks := w.tasks[t := task]))
    ensures SameState(TakenHead(w.q.buf[b], dev, block), Taken(w.q, b, dev, block).buf[b])
  {
    hide Counted, Placed, Flags, Mirrors, Holds, PcPlaced, FlagsOk, DataOk, Requeued, Linked, Unlisted, Unhashed,
      NewChains;
    var q1 := Cleaned(w.q, b);
    SetKeepsQueues(w.q, b, q1.buf[b]);
    LinkedSame(w.q, q1, v.chains, v.ring);
    RequeueKeeps(q1, v.chains, v.ring, b, dev, block);
    var q2 := Requeued(q1, b, dev, block);
    assert Others(w.q.buf, q2.buf, b, dev, block);
    var chains', ring' := NewChains(q1.buf[b], v.chains, b, dev, block), NewRing(v.ring, b);
    TakeCounted(w.q.buf, q2.buf, w.tasks, v.users, t, b, task, dev, block);
    TakePlaced(w.q.buf, q2.buf, w.tasks, v.users, t, b, task, dev, block);
    TakeMirrors(w.q.buf, q2.buf, w.io, w.disk, v.image, b, dev, block);
    MovesToEnd(w.q, v.chains, v.ring, b);
    assert Inv(w.(q := q2, tasks := w.tasks[t := task]),
      View(chains', ring', v.users[b := v.users[b] + multiset{t}], v.image));
  }

  /** Buffer b became the fresh buffer of the block; of the others only links changed. */
  ghost predicate Others(buf: seq<Head>, buf': seq<Head>, b: nat, dev: bv32, block: bv32) {
    && |buf'| == |buf| && b < |buf|
    && (forall j :: 0 <= j < |buf| && j != b ==> SameState(buf[j], buf'[j]))
    && SameState(TakenHead(buf[b], dev, block), buf'[b])
  }

  predicate SameState(h: Head, h': Head) { SameData(h, h') && h'.count == h.count }

  lemma TakeCounted(buf: seq<Head>, buf': seq<Head>, tasks: map<nat, Task>, users: seq<multiset<nat>>, t: nat, b: nat,
                    task: Task,
                    dev: bv32, block: bv32)
    requires Counted(buf, tasks, users) && t in tasks && Others(buf, buf', b, dev, block) && buf[b].count == 0
    requires forall c: nat :: Holds(task, c) == Holds(tasks[t], c) + if c == b then 1 else 0
    ensures |users| == |buf| && Counted(buf', tasks[t := task], users[b := users[b] + multiset{t}])
  {
    hide SameData, Holds;
    var uses := users[b] + multiset{t};
    assert |uses| == 1;
    UseChanges(buf, tasks, users, t, b, task, buf[b].(count := 1), uses);
    var users' := users[b := uses];
    forall c | 0 <= c < |buf'| ensures |users'[c]| == buf'[c].count {
      assert SameState(if c == b then TakenHead(buf[b], dev, block) else buf[c], buf'[c]);
    }
  }

  /** A buffer that a task holds is counted. */
  lemma InUse(buf: seq<Head>, tasks: map<nat, Task>, users: seq<multiset<nat>>, t: nat, b: nat)
    requires Counted(buf, tasks, users) && t in tasks && b < |buf| && Holds(tasks[t], b) > 0
    ensures buf[b].count > 0
  {
    assert users[b][t] > 0;
    assert t in users[b];
  }

  lemma TakePlaced(buf: seq<Head>, buf': seq<Head>, tasks: map<nat, Task>, users: seq<multiset<nat>>, t: nat, b: nat,
                   task: Task,
                   dev: bv32, block: bv32)
    requires Counted(buf, tasks, users) && Placed(buf, tasks) && t in tasks && Others(buf, buf', b, dev, block)
      && buf[b].count == 0
    requires (forall c :: c in task.held ==> c < |buf|) && (task.pc.Running? || task.pc == ReadLock(dev, block, b))
    ensures Placed(buf', tasks[t := task])
  {
    assert SameState(TakenHead(buf[b], dev, block), buf'[b]);
    forall x | x in tasks && x != t ensures PcPlaced(buf', tasks[x].pc) {
      assert PcPlaced(buf, tasks[x].pc);
      if tasks[x].pc.InHash? || tasks[x].pc.ReadLock? || tasks[x].pc.ReadWait? {
        InUse(buf, tasks, users, x, tasks[x].pc.bh);
        assert SameState(buf[tasks[x].pc.bh], buf'[tasks[x].pc.bh]);
      }
    }
  }

  lemma TakeMirrors(buf: seq<Head>, buf': seq<Head>, io: seq<Io>, disk: map<Key, Data>, image: map<Key, Data>, b: nat,
                    dev: bv32, block: bv32)
    requires Mirrors(buf, io, disk, image) && Flags(buf, io) && Others(buf, buf', b, dev, block)
    requires !buf[b].lock && !buf[b].dirt
    requires forall j :: 0 <= j < |buf| && dev != 0 ==> buf[j].dev != dev || buf[j].blocknr != block
    ensures Mirrors(buf', io, disk, image) && Flags(buf', io)
  {
    forall j | 0 <= j < |buf'| ensures DataOk(buf'[j], io[j], disk, image) && FlagsOk(buf'[j], io[j]) {
      if j != b { assert SameState(buf[j], buf'[j]) && DataOk(buf[j], io[j], disk, image); }
      assert FlagsOk(buf[j], io[j]);
    }
    forall k: Key | k.dev != 0 && (forall j :: 0 <= j < |buf'| ==> !Cached(buf'[j], k))
      ensures At(disk, k) == At(image, k)
    {
      if Cached(buf[b], k) {
        assert DataOk(buf[b], io[b], disk, image) && FlagsOk(buf[b], io[b]);
      } else {
        forall j | 0 <= j < |buf| ensures !Cached(buf[j], k) {
          if j != b { assert SameState(buf[j], buf'[j]) && !Cached(buf'[j], k); }
        }
      }
    }
  }

  // ---------- steps of the driver and of those who write ----------

  /** The state of one buffer, its block on the device and on the plain disk change together. */
  lemma StateStep(w: World, v: View, b: nat, h: Head, io: Io, disk: map<Key, Data>, image: map<Key, Data>)
    requires Inv(w, v) && b < |w.q.buf| && |w.io| == |w.q.buf| && SamePlace(w.q.buf[b], h)
      && h.count == w.q.buf[b].count
    requires FlagsOk(h, io) && DataOk(h, io, disk, image)
    requires forall k :: k != KeyOf(h) ==> At(disk, k) == At(w.disk, k) && At(image, k) == At(v.image, k)
    requires h.dev != 0 && !h.uptodate ==> At(disk, KeyOf(h)) == At(image, KeyOf(h))
    ensures Inv(w.(q := Set(w.q, b, h), io := w.io[b := io], disk := disk), v.(image := image))
  {
    hide Linked, Counted, Placed, SameQueues, FlagsOk, DataOk, Cached;
    var q' := Set(w.q, b, h);
    SetKeepsQueues(w.q, b, h);
    LinkedSame(w.q, q', v.chains, v.ring);
    CountedState(w.q.buf, w.tasks, v.users, b, h);
    PlacedState(w.q.buf, w.tasks, b, h);
    forall j | 0 <= j < |q'.buf| && j != b ensures DataOk(q'.buf[j], w.io[j], disk, image) {
      DataBeside(w, v, b, h, j, disk, image);
    }
    forall k: Key | k.dev != 0 && (forall j :: 0 <= j < |q'.buf| ==> !Cached(q'.buf[j], k))
      ensures At(disk, k) == At(image, k)
    {
      assert !Cached(q'.buf[b], k);
      NotCached(h, w.q.buf[b], k);
      if k != KeyOf(h) {
        forall j | 0 <= j < |w.q.buf| ensures !Cached(w.q.buf[j], k) { if j != b { assert !Cached(q'.buf[j], k); } }
      }
    }
  }

  lemma NotCached(h: Head, h0: Head, k: Key)
    ensures !Cached(h, k) && k == KeyOf(h) ==> !h.uptodate
    ensures SamePlace(h0, h) && k != KeyOf(h) ==> !Cached(h0, k)
  {
  }

  lemma DataBeside(w: World, v: View, b: nat, h: Head, j: nat, disk: map<Key, Data>, image: map<Key, Data>)
    requires Inv(w, v) && b < |w.q.buf| && j < |w.q.buf| && j != b && |w.io| == |w.q.buf| && SamePlace(w.q.buf[b], h)
    requires forall k :: k != KeyOf(h) ==> At(disk, k) == At(w.disk, k) && At(image, k) == At(v.image, k)
    ensures DataOk(w.q.buf[j], w.io[j], disk, image)
  {
    hide Hashed, Ring, Counted, Placed, Flags;
    assert DataOk(w.q.buf[j], w.io[j], w.disk, v.image);
    if w.q.buf[j].dev != 0 { assert KeyOf(w.q.buf[j]) != KeyOf(w.q.buf[b]); }
  }

  lemma CountedState(buf: seq<Head>, tasks: map<nat, Task>, users: seq<multiset<nat>>, b: nat, h: Head)
    requires Counted(buf, tasks, users) && b < |buf| && h.count == buf[b].count
    ensures Counted(buf[b := h], tasks, users)
  {
  }

  lemma PlacedState(buf: seq<Head>, tasks: map<nat, Task>, b: nat, h: Head)
    requires Placed(buf, tasks) && b < |buf| && SamePlace(buf[b], h)
    ensures Placed(buf[b := h], tasks)
  {
  }

  lemma Facts(w: World, v: View, b: nat)
    requires Inv(w, v) && b < |w.q.buf|
    ensures |w.io| == |w.q.buf| && FlagsOk(w.q.buf[b], w.io[b]) && DataOk(w.q.buf[b], w.io[b], w.disk, v.image)
    ensures w.q.buf[b].dev != 0 && !w.q.buf[b].uptodate ==>
      At(w.disk, KeyOf(w.q.buf[b])) == At(v.image, KeyOf(w.q.buf[b]))
  {
    hide Hashed, Ring, Counted, Placed, DataOk;
    var k := KeyOf(w.q.buf[b]);
    if w.q.buf[b].dev != 0 && !w.q.buf[b].uptodate {
      forall j | 0 <= j < |w.q.buf| ensures !Cached(w.q.buf[j], k) {
        if j != b { assert w.q.buf[j].dev != w.q.buf[b].dev || w.q.buf[j].blocknr != w.q.buf[b].blocknr; }
      }
    }
  }

  /** make_request locks the buffer. */
  lemma LockKeeps(w: World, v: View, b: nat, write: bool)
    requires Inv(w, v) && b < |w.q.buf| && !w.q.buf[b].lock && (if write then w.q.buf[b].dirt else !w.q.buf[b].uptodate)
    ensures |w.io| == |w.q.buf|
    ensures Inv(w.(q := Set(w.q, b, w.q.buf[b].(lock := true)), io := w.io[b := Waiting(write)]), v)
  {
    Facts(w, v, b);
    hide Inv;
    StateStep(w, v, b, w.q.buf[b].(lock := true), Waiting(write), w.disk, v.image);
  }

  /** add_request clears the dirty flag. */
  lemma QueueKeeps(w: World, v: View, b: nat)
    requires Inv(w, v) && b < |w.q.buf| && b < |w.io| && w.io[b].Waiting?
    ensures Inv(w.(q := Set(w.q, b, w.q.buf[b].(dirt := false)), io := w.io[b := Queued(w.io[b].write)]), v)
  {
    Facts(w, v, b);
    hide Inv;
    StateStep(w, v, b, w.q.buf[b].(dirt := false), Queued(w.io[b].write), w.disk, v.image);
  }

  function AfterRead(h: Head, ok: bool, disk: map<Key, Data>): Head {
    if ok then h.(lock := false, uptodate := true, data := At(disk, KeyOf(h))) else h.(lock := false)
  }

  /** A read ends: the buffer holds the block of the device, or nothing on an error. */
  lemma ReadDoneKeeps(w: World, v: View, b: nat, ok: bool)
    requires Inv(w, v) && b < |w.q.buf| && b < |w.io| && w.io[b] == Queued(false)
    ensures Inv(w.(q := Set(w.q, b, AfterRead(w.q.buf[b], ok, w.disk)), io := w.io[b := NoIo]), v)
  {
    Facts(w, v, b);
    hide Inv;
    StateStep(w, v, b, AfterRead(w.q.buf[b], ok, w.disk), NoIo, w.disk, v.image);
  }

  /** A write ends well: the device has the data, or - when someone wrote into the buffer meanwhile - anything. If the
      buffer was invalid since an earlier error, its data count again. */
  lemma WriteDoneKeeps(w: World, v: View, b: nat, torn: Data)
    requires Inv(w, v) && b < |w.q.buf| && b < |w.io| && w.io[b] == Queued(true)
    ensures Inv(w.(q := Set(w.q, b, w.q.buf[b].(lock := false, uptodate := true)), io := w.io[b := NoIo],
                   disk := w.disk[KeyOf(w.q.buf[b]) := if w.q.buf[b].dirt then torn else w.q.buf[b].data]),
                v.(image := v.image[KeyOf(w.q.buf[b]) := w.q.buf[b].data]))
    ensures w.q.buf[b].uptodate ==> At(v.image, KeyOf(w.q.buf[b])) == w.q.buf[b].data
  {
    Facts(w, v, b);
    hide Inv;
    var k := KeyOf(w.q.buf[b]);
    StateStep(w, v, b, w.q.buf[b].(lock := false, uptodate := true), NoIo,
              w.disk[k := if w.q.buf[b].dirt then torn else w.q.buf[b].data], v.image[k := w.q.buf[b].data]);
  }

  /** A write fails: the buffer is invalid, and the plain disk has at its block what
      the device has, whatever that is. */
  lemma WriteFailedKeeps(w: World, v: View, b: nat, torn: Data)
    requires Inv(w, v) && b < |w.q.buf| && b < |w.io| && w.io[b] == Queued(true)
    ensures Inv(w.(q := Set(w.q, b, w.q.buf[b].(lock := false, uptodate := false)), io := w.io[b := NoIo],
                   disk := w.disk[KeyOf(w.q.buf[b]) := torn]),
                v.(image := v.image[KeyOf(w.q.buf[b]) := torn]))
  {
    Facts(w, v, b);
    hide Inv;
    var k := KeyOf(w.q.buf[b]);
    StateStep(w, v, b, w.q.buf[b].(lock := false, uptodate := false), NoIo, w.disk[k := torn], v.image[k := torn]);
  }

  /** A holder stores data and sets the dirty flag: the plain disk changes at this block only. */
  lemma StoreKeeps(w: World, v: View, b: nat, data: Data)
    requires Inv(w, v) && b < |w.q.buf| && w.q.buf[b].dev != 0 && (w.q.buf[b].uptodate || !w.q.buf[b].lock)
    ensures Inv(w.(q := Set(w.q, b, w.q.buf[b].(data := data, uptodate := true, dirt := true))),
                v.(image := v.image[KeyOf(w.q.buf[b]) := data]))
  {
    Facts(w, v, b);
    hide Inv;
    StateStep(w, v, b, w.q.buf[b].(data := data, uptodate := true, dirt := true), w.io[b], w.disk,
      v.image[KeyOf(w.q.buf[b]) := data]);
    assert w.io[b := w.io[b]] == w.io;
  }

  // ---------- the cache ----------

  /** What a call comes back with; Asleep leaves the task at a sleeping point. */
  datatype Reply = Missing | Asleep | Got(bh: nat) | Unreadable | Released

  /** A task's step: it changes its own place only, no buffer in use is taken away, and the plain disk stays. */
  ghost predicate Quiet(w: World, v: View, w': World, v': View, t: nat) {
    && Steady(w, w') && v'.image == v.image && t in w.tasks && t in w'.tasks && w'.tasks == w.tasks[t := w'.tasks[t]]
    && w'.disk == w.disk
  }

  /** The task got buffer bh for this block, and a reader its contents. */
  ghost predicate Given(w: World, w': World, v': View, t: nat, bh: nat, dev: bv32, block: bv32, aim: Aim) {
    && t in w.tasks && t in w'.tasks && w'.tasks[t] == Task(Running, w.tasks[t].held + multiset{bh})
    && bh < |w'.q.buf| && w'.q.buf[bh].dev == dev && w'.q.buf[bh].blocknr == block && !w'.q.buf[bh].lock
    && (aim.Read? ==> w'.q.buf[bh].uptodate && (dev != 0 ==> w'.q.buf[bh].data == At(v'.image, Key(dev, block))))
  }

  /** Taking buffer bh for the block stores through a null pointer: no other buffer is
      in the chain of its hash value. */
  ghost predicate StoresNull(buf: seq<Head>, bh: nat, dev: bv32, block: bv32) {
    dev != 0 && forall j :: 0 <= j < |buf| && j != bh ==> !Keyed(buf[j], HashFn(dev, block))
  }

  lemma GivenHeld(w: World, w': World, v': View, t: nat, bh: nat, dev: bv32, block: bv32, aim: Aim)
    requires Given(w, w', v', t, bh, dev, block, aim)
    ensures t in w.tasks && t in w'.tasks && w.tasks[t].held <= w'.tasks[t].held
  {
  }

  lemma CleanIsBest(h: Head)
    requires !h.lock && !h.dirt
    ensures Badness(h) == 0
  {
  }

  /** The buffer that getblk took in a call that ended like this, -1 if it took none. */
  function TakenBy(r: Reply, pc: Pc): int { if r.Got? then r.bh else if r.Asleep? && pc.ReadLock? then pc.bh else -1 }

  ghost predicate TookNull(buf: seq<Head>, r: Reply, pc: Pc, dev: bv32, block: bv32) {
    TakenBy(r, pc) >= 0 && StoresNull(buf, TakenBy(r, pc), dev, block)
  }

  /** The buffer that getblk has chosen, to take it or to wait for it, -1 if it has chosen none. */
  function ChosenBy(r: Reply, pc: Pc): int {
    if r.Asleep? && (pc.InVictim? || pc.InSync?) then pc.bh else TakenBy(r, pc)
  }

  /** A clean buffer is better than a dirty one, and otherwise an unlocked one better than a locked one. */
  predicate Better(h: Head, than: Head) { if h.dirt == than.dirt then !h.lock && than.lock else !h.dirt }

  /** Of the unused buffers none is better than bh, and the ones that come before it in the free list are worse. */
  ghost predicate FirstBest(buf: seq<Head>, ring: seq<int>, bh: int) {
    exists k :: 0 <= k < |ring| && ring[k] == bh && 0 <= bh < |buf| && buf[bh].count == 0
      && forall j :: 0 <= j < |ring| ==> OtherIsWorse(buf, ring, k, j)
  }

  predicate OtherIsWorse(buf: seq<Head>, ring: seq<int>, k: nat, j: nat)
    requires k < |ring| && j < |ring| && 0 <= ring[k] < |buf|
  {
    0 <= ring[j] < |buf| && buf[ring[j]].count == 0 ==>
      !Better(buf[ring[j]], buf[ring[k]]) && (j < k ==> Better(buf[ring[k]], buf[ring[j]]))
  }

  /** getblk chooses the first of the best in the free list, and the one it takes becomes the last there. */
  ghost predicate OldestFirst(buf: seq<Head>, ring: seq<int>, ring': seq<int>, r: Reply, pc: Pc) {
    && (ChosenBy(r, pc) >= 0 ==> FirstBest(buf, ring, ChosenBy(r, pc)))
    && if TakenBy(r, pc) >= 0 then MovedToEnd(ring, ring', TakenBy(r, pc)) else ring' == ring
  }

  /** The task sleeps in getblk while it searches for a buffer to take. */
  predicate Searches(pc: Pc) { pc.InFreeSleep? || pc.InVictim? || pc.InSync? }

  class BufferCache {
    var buf: seq<Head>
    var hash: seq<int>
    var freeList: int
    var io: seq<Io>
    var disk: map<Key, Data>
    var tasks: map<nat, Task>
    ghost var view: View

    function Q(): Queues
      reads this
    {
      Queues(buf, hash, freeList)
    }

    function W(): World
      reads this
    {
      World(Q(), io, disk, tasks)
    }

    ghost predicate Valid()
      reads this
    {
      Inv(W(), view)
    }

    /** The buffer for a block, if the cache has one. */
    method FindBuffer(dev: bv32, block: bv32) returns (tmp: int)
      requires Valid()
      ensures tmp >= 0 ==> tmp < |buf| && buf[tmp].dev == dev != 0 && buf[tmp].blocknr == block
      ensures tmp < 0 ==>
        tmp == -1 && forall j :: 0 <= j < |buf| && dev != 0 ==> buf[j].dev != dev || buf[j].blocknr != block
    {
      hide Counted, Placed, Flags, Mirrors, Ring, Unique, HashFn, Keyed;
      var h := HashFn(dev, block);
      ghost var c := view.chains[h];
      ghost var i := 0;
      tmp := hash[h];
      while tmp != -1
        invariant i <= |c| && tmp == (if i < |c| then c[i] else -1)
        invariant forall k :: 0 <= k < i ==> 0 <= c[k] < |buf| && (buf[c[k]].dev != dev || buf[c[k]].blocknr != block)
        decreases |c| - i
      {
        ChainAt(buf, hash[h], c, i);
        if buf[tmp].dev == dev && buf[tmp].blocknr == block {
          InChain(Q(), view.chains, h, tmp);
          return;
        }
        tmp := buf[tmp].next;
        i := i + 1;
      }
      forall j | 0 <= j < |buf| && dev != 0 ensures buf[j].dev != dev || buf[j].blocknr != block {
        if buf[j].dev == dev && buf[j].blocknr == block { NotKeyed(buf[j], h); }
      }
    }

    method RemoveFromQueues(bh: nat)
      requires Linked(Q(), view.chains, view.ring) && bh < |buf|
      modifies this`buf, this`hash, this`freeList
      ensures |old(hash)| == NrHash && Q() == Unlisted(Unhashed(old(Q()), bh), bh)
    {
      hide Linked, Unhashed, Unlisted, OnlyLinks;
      RemoveFacts(Q(), view.chains, view.ring, bh);
      UnhashTouches(Q(), bh);
      RemoveFromChain(bh);
      RemoveFromRing(bh);
    }

    method RemoveFromChain(bh: nat)
      requires bh < |buf| && |hash| == NrHash && -1 <= buf[bh].prev < |buf| && -1 <= buf[bh].next < |buf|
      requires buf[bh].prev != bh && buf[bh].next != bh
      modifies this`buf, this`hash
      ensures Q() == Unhashed(old(Q()), bh)
    {
      hide HashFn;
      var h := HashFn(buf[bh].dev, buf[bh].blocknr);
      var next, prev := buf[bh].next, buf[bh].prev;
      if next != -1 { buf := buf[next := buf[next].(prev := prev)]; }
      if prev != -1 { buf := buf[prev := buf[prev].(next := next)]; }
      if hash[h] == bh { hash := hash[h := next]; }
    }

    method RemoveFromRing(bh: nat)
      requires bh < |buf| && 0 <= buf[bh].prevFree < |buf| && 0 <= buf[bh].nextFree < |buf|
      modifies this`buf, this`freeList
      ensures Q() == Unlisted(old(Q()), bh)
    {
      var prevFree, nextFree := buf[bh].prevFree, buf[bh].nextFree;
      buf := buf[prevFree := buf[prevFree].(nextFree := nextFree)];
      buf := buf[nextFree := buf[nextFree].(prevFree := prevFree)];
      if freeList == bh { freeList := nextFree; }
    }

    /** The store into the first buffer of the chain is made only when there is one; nullStore tells that the code
        makes it through a null pointer. */
    method InsertIntoQueues(bh: nat) returns (nullStore: bool)
      requires bh < |buf| && |hash| == NrHash && 0 <= freeList < |buf|
      requires 0 <= SetNextFree(buf, bh, freeList)[freeList].prevFree < |buf|
      requires forall h :: 0 <= h < NrHash ==> -1 <= hash[h] < |buf|
      modifies this`buf, this`hash
      ensures Q() == Rehashed(Listed(old(Q()), bh), bh)
      ensures nullStore <==> old(buf[bh].dev) != 0 && old(hash)[HashFn(old(buf[bh].dev), old(buf[bh].blocknr))] == -1
    {
      hide HashFn, Rehashed, Listed;
      ListTouches(Q(), bh);
      AppendToRing(bh);
      nullStore := PutInChain(bh);
    }

    method AppendToRing(bh: nat)
      requires bh < |buf| && 0 <= freeList < |buf| && 0 <= SetNextFree(buf, bh, freeList)[freeList].prevFree < |buf|
      modifies this`buf
      ensures Q() == Listed(old(Q()), bh)
    {
      buf := buf[bh := buf[bh].(nextFree := freeList)];
      buf := buf[bh := buf[bh].(prevFree := buf[freeList].prevFree)];
      var last := buf[freeList].prevFree;
      buf := buf[last := buf[last].(nextFree := bh)];
      buf := buf[freeList := buf[freeList].(prevFree := bh)];
    }

    method PutInChain(bh: nat) returns (nullStore: bool)
      requires bh < |buf| && |hash| == NrHash && forall h :: 0 <= h < NrHash ==> -1 <= hash[h] < |buf|
      modifies this`buf, this`hash
      ensures Q() == Rehashed(old(Q()), bh)
      ensures nullStore <==> old(buf[bh].dev) != 0 && old(hash)[HashFn(old(buf[bh].dev), old(buf[bh].blocknr))] == -1
    {
      hide HashFn;
      buf := buf[bh := buf[bh].(prev := -1, next := -1)];
      if buf[bh].dev == 0 { return false; }
      var h := HashFn(buf[bh].dev, buf[bh].blocknr);
      buf := buf[bh := buf[bh].(next := hash[h])];
      assert buf == old(buf)[bh := old(buf)[bh].(prev := -1, next := hash[h])];
      hash := hash[h := bh];
      nullStore := buf[bh].next == -1;
      if !nullStore { buf := buf[buf[bh].next := buf[buf[bh].next].(prev := bh)]; }
    }

    /** The end of getblk: the buffer leaves its queues and enters those of its new block. */
    method TakeBuffer(bh: nat, dev: bv32, block: bv32) returns (nullStore: bool)
      requires Valid() && Free(Q(), bh, dev, block)
      modifies this`buf, this`hash, this`freeList
      ensures |old(hash)| == NrHash && bh < |old(buf)|
      ensures 0 <= Unlisted(Unhashed(Cleaned(old(Q()), bh), bh), bh).free < |old(buf)|
      ensures Q() == Taken(old(Q()), bh, dev, block)
      ensures nullStore
        <==> dev != 0 && forall j :: 0 <= j < |old(buf)| && j != bh ==> !Keyed(old(buf)[j], HashFn(dev, block))
    {
      hide Counted, Placed, Flags, Mirrors, Linked, Unlisted, Unhashed, Rehashed, Listed, SetNextFree;
      ghost var q := Q();
      SetKeepsQueues(q, bh, Cleaned(q, bh).buf[bh]);
      LinkedSame(q, Cleaned(q, bh), view.chains, view.ring);
      TakeFacts(Cleaned(q, bh), view.chains, view.ring, bh, dev, block);
      buf := buf[bh := buf[bh].(count := 1, dirt := false, uptodate := false)];
      RemoveFromQueues(bh);
      buf := buf[bh := buf[bh].(dev := dev, blocknr := block)];
      nullStore := InsertIntoQueues(bh);
      EmptyChain(q, view.chains, view.ring, bh, HashFn(dev, block));
    }

    /** The search of getblk: an unused buffer of least badness. */
    method ChooseVictim() returns (bh: int)
      requires Valid()
      ensures -1 <= bh < |buf| && (bh == -1 ==> forall j :: 0 <= j < |buf| ==> buf[j].count > 0)
      ensures bh >= 0 ==>
        buf[bh].count == 0 && forall j :: 0 <= j < |buf| && buf[j].count == 0 ==> Badness(buf[bh]) <= Badness(buf[j])
      ensures bh >= 0 ==> FirstBest(buf, view.ring, bh)
    {
      hide Counted, Placed, Flags, Mirrors, Hashed, Unique, Badness, NoBetter, FirstBest;
      ghost var i, k := 0, 0;
      var tmp := freeList;
      var more := true;
      bh := -1;
      RingFacts(buf, freeList, view.ring, 0);
      while more
        invariant i <= |view.ring| && (more ==> i < |view.ring| && tmp == view.ring[i]) && (!more ==> i == |view.ring|)
        invariant -1 <= bh < |buf| && k <= i
        invariant bh >= 0 ==> buf[bh].count == 0 && Badness(buf[bh]) != 0 && k < i && view.ring[k] == bh
        invariant forall l :: 0 <= l < i ==> NoBetter(buf, bh, view.ring[l], l < k)
        decreases |view.ring| - i
      {
        RingFacts(buf, freeList, view.ring, i);
        OneMoreSeen(buf, view.ring, bh, k, i);
        if buf[tmp].count == 0 && (bh == -1 || Badness(buf[tmp]) < Badness(buf[bh])) {
          bh, k := tmp, i;
          if Badness(buf[tmp]) == 0 {
            FirstOfBest(buf, view.ring, k, i);
            return;
          }
        }
        tmp := buf[tmp].nextFree;
        i := i + 1;
        more := tmp != freeList;
      }
      if bh >= 0 { FirstOfBest(buf, view.ring, k, i); }
      AllSeen(buf, view.ring, bh, k);
    }

    /** One pass of the loop of get_hash_table. */
    method HashStep(t: nat, dev: bv32, block: bv32, aim: Aim) returns (r: Reply)
      requires Valid() && t in tasks && tasks[t].pc.Running?
      modifies this`buf, this`tasks, this`view
      ensures Valid() && Quiet(old(W()), old(view), W(), view, t)
      ensures !r.Unreadable? && !r.Released? && (r.Missing? ==> W() == old(W()))
      ensures view.ring == old(view.ring)
      ensures r.Missing? <==> Absent(old(buf), dev, block)
      ensures r.Got? ==> Given(old(W()), W(), view, t, r.bh, dev, block, Find)
      ensures r.Got? ==> r.bh < |old(buf)| && dev != 0 && For(old(buf)[r.bh], dev, block) && !old(buf)[r.bh].lock
      ensures r.Got? ==> buf == old(buf)[r.bh := old(buf)[r.bh].(count := old(buf)[r.bh].count + 1)]
      ensures r.Asleep? ==>
        tasks[t] == Task(tasks[t].pc, old(tasks[t].held)) && tasks[t].pc.InHash?
        && Waits(old(buf), tasks[t].pc, dev, block, aim)
    {
      hide Inv, Holds;
      var bh := FindBuffer(dev, block);
      if bh == -1 {
        StaySteady(W(), view, t);
        return Missing;
      }
      r := UseFound(t, bh, dev, block, aim);
    }

    /** The buffer that was found is counted; the task has it, or waits until it is unlocked. */
    method UseFound(t: nat, bh: nat, dev: bv32, block: bv32, aim: Aim) returns (r: Reply)
      requires Valid() && t in tasks && tasks[t].pc.Running? && bh < |buf| && dev != 0 && For(buf[bh], dev, block)
      modifies this`buf, this`tasks, this`view
      ensures Valid() && Quiet(old(W()), old(view), W(), view, t) && r == if old(buf)[bh].lock then Asleep else Got(bh)
      ensures tasks[t] == if r.Asleep? then Task(InHash(dev, block, bh, aim), old(tasks[t].held))
                                       else Task(Running, old(tasks[t].held) + multiset{bh})
      ensures view.ring == old(view.ring)
      ensures buf == old(buf)[bh := old(buf)[bh].(count := old(buf)[bh].count + 1)]
    {
      hide Inv, Holds;
      var task := if buf[bh].lock then Task(InHash(dev, block, bh, aim), tasks[t].held)
        else Task(Running, tasks[t].held + multiset{bh});
      WaitUses(tasks[t], task, bh);
      HeldInside(W(), view, t);
      TakeUse(W(), view, t, bh, task);
      r := if buf[bh].lock then Asleep else Got(bh);
      view := view.(users := view.users[bh := view.users[bh] + multiset{t}]);
      buf := buf[bh := buf[bh].(count := buf[bh].count + 1)];
      tasks := tasks[t := task];
    }

    /** The task has the buffer; a reader still has to read it in unless it is up to date. */
    method Finish(t: nat, bh: nat, dev: bv32, block: bv32, aim: Aim) returns (r: Reply)
      requires Valid() && t in tasks && tasks[t].pc.Running? && bh < |buf| && tasks[t].held[bh] > 0
      requires buf[bh].dev == dev && buf[bh].blocknr == block && !buf[bh].lock
      modifies this`tasks
      ensures Valid() && Quiet(old(W()), old(view), W(), view, t) && (r == Got(bh) || r == Asleep)
      ensures r.Got? ==>
        W() == old(W())
        && (aim.Read? ==> buf[bh].uptodate && (dev != 0 ==> buf[bh].data == At(view.image, Key(dev, block))))
      ensures r.Asleep? ==>
        aim.Read? && !buf[bh].uptodate && tasks[t] == Task(ReadLock(dev, block, bh), old(tasks[t].held) - multiset{bh})
    {
      hide Linked, Counted, Placed, Flags, Mirrors, Holds;
      HeldInside(W(), view, t);
      Facts(W(), view, bh);
      if !aim.Read? || buf[bh].uptodate {
        StaySteady(W(), view, t);
        return Got(bh);
      }
      var task := Task(ReadLock(dev, block, bh), tasks[t].held - multiset{bh});
      HandToPc(tasks[t], task, bh);
      MoveOn(W(), view, t, task);
      tasks := tasks[t := task];
      return Asleep;
    }

    /** getblk, or with aim Read the first part of bread, up to the first sleeping point. */
    method Getblk(t: nat, dev: bv32, block: bv32, aim: Aim) returns (r: Reply, nullStore: bool)
      requires Valid() && t in tasks && tasks[t].pc.Running? && !aim.Find?
      modifies this`buf, this`hash, this`freeList, this`tasks, this`view
      ensures Valid() && Quiet(old(W()), old(view), W(), view, t) && (r.Got? || r == Asleep)
      ensures r.Got? ==> Given(old(W()), W(), view, t, r.bh, dev, block, aim)
      ensures r.Asleep? ==>
        tasks[t] == Task(tasks[t].pc, old(tasks[t].held)) && Waits(old(buf), tasks[t].pc, dev, block, aim)
      ensures r.Got? ==> r.bh < |old(buf)|
      ensures r.Got? && Absent(old(buf), dev, block) ==> old(buf)[r.bh].count == 0 && Badness(old(buf)[r.bh]) == 0
      ensures r.Got? && !Absent(old(buf), dev, block) ==> For(old(buf)[r.bh], dev, block) && !old(buf)[r.bh].lock
      ensures if Absent(old(buf), dev, block) then OldestFirst(old(buf), old(view.ring), view.ring, r, tasks[t].pc)
              else view.ring == old(view.ring)
      ensures nullStore <==> Absent(old(buf), dev, block) && TookNull(old(buf), r, tasks[t].pc, dev, block)
    {
      hide Inv, Holds, Taken, Steady, StoresNull, TookNull, Absent, OldestFirst;
      ghost var w0, v0 := W(), view;
      nullStore := false;
      r := HashStep(t, dev, block, aim);
      if r.Asleep? { return; }
      if r.Got? {
        ghost var w1, v1 := W(), view;
        var bh := r.bh;
        r := Finish(t, bh, dev, block, aim);
        FinishAfter(w0, v0, w1, v1, W(), t, bh, r, dev, block, aim);
        return;
      }
      r, nullStore := NewBuffer(t, dev, block, aim);
    }

    /** The part of getblk after no buffer was found for the block. */
    method NewBuffer(t: nat, dev: bv32, block: bv32, aim: Aim) returns (r: Reply, nullStore: bool)
      requires Valid() && t in tasks && tasks[t].pc.Running? && !aim.Find? && Absent(buf, dev, block)
      modifies this`buf, this`hash, this`freeList, this`tasks, this`view
      ensures Valid() && Quiet(old(W()), old(view), W(), view, t) && (r.Got? || r == Asleep)
      ensures r.Got? ==> Given(old(W()), W(), view, t, r.bh, dev, block, aim)
      ensures r.Asleep? ==>
        tasks[t] == Task(tasks[t].pc, old(tasks[t].held)) && Waits(old(buf), tasks[t].pc, dev, block, aim)
      ensures r.Got? ==> r.bh < |old(buf)| && old(buf)[r.bh].count == 0 && Badness(old(buf)[r.bh]) == 0
      ensures OldestFirst(old(buf), old(view.ring), view.ring, r, tasks[t].pc)
      ensures nullStore <==> TookNull(old(buf), r, tasks[t].pc, dev, block)
    {
      hide Inv, Holds, Taken, Steady, Given, Quiet, StoresNull, Badness, MovedToEnd, FirstBest;
      var bh := ChooseVictim();
      if bh == -1 || buf[bh].lock || buf[bh].dirt {
        WaitFor(t, bh, dev, block, aim);
        return Asleep, false;
      }
      CleanIsBest(buf[bh]);
      r, nullStore := Take(t, bh, dev, block, aim);
    }

    /** getblk sleeps because all buffers are in use, or the best one is locked or dirty. */
    method WaitFor(t: nat, bh: int, dev: bv32, block: bv32, aim: Aim)
      requires Valid() && t in tasks && tasks[t].pc.Running? && !aim.Find?
      requires if bh == -1 then forall j :: 0 <= j < |buf| ==> buf[j].count > 0
               else 0 <= bh && Best(buf, bh) && (buf[bh].lock || buf[bh].dirt)
      modifies this`tasks
      ensures Valid() && Quiet(old(W()), view, W(), view, t)
      ensures tasks[t] == Task(tasks[t].pc, old(tasks[t].held)) && Waits(buf, tasks[t].pc, dev, block, aim)
      ensures Searches(tasks[t].pc) && ChosenBy(Asleep, tasks[t].pc) == bh
    {
      hide Inv;
      var pc := InFreeSleep(dev, block, aim);
      if bh != -1 { pc := if buf[bh].lock then InVictim(dev, block, bh, aim) else InSync(dev, block, bh, aim); }
      Sleep(t, pc);
    }

    /** A task that uses nothing through its program counter goes to sleep, or awakes. */
    method Sleep(t: nat, pc: Pc)
      requires Valid() && t in tasks && PcPlaced(buf, pc) && forall b :: !PcHolds(pc, b) && !PcHolds(tasks[t].pc, b)
      modifies this`tasks
      ensures Valid() && Quiet(old(W()), view, W(), view, t) && tasks == old(tasks)[t := Task(pc, old(tasks[t].held))]
    {
      hide Inv;
      HeldInside(W(), view, t);
      MoveOn(W(), view, t, Task(pc, tasks[t].held));
      tasks := tasks[t := Task(pc, tasks[t].held)];
    }

    /** Buffer bh, unused, unlocked and clean, becomes the buffer of the block. */
    method Take(t: nat, bh: nat, dev: bv32, block: bv32, aim: Aim) returns (r: Reply, nullStore: bool)
      requires Valid() && t in tasks && (forall b :: !PcHolds(tasks[t].pc, b)) && Free(Q(), bh, dev, block)
        && !aim.Find?
      modifies this`buf, this`hash, this`freeList, this`tasks, this`view
      ensures Valid() && Quiet(old(W()), old(view), W(), view, t)
      ensures if aim.Read? then r == Asleep else r.Got? && Given(old(W()), W(), view, t, r.bh, dev, block, aim)
      ensures r.Asleep? ==> tasks[t] == Task(ReadLock(dev, block, bh), old(tasks[t].held))
      ensures r.Got? ==> r.bh == bh
      ensures MovedToEnd(old(view.ring), view.ring, bh)
      ensures nullStore <==> StoresNull(old(buf), bh, dev, block)
    {
      hide Inv, Holds, Taken, Unlisted, Unhashed, Keyed, MovedToEnd;
      var task := if aim.Read? then Task(ReadLock(dev, block, bh), tasks[t].held)
        else Task(Running, tasks[t].held + multiset{bh});
      OneMore(tasks[t], task, bh);
      HeldInside(W(), view, t);
      TakeKeeps(W(), view, t, bh, dev, block, task);
      nullStore := Reassign(t, bh, dev, block, task);
      r := if aim.Read? then Asleep else Got(bh);
    }

    method Reassign(t: nat, bh: nat, dev: bv32, block: bv32, task: Task) returns (nullStore: bool)
      requires Valid() && t in tasks && Free(Q(), bh, dev, block) && |hash| == NrHash
        && 0 <= Unlisted(Unhashed(Cleaned(Q(), bh), bh), bh).free < |buf|
      requires exists v' ::
        Inv(W().(q := Taken(Q(), bh, dev, block), tasks := tasks[t := task]), v') && v'.image == view.image
        && MovedToEnd(view.ring, v'.ring, bh)
      modifies this`buf, this`hash, this`freeList, this`tasks, this`view
      ensures |old(hash)| == NrHash && bh < |old(buf)|
        && 0 <= Unlisted(Unhashed(Cleaned(old(Q()), bh), bh), bh).free < |old(buf)|
      ensures Valid() && W() == old(W()).(q := Taken(old(Q()), bh, dev, block), tasks := old(tasks)[t := task])
      ensures view.image == old(view.image) && MovedToEnd(old(view.ring), view.ring, bh)
      ensures nullStore <==> StoresNull(old(buf), bh, dev, block)
    {
      hide Inv, Taken, Unlisted, Unhashed, Keyed, MovedToEnd;
      ghost var w, v := W(), view;
      nullStore := TakeBuffer(bh, dev, block);
      tasks := tasks[t := task];
      assert W() == w.(q := Taken(w.q, bh, dev, block), tasks := w.tasks[t := task]);
      ghost var v' :| Inv(W(), v') && v'.image == v.image && MovedToEnd(v.ring, v'.ring, bh);
      view := v';
    }

    /** get_hash_table up to its sleeping point. */
    method GetHashTable(t: nat, dev: bv32, block: bv32) returns (r: Reply)
      requires Valid() && t in tasks && tasks[t].pc.Running?
      modifies this`buf, this`tasks, this`view
      ensures Valid() && Quiet(old(W()), old(view), W(), view, t) && !r.Unreadable? && !r.Released?
      ensures r.Missing? ==> Absent(buf, dev, block) && W() == old(W())
      ensures r.Got? ==> Given(old(W()), W(), view, t, r.bh, dev, block, Find)
      ensures r.Got? ==> buf == old(buf)[r.bh := old(buf)[r.bh].(count := old(buf)[r.bh].count + 1)]
      ensures r.Asleep? ==>
        tasks[t] == Task(tasks[t].pc, old(tasks[t].held)) && Waits(old(buf), tasks[t].pc, dev, block, Find)
      ensures old(tasks[t].held) <= tasks[t].held
    {
      r := HashStep(t, dev, block, Find);
    }

    method Bread(t: nat, dev: bv32, block: bv32) returns (r: Reply, nullStore: bool)
      requires Valid() && t in tasks && tasks[t].pc.Running?
      modifies this`buf, this`hash, this`freeList, this`tasks, this`view
      ensures Valid() && Quiet(old(W()), old(view), W(), view, t) && (r.Got? || r == Asleep)
      ensures r.Got? ==> Given(old(W()), W(), view, t, r.bh, dev, block, Read)
      ensures r.Asleep? ==>
        tasks[t] == Task(tasks[t].pc, old(tasks[t].held)) && Waits(old(buf), tasks[t].pc, dev, block, Read)
      ensures if Absent(old(buf), dev, block) then OldestFirst(old(buf), old(view.ring), view.ring, r, tasks[t].pc)
              else view.ring == old(view.ring)
      ensures nullStore <==> Absent(old(buf), dev, block) && TookNull(old(buf), r, tasks[t].pc, dev, block)
      ensures old(tasks[t].held) <= tasks[t].held
    {
      r, nullStore := Getblk(t, dev, block, Read);
    }

    /** brelse: the count of a buffer that a task holds is not 0. */
    method Brelse(t: nat, bh: nat) returns (r: Reply)
      requires Valid() && t in tasks && tasks[t].pc.Running? && tasks[t].held[bh] > 0
      modifies this`buf, this`tasks, this`view
      ensures Valid() && bh < |old(buf)| && old(buf[bh].count) > 0 && Quiet(old(W()), old(view), W(), view, t)
      ensures r == if old(buf[bh].lock) then Asleep else Released
      ensures tasks[t] == Task(if r.Asleep? then Releasing(bh) else Running, old(tasks[t].held) - multiset{bh})
      ensures buf == if r.Asleep? then old(buf) else old(buf)[bh := old(buf[bh]).(count := old(buf[bh].count) - 1)]
    {
      hide Inv, Holds;
      HeldInside(W(), view, t);
      var task := Task(if buf[bh].lock then Releasing(bh) else Running, tasks[t].held - multiset{bh});
      LetGo(tasks[t], task, bh);
      HeldCounts(W(), view, t, bh);
      if buf[bh].lock {
        MoveOn(W(), view, t, task);
        tasks := tasks[t := task];
        return Asleep;
      }
      Drop(t, bh, task);
      return Released;
    }

    method Drop(t: nat, bh: nat, task: Task)
      requires Valid() && t in tasks && bh < |buf| && task.pc.Running? && (forall c :: c in task.held ==> c < |buf|)
      requires forall c: nat :: Holds(tasks[t], c) == Holds(task, c) + if c == bh then 1 else 0
      modifies this`buf, this`tasks, this`view
      ensures Valid() && old(buf[bh].count) > 0 && Quiet(old(W()), old(view), W(), view, t) && tasks[t] == task
      ensures buf == old(buf)[bh := old(buf[bh]).(count := old(buf[bh].count) - 1)]
    {
      hide Inv, Holds;
      DropUse(W(), view, t, bh, task);
      view := view.(users := view.users[bh := view.users[bh] - multiset{t}]);
      buf := buf[bh := buf[bh].(count := buf[bh].count - 1)];
      tasks := tasks[t := task];
    }

    /** A task awakes at its sleeping point, or goes on sleeping. */
    method Resume(t: nat) returns (r: Reply, nullStore: bool)
      requires Valid() && t in tasks && !tasks[t].pc.Running?
      modifies this`buf, this`hash, this`freeList, this`io, this`tasks, this`view
      ensures Valid() && Quiet(old(W()), old(view), W(), view, t)
      ensures r.Got? ==> AnswersPc(old(tasks[t].pc), old(W()), W(), view, t, r.bh)
      ensures r.Asleep? && tasks[t].pc == old(tasks[t].pc) ==> StillWaits(old(buf), old(tasks[t].pc))
      ensures nullStore <==>
        Searches(old(tasks[t].pc)) && Absent(old(buf), old(tasks[t].pc.dev), old(tasks[t].pc.block))
        && TookNull(old(buf), r, tasks[t].pc, old(tasks[t].pc.dev), old(tasks[t].pc.block))
      ensures old(tasks[t].held) <= tasks[t].held
    {
      nullStore := false;
      var pc := tasks[t].pc;
      if pc.InHash? {
        r := ResumeHash(t);
      } else if pc.InFreeSleep? {
        r, nullStore := ResumeFreeSleep(t);
      } else if pc.InVictim? || pc.InSync? {
        r, nullStore := ResumeVictim(t);
      } else if pc.Releasing? {
        r := ResumeRelease(t);
      } else {
        r := ResumeRead(t);
      }
    }

    /** get_hash_table after wait_on_buffer: the buffer is still the right one. */
    method ResumeHash(t: nat) returns (r: Reply)
      requires Valid() && t in tasks && tasks[t].pc.InHash?
      modifies this`tasks
      ensures Valid() && Quiet(old(W()), old(view), W(), view, t)
      ensures r.Got? ==> AnswersPc(old(tasks[t].pc), old(W()), W(), view, t, r.bh)
      ensures r.Asleep? && tasks[t].pc == old(tasks[t].pc) ==> StillWaits(old(buf), old(tasks[t].pc))
      ensures old(tasks[t].held) <= tasks[t].held
    {
      hide Inv, Holds;
      ghost var w := W();
      var pc := tasks[t].pc;
      HeldInside(W(), view, t);
      if buf[pc.bh].lock {
        StaySteady(w, view, t);
        return Asleep;
      }
      if buf[pc.bh].dev != pc.dev || buf[pc.bh].blocknr != pc.block { assert false; }
      var task := Task(Running, tasks[t].held + multiset{pc.bh});
      PcToHand(tasks[t], task, pc.bh);
      MoveOn(W(), view, t, task);
      tasks := tasks[t := task];
      ghost var w1 := W();
      r := Finish(t, pc.bh, pc.dev, pc.block, pc.aim);
      FinishAfter(w, view, w1, view, W(), t, pc.bh, r, pc.dev, pc.block, pc.aim);
    }

    /** getblk after sleep_on(&buffer_wait). */
    method ResumeFreeSleep(t: nat) returns (r: Reply, nullStore: bool)
      requires Valid() && t in tasks && tasks[t].pc.InFreeSleep?
      modifies this`buf, this`hash, this`freeList, this`tasks, this`view
      ensures Valid() && Quiet(old(W()), old(view), W(), view, t)
      ensures r.Got? ==> AnswersPc(old(tasks[t].pc), old(W()), W(), view, t, r.bh)
      ensures r.Asleep? && tasks[t].pc == old(tasks[t].pc) ==> StillWaits(old(buf), old(tasks[t].pc))
      ensures if Absent(old(buf), old(tasks[t].pc.dev), old(tasks[t].pc.block))
              then OldestFirst(old(buf), old(view.ring), view.ring, r, tasks[t].pc)
              else view.ring == old(view.ring)
      ensures nullStore <==>
        Absent(old(buf), old(tasks[t].pc.dev), old(tasks[t].pc.block))
        && TookNull(old(buf), r, tasks[t].pc, old(tasks[t].pc.dev), old(tasks[t].pc.block))
      ensures old(tasks[t].held) <= tasks[t].held
    {
      r, nullStore := SearchAgain(t);
    }

    /** getblk from its start for a task that slept while it looked for a buffer. */
    method SearchAgain(t: nat) returns (r: Reply, nullStore: bool)
      requires Valid() && t in tasks && Searches(tasks[t].pc)
      modifies this`buf, this`hash, this`freeList, this`tasks, this`view
      ensures Valid() && Quiet(old(W()), old(view), W(), view, t)
      ensures r.Got? ==> AnswersPc(old(tasks[t].pc), old(W()), W(), view, t, r.bh)
      ensures r.Asleep? && tasks[t].pc == old(tasks[t].pc) ==> StillWaits(old(buf), old(tasks[t].pc))
      ensures if Absent(old(buf), old(tasks[t].pc.dev), old(tasks[t].pc.block))
              then OldestFirst(old(buf), old(view.ring), view.ring, r, tasks[t].pc)
              else view.ring == old(view.ring)
      ensures nullStore <==>
        Absent(old(buf), old(tasks[t].pc.dev), old(tasks[t].pc.block))
        && TookNull(old(buf), r, tasks[t].pc, old(tasks[t].pc.dev), old(tasks[t].pc.block))
      ensures old(tasks[t].held) <= tasks[t].held
    {
      hide Inv, Holds, Steady, OldestFirst;
      ghost var w, v := W(), view;
      var pc := tasks[t].pc;
      HeldInside(W(), view, t);
      Sleep(t, Running);
      ghost var w1 := W();
      r, nullStore := Getblk(t, pc.dev, pc.block, pc.aim);
      AwokeFirst(w, w1, v, W(), view, t, r, pc.dev, pc.block, pc.aim);
    }

    /** getblk after wait_on_buffer or sync_dev. */
    method ResumeVictim(t: nat) returns (r: Reply, nullStore: bool)
      requires Valid() && t in tasks && (tasks[t].pc.InVictim? || tasks[t].pc.InSync?)
      modifies this`buf, this`hash, this`freeList, this`tasks, this`view
      ensures Valid() && Quiet(old(W()), old(view), W(), view, t)
      ensures r.Got? ==> AnswersPc(old(tasks[t].pc), old(W()), W(), view, t, r.bh)
      ensures r.Asleep? && tasks[t].pc == old(tasks[t].pc) ==> StillWaits(old(buf), old(tasks[t].pc))
      ensures nullStore <==>
        Absent(old(buf), old(tasks[t].pc.dev), old(tasks[t].pc.block))
        && TookNull(old(buf), r, tasks[t].pc, old(tasks[t].pc.dev), old(tasks[t].pc.block))
      ensures old(tasks[t].held) <= tasks[t].held
    {
      hide Inv, Holds, Steady, StoresNull, Given, Best;
      ghost var w, v := W(), view;
      var pc := tasks[t].pc;
      HeldInside(W(), view, t);
      if buf[pc.bh].lock {
        StaySteady(w, view, t);
        return Asleep, false;
      }
      if buf[pc.bh].count == 0 {
        if buf[pc.bh].dirt {
          Sleep(t, InSync(pc.dev, pc.block, pc.bh, pc.aim));
          return Asleep, false;
        }
        var other := FindBuffer(pc.dev, pc.block);
        if other == -1 {
          r, nullStore := Take(t, pc.bh, pc.dev, pc.block, pc.aim);
          if r.Got? { GivenHeld(w, W(), view, t, r.bh, pc.dev, pc.block, pc.aim); }
          return;
        }
      }
      r, nullStore := SearchAgain(t);
    }

    /** brelse after wait_on_buffer. */
    method ResumeRelease(t: nat) returns (r: Reply)
      requires Valid() && t in tasks && tasks[t].pc.Releasing?
      modifies this`buf, this`tasks, this`view
      ensures Valid() && Quiet(old(W()), old(view), W(), view, t)
      ensures old(tasks[t].pc.bh) < |old(buf)| && r == if old(buf[tasks[t].pc.bh].lock) then Asleep else Released
      ensures tasks[t] == if r.Asleep? then old(tasks[t]) else Task(Running, old(tasks[t].held))
      ensures buf == if r.Asleep? then old(buf)
        else old(buf)[old(tasks[t].pc.bh) := old(buf[tasks[t].pc.bh]).(count := old(buf[tasks[t].pc.bh].count) - 1)]
    {
      hide Inv, Holds;
      var bh := tasks[t].pc.bh;
      HeldInside(W(), view, t);
      if buf[bh].lock {
        StaySteady(W(), view, t);
        return Asleep;
      }
      var task := Task(Running, tasks[t].held);
      PcDrops(tasks[t], task, bh);
      Drop(t, bh, task);
      return Released;
    }

    /** bread: locks the buffer for reading, or looks at what the reading brought. */
    method ResumeRead(t: nat) returns (r: Reply)
      requires Valid() && t in tasks && (tasks[t].pc.ReadLock? || tasks[t].pc.ReadWait?)
      modifies this`buf, this`io, this`tasks, this`view
      ensures Valid() && Quiet(old(W()), old(view), W(), view, t)
      ensures r.Got? ==> AnswersPc(old(tasks[t].pc), old(W()), W(), view, t, r.bh)
      ensures r.Asleep? && tasks[t].pc == old(tasks[t].pc) ==> StillWaits(old(buf), old(tasks[t].pc))
      ensures r.Unreadable? ==> tasks[t] == Task(Running, old(tasks[t].held)) && old(tasks[t].pc.ReadWait?)
      ensures !r.Missing? && !r.Released? && (r.Asleep? ==> tasks[t].pc.ReadLock? || tasks[t].pc.ReadWait?)
      ensures old(tasks[t].held) <= tasks[t].held
    {
      hide Inv, Holds;
      var pc := tasks[t].pc;
      HeldInside(W(), view, t);
      Facts(W(), view, pc.bh);
      if buf[pc.bh].lock {
        StaySteady(W(), view, t);
        return Asleep;
      }
      if buf[pc.bh].uptodate {
        var task := Task(Running, tasks[t].held + multiset{pc.bh});
        PcToHand(tasks[t], task, pc.bh);
        MoveOn(W(), view, t, task);
        tasks := tasks[t := task];
        return Got(pc.bh);
      }
      if pc.ReadLock? {
        StartRead(t, pc.dev, pc.block, pc.bh);
        return Asleep;
      }
      var task := Task(Running, tasks[t].held);
      PcDrops(tasks[t], task, pc.bh);
      Drop(t, pc.bh, task);
      return Unreadable;
    }

    /** ll_rw_block(READ, bh). */
    method StartRead(t: nat, dev: bv32, block: bv32, bh: nat)
      requires Valid() && t in tasks && tasks[t].pc == ReadLock(dev, block, bh)
      requires bh < |buf| && !buf[bh].lock && !buf[bh].uptodate
      modifies this`buf, this`io, this`tasks
      ensures Valid() && Quiet(old(W()), view, W(), view, t)
        && tasks[t] == Task(ReadWait(dev, block, bh), old(tasks[t].held))
    {
      hide Inv, Holds;
      HeldInside(W(), view, t);
      var task := Task(ReadWait(dev, block, bh), tasks[t].held);
      SameUses(tasks[t], task);
      MoveOn(W(), view, t, task);
      tasks := tasks[t := task];
      LockKeeps(W(), view, bh, false);
      buf := buf[bh := buf[bh].(lock := true)];
      io := io[bh := Waiting(false)];
    }

    /** ll_rw_block(WRITE, bh), as sync_dev and sys_sync do for dirty buffers: make_request locks it. */
    method StartWrite(bh: nat)
      requires Valid() && bh < |buf| && buf[bh].dirt && !buf[bh].lock
      modifies this`buf, this`io
      ensures Valid() && Steady(old(W()), W()) && bh < |old(io)|
      ensures buf == old(buf)[bh := old(buf[bh]).(lock := true)] && io == old(io)[bh := Waiting(true)]
    {
      hide Inv;
      LockKeeps(W(), view, bh, true);
      buf := buf[bh := buf[bh].(lock := true)];
      io := io[bh := Waiting(true)];
    }

    /** The request gets its slot in the queue. */
    method QueueRequest(bh: nat)
      requires Valid() && bh < |buf| && bh < |io| && io[bh].Waiting?
      modifies this`buf, this`io
      ensures Valid() && Steady(old(W()), W())
      ensures buf == old(buf)[bh := old(buf[bh]).(dirt := false)]
      ensures io == old(io)[bh := Queued(old(io[bh]).write)]
    {
      hide Inv;
      QueueKeeps(W(), view, bh);
      buf := buf[bh := buf[bh].(dirt := false)];
      io := io[bh := Queued(io[bh].write)];
    }

    /** end_request: ok is false after an error; torn is what the device has after a failed write, or after one of a
        buffer that changed meanwhile. */
    method RequestDone(bh: nat, ok: bool, torn: Data)
      requires Valid() && bh < |buf| && bh < |io| && io[bh].Queued?
      modifies this`buf, this`io, this`disk, this`view
      ensures Valid() && io == old(io)[bh := NoIo] && SteadyBut(old(W()), W(), bh)
      ensures ok || !old(io[bh]).write ==> Steady(old(W()), W())
      ensures buf[bh].uptodate == ok && !buf[bh].lock
      ensures old(io[bh]).write ==>
        && buf == old(buf)[bh := old(buf[bh]).(lock := false, uptodate := ok)]
        && disk == old(disk)[KeyOf(old(buf[bh])) := if old(buf[bh].dirt) || !ok then torn else old(buf[bh].data)]
        && view.image == old(view.image)[KeyOf(old(buf[bh])) := if ok then old(buf[bh].data) else torn]
        && (ok && old(buf[bh].uptodate) ==> At(old(view.image), KeyOf(old(buf[bh]))) == old(buf[bh].data))
      ensures !old(io[bh]).write ==>
        && disk == old(disk) && view == old(view) && (ok ==> buf[bh].data == At(disk, KeyOf(buf[bh])))
        && buf == old(buf)[bh := old(buf[bh]).(lock := false, uptodate := buf[bh].uptodate, data := buf[bh].data)]
    {
      hide Inv;
      if io[bh].write { WriteDone(bh, ok, torn); } else { ReadDone(bh, ok); }
    }

    method WriteDone(bh: nat, ok: bool, torn: Data)
      requires Valid() && bh < |buf| && bh < |io| && io[bh] == Queued(true)
      modifies this`buf, this`io, this`disk, this`view
      ensures Valid() && io == old(io)[bh := NoIo]
        && buf == old(buf)[bh := old(buf[bh]).(lock := false, uptodate := ok)]
      ensures disk == old(disk)[KeyOf(old(buf[bh])) := if old(buf[bh].dirt) || !ok then torn else old(buf[bh].data)]
      ensures view.image == old(view.image)[KeyOf(old(buf[bh])) := if ok then old(buf[bh].data) else torn]
      ensures ok && old(buf[bh].uptodate) ==> At(old(view.image), KeyOf(old(buf[bh]))) == old(buf[bh].data)
    {
      hide Inv;
      var k := KeyOf(buf[bh]);
      if ok {
        WriteDoneKeeps(W(), view, bh, torn);
        disk := disk[k := if buf[bh].dirt then torn else buf[bh].data];
        view := view.(image := view.image[k := buf[bh].data]);
      } else {
        WriteFailedKeeps(W(), view, bh, torn);
        disk := disk[k := torn];
        view := view.(image := view.image[k := torn]);
      }
      buf := buf[bh := buf[bh].(lock := false, uptodate := ok)];
      io := io[bh := NoIo];
    }

    method ReadDone(bh: nat, ok: bool)
      requires Valid() && bh < |buf| && bh < |io| && io[bh] == Queued(false)
      modifies this`buf, this`io
      ensures Valid() && io == old(io)[bh := NoIo] && !old(buf[bh]).uptodate
      ensures buf == old(buf)[bh := AfterRead(old(buf[bh]), ok, disk)]
    {
      Facts(W(), view, bh);
      hide Inv;
      ReadDoneKeeps(W(), view, bh, ok);
      if ok {
        buf := buf[bh := buf[bh].(lock := false, uptodate := true, data := At(disk, KeyOf(buf[bh])))];
      } else {
        buf := buf[bh := buf[bh].(lock := false)];
      }
      io := io[bh := NoIo];
    }

    /** A holder writes into an up-to-date buffer, or fills a whole one that nobody is
        reading in, and marks it dirty. */
    method Store(t: nat, bh: nat, data: Data)
      requires Valid() && t in tasks && tasks[t].pc.Running? && tasks[t].held[bh] > 0
      requires bh < |buf| && buf[bh].dev != 0 && (buf[bh].uptodate || !buf[bh].lock)
      modifies this`buf, this`view
      ensures Valid() && Steady(old(W()), W())
      ensures view.image == old(view.image)[Key(buf[bh].dev, buf[bh].blocknr) := data]
      ensures buf == old(buf)[bh := old(buf[bh]).(data := data, uptodate := true, dirt := true)]
    {
      hide Inv;
      StoreKeeps(W(), view, bh, data);
      view := view.(image := view.image[KeyOf(buf[bh]) := data]);
      buf := buf[bh := buf[bh].(data := data, uptodate := true, dirt := true)];
    }

    /** buffer_init with n buffers, on devices with these contents, for these tasks. */
    constructor (n: nat, contents: map<Key, Data>, users: set<nat>)
      requires n > 0
      ensures Valid() && disk == contents && view.image == contents && tasks.Keys == users
      ensures forall t :: t in users ==> tasks[t] == Task(Running, multiset{})
      ensures |buf| == n && forall j :: 0 <= j < n ==> Unused(buf[j])
    {
      var heads: seq<Head> := [];
      var h := 0;
      while h < n
        invariant h <= n && |heads| == h
        invariant forall j :: 0 <= j < h ==> heads[j] == NewHead(j - 1, j + 1)
      {
        heads := heads + [NewHead(h - 1, h + 1)];
        h := h + 1;
      }
      h := h - 1;
      heads := heads[0 := heads[0].(prevFree := h)];
      heads := heads[h := heads[h].(nextFree := 0)];
      buf, freeList := heads, 0;
      hash := seq(NrHash, _ => -1);
      io := seq(n, _ => NoIo);
      disk := contents;
      tasks := map t | t in users :: Task(Running, multiset{});
      view := View(seq(NrHash, _ => []), seq(n, i => i), seq(n, _ => multiset{}), contents);
      new;
      StartValid(W(), view, n);
    }

    /** Any interleaving: steps of tasks at their sleeping points, calls they make, and steps of the driver. What a task
        holds stays its buffer for its block, with the plain disk's data, until it releases it or a transfer fails. */
    method Run(events: seq<Event>)
      requires Valid()
      modifies this
      ensures Valid() && StillHeld(old(W()), W(), events, |events|)
      ensures forall b :: 0 <= b < |buf| && buf[b].dev != 0 && buf[b].uptodate ==>
        buf[b].data == At(view.image, KeyOf(buf[b]))
    {
      hide Inv, StillHeld, KeepsHeld;
      HeldAtFirst(W(), view, events);
      var i := 0;
      while i < |events|
        invariant i <= |events| && Valid() && StillHeld(old(W()), W(), events, i)
      {
        ghost var w := W();
        Step(events[i]);
        EventHolds(old(W()), w, W(), events, i);
        i := i + 1;
      }
      forall b | 0 <= b < |buf| && buf[b].dev != 0 && buf[b].uptodate
        ensures buf[b].data == At(view.image, KeyOf(buf[b]))
      {
        Facts(W(), view, b);
      }
    }

    /** One step, if it is possible. */
    method Step(e: Event)
      requires Valid()
      modifies this
      ensures Valid() && (Steady(old(W()), W()) || (e.Complete? && !e.ok && SteadyBut(old(W()), W(), e.bh)))
      ensures SamePlain(old(view.image), view.image)
        || (e.StoreInto? && e.bh < |buf| && view.image == old(view.image)[KeyOf(buf[e.bh]) := e.data])
        || (e.Complete? && e.bh < |buf| && (!e.ok || !old(buf[e.bh].uptodate))
            && view.image == old(view.image)[KeyOf(buf[e.bh]) := if e.ok then old(buf[e.bh].data) else e.torn])
      ensures KeepsHeld(old(W()), W(), e)
    {
      hide Inv, KeepsHeld, HeldMore, Steady;
      StaySame(W());
      NobodyLets(W(), e);
      ghost var w, v := W(), view;
      match e {
      case Call(t, aim, dev, block) => if t in tasks && tasks[t].pc.Running? { CallStep(t, aim, dev, block); }
      case Release(t, bh) => if t in tasks && tasks[t].pc.Running? && tasks[t].held[bh] > 0 { ReleaseStep(t, bh); }
      case Awake(t) => if t in tasks && !tasks[t].pc.Running? { AwakeStep(t); }
      case StoreInto(t, bh, data) =>
        if t in tasks && tasks[t].pc.Running? && tasks[t].held[bh] > 0 && bh < |buf| && buf[bh].dev != 0
          && (buf[bh].uptodate || !buf[bh].lock) {
          Store(t, bh, data);
        }
      case Flush(bh) => if bh < |buf| && buf[bh].dirt && !buf[bh].lock { StartWrite(bh); }
      case Enqueue(bh) => if bh < |buf| && bh < |io| && io[bh].Waiting? { QueueRequest(bh); }
      case Complete(bh, ok, torn) => if bh < |buf| && bh < |io| && io[bh].Queued? { RequestDone(bh, ok, torn); }
      }
      StepHolds(w, v, W(), e);
    }

    method CallStep(t: nat, aim: Aim, dev: bv32, block: bv32)
      requires Valid() && t in tasks && tasks[t].pc.Running?
      modifies this
      ensures Valid() && Quiet(old(W()), old(view), W(), view, t)
      ensures HeldMore(old(W()), W(), Call(t, aim, dev, block))
    {
      hide Inv, Steady;
      match aim
      case Find => var _ := GetHashTable(t, dev, block);
      case Get => var _, _ := Getblk(t, dev, block, Get);
      case Read => var _, _ := Bread(t, dev, block);
    }

    method ReleaseStep(t: nat, bh: nat)
      requires Valid() && t in tasks && tasks[t].pc.Running? && tasks[t].held[bh] > 0
      modifies this
      ensures Valid() && Quiet(old(W()), old(view), W(), view, t) && HeldMore(old(W()), W(), Release(t, bh))
    {
      hide Inv, Steady;
      var _ := Brelse(t, bh);
    }

    method AwakeStep(t: nat)
      requires Valid() && t in tasks && !tasks[t].pc.Running?
      modifies this
      ensures Valid() && Quiet(old(W()), old(view), W(), view, t) && HeldMore(old(W()), W(), Awake(t))
    {
      hide Inv, Steady;
      var _, _ := Resume(t);
    }
  }

  lemma StaySame(w: World)
    ensures Steady(w, w)
  {
  }

  /** At most one buffer is for a block of a device, and a walk down the chain of the block's hash value meets it. */
  lemma OneBuffer(w: World, v: View, j: nat, k: nat)
    requires Inv(w, v) && j < |w.q.buf| && k < |w.q.buf| && w.q.buf[j].dev != 0
      && KeyOf(w.q.buf[j]) == KeyOf(w.q.buf[k])
    ensures j == k && |v.chains| == NrHash && j in v.chains[HashFn(w.q.buf[j].dev, w.q.buf[j].blocknr)]
  {
    hide Counted, Placed, Flags, Mirrors, Ring, HashFn;
    var h := HashFn(w.q.buf[j].dev, w.q.buf[j].blocknr);
    assert Keyed(w.q.buf[j], h);
  }

  /** A clean buffer without a request is on the device, and the device has every block that no buffer has. */
  lemma NothingLost(w: World, v: View, k: Key)
    requires Inv(w, v) && k.dev != 0
    requires forall b :: 0 <= b < |w.q.buf| && Cached(w.q.buf[b], k) ==> !w.q.buf[b].dirt && !w.q.buf[b].lock
    ensures At(w.disk, k) == At(v.image, k)
  {
    hide Linked, Counted, Placed;
    if b :| 0 <= b < |w.q.buf| && Cached(w.q.buf[b], k) {
      assert FlagsOk(w.q.buf[b], w.io[b]) && DataOk(w.q.buf[b], w.io[b], w.disk, v.image);
    }
  }

  // ---------- what holders rely on ----------

  predicate Holding(w: World, t: nat, b: nat) { t in w.tasks && w.tasks[t].held[b] > 0 }

  /** The task gives the buffer back. */
  predicate Lets(e: Event, t: nat, b: nat) { e.Release? && e.t == t && e.bh == b }

  /** A transfer of the buffer fails. */
  predicate Fails(e: Event, b: nat) { e.Complete? && !e.ok && e.bh == b }

  /** Buffer b is still for its block. */
  predicate SameBlock(w: World, w': World, b: nat) {
    && b < |w.q.buf| && b < |w'.q.buf|
    && w'.q.buf[b].dev == w.q.buf[b].dev && w'.q.buf[b].blocknr == w.q.buf[b].blocknr
  }

  /** If it was up to date it is so still. */
  predicate StillFilled(w: World, w': World, b: nat) {
    SameBlock(w, w', b) && (w.q.buf[b].uptodate ==> w'.q.buf[b].uptodate)
  }

  /** One step of any task, the driver or a writer: holders keep their buffers. */
  ghost predicate KeepsHeld(w: World, w': World, e: Event) {
    && (forall t: nat, b: nat :: Holding(w, t, b) && !Lets(e, t, b) ==> Holding(w', t, b) && SameBlock(w, w', b))
    && (forall t: nat, b: nat :: Holding(w, t, b) && !Lets(e, t, b) && !Fails(e, b) ==> StillFilled(w, w', b))
  }

  /** Nobody has fewer buffers than before but a task that releases one. */
  ghost predicate HeldMore(w: World, w': World, e: Event) {
    forall t: nat, b: nat :: Holding(w, t, b) && !Lets(e, t, b) ==> Holding(w', t, b)
  }

  lemma NobodyLets(w: World, e: Event)
    ensures forall w': World :: w'.tasks == w.tasks ==> HeldMore(w, w', e)
  {
  }

  lemma StepHolds(w: World, v: View, w': World, e: Event)
    requires Inv(w, v) && HeldMore(w, w', e)
    requires Steady(w, w') || (e.Complete? && !e.ok && SteadyBut(w, w', e.bh))
    ensures KeepsHeld(w, w', e)
  {
    hide Inv;
    forall t: nat, b: nat | Holding(w, t, b) ensures b < |w.q.buf| && w.q.buf[b].count > 0 { HeldCounts(w, v, t, b); }
  }

  predicate NoneLets(events: seq<Event>, n: nat, t: nat, b: nat)
    requires n <= |events|
  {
    forall k :: 0 <= k < n ==> !Lets(events[k], t, b)
  }

  predicate NoneFails(events: seq<Event>, n: nat, b: nat)
    requires n <= |events|
  {
    forall k :: 0 <= k < n ==> !Fails(events[k], b)
  }

  /** The same for the first n steps of a run. */
  ghost predicate StillHeld(w: World, w': World, events: seq<Event>, n: nat) {
    && n <= |events|
    && (forall t: nat, b: nat :: Holding(w, t, b) && NoneLets(events, n, t, b) ==>
       Holding(w', t, b) && SameBlock(w, w', b))
    && (forall t: nat, b: nat :: Holding(w, t, b) && NoneLets(events, n, t, b) && NoneFails(events, n, b) ==>
          StillFilled(w, w', b))
  }

  lemma HeldAtFirst(w: World, v: View, events: seq<Event>)
    requires Inv(w, v)
    ensures StillHeld(w, w, events, 0)
  {
    hide Inv;
    forall t: nat, b: nat | Holding(w, t, b) ensures b < |w.q.buf| { HeldCounts(w, v, t, b); }
  }

  lemma EventHolds(w0: World, w: World, w': World, events: seq<Event>, n: nat)
    requires StillHeld(w0, w, events, n) && n < |events| && KeepsHeld(w, w', events[n])
    ensures StillHeld(w0, w', events, n + 1)
  {
    forall t: nat, b: nat | Holding(w0, t, b) && NoneLets(events, n + 1, t, b)
      ensures Holding(w', t, b) && SameBlock(w0, w', b) && (NoneFails(events, n + 1, b) ==> StillFilled(w0, w', b))
    {
      assert NoneLets(events, n, t, b) && !Lets(events[n], t, b);
      assert Holding(w, t, b) && SameBlock(w0, w, b) && Holding(w', t, b) && SameBlock(w, w', b);
      if NoneFails(events, n + 1, b) {
        assert NoneFails(events, n, b) && !Fails(events[n], b);
        assert StillFilled(w0, w, b) && StillFilled(w, w', b);
      }
    }
  }

  /** The same plain disk. */
  ghost predicate SamePlain(image: map<Key, Data>, image': map<Key, Data>) { forall k :: At(image', k) == At(image, k) }

  datatype Event =
    | Call(t: nat, aim: Aim, dev: bv32, block: bv32)
    | Release(t: nat, bh: nat)
    | Awake(t: nat)
    | StoreInto(t: nat, bh: nat, data: Data)
    | Flush(bh: nat)
    | Enqueue(bh: nat)
    | Complete(bh: nat, ok: bool, torn: Data)

  predicate Unused(h: Head) { h.dev == 0 && h.count == 0 && !h.lock && !h.dirt }

  /** The first getblk for a block of a real device stores through a null pointer. */
  method FirstGetblk(n: nat, contents: map<Key, Data>, user: nat, dev: bv32, block: bv32)
    returns (cache: BufferCache, nullStore: bool)
    requires n > 0 && dev != 0
    ensures fresh(cache) && cache.Valid() && nullStore
  {
    hide Inv, HashFn;
    cache := new BufferCache(n, contents, {user});
    ghost var unused := cache.buf;
    assert Unused(unused[0]);
    var r;
    r, nullStore := cache.Getblk(user, dev, block, Get);
    if r.Asleep? { NeverWaits(unused, cache.tasks[user].pc, dev, block); }
    assert Absent(unused, dev, block) && StoresNull(unused, r.bh, dev, block);
  }

  lemma NeverWaits(buf: seq<Head>, pc: Pc, dev: bv32, block: bv32)
    requires buf != [] && forall j :: 0 <= j < |buf| ==> Unused(buf[j])
    ensures !Waits(buf, pc, dev, block, Get)
  {
    assert Unused(buf[0]);
  }

  function NewHead(prevFree: int, nextFree: int): Head {
    Head(0, 0, false, false, 0, false, -1, -1, prevFree, nextFree, [])
  }

  lemma StartValid(w: World, v: View, n: nat)
    requires n > 0 && |w.q.buf| == n && w.q.free == 0 && w.io == seq(n, _ => NoIo)
    requires forall j :: 0 <= j < n ==>
      w.q.buf[j] == NewHead(if j > 0 then j - 1 else n - 1, if j + 1 < n then j + 1 else 0)
    requires w.q.hash == seq(NrHash, _ => -1) && v.chains == seq(NrHash, _ => []) && v.ring == seq(n, i => i)
    requires v.users == seq(n, _ => multiset{}) && v.image == w.disk
    requires forall t :: t in w.tasks ==> w.tasks[t] == Task(Running, multiset{})
    ensures Inv(w, v)
  {
    hide HashFn;
    forall i | 0 <= i < n ensures RingAt(w.q.buf, v.ring, i) { }
    forall j | 0 <= j < n ensures j in v.ring { assert v.ring[j] == j; }
    forall h | 0 <= h < NrHash ensures Chain(w.q.buf, w.q.hash[h], v.chains[h]) { }
  }

  /** What the sleeping task asked for. */
  ghost predicate AnswersPc(pc: Pc, w: World, w': World, v': View, t: nat, bh: nat) {
    match pc
    case InHash(dev, block, _, aim) => Given(w, w', v', t, bh, dev, block, aim)
    case InFreeSleep(dev, block, aim) => Given(w, w', v', t, bh, dev, block, aim)
    case InVictim(dev, block, _, aim) => Given(w, w', v', t, bh, dev, block, aim)
    case InSync(dev, block, _, aim) => Given(w, w', v', t, bh, dev, block, aim)
    case ReadLock(dev, block, _) => Given(w, w', v', t, bh, dev, block, Read)
    case ReadWait(dev, block, _) => Given(w, w', v', t, bh, dev, block, Read)
    case _ => false
  }

  lemma LetGo(task: Task, task': Task, bh: nat)
    requires task.pc.Running? && task.held[bh] > 0 && task'.held == task.held - multiset{bh}
    requires task'.pc.Running? || task'.pc == Releasing(bh)
    ensures task'.pc.Running? ==> forall c: nat :: Holds(task, c) == Holds(task', c) + if c == bh then 1 else 0
    ensures !task'.pc.Running? ==> forall c: nat :: Holds(task', c) == Holds(task, c)
  {
  }

  lemma HeldCounts(w: World, v: View, t: nat, bh: nat)
    requires Inv(w, v) && t in w.tasks && w.tasks[t].held[bh] > 0
    ensures bh < |w.q.buf| && w.q.buf[bh].count > 0
  {
    InUse(w.q.buf, w.tasks, v.users, t, bh);
  }

  lemma PcToHand(task: Task, task': Task, bh: nat)
    requires (forall b: nat :: PcHolds(task.pc, b) <==> b == bh) && task' == Task(Running, task.held + multiset{bh})
    ensures forall c: nat :: Holds(task', c) == Holds(task, c)
  {
  }

  lemma PcDrops(task: Task, task': Task, bh: nat)
    requires (forall b: nat :: PcHolds(task.pc, b) <==> b == bh) && task' == Task(Running, task.held)
    ensures forall c: nat :: Holds(task, c) == Holds(task', c) + if c == bh then 1 else 0
  {
  }

  lemma SameUses(task: Task, task': Task)
    requires task'.held == task.held && forall b: nat :: PcHolds(task'.pc, b) <==> PcHolds(task.pc, b)
    ensures forall c: nat :: Holds(task', c) == Holds(task, c)
  {
  }

  /** Waking up changes nothing but the program counter. */
  lemma AwokeFirst(w: World, w1: World, v: View, w2: World, v2: View, t: nat, r: Reply, dev: bv32, block: bv32,
                   aim: Aim)
    requires t in w.tasks && w1 == w.(tasks := w.tasks[t := Task(Running, w.tasks[t].held)])
    requires Quiet(w1, v, w2, v2, t) && (r.Got? ==> Given(w1, w2, v2, t, r.bh, dev, block, aim))
    ensures Quiet(w, v, w2, v2, t) && (r.Got? ==> Given(w, w2, v2, t, r.bh, dev, block, aim))
  {
  }

  lemma FinishAfter(w0: World, v0: View, w1: World, v1: View, w2: World, t: nat, bh: nat, r: Reply, dev: bv32,
                    block: bv32, aim: Aim)
    requires Quiet(w0, v0, w1, v1, t) && Given(w0, w1, v1, t, bh, dev, block, Find)
    requires Quiet(w1, v1, w2, v1, t) && w2 == w1.(tasks := w2.tasks)
    requires r == Got(bh) ==>
      w2 == w1
      && (aim.Read? ==> w2.q.buf[bh].uptodate && (dev != 0 ==> w2.q.buf[bh].data == At(v1.image, Key(dev, block))))
    requires r == Asleep ==> w2.tasks[t] == Task(w2.tasks[t].pc, w1.tasks[t].held - multiset{bh})
    ensures Quiet(w0, v0, w2, v1, t)
    ensures r == Got(bh) ==> Given(w0, w2, v1, t, bh, dev, block, aim)
    ensures r == Asleep ==> w2.tasks[t].held == w0.tasks[t].held
  {
    assert w0.tasks[t].held + multiset{bh} - multiset{bh} == w0.tasks[t].held;
  }

  lemma OneMore(task: Task, task': Task, bh: nat)
    requires forall b :: !PcHolds(task.pc, b)
    requires (task'.held == task.held && task'.pc.ReadLock? && task'.pc.bh == bh)
      || task' == Task(Running, task.held + multiset{bh})
    ensures forall c: nat :: Holds(task', c) == Holds(task, c) + if c == bh then 1 else 0
  {
  }

  /** A use moves from the hands of a task to its program counter. */
  lemma HandToPc(task: Task, task': Task, bh: nat)
    requires task.pc.Running? && task.held[bh] > 0 && task'.held == task.held - multiset{bh}
    requires forall b: nat :: PcHolds(task'.pc, b) <==> b == bh
    ensures forall c: nat :: Holds(task', c) == Holds(task, c)
  {
  }

  function Badness(h: Head): nat { (if h.dirt then 2 else 0) + (if h.lock then 1 else 0) }

  /** Buffer j is in use or no better than bh, if it comes before it even worse. */
  predicate NoBetter(buf: seq<Head>, bh: int, j: int, before: bool) {
    0 <= j < |buf| && buf[j].count == 0 ==>
      0 <= bh < |buf| && if before then Badness(buf[bh]) < Badness(buf[j]) else Badness(buf[bh]) <= Badness(buf[j])
  }

  /** The i-th of the free list is looked at. */
  lemma OneMoreSeen(buf: seq<Head>, ring: seq<int>, bh: int, k: nat, i: nat)
    requires i < |ring| && 0 <= ring[i] < |buf| && k <= i && (bh >= 0 ==> bh < |buf|)
    requires forall l :: 0 <= l < i ==> NoBetter(buf, bh, ring[l], l < k)
    ensures buf[ring[i]].count != 0 ==> NoBetter(buf, bh, ring[i], i < k)
    ensures bh >= 0 && Badness(buf[bh]) <= Badness(buf[ring[i]]) ==> NoBetter(buf, bh, ring[i], i < k)
    ensures bh < 0 || Badness(buf[ring[i]]) < Badness(buf[bh]) ==>
      forall l :: 0 <= l <= i ==> NoBetter(buf, ring[i], ring[l], l < i)
  {
    hide Badness;
    forall l | 0 <= l < i && (bh < 0 || Badness(buf[ring[i]]) < Badness(buf[bh]))
      ensures NoBetter(buf, ring[i], ring[l], true)
    {
      assert NoBetter(buf, bh, ring[l], l < k);
    }
  }

  lemma AllSeen(buf: seq<Head>, ring: seq<int>, bh: int, k: nat)
    requires forall l :: 0 <= l < |ring| ==> NoBetter(buf, bh, ring[l], l < k)
    requires forall j :: 0 <= j < |buf| ==> j in ring
    ensures forall j :: 0 <= j < |buf| && buf[j].count == 0 ==> 0 <= bh < |buf| && Badness(buf[bh]) <= Badness(buf[j])
  {
    hide Badness;
    forall j | 0 <= j < |buf| && buf[j].count == 0 ensures 0 <= bh < |buf| && Badness(buf[bh]) <= Badness(buf[j]) {
      assert j in ring;
      var l :| 0 <= l < |ring| && ring[l] == j;
      assert NoBetter(buf, bh, ring[l], l < k);
    }
  }

  /** The first i of the free list have been looked at. */
  lemma FirstOfBest(buf: seq<Head>, ring: seq<int>, k: nat, i: nat)
    requires k < |ring| && k <= i <= |ring| && 0 <= ring[k] < |buf| && buf[ring[k]].count == 0
    requires forall l :: 0 <= l < i ==> NoBetter(buf, ring[k], ring[l], l < k)
    requires i < |ring| ==> Badness(buf[ring[k]]) == 0
    ensures FirstBest(buf, ring, ring[k])
  {
    forall j | 0 <= j < |ring| ensures OtherIsWorse(buf, ring, k, j) {
      if j < i { assert NoBetter(buf, ring[k], ring[j], j < k); }
    }
  }

  predicate For(h: Head, dev: bv32, block: bv32) { h.dev == dev && h.blocknr == block }

  /** Buffer bh is unused and no unused buffer is better. */
  ghost predicate Best(buf: seq<Head>, bh: nat) {
    bh < |buf| && buf[bh].count == 0
      && forall j :: 0 <= j < |buf| && buf[j].count == 0 ==> Badness(buf[bh]) <= Badness(buf[j])
  }

  /** Why a call goes to sleep: the block's buffer is locked or has to be read, every buffer is in use, or the
      best unused one is locked or dirty. */
  ghost predicate Waits(buf: seq<Head>, pc: Pc, dev: bv32, block: bv32, aim: Aim) {
    match pc
    case InHash(d, b, bh, a) => (d, b, a) == (dev, block, aim) && bh < |buf| && For(buf[bh], dev, block) && buf[bh].lock
    case InFreeSleep(d, b, a) => (d, b, a) == (dev, block, aim) && forall j :: 0 <= j < |buf| ==> buf[j].count > 0
    case InVictim(d, b, bh, a) => (d, b, a) == (dev, block, aim) && Best(buf, bh) && buf[bh].lock
    case InSync(d, b, bh, a) => (d, b, a) == (dev, block, aim) && Best(buf, bh) && !buf[bh].lock && buf[bh].dirt
    case ReadLock(d, b, bh) => (d, b) == (dev, block) && aim.Read?
    case _ => false
  }

  /** What a task that went on sleeping at the same point has found. */
  ghost predicate StillWaits(buf: seq<Head>, pc: Pc) {
    match pc
    case InFreeSleep(_, _, _) => forall j :: 0 <= j < |buf| ==> buf[j].count > 0
    case InSync(_, _, bh, _) => bh < |buf| && (buf[bh].lock || (buf[bh].count == 0 && buf[bh].dirt))
    case Running => false
    case _ => pc.bh < |buf| && buf[pc.bh].lock
  }

  ghost predicate Absent(buf: seq<Head>, dev: bv32, block: bv32) {
    forall j :: 0 <= j < |buf| && dev != 0 ==> buf[j].dev != dev || buf[j].blocknr != block
  }

  lemma StaySteady(w: World, v: View, t: nat)
    requires t in w.tasks
    ensures Quiet(w, v, w, v, t)
  {
  }

  /** Waiting for a buffer or holding it is one more use of it. */
  lemma WaitUses(task: Task, task': Task, bh: nat)
    requires task.pc.Running?
    requires (task'.held == task.held && PcHolds(task'.pc, bh)) || task' == Task(Running, task.held + multiset{bh})
    ensures forall c: nat :: Holds(task', c) == Holds(task, c) + if c == bh then 1 else 0
  {
  }

  lemma HeldInside(w: World, v: View, t: nat)
    requires Inv(w, v) && t in w.tasks
    ensures (forall c :: c in w.tasks[t].held ==> c < |w.q.buf|) && |v.users| == |w.q.buf|
    ensures PcPlaced(w.q.buf, w.tasks[t].pc)
  {
  }

  lemma TakeFacts(q: Queues, chains: seq<seq<int>>, ring: seq<int>, b: nat, dev: bv32, block: bv32)
    requires Linked(q, chains, ring) && b < |q.buf|
    ensures |q.hash| == NrHash && |Unlisted(Unhashed(q, b), b).buf| == |q.buf|
      && |Unlisted(Unhashed(q, b), b).hash| == NrHash
    ensures 0 <= Unlisted(Unhashed(q, b), b).free < |q.buf|
    ensures 0 <= SetNextFree(Rekeyed(Unlisted(Unhashed(q, b), b), b, dev, block).buf, b,
      Unlisted(Unhashed(q, b), b).free)[Unlisted(Unhashed(q, b), b).free].prevFree < |q.buf|
    ensures forall h :: 0 <= h < NrHash ==> -1 <= Unlisted(Unhashed(q, b), b).hash[h] < |q.buf|
  {
    hide Unhashed, Unlisted, Hashed, Ring;
    HashedSizes(q, chains, -1);
    RequeueRing(q, ring, b, dev, block);
    UnhashTouches(q, b);
    UnlistTouches(Unhashed(q, b), b);
    HeadsInside(q, chains, b);
    LastInside(q, ring, b);
  }

  lemma HeadsInside(q: Queues, chains: seq<seq<int>>, b: nat)
    requires Hashed(q, chains, -1) && b < |q.buf|
    ensures forall h :: 0 <= h < NrHash ==> -1 <= Unhashed(q, b).hash[h] < |q.buf|
  {
    hide Unhashed, HashFn;
    UnhashTouches(q, b);
    UnhashKeeps(q, chains, b);
    var q', chains' := Unhashed(q, b), ChainsWithout(chains, HashFn(q.buf[b].dev, q.buf[b].blocknr), b);
    forall h | 0 <= h < NrHash ensures -1 <= q'.hash[h] < |q.buf| {
      assert Chain(q'.buf, q'.hash[h], chains'[h]);
    }
  }

  lemma LastInside(q: Queues, ring: seq<int>, b: nat)
    requires b < |q.buf| && |q.hash| == NrHash && Ring(q.buf, q.free, ring) && b in ring
    ensures 0 <= Unlisted(Unhashed(q, b), b).free < |q.buf|
    ensures 0 <= SetNextFree(Unlisted(Unhashed(q, b), b).buf, b,
      Unlisted(Unhashed(q, b), b).free)[Unlisted(Unhashed(q, b), b).free].prevFree < |q.buf|
  {
    hide Unhashed, Unlisted;
    UnhashTouches(q, b);
    var q1, q2 := Unhashed(q, b), Unlisted(Unhashed(q, b), b);
    RingSame(q.buf, q1.buf, q.free, ring);
    UnlistTouches(q1, b);
    var i :| 0 <= i < |ring| && ring[i] == b;
    if |ring| > 1 {
      UnlistKeeps(q1, ring, i);
      RingFacts(q2.buf, q2.free, ring[..i] + ring[i + 1..], 0);
    } else {
      assert ring == [b];
      OnlyOne(q1, b);
      RingFacts(q1.buf, q1.free, ring, 0);
    }
  }

  /** After buffer b has left its chain, the chain of hash value h is empty exactly when
      no other buffer belongs to it. */
  lemma EmptyChain(q: Queues, chains: seq<seq<int>>, ring: seq<int>, b: nat, h: nat)
    requires Linked(q, chains, ring) && b < |q.buf| && h < NrHash
    ensures |q.hash| == NrHash && |Unlisted(Unhashed(Cleaned(q, b), b), b).hash| == NrHash
    ensures Unlisted(Unhashed(Cleaned(q, b), b), b).hash[h] == -1
      <==> forall j :: 0 <= j < |q.buf| && j != b ==> !Keyed(q.buf[j], h)
  {
    hide Hashed, HashFn, Keyed, Unhashed, Unlisted, Ring, Unique, Linked;
    var q1 := Cleaned(q, b);
    SetKeepsQueues(q, b, q1.buf[b]);
    LinkedSame(q, q1, chains, ring);
    LinkedHashed(q, chains, ring);
    LinkedHashed(q1, chains, ring);
    HashedSizes(q, chains, -1);
    UnhashKeeps(q1, chains, b);
    UnhashTouches(q1, b);
    UnlistTouches(Unhashed(q1, b), b);
    ChainEmpty(Unhashed(q1, b), ChainsWithout(chains, HashFn(q1.buf[b].dev, q1.buf[b].blocknr), b), b, h);
    forall j | 0 <= j < |q.buf| && j != b ensures Keyed(Unhashed(q1, b).buf[j], h) <==> Keyed(q.buf[j], h) {
      KeyedSame(q.buf[j], Unhashed(q1, b).buf[j]);
    }
  }

  lemma LinkedHashed(q: Queues, chains: seq<seq<int>>, ring: seq<int>)
    requires Linked(q, chains, ring)
    ensures Hashed(q, chains, -1)
  {
  }

  lemma ChainEmpty(q: Queues, chains: seq<seq<int>>, out: int, h: nat)
    requires Hashed(q, chains, out) && h < NrHash
    ensures |q.hash| == NrHash
    ensures q.hash[h] == -1 <==> forall j :: 0 <= j < |q.buf| && j != out ==> !Keyed(q.buf[j], h)
  {
    hide HashFn, Keyed;
    ChainFacts(q.buf, q.hash[h], chains[h]);
    if chains[h] != [] {
      assert chains[h][0] in chains[h] && Keyed(q.buf[chains[h][0]], h);
    } else {
      forall j | 0 <= j < |q.buf| && j != out ensures !Keyed(q.buf[j], h) { assert j !in chains[h]; }
    }
  }

  lemma InChain(q: Queues, chains: seq<seq<int>>, h: nat, j: int)
    requires Hashed(q, chains, -1) && h < NrHash && j in chains[h]
    ensures 0 <= j < |q.buf| && q.buf[j].dev != 0
  {
    assert Chain(q.buf, q.hash[h], chains[h]);
  }

  lemma RemoveFacts(q: Queues, chains: seq<seq<int>>, ring: seq<int>, b: nat)
    requires Linked(q, chains, ring) && b < |q.buf|
    ensures |q.hash| == NrHash
    ensures -1 <= q.buf[b].prev < |q.buf| && -1 <= q.buf[b].next < |q.buf|
    ensures 0 <= q.buf[b].prevFree < |q.buf| && 0 <= q.buf[b].nextFree < |q.buf|
    ensures 0 <= q.free < |q.buf|
    ensures q.buf[b].prev != b && q.buf[b].next != b
  {
    hide HashFn, Unique;
    assert b in ring;
    var i :| 0 <= i < |ring| && ring[i] == b;
    RingFacts(q.buf, q.free, ring, i);
    RingFacts(q.buf, q.free, ring, 0);
    if q.buf[b].dev != 0 {
      var h := HashFn(q.buf[b].dev, q.buf[b].blocknr);
      NotKeyed(q.buf[b], h);
      assert b in chains[h];
      var k :| 0 <= k < |chains[h]| && chains[h][k] == b;
      ChainAt(q.buf, q.hash[h], chains[h], k);
    }
  }
}
