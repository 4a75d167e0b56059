/** Zone trees of the minix file system (VLinux0.11/fs/bitmap.c, inode.c, truncate.c) as values:
    which zone every pointer of every inode names, and what a new pointer or a truncation changes. */
module Zones {
  const BlockSize := 1024
  const MaxBlocks := 7 + 512 + 512 * 512

  datatype INode = INode(hasZones: bool, size: nat, zone: seq<nat>, dirt: bool)

  /** One device: the zone maps, the blocks behind the buffer cache and the inodes. */
  datatype Disk = Disk(first: nat, nzones: nat, zmap: seq<seq<bool>>, blocks: seq<seq<int>>, inodes: map<nat, INode>)

  // ---------- blocks ----------

  predicate IsBlock(b: seq<int>) { |b| == 1024 && forall i :: 0 <= i < 1024 ==> 0 <= b[i] < 256 }

  function Zeros(): (b: seq<int>)
    ensures IsBlock(b)
  {
    seq(1024, _ => 0)
  }

  /** A block read as 512 little-endian shorts. */
  function Entry(b: seq<int>, i: nat): int
    requires |b| == 1024 && i < 512
  {
    b[2 * i] + 256 * b[2 * i + 1]
  }

  function PutEntry(b: seq<int>, i: nat, v: nat): seq<int>
    requires |b| == 1024 && i < 512
  {
    b[2 * i := v % 256][2 * i + 1 := v / 256]
  }

  lemma EntryPut(b: seq<int>, i: nat, v: nat, j: nat)
    requires IsBlock(b) && i < 512 && j < 512 && v < 65536
    ensures IsBlock(PutEntry(b, i, v))
    ensures Entry(PutEntry(b, i, v), j) == if i == j then v else Entry(b, j)
  {
  }

  // ---------- pointers ----------

  /** The places where an inode or one of its indirect blocks holds a zone number. */
  datatype Slot = Direct(k: nat) | Ind | IndSlot(k: nat) | Dind | DindSlot(k: nat) | Leaf(k: nat, l: nat)

  predicate ValidSlot(s: Slot) {
    match s
    case Direct(k) => k < 7
    case IndSlot(k) => k < 512
    case DindSlot(k) => k < 512
    case Leaf(k, l) => k < 512 && l < 512
    case _ => true
  }

  predicate Root(s: Slot) { s.Direct? || s.Ind? || s.Dind? }

  /** The slot that names the block in which s lies, and the place of s in that block or in i_zone. */
  function Parent(s: Slot): (p: Slot)
    requires !Root(s)
    ensures ValidSlot(s) ==> ValidSlot(p)
  {
    match s
    case IndSlot(_) => Ind
    case DindSlot(_) => Dind
    case Leaf(k, _) => DindSlot(k)
  }

  function Index(s: Slot): (i: nat)
    ensures ValidSlot(s) ==> i < if Root(s) then 9 else 512
  {
    match s
    case Direct(k) => k
    case Ind => 7
    case IndSlot(k) => k
    case Dind => 8
    case DindSlot(k) => k
    case Leaf(_, l) => l
  }

  function Depth(s: Slot): nat { if Root(s) then 0 else if s.Leaf? then 2 else 1 }

  predicate IsData(s: Slot) { s.Direct? || s.IndSlot? || s.Leaf? }

  /** The slot for a block of a file. */
  function DataSlot(block: nat): (s: Slot)
    requires block < MaxBlocks
    ensures ValidSlot(s) && IsData(s)
  {
    if block < 7 then Direct(block)
    else if block < 519 then IndSlot(block - 7)
    else Leaf((block - 519) / 512, (block - 519) % 512)
  }

  lemma DataSlotsDiffer(a: nat, b: nat)
    requires a < MaxBlocks && b < MaxBlocks && DataSlot(a) == DataSlot(b)
    ensures a == b
  {
  }

  lemma SameSlot(s: Slot, t: Slot)
    requires Root(s) == Root(t) && Index(s) == Index(t) && ValidSlot(s) && ValidSlot(t)
      && (!Root(s) ==> Parent(s) == Parent(t))
    ensures s == t
  {
  }

  ghost predicate Shape(d: Disk) {
    && 1 <= |d.zmap| <= 8 && (forall i :: 0 <= i < |d.zmap| ==> |d.zmap[i]| == 8192) && d.zmap[0][0]
    && 1 <= d.first <= d.nzones < 65536 && |d.blocks| == d.nzones && d.nzones - d.first + 1 <= 8192 * |d.zmap|
    && (forall z :: 0 <= z < d.nzones ==> IsBlock(d.blocks[z]))
    && (forall n :: n in d.inodes ==> |d.inodes[n].zone| == 9)
    && (forall n :: n in d.inodes && d.inodes[n].hasZones ==> d.inodes[n].size <= MaxBlocks * BlockSize)
  }

  /** The zone that slot s of inode n names, 0 if none. */
  ghost function Zone(d: Disk, n: nat, s: Slot): nat
    requires Shape(d) && n in d.inodes && ValidSlot(s)
    decreases Depth(s)
  {
    if Root(s) then d.inodes[n].zone[Index(s)]
    else ReadEntry(d, Zone(d, n, Parent(s)), Index(s))
  }

  ghost function ReadEntry(d: Disk, z: nat, i: nat): nat
    requires Shape(d) && i < 512
  {
    if z == 0 || z >= d.nzones then 0 else
      assert IsBlock(d.blocks[z]);
      Entry(d.blocks[z], i)
  }

  /** The byte of a file at a position, 0 in a hole. */
  ghost function ByteAt(d: Disk, n: nat, p: nat): int
    requires Shape(d) && n in d.inodes && p < MaxBlocks * BlockSize
  {
    DataByte(d, Zone(d, n, DataSlot(p / 1024)), p % 1024)
  }

  ghost function DataByte(d: Disk, z: nat, i: nat): int
    requires Shape(d) && i < 1024
  {
    if z == 0 || z >= d.nzones then 0 else
      assert IsBlock(d.blocks[z]);
      d.blocks[z][i]
  }

  // ---------- the invariant ----------

  datatype Place = Place(inode: nat, slot: Slot)

  predicate IsPlace(d: Disk, q: Place) { q.inode in d.inodes && d.inodes[q.inode].hasZones && ValidSlot(q.slot) }

  /** Bit b of the zone maps. */
  predicate Marked(zmap: seq<seq<bool>>, b: nat) {
    b / 8192 < |zmap| && b % 8192 < |zmap[b / 8192]| && zmap[b / 8192][b % 8192]
  }

  predicate InRange(d: Disk, z: nat) { d.first <= z < d.nzones }

  predicate ZoneMarked(d: Disk, z: nat) { z - d.first + 1 >= 0 && Marked(d.zmap, z - d.first + 1) }

  /** Every zone that an inode reaches is recorded with the one place that names it. */
  ghost predicate Owned(d: Disk, owner: map<nat, Place>)
    requires Shape(d)
  {
    && (forall n, s :: IsPlace(d, Place(n, s)) && Zone(d, n, s) != 0 ==>
          Zone(d, n, s) in owner && owner[Zone(d, n, s)] == Place(n, s))
    && (forall z :: z in owner ==> InRange(d, z) && IsPlace(d, owner[z]) && Zone(d, owner[z].inode, owner[z].slot) == z)
  }

  /** A data zone is marked exactly when an inode reaches it. */
  ghost predicate Exact(d: Disk, owner: map<nat, Place>) {
    forall z :: InRange(d, z) ==> (ZoneMarked(d, z) <==> z in owner)
  }

  ghost predicate ZeroBeyond(d: Disk)
    requires Shape(d)
  {
    forall n, p :: n in d.inodes && d.inodes[n].hasZones && d.inodes[n].size <= p < MaxBlocks * BlockSize ==>
      ByteAt(d, n, p) == 0
  }

  ghost predicate Inv(d: Disk, owner: map<nat, Place>) {
    Shape(d) && Owned(d, owner) && Exact(d, owner) && ZeroBeyond(d)
  }

  /** No zone is reached twice. */
  lemma OneWay(d: Disk, owner: map<nat, Place>, n: nat, s: Slot, m: nat, t: Slot)
    requires Inv(d, owner) && IsPlace(d, Place(n, s)) && IsPlace(d, Place(m, t))
    requires Zone(d, n, s) == Zone(d, m, t) != 0
    ensures n == m && s == t && InRange(d, Zone(d, n, s)) && ZoneMarked(d, Zone(d, n, s))
  {
    assert Place(n, s) == owner[Zone(d, n, s)];
  }

  // ---------- a new pointer ----------

  function SetBit(zmap: seq<seq<bool>>, b: nat, v: bool): seq<seq<bool>>
    requires b / 8192 < |zmap| && b % 8192 < |zmap[b / 8192]|
  {
    zmap[b / 8192 := zmap[b / 8192][b % 8192 := v]]
  }

  lemma SetBitMarks(zmap: seq<seq<bool>>, b: nat, v: bool)
    requires b / 8192 < |zmap| && b % 8192 < |zmap[b / 8192]|
    ensures forall c: nat :: Marked(SetBit(zmap, b, v), c) <==> if c == b then v else Marked(zmap, c)
  {
    forall c: nat ensures Marked(SetBit(zmap, b, v), c) <==> if c == b then v else Marked(zmap, c) {
      if c / 8192 == b / 8192 && c % 8192 == b % 8192 { assert c == b; }
    }
  }

  /** d with zone z marked and cleared: what new_block leaves. */
  function Taken(d: Disk, z: nat): Disk
    requires InRange(d, z) && z < |d.blocks| && (z - d.first + 1) / 8192 < |d.zmap|
      && (z - d.first + 1) % 8192 < |d.zmap[(z - d.first + 1) / 8192]|
  {
    d.(zmap := SetBit(d.zmap, z - d.first + 1, true), blocks := d.blocks[z := Zeros()])
  }

  /** d with zone number z stored in slot s of inode n; par is the zone of the block in which the slot lies. */
  ghost function Stored(d: Disk, n: nat, s: Slot, par: nat, z: nat): Disk
    requires Shape(d) && n in d.inodes && ValidSlot(s) && (!Root(s) ==> par < d.nzones)
  {
    if Root(s) then d.(inodes := d.inodes[n := d.inodes[n].(zone := d.inodes[n].zone[Index(s) := z], dirt := true)])
    else
      assert IsBlock(d.blocks[par]);
      d.(blocks := d.blocks[par := PutEntry(d.blocks[par], Index(s), z)])
  }

  /** Slot s of inode n is empty, its block exists, and z is a free data zone. */
  ghost predicate CanGraft(d: Disk, owner: map<nat, Place>, n: nat, s: Slot, z: nat) {
    && Inv(d, owner) && IsPlace(d, Place(n, s)) && Zone(d, n, s) == 0
    && (!Root(s) ==> Zone(d, n, Parent(s)) != 0)
    && InRange(d, z) && z !in owner && (z - d.first + 1) / 8192 < |d.zmap|
  }

  ghost function ParentZone(d: Disk, n: nat, s: Slot): nat
    requires Shape(d) && n in d.inodes && ValidSlot(s)
  {
    if Root(s) then 0 else Zone(d, n, Parent(s))
  }

  ghost function Grafted(d: Disk, n: nat, s: Slot, z: nat): Disk
    requires Shape(d) && n in d.inodes && ValidSlot(s) && InRange(d, z) && (z - d.first + 1) / 8192 < |d.zmap|
    requires ParentZone(d, n, s) < d.nzones
  {
    TakenShape(d, z);
    Stored(Taken(d, z), n, s, ParentZone(d, n, s), z)
  }

  lemma TakenShape(d: Disk, z: nat)
    requires Shape(d) && InRange(d, z) && (z - d.first + 1) / 8192 < |d.zmap|
    ensures Shape(Taken(d, z)) && Taken(d, z).zmap[0][0]
  {
    assert z - d.first + 1 != 0;
    SetBitMarks(d.zmap, z - d.first + 1, true);
    assert Marked(d.zmap, 0);
    assert Marked(Taken(d, z).zmap, 0);
  }

  /** The zone of a parent is owned, so it is neither free nor shared. */
  lemma ParentOwned(d: Disk, owner: map<nat, Place>, n: nat, s: Slot)
    requires Inv(d, owner) && IsPlace(d, Place(n, s)) && !Root(s)
    ensures IsPlace(d, Place(n, Parent(s))) && Zone(d, n, s) == ReadEntry(d, ParentZone(d, n, s), Index(s))
    ensures ParentZone(d, n, s) != 0 ==>
      ParentZone(d, n, s) in owner && owner[ParentZone(d, n, s)] == Place(n, Parent(s))
    ensures ParentZone(d, n, s) < d.nzones
  {
    assert IsPlace(d, Place(n, Parent(s)));
  }

  lemma GraftShape(d: Disk, owner: map<nat, Place>, n: nat, s: Slot, z: nat)
    requires CanGraft(d, owner, n, s, z)
    ensures ParentZone(d, n, s) < d.nzones && Shape(Grafted(d, n, s, z))
    ensures Grafted(d, n, s, z).inodes.Keys == d.inodes.Keys && Grafted(d, n, s, z).nzones == d.nzones
      && Grafted(d, n, s, z).first == d.first
    ensures forall m :: m in d.inodes ==> Grafted(d, n, s, z).inodes[m].hasZones == d.inodes[m].hasZones
    ensures forall m :: m in d.inodes ==> Grafted(d, n, s, z).inodes[m].size == d.inodes[m].size
  {
    TakenShape(d, z);
    if !Root(s) {
      ParentOwned(d, owner, n, s);
      EntryPut(Taken(d, z).blocks[ParentZone(d, n, s)], Index(s), z, 0);
    }
  }

  /** Only slot s changes; what hangs below it is empty. */
  lemma {:induction false} GraftZone(d: Disk, owner: map<nat, Place>, n: nat, s: Slot, z: nat, m: nat, t: Slot)
    requires CanGraft(d, owner, n, s, z) && IsPlace(d, Place(m, t))
    requires ParentZone(d, n, s) < d.nzones && Shape(Grafted(d, n, s, z)) && m in Grafted(d, n, s, z).inodes
    ensures Zone(Grafted(d, n, s, z), m, t) == if m == n && s == t then z else Zone(d, m, t)
    decreases Depth(t)
  {
    hide Owned, Exact, ZeroBeyond, Marked;
    var d' := Grafted(d, n, s, z);
    if Root(t) {
      if m == n && Root(s) && Index(s) == Index(t) { SameSlot(s, t); }
    } else {
      var q := Parent(t);
      ParentOwned(d, owner, m, t);
      GraftZone(d, owner, n, s, z, m, q);
      var p := Zone(d, m, q);
      if m == n && q == s {
        if !Root(s) { ParentOwned(d, owner, n, s); }
        assert d'.blocks[z] == Zeros();
      } else if p != 0 {
        GraftBeside(d, owner, n, s, z, m, t);
      }
    }
  }

  lemma GraftBeside(d: Disk, owner: map<nat, Place>, n: nat, s: Slot, z: nat, m: nat, t: Slot)
    requires CanGraft(d, owner, n, s, z) && IsPlace(d, Place(m, t)) && !Root(t) && !(m == n && Parent(t) == s)
    requires Shape(d) && ParentZone(d, n, s) < d.nzones && 0 < Zone(d, m, Parent(t)) < d.nzones
    ensures Entry(Grafted(d, n, s, z).blocks[Zone(d, m, Parent(t))], Index(t)) == if m == n && s == t then z
      else Zone(d, m, t)
  {
    hide Owned, Exact, ZeroBeyond, Marked;
    var p := Zone(d, m, Parent(t));
    ParentIsNot(d, owner, n, s, z, m, t);
    if !Root(s) && p == ParentZone(d, n, s) {
      ParentOwned(d, owner, n, s);
      EntryPut(d.blocks[p], Index(s), z, Index(t));
      if Index(s) == Index(t) { SameSlot(s, t); }
    }
  }

  lemma ParentIsNot(d: Disk, owner: map<nat, Place>, n: nat, s: Slot, z: nat, m: nat, t: Slot)
    requires CanGraft(d, owner, n, s, z) && IsPlace(d, Place(m, t)) && !Root(t) && Zone(d, m, Parent(t)) != 0
    ensures Zone(d, m, Parent(t)) != z
    ensures !Root(s) && Zone(d, m, Parent(t)) == Zone(d, n, Parent(s)) ==> m == n && Parent(t) == Parent(s)
    ensures !Root(s) ==> Zone(d, n, Parent(s)) != z
  {
    ParentOwned(d, owner, m, t);
    if !Root(s) { ParentOwned(d, owner, n, s); }
  }

  /** No byte of any file changes: the new block is empty and was a hole. */
  lemma GraftBytes(d: Disk, owner: map<nat, Place>, n: nat, s: Slot, z: nat, m: nat, p: nat)
    requires CanGraft(d, owner, n, s, z) && p < MaxBlocks * BlockSize && m in d.inodes && d.inodes[m].hasZones
    requires ParentZone(d, n, s) < d.nzones && Shape(Grafted(d, n, s, z)) && m in Grafted(d, n, s, z).inodes
    ensures ByteAt(Grafted(d, n, s, z), m, p) == ByteAt(d, m, p)
  {
    hide Exact, ZeroBeyond, Marked, Zone, DataSlot, SetBit, PutEntry;
    var t := DataSlot(p / 1024);
    assert IsPlace(d, Place(m, t));
    GraftZone(d, owner, n, s, z, m, t);
    if m == n && t == s {
      if !Root(s) { ParentOwned(d, owner, n, s); }
    } else if Zone(d, m, t) != 0 {
      assert Zone(d, m, t) in owner && owner[Zone(d, m, t)] == Place(m, t);
      if !Root(s) { ParentOwned(d, owner, n, s); }
    }
  }

  /** What storing a new zone number does, seen by every file. */
  ghost predicate Grew(d: Disk, d': Disk, n: nat, s: Slot, z: nat) {
    && Shape(d) && Shape(d') && SameFiles(d, d')
    && (forall m, t :: IsPlace(d, Place(m, t)) ==> Zone(d', m, t) == if m == n && t == s then z else Zone(d, m, t))
    && SameBytes(d, d')
  }

  /** The same inodes with the same sizes, on the same device. */
  ghost predicate SameFiles(d: Disk, d': Disk) {
    && d'.first == d.first && d'.nzones == d.nzones && |d'.zmap| == |d.zmap| && d'.inodes.Keys == d.inodes.Keys
    && (forall m :: m in d.inodes ==>
       d'.inodes[m].hasZones == d.inodes[m].hasZones && d'.inodes[m].size == d.inodes[m].size)
  }

  ghost predicate SameBytes(d: Disk, d': Disk)
    requires Shape(d) && Shape(d') && SameFiles(d, d')
  {
    forall m, p :: m in d.inodes && d.inodes[m].hasZones && 0 <= p < MaxBlocks * BlockSize ==>
      ByteAt(d', m, p) == ByteAt(d, m, p)
  }

  lemma GraftGrew(d: Disk, owner: map<nat, Place>, n: nat, s: Slot, z: nat)
    requires CanGraft(d, owner, n, s, z)
    ensures ParentZone(d, n, s) < d.nzones && Grew(d, Grafted(d, n, s, z), n, s, z)
    ensures Inv(Grafted(d, n, s, z), owner[z := Place(n, s)])
  {
    GraftShape(d, owner, n, s, z);
    var d' := Grafted(d, n, s, z);
    forall m, t | IsPlace(d, Place(m, t))
      ensures Zone(d', m, t) == if m == n && t == s then z else Zone(d, m, t)
    {
      GraftZone(d, owner, n, s, z, m, t);
    }
    forall m, p | m in d.inodes && d.inodes[m].hasZones && 0 <= p < MaxBlocks * BlockSize
      ensures ByteAt(d', m, p) == ByteAt(d, m, p)
    {
      GraftBytes(d, owner, n, s, z, m, p);
    }
    SetBitMarks(d.zmap, z - d.first + 1, true);
    assert d'.zmap == SetBit(d.zmap, z - d.first + 1, true);
    GrewKeeps(d, d', owner, n, s, z);
  }

  lemma GrewKeeps(d: Disk, d': Disk, owner: map<nat, Place>, n: nat, s: Slot, z: nat)
    requires Inv(d, owner) && Grew(d, d', n, s, z) && IsPlace(d, Place(n, s)) && z !in owner && InRange(d, z)
      && Zone(d, n, s) == 0
    requires forall b: nat :: Marked(d'.zmap, b) <==> b == z - d.first + 1 || Marked(d.zmap, b)
    ensures Inv(d', owner[z := Place(n, s)])
  {
    hide Owned, Marked, ByteAt, Zone;
    GrewOwned(d, d', owner, n, s, z);
  }

  lemma GrewOwned(d: Disk, d': Disk, owner: map<nat, Place>, n: nat, s: Slot, z: nat)
    requires Inv(d, owner) && Grew(d, d', n, s, z) && IsPlace(d, Place(n, s)) && z !in owner && InRange(d, z)
      && Zone(d, n, s) == 0
    ensures Owned(d', owner[z := Place(n, s)])
  {
    hide Exact, ZeroBeyond, Marked, SameBytes, Zone;
    var owner' := owner[z := Place(n, s)];
    forall m, t | IsPlace(d', Place(m, t)) && Zone(d', m, t) != 0
      ensures Zone(d', m, t) in owner' && owner'[Zone(d', m, t)] == Place(m, t)
    {
      assert IsPlace(d, Place(m, t));
    }
    forall x | x in owner'
      ensures InRange(d', x) && IsPlace(d', owner'[x]) && Zone(d', owner'[x].inode, owner'[x].slot) == x
    {
      if x != z { assert owner'[x] == owner[x]; }
    }
  }

  /** The bit that new_block finds. */
  ghost predicate LowestClear(zmap: seq<seq<bool>>, b: nat) {
    && b / 8192 < |zmap| && b % 8192 < |zmap[b / 8192]| && !Marked(zmap, b)
    && forall c: nat :: c < b ==> Marked(zmap, c)
  }

  ghost predicate NoneClear(zmap: seq<seq<bool>>) { forall c: nat :: c < 8192 * |zmap| ==> Marked(zmap, c) }

  /** The lowest clear bit is beyond the last zone, and it is the one change from d to d'. */
  ghost predicate LosesBit(d: Disk, d': Disk) {
    exists b: nat ::
      LowestClear(d.zmap, b) && b + d.first - 1 >= d.nzones && d' == d.(zmap := SetBit(d.zmap, b, true))
  }

  /** new_block that finds only a bit beyond the last zone sets that bit and fails. */
  lemma LostBit(d: Disk, owner: map<nat, Place>, b: nat)
    requires Inv(d, owner) && b / 8192 < |d.zmap| && b + d.first - 1 >= d.nzones
    ensures Inv(d.(zmap := SetBit(d.zmap, b, true)), owner)
    ensures SameFiles(d, d.(zmap := SetBit(d.zmap, b, true))) && SameBytes(d, d.(zmap := SetBit(d.zmap, b, true)))
    ensures forall m, t :: IsPlace(d, Place(m, t)) ==> Zone(d.(zmap := SetBit(d.zmap, b, true)), m, t) == Zone(d, m, t)
  {
    hide Zone;
    var d' := d.(zmap := SetBit(d.zmap, b, true));
    SetBitMarks(d.zmap, b, true);
    assert Marked(d.zmap, 0);
    assert Marked(d'.zmap, 0);
    OtherBits(d, d', owner);
  }

  lemma {:induction false} SameZones(d: Disk, d': Disk, m: nat, t: Slot)
    requires Shape(d) && Shape(d') && SameFiles(d, d') && d'.blocks == d.blocks && IsPlace(d, Place(m, t))
      && d'.inodes[m].zone == d.inodes[m].zone
    ensures Zone(d', m, t) == Zone(d, m, t)
    decreases Depth(t)
  {
    if !Root(t) { SameZones(d, d', m, Parent(t)); }
  }

  lemma OtherBits(d: Disk, d': Disk, owner: map<nat, Place>)
    requires Inv(d, owner) && Shape(d') && SameFiles(d, d') && d'.blocks == d.blocks && d'.inodes == d.inodes
    requires forall z :: InRange(d, z) ==> (ZoneMarked(d', z) <==> ZoneMarked(d, z))
    ensures Inv(d', owner) && SameBytes(d, d')
    ensures forall m, t :: IsPlace(d, Place(m, t)) ==> Zone(d', m, t) == Zone(d, m, t)
  {
    hide Zone, ZoneMarked;
    forall m, t | IsPlace(d, Place(m, t)) ensures Zone(d', m, t) == Zone(d, m, t) {
      SameZones(d, d', m, t);
    }
    assert Owned(d', owner) by {
      forall m, t | IsPlace(d', Place(m, t)) && Zone(d', m, t) != 0
        ensures Zone(d', m, t) in owner && owner[Zone(d', m, t)] == Place(m, t)
      {
        assert IsPlace(d, Place(m, t));
      }
      forall x | x in owner
        ensures InRange(d', x) && IsPlace(d', owner[x]) && Zone(d', owner[x].inode, owner[x].slot) == x
      {
        assert IsPlace(d, Place(owner[x].inode, owner[x].slot));
      }
    }
    assert SameBytes(d, d') by {
      forall m, p | m in d.inodes && d.inodes[m].hasZones && 0 <= p < MaxBlocks * BlockSize
        ensures ByteAt(d', m, p) == ByteAt(d, m, p)
      {
        assert IsPlace(d, Place(m, DataSlot(p / 1024)));
      }
    }
    assert Exact(d', owner) && ZeroBeyond(d');
  }

  // ---------- bytes written into a file ----------

  function Patched(b: seq<int>, c: nat, data: seq<int>): (r: seq<int>)
    requires c + |data| <= |b|
  {
    b[..c] + data + b[c + |data|..]
  }

  predicate Bytes(data: seq<int>) { forall i :: 0 <= i < |data| ==> 0 <= data[i] < 256 }

  /** What one round of file_write does to the device. */
  function Wrote(d: Disk, n: nat, p: nat, z: nat, data: seq<int>): Disk
    requires n in d.inodes && z < |d.blocks| && p % 1024 + |data| <= |d.blocks[z]|
  {
    var size := if p + |data| > d.inodes[n].size then p + |data| else d.inodes[n].size;
    d.(blocks := d.blocks[z := Patched(d.blocks[z], p % 1024, data)],
       inodes := d.inodes[n := d.inodes[n].(size := size, dirt := d.inodes[n].dirt || p + |data| > d.inodes[n].size)])
  }

  ghost predicate CanWrite(d: Disk, owner: map<nat, Place>, n: nat, p: nat, z: nat, data: seq<int>) {
    && Inv(d, owner) && n in d.inodes && d.inodes[n].hasZones && p < MaxBlocks * BlockSize
    && z == Zone(d, n, DataSlot(p / 1024)) != 0 && p % 1024 + |data| <= 1024 && Bytes(data)
  }

  lemma WroteShape(d: Disk, owner: map<nat, Place>, n: nat, p: nat, z: nat, data: seq<int>)
    requires CanWrite(d, owner, n, p, z, data)
    ensures InRange(d, z) && z in owner && owner[z] == Place(n, DataSlot(p / 1024)) && IsBlock(d.blocks[z])
    ensures Shape(Wrote(d, n, p, z, data))
  {
    assert IsPlace(d, Place(n, DataSlot(p / 1024)));
    assert IsBlock(d.blocks[z]);
    hide Owned, Exact, ZeroBeyond, Zone, DataSlot;
    assert IsBlock(Patched(d.blocks[z], p % 1024, data));
  }

  lemma {:induction false} WroteZone(d: Disk, owner: map<nat, Place>, n: nat, p: nat, z: nat, data: seq<int>, m: nat,
                                     t: Slot)
    requires CanWrite(d, owner, n, p, z, data) && IsPlace(d, Place(m, t)) && InRange(d, z) && IsBlock(d.blocks[z])
    requires Shape(Wrote(d, n, p, z, data))
    ensures Zone(Wrote(d, n, p, z, data), m, t) == Zone(d, m, t)
    decreases Depth(t)
  {
    hide Exact, ZeroBeyond, Patched;
    WroteShape(d, owner, n, p, z, data);
    if !Root(t) {
      ParentOwned(d, owner, m, t);
      WroteZone(d, owner, n, p, z, data, m, Parent(t));
    }
  }

  lemma WroteByte(d: Disk, owner: map<nat, Place>, n: nat, p: nat, z: nat, data: seq<int>, m: nat, q: nat)
    requires CanWrite(d, owner, n, p, z, data) && InRange(d, z) && IsBlock(d.blocks[z])
      && Shape(Wrote(d, n, p, z, data))
    requires m in d.inodes && d.inodes[m].hasZones && q < MaxBlocks * BlockSize
    ensures ByteAt(Wrote(d, n, p, z, data), m, q) == if m == n && p <= q < p + |data| then data[q - p]
      else ByteAt(d, m, q)
  {
    hide Exact, ZeroBeyond, Zone, DataSlot;
    WroteShape(d, owner, n, p, z, data);
    var t := DataSlot(q / 1024);
    assert IsPlace(d, Place(m, t));
    WroteZone(d, owner, n, p, z, data, m, t);
    if Zone(d, m, t) == z {
      assert Place(m, t) == owner[z];
      DataSlotsDiffer(p / 1024, q / 1024);
    }
  }

  /** A round of file_write replaces exactly these bytes of this file. */
  ghost predicate Replaced(d: Disk, d': Disk, n: nat, p: nat, data: seq<int>) {
    && Shape(d) && Shape(d') && d'.inodes.Keys == d.inodes.Keys && d'.nzones == d.nzones && d'.first == d.first
    && n in d.inodes
    && (forall m :: m in d.inodes ==> d'.inodes[m].hasZones == d.inodes[m].hasZones)
    && (forall m :: m in d.inodes ==>
          d'.inodes[m].size
            == (if m == n && data != [] && p + |data| > d.inodes[m].size then p + |data| else d.inodes[m].size))
    && (forall m, q :: m in d.inodes && d.inodes[m].hasZones && 0 <= q < MaxBlocks * BlockSize ==>
          ByteAt(d', m, q) == if m == n && p <= q < p + |data| then data[q - p] else ByteAt(d, m, q))
  }

  lemma WroteReplaced(d: Disk, owner: map<nat, Place>, n: nat, p: nat, z: nat, data: seq<int>)
    requires CanWrite(d, owner, n, p, z, data) && data != []
    ensures InRange(d, z) && IsBlock(d.blocks[z])
    ensures Replaced(d, Wrote(d, n, p, z, data), n, p, data) && Inv(Wrote(d, n, p, z, data), owner)
    ensures forall m, t :: IsPlace(d, Place(m, t)) ==> Zone(Wrote(d, n, p, z, data), m, t) == Zone(d, m, t)
  {
    hide Zone, Marked, ByteAt, DataSlot, Patched;
    WroteShape(d, owner, n, p, z, data);
    var d' := Wrote(d, n, p, z, data);
    forall m, t | IsPlace(d, Place(m, t)) ensures Zone(d', m, t) == Zone(d, m, t) {
      WroteZone(d, owner, n, p, z, data, m, t);
    }
    forall m, q | m in d.inodes && d.inodes[m].hasZones && 0 <= q < MaxBlocks * BlockSize
      ensures ByteAt(d', m, q) == if m == n && p <= q < p + |data| then data[q - p] else ByteAt(d, m, q)
    {
      WroteByte(d, owner, n, p, z, data, m, q);
    }
    WroteOwned(d, d', owner);
  }

  lemma WroteOwned(d: Disk, d': Disk, owner: map<nat, Place>)
    requires Inv(d, owner) && Shape(d') && d'.inodes.Keys == d.inodes.Keys && d'.nzones == d.nzones
      && d'.first == d.first
    requires forall m :: m in d.inodes ==> d'.inodes[m].hasZones == d.inodes[m].hasZones
    requires forall m, t :: IsPlace(d, Place(m, t)) ==> Zone(d', m, t) == Zone(d, m, t)
    ensures Owned(d', owner)
  {
    hide Zone, Exact, ZeroBeyond, Marked;
    forall m, t | IsPlace(d', Place(m, t)) && Zone(d', m, t) != 0
      ensures Zone(d', m, t) in owner && owner[Zone(d', m, t)] == Place(m, t)
    {
      assert IsPlace(d, Place(m, t));
    }
    forall x | x in owner
      ensures InRange(d', x) && IsPlace(d', owner[x]) && Zone(d', owner[x].inode, owner[x].slot) == x
    {
      assert IsPlace(d, Place(owner[x].inode, owner[x].slot));
    }
  }

  lemma ReplacedTwice(d: Disk, d1: Disk, d2: Disk, n: nat, p: nat, a: seq<int>, b: seq<int>)
    requires Replaced(d, d1, n, p, a) && Replaced(d1, d2, n, p + |a|, b)
    ensures Replaced(d, d2, n, p, a + b)
  {
    hide ByteAt;
    forall m, q | m in d.inodes && d.inodes[m].hasZones && 0 <= q < MaxBlocks * BlockSize
      ensures ByteAt(d2, m, q) == if m == n && p <= q < p + |a + b| then (a + b)[q - p] else ByteAt(d, m, q)
    {
      assert ByteAt(d2, m, q) == if m == n && p + |a| <= q < p + |a| + |b| then b[q - p - |a|] else ByteAt(d1, m, q);
    }
  }

  // ---------- truncation ----------

  /** s is par or hangs below it. */
  predicate Within(par: Slot, s: Slot)
    decreases Depth(s)
  {
    s == par || (!Root(s) && Within(par, Parent(s)))
  }

  lemma {:induction false} WithinRoots(s: Slot)
    requires ValidSlot(s)
    ensures s.Direct? || Within(Ind, s) || Within(Dind, s)
    ensures s.Direct? ==> !Within(Ind, s) && !Within(Dind, s)
    ensures Within(Ind, s) ==> !Within(Dind, s)
    decreases Depth(s)
  {
    if !Root(s) { WithinRoots(Parent(s)); }
  }

  function Child(par: Slot, i: nat): (s: Slot)
    requires par.Ind? || par.Dind? || par.DindSlot?
    ensures !Root(s) && Parent(s) == par && Index(s) == i
  {
    if par.Ind? then IndSlot(i) else if par.Dind? then DindSlot(i) else Leaf(par.k, i)
  }

  /** The zones of inode n named by slot par or below it. */
  ghost function ZonesWithin(owner: map<nat, Place>, n: nat, par: Slot): set<nat> {
    set z | z in owner && owner[z].inode == n && Within(par, owner[z].slot)
  }

  /** The zones below the first i entries of the block that par names. */
  ghost function ZonesBelow(owner: map<nat, Place>, n: nat, par: Slot, i: nat): set<nat>
    requires par.Ind? || par.Dind? || par.DindSlot?
  {
    set z, j | z in owner && 0 <= j < i && owner[z].inode == n && Within(Child(par, j), owner[z].slot) :: z
  }

  ghost function ZonesDirect(owner: map<nat, Place>, n: nat, i: nat): set<nat> {
    set z | z in owner && owner[z].inode == n && owner[z].slot.Direct? && owner[z].slot.k < i
  }

  /** d0 with the zones in freed given back; what their blocks hold is lost. */
  ghost predicate Freed(d0: Disk, d: Disk, freed: set<nat>) {
    && d.first == d0.first && d.nzones == d0.nzones && |d.blocks| == |d0.blocks|
    && (forall z :: 0 <= z < |d.blocks| && z !in freed ==> d.blocks[z] == d0.blocks[z])
    && (forall z :: 0 <= z < |d.blocks| ==> IsBlock(d.blocks[z]))
    && |d.zmap| == |d0.zmap| && (forall i :: 0 <= i < |d.zmap| ==> |d.zmap[i]| == 8192)
    && (forall b: nat :: Marked(d.zmap, b) <==> Marked(d0.zmap, b) && !(b + d.first - 1 in freed))
  }

  lemma FreeOne(d0: Disk, d: Disk, freed: set<nat>, z: nat, junk: seq<int>, d': Disk)
    requires Shape(d0) && Freed(d0, d, freed) && InRange(d, z) && ZoneMarked(d, z) && IsBlock(junk)
    requires d'.first == d.first && d'.nzones == d.nzones && d'.blocks == d.blocks[z := junk]
    requires (z - d.first + 1) / 8192 < |d.zmap| && d'.zmap == SetBit(d.zmap, z - d.first + 1, false)
    ensures Freed(d0, d', freed + {z})
  {
    hide SetBit, Marked, IsBlock;
    SetBitMarks(d.zmap, z - d.first + 1, false);
    SetBitShape(d.zmap, z - d.first + 1, false);
  }

  lemma SetBitShape(zmap: seq<seq<bool>>, b: nat, v: bool)
    requires b / 8192 < |zmap| && forall i :: 0 <= i < |zmap| ==> |zmap[i]| == 8192
    ensures |SetBit(zmap, b, v)| == |zmap| && forall i :: 0 <= i < |zmap| ==> |SetBit(zmap, b, v)[i]| == 8192
  {
  }

  /** A zone named by a slot that was not freed yet is still marked, so free_block does not meet a cleared bit. */
  lemma StillMarked(d0: Disk, owner: map<nat, Place>, d: Disk, freed: set<nat>, n: nat, s: Slot)
    requires Inv(d0, owner) && Freed(d0, d, freed) && IsPlace(d0, Place(n, s)) && Zone(d0, n, s) != 0
      && Zone(d0, n, s) !in freed
    ensures InRange(d, Zone(d0, n, s)) && ZoneMarked(d, Zone(d0, n, s)) && Zone(d0, n, s) < |d.blocks|
      && Zone(d0, n, s) < d0.nzones
    ensures Zone(d0, n, s) in owner && owner[Zone(d0, n, s)] == Place(n, s)
    ensures d.blocks[Zone(d0, n, s)] == d0.blocks[Zone(d0, n, s)]
    ensures (Zone(d0, n, s) - d.first + 1) / 8192 < |d.zmap|
  {
    var z := Zone(d0, n, s);
    assert InRange(d0, z) && ZoneMarked(d0, z);
    MarkedStill(d0, d, freed, z);
    hide Freed, ZoneMarked, Marked;
  }

  lemma MarkedStill(d0: Disk, d: Disk, freed: set<nat>, z: nat)
    requires Freed(d0, d, freed) && InRange(d0, z) && ZoneMarked(d0, z) && z !in freed
    ensures InRange(d, z) && ZoneMarked(d, z) && (z - d.first + 1) / 8192 < |d.zmap|
  {
    assert Marked(d0.zmap, z - d0.first + 1);
  }

  /** The zones within par are its own and those below its block. */
  lemma BelowAll(d: Disk, owner: map<nat, Place>, n: nat, par: Slot)
    requires Inv(d, owner) && IsPlace(d, Place(n, par)) && (par.Ind? || par.Dind? || par.DindSlot?)
    ensures Zone(d, n, par) != 0 ==> ZonesWithin(owner, n, par) == ZonesBelow(owner, n, par, 512) + {Zone(d, n, par)}
    ensures Zone(d, n, par) == 0 ==> ZonesWithin(owner, n, par) == {}
    ensures Zone(d, n, par) !in ZonesBelow(owner, n, par, 512)
  {
    hide Exact, ZeroBeyond;
    forall z | z in ZonesWithin(owner, n, par)
      ensures Zone(d, n, par) != 0 && (z in ZonesBelow(owner, n, par, 512) || z == Zone(d, n, par))
    {
      WithinPath(d, n, par, owner[z].slot);
      if owner[z].slot != par { ChildWithin(par, owner[z].slot); }
    }
    forall z | z in ZonesBelow(owner, n, par, 512) ensures z in ZonesWithin(owner, n, par) && z != Zone(d, n, par) {
      var j :| 0 <= j < 512 && Within(Child(par, j), owner[z].slot);
      WithinParent(par, j, owner[z].slot);
    }
    if Zone(d, n, par) != 0 { assert owner[Zone(d, n, par)] == Place(n, par); }
  }

  lemma {:induction false} WithinPath(d: Disk, n: nat, par: Slot, s: Slot)
    requires Shape(d) && n in d.inodes && ValidSlot(s) && ValidSlot(par) && Within(par, s) && Zone(d, n, s) != 0
    ensures Zone(d, n, par) != 0
    decreases Depth(s)
  {
    if s != par { WithinPath(d, n, par, Parent(s)); }
  }

  lemma {:induction false} ChildWithin(par: Slot, s: Slot)
    requires ValidSlot(s) && Within(par, s) && s != par
    ensures (par.Ind? || par.Dind? || par.DindSlot?) && exists j :: 0 <= j < 512 && Within(Child(par, j), s)
    decreases Depth(s)
  {
    if Parent(s) == par {
      assert s == Child(par, Index(s));
    } else {
      ChildWithin(par, Parent(s));
      var j :| 0 <= j < 512 && Within(Child(par, j), Parent(s));
      assert Within(Child(par, j), s);
    }
  }

  lemma WithinCases(par: Slot, s: Slot)
    ensures Within(par, s) <==>
      || s == par || (par.Ind? && s.IndSlot?) || (par.Dind? && (s.DindSlot? || s.Leaf?))
      || (par.DindSlot? && s.Leaf? && s.k == par.k)
  {
    if s.Leaf? {
      assert Within(par, s) <==> s == par || Within(par, DindSlot(s.k));
      assert Within(par, DindSlot(s.k)) <==> par == DindSlot(s.k) || Within(par, Dind);
    }
  }

  lemma WithinParent(par: Slot, j: nat, s: Slot)
    requires (par.Ind? || par.Dind? || par.DindSlot?) && Within(Child(par, j), s)
    ensures Within(par, s) && s != par
    ensures forall i: nat :: Within(Child(par, i), s) ==> i == j
  {
    WithinCases(par, s);
    WithinCases(Child(par, j), s);
    forall i: nat ensures Within(Child(par, i), s) ==> i == j { WithinCases(Child(par, i), s); }
  }

  // ---------- the end of truncate ----------

  ghost function AllZones(owner: map<nat, Place>, n: nat): set<nat> { set z | z in owner && owner[z].inode == n }

  /** d0 with every zone of inode n given back and the inode emptied. */
  ghost predicate Emptied(d0: Disk, d: Disk, owner: map<nat, Place>, n: nat) {
    && Freed(d0, d, AllZones(owner, n)) && n in d0.inodes
    && d.inodes == d0.inodes[n := INode(d0.inodes[n].hasZones, 0, [0, 0, 0, 0, 0, 0, 0, 0, 0], true)]
  }

  ghost function Others(owner: map<nat, Place>, n: nat): map<nat, Place> {
    map z | z in owner && owner[z].inode != n :: owner[z]
  }

  lemma EmptiedShape(d0: Disk, d: Disk, owner: map<nat, Place>, n: nat)
    requires Inv(d0, owner) && Emptied(d0, d, owner, n)
    ensures Shape(d) && d.inodes.Keys == d0.inodes.Keys
  {
    assert Marked(d0.zmap, 0);
    assert Marked(d.zmap, 0);
  }

  lemma {:induction false} EmptiedZone(d0: Disk, d: Disk, owner: map<nat, Place>, n: nat, m: nat, t: Slot)
    requires Inv(d0, owner) && Emptied(d0, d, owner, n) && IsPlace(d0, Place(m, t)) && Shape(d) && m in d.inodes
    ensures Zone(d, m, t) == if m == n then 0 else Zone(d0, m, t)
    decreases Depth(t)
  {
    hide Exact, ZeroBeyond, Marked;
    if !Root(t) {
      EmptiedZone(d0, d, owner, n, m, Parent(t));
      ParentOwned(d0, owner, m, t);
    }
  }

  lemma EmptiedByte(d0: Disk, d: Disk, owner: map<nat, Place>, n: nat, m: nat, p: nat)
    requires Inv(d0, owner) && Emptied(d0, d, owner, n) && m in d0.inodes && d0.inodes[m].hasZones && Shape(d)
      && m in d.inodes
    requires p < MaxBlocks * BlockSize
    ensures ByteAt(d, m, p) == if m == n then 0 else ByteAt(d0, m, p)
  {
    hide Exact, ZeroBeyond, Marked, Zone, DataSlot;
    assert IsPlace(d0, Place(m, DataSlot(p / 1024)));
    EmptiedZone(d0, d, owner, n, m, DataSlot(p / 1024));
  }

  /** truncate gives back exactly the zones of the inode and leaves every other file alone. */
  lemma EmptiedKeeps(d0: Disk, d: Disk, owner: map<nat, Place>, n: nat)
    requires Inv(d0, owner) && Emptied(d0, d, owner, n)
    ensures Inv(d, Others(owner, n)) && d.inodes.Keys == d0.inodes.Keys && d.first == d0.first && d.nzones == d0.nzones
    ensures forall m, t :: IsPlace(d0, Place(m, t)) ==> Zone(d, m, t) == if m == n then 0 else Zone(d0, m, t)
    ensures forall m, p :: m in d0.inodes && d0.inodes[m].hasZones && 0 <= p < MaxBlocks * BlockSize ==>
      ByteAt(d, m, p) == if m == n then 0 else ByteAt(d0, m, p)
    ensures forall z :: InRange(d0, z) ==>
      (ZoneMarked(d, z) <==> ZoneMarked(d0, z) && !(z in owner && owner[z].inode == n))
  {
    hide Zone, Marked, ByteAt, DataSlot;
    EmptiedShape(d0, d, owner, n);
    forall m, t | IsPlace(d0, Place(m, t)) ensures Zone(d, m, t) == if m == n then 0 else Zone(d0, m, t) {
      EmptiedZone(d0, d, owner, n, m, t);
    }
    forall m, p | m in d0.inodes && d0.inodes[m].hasZones && 0 <= p < MaxBlocks * BlockSize
      ensures ByteAt(d, m, p) == if m == n then 0 else ByteAt(d0, m, p)
    {
      EmptiedByte(d0, d, owner, n, m, p);
    }
    EmptiedOwned(d0, d, owner, n);
    EmptiedMarks(d0, d, owner, n);
  }

  lemma EmptiedMarks(d0: Disk, d: Disk, owner: map<nat, Place>, n: nat)
    requires Inv(d0, owner) && Emptied(d0, d, owner, n)
    ensures forall z :: InRange(d0, z) ==>
      (ZoneMarked(d, z) <==> ZoneMarked(d0, z) && !(z in owner && owner[z].inode == n))
  {
    hide Marked, Owned, ZeroBeyond, Exact, Shape;
    forall z: nat | InRange(d0, z)
      ensures ZoneMarked(d, z) <==> ZoneMarked(d0, z) && !(z in owner && owner[z].inode == n)
    {
      assert d.first == d0.first && z - d.first + 1 >= 0;
      assert Marked(d.zmap, z - d.first + 1) <==> Marked(d0.zmap, z - d.first + 1) && z !in AllZones(owner, n);
    }
  }

  lemma EmptiedOwned(d0: Disk, d: Disk, owner: map<nat, Place>, n: nat)
    requires Inv(d0, owner) && Emptied(d0, d, owner, n) && Shape(d)
    requires forall m, t :: IsPlace(d0, Place(m, t)) ==> Zone(d, m, t) == if m == n then 0 else Zone(d0, m, t)
    ensures Owned(d, Others(owner, n))
  {
    hide Zone, Exact, ZeroBeyond, Marked;
    forall m, t | IsPlace(d, Place(m, t)) && Zone(d, m, t) != 0
      ensures Zone(d, m, t) in Others(owner, n) && Others(owner, n)[Zone(d, m, t)] == Place(m, t)
    {
      assert IsPlace(d0, Place(m, t));
    }
    forall x | x in Others(owner, n)
      ensures InRange(d, x) && IsPlace(d, Others(owner, n)[x])
        && Zone(d, Others(owner, n)[x].inode, Others(owner, n)[x].slot) == x
    {
      assert IsPlace(d0, Place(owner[x].inode, owner[x].slot));
    }
  }

  // ---------- a file as a sequence of bytes ----------

  ghost function Contents(d: Disk, n: nat): seq<int>
    requires Shape(d) && n in d.inodes && d.inodes[n].hasZones
  {
    seq(d.inodes[n].size, p requires 0 <= p < d.inodes[n].size => ByteAt(d, n, p))
  }

  /** s with data at position p; a gap before p is filled with zeros. */
  function Overwritten(s: seq<int>, p: nat, data: seq<int>): seq<int> {
    if data == [] then s
    else
      var t := if |s| < p then s + seq(p - |s|, _ => 0) else s;
      t[..p] + data + if |t| > p + |data| then t[p + |data|..] else []
  }

  /** What file_write does to the contents of this file and of the others. */
  lemma WriteIsSequence(d: Disk, owner: map<nat, Place>, d': Disk, n: nat, p: nat, data: seq<int>, m: nat)
    requires Inv(d, owner) && Replaced(d, d', n, p, data) && d.inodes[n].hasZones && m in d.inodes
      && d.inodes[m].hasZones
    ensures Contents(d', m) == if m == n then Overwritten(Contents(d, n), p, data) else Contents(d, m)
  {
    hide ByteAt, Owned, Exact;
    var want := if m == n then Overwritten(Contents(d, n), p, data) else Contents(d, m);
    assert |Contents(d', m)| == |want|;
    forall q | 0 <= q < |want| ensures Contents(d', m)[q] == want[q] {
      assert ByteAt(d', m, q) == if m == n && p <= q < p + |data| then data[q - p] else ByteAt(d, m, q);
    }
  }

  /** The n bytes of s from position p on, zeros behind its end. */
  function Window(s: seq<int>, p: nat, n: nat): seq<int> {
    seq(n, i requires 0 <= i < n => if p + i < |s| then s[p + i] else 0)
  }

  /** What file_read returns, wherever the position is. */
  lemma ReadIsWindow(d: Disk, owner: map<nat, Place>, n: nat, start: nat, buf: seq<int>)
    requires Inv(d, owner) && n in d.inodes && d.inodes[n].hasZones
      && (buf != [] ==> start + |buf| <= MaxBlocks * BlockSize)
    requires forall i :: 0 <= i < |buf| ==> buf[i] == ByteAt(d, n, start + i)
    ensures buf == Window(Contents(d, n), start, |buf|)
  {
    hide ByteAt, Owned, Exact;
  }

  /** The at most n bytes of s from position p on. */
  function Slice(s: seq<int>, p: nat, n: nat): seq<int> {
    if p >= |s| then [] else if p + n <= |s| then s[p..p + n] else s[p..]
  }

  /** A read that is cut at the end of the file is a slice of it. */
  lemma WindowInside(s: seq<int>, p: nat, n: nat)
    ensures |Slice(s, p, n)| == if p >= |s| then 0 else if p + n > |s| then |s| - p else n
    ensures Slice(s, p, n) == Window(s, p, |Slice(s, p, n)|)
  {
  }

  /** truncate leaves an empty file. */
  lemma EmptiedContents(d0: Disk, d: Disk, owner: map<nat, Place>, n: nat, m: nat)
    requires Inv(d0, owner) && Emptied(d0, d, owner, n) && m in d0.inodes && d0.inodes[m].hasZones
    ensures Shape(d) && m in d.inodes && d.inodes[m].hasZones
    ensures Contents(d, m) == if m == n then [] else Contents(d0, m)
  {
    EmptiedKeeps(d0, d, owner, n);
    hide ByteAt, Owned, Exact;
  }
}
