/** Zone allocation, block mapping, truncation and regular files of the minix file system
    (VLinux0.11/fs/bitmap.c, inode.c, truncate.c, file_dev.c) on one device. */
module Files {
  import opened Zones
  import opened FileBytes

  /** From d to d' inode n gained zones in slots of path and nothing else changed. */
  ghost predicate Extended(d: Disk, owner: map<nat, Place>, d': Disk, owner': map<nat, Place>, n: nat,
                           path: set<Slot>) {
    && Shape(d) && Shape(d') && SameFiles(d, d') && SameBytes(d, d')
    && (forall m, t :: IsPlace(d, Place(m, t)) ==>
       Zone(d', m, t) == Zone(d, m, t) || (m == n && t in path && Zone(d, m, t) == 0))
    && (forall z :: z in owner ==> z in owner' && owner'[z] == owner[z])
    && (forall z :: z in owner' && z !in owner ==> owner'[z].inode == n && owner'[z].slot in path)
  }

  lemma ExtendedTwice(d: Disk, owner: map<nat, Place>, d1: Disk, owner1: map<nat, Place>, d2: Disk,
                      owner2: map<nat, Place>,
                      n: nat, p: set<Slot>, q: set<Slot>)
    requires Extended(d, owner, d1, owner1, n, p) && Extended(d1, owner1, d2, owner2, n, q)
    ensures Extended(d, owner, d2, owner2, n, p + q)
  {
    hide Zone, ByteAt, Shape;
    forall m, t | IsPlace(d, Place(m, t))
      ensures Zone(d2, m, t) == Zone(d, m, t) || (m == n && t in p + q && Zone(d, m, t) == 0)
    {
      assert IsPlace(d1, Place(m, t));
    }
  }

  /** Whatever changed between d and d' is marked to be written back. */
  ghost predicate Noted(d: Disk, d': Disk, dirty: set<nat>, dirty': set<nat>) {
    && dirty <= dirty' && |d.blocks| == |d'.blocks| && d.inodes.Keys == d'.inodes.Keys
    && (forall z :: 0 <= z < |d.blocks| && d'.blocks[z] != d.blocks[z] ==> z in dirty')
    && (forall m :: m in d.inodes && d'.inodes[m] != d.inodes[m] ==> d'.inodes[m].dirt)
  }

  ghost predicate FullDisk(d: Disk) { forall z: nat :: InRange(d, z) ==> ZoneMarked(d, z) }

  /** The slots on the way to slot s. */
  function Path(s: Slot): set<Slot>
    decreases Depth(s)
  {
    if Root(s) then {s} else {s} + Path(Parent(s))
  }

  /** bsf over the words of one map block. */
  method FindFirstZero(bits: seq<bool>) returns (j: nat)
    requires |bits| == 8192
    ensures j <= 8192 && (forall k :: 0 <= k < j ==> bits[k]) && (j < 8192 ==> !bits[j])
  {
    j := 0;
    while j < 8192 && bits[j]
      invariant j <= 8192 && forall k :: 0 <= k < j ==> bits[k]
    {
      j := j + 1;
    }
  }

  /** All bits of the first i maps are set. */
  ghost predicate MapsFull(zmap: seq<seq<bool>>, i: nat) {
    forall k, l :: 0 <= k < i && k < |zmap| && 0 <= l < |zmap[k]| ==> zmap[k][l]
  }

  /** The lowest clear bit. */
  method FindFree(zmap: seq<seq<bool>>) returns (i: nat, j: nat)
    requires |zmap| <= 8 && forall k :: 0 <= k < |zmap| ==> |zmap[k]| == 8192
    ensures i < 8 ==> i < |zmap| && j < 8192 && !zmap[i][j]
    ensures i < 8 ==> forall c: nat :: c < 8192 * i + j ==> Marked(zmap, c)
    ensures i >= 8 ==> forall c: nat :: c < 8192 * |zmap| ==> Marked(zmap, c)
  {
    j := 8192;
    i := 0;
    while i < 8
      invariant i <= 8 && MapsFull(zmap, i)
    {
      if i < |zmap| {
        j := FindFirstZero(zmap[i]);
        if j < 8192 { break; }
      }
      i := i + 1;
    }
    forall c: nat | (i < 8 && c < 8192 * i + j) || (i >= 8 && c < 8192 * |zmap|) ensures Marked(zmap, c) {
      assert zmap[c / 8192][c % 8192];
    }
  }

  /** Bit b of the maps, which are blocks of 8192 bits, was the other way before, and no other bit changed. */
  ghost predicate BitFlipped(zmap: seq<seq<bool>>, zmap': seq<seq<bool>>, b: nat, now: bool) {
    && |zmap'| == |zmap| && b < 8192 * |zmap| && (forall i :: 0 <= i < |zmap| ==> |zmap'[i]| == |zmap[i]| == 8192)
    && zmap[b / 8192][b % 8192] != now && zmap'[b / 8192][b % 8192] == now
    && forall i, j :: 0 <= i < |zmap| && 0 <= j < 8192 && 8192 * i + j != b ==> zmap'[i][j] == zmap[i][j]
  }

  lemma BitOfZone(d: Disk, i: nat, j: nat)
    requires Shape(d) && i < |d.zmap| && j < 8192 && !d.zmap[i][j]
    ensures (8192 * i + j) / 8192 == i && (8192 * i + j) % 8192 == j && 8192 * i + j != 0
    ensures !Marked(d.zmap, 8192 * i + j)
  {
  }

  class FileSystem {
    const first: nat
    const nzones: nat
    var zmap: seq<seq<bool>>
    var blocks: seq<seq<int>>
    var inodes: map<nat, INode>
    var dirty: set<nat>
    ghost var owner: map<nat, Place>

    function D(): Disk
      reads this
    {
      Disk(first, nzones, zmap, blocks, inodes)
    }

    /** A device on which nothing is allocated. */
    constructor (first: nat, nzones: nat, numbers: set<nat>)
      requires 1 <= first <= nzones < 65536
      ensures Valid() && owner == map[] && inodes.Keys == numbers && dirty == {}
      ensures forall n :: n in numbers ==> inodes[n].hasZones && Contents(D(), n) == []
    {
      this.first, this.nzones := first, nzones;
      zmap := seq(8, k => seq(8192, b => k == 0 && b == 0));
      blocks := seq(nzones, _ => Zeros());
      inodes := map n | n in numbers :: INode(true, 0, [0, 0, 0, 0, 0, 0, 0, 0, 0], false);
      dirty, owner := {}, map[];
      new;
      EmptyDevice(D());
    }

    ghost predicate Valid()
      reads this
    {
      Inv(D(), owner)
    }

    /** Marks and clears the first free zone; 0 if there is none. */
    method NewBlock() returns (j: nat)
      requires Valid()
      modifies this`zmap, this`blocks, this`dirty
      ensures j != 0 ==>
        && InRange(old(D()), j) && j !in owner && (j - first + 1) / 8192 < |old(zmap)|
        && D() == Taken(old(D()), j) && dirty == old(dirty) + {j}
      ensures j != 0 ==> BitFlipped(old(zmap), zmap, j - first + 1, true)
      ensures j != 0 ==> forall z: nat :: InRange(old(D()), z) && z < j ==> ZoneMarked(old(D()), z)
      ensures j == 0 ==>
        && Valid() && FullDisk(D()) && dirty == old(dirty) && blocks == old(blocks)
        && Extended(old(D()), owner, D(), owner, 0, {})
      ensures j == 0 <==> FullDisk(old(D()))
      ensures j == 0 && NoneClear(old(zmap)) ==> D() == old(D())
      ensures j == 0 && !NoneClear(old(zmap)) ==> LosesBit(old(D()), D())
    {
      hide Owned, ZeroBeyond, Zone, ByteAt;
      ghost var d := D();
      var i;
      i, j := FindFree(zmap);
      if i >= 8 {
        SameDisk(d, owner);
        FullWhen(d, 8192 * |zmap|);
        return 0;
      }
      BitOfZone(d, i, j);
      var bit := 8192 * i + j;
      zmap := SetBit(zmap, bit, true);
      j := bit + first - 1;
      if j >= nzones {
        LostBit(d, owner, bit);
        SetBitMarks(d.zmap, bit, true);
        FullWhen(d, bit);
        FullWhen(D(), bit);
        assert LowestClear(d.zmap, bit) && bit < 8192 * |d.zmap|;
        return 0;
      }
      assert !ZoneMarked(d, j);
      blocks := blocks[j := Zeros()];
      dirty := dirty + {j};
    }

    /** The pointer in i_zone; a new zone is put there when it is empty and create is set. */
    method RootZone(n: nat, k: nat, create: bool, ghost s: Slot) returns (z: nat)
      requires Valid() && IsPlace(D(), Place(n, s)) && Root(s) && Index(s) == k
      modifies this`zmap, this`blocks, this`inodes, this`dirty, this`owner
      ensures Valid() && IsPlace(D(), Place(n, s)) && z == Zone(D(), n, s)
      ensures Extended(old(D()), old(owner), D(), owner, n, {s}) && Noted(old(D()), D(), old(dirty), dirty)
      ensures !create ==> D() == old(D()) && owner == old(owner) && dirty == old(dirty)
      ensures create && z == 0 ==> FullDisk(D())
    {
      hide Inv, Extended, FullDisk, Zone, SameFiles, SameBytes;
      ghost var d, owner0 := D(), owner;
      RootPlace(d, owner, n, s);
      z := inodes[n].zone[k];
      if create && z == 0 {
        z := NewBlock();
        if z == 0 {
          AnyInode(d, owner, D(), owner, n, {s}, s);
          return;
        }
        ReadyToGraft(d, owner, n, s, z);
        GraftGrew(d, owner, n, s, z);
        GrewExtended(d, owner, n, s, z);
        inodes := inodes[n := inodes[n].(zone := inodes[n].zone[k := z], dirt := true)];
        owner := owner[z := Place(n, s)];
      } else {
        SameDisk(d, owner);
        AnyInode(d, owner, d, owner, n, {s}, s);
      }
    }

    /** The pointer in an indirect block; a new zone is put there when it is empty and create is set. */
    method EntryZone(n: nat, block: nat, k: nat, create: bool, ghost s: Slot) returns (i: nat)
      requires Valid() && IsPlace(D(), Place(n, s)) && !Root(s) && Index(s) == k
      requires block != 0 && block == Zone(D(), n, Parent(s))
      modifies this`zmap, this`blocks, this`dirty, this`owner
      ensures Valid() && IsPlace(D(), Place(n, s)) && i == Zone(D(), n, s)
      ensures Extended(old(D()), old(owner), D(), owner, n, {s}) && Noted(old(D()), D(), old(dirty), dirty)
      ensures !create ==> D() == old(D()) && owner == old(owner) && dirty == old(dirty)
      ensures create && i == 0 ==> FullDisk(D())
    {
      hide Inv, Extended, FullDisk, Zone, SameFiles, SameBytes, PutEntry, ReadEntry;
      ghost var d := D();
      EntryPlace(d, owner, n, s);
      i := Entry(blocks[block], k);
      if create && i == 0 {
        i := NewBlock();
        if i == 0 {
          AnyInode(d, owner, D(), owner, n, {s}, s);
          return;
        }
        ReadyToGraft(d, owner, n, s, i);
        GraftGrew(d, owner, n, s, i);
        GrewExtended(d, owner, n, s, i);
        blocks := blocks[block := PutEntry(blocks[block], k, i)];
        dirty := dirty + {block};
        owner := owner[i := Place(n, s)];
      } else {
        SameDisk(d, owner);
        AnyInode(d, owner, d, owner, n, {s}, s);
      }
    }

    /** The zone of a block of a file; with create set, missing pointers on the way get new zones. */
    method Bmap0(n: nat, block0: int, create: bool) returns (r: Result)
      requires Valid() && IsPlace(D(), Place(n, Ind))
      modifies this`zmap, this`blocks, this`inodes, this`dirty, this`owner
      ensures Valid() && (r.Panic? <==> block0 < 0 || block0 >= MaxBlocks)
      ensures r.Panic? ==> D() == old(D()) && owner == old(owner) && dirty == old(dirty)
      ensures r.Block? ==> BlockIs(D(), n, block0, r.z)
      ensures r.Block? ==>
        && IsPlace(D(), Place(n, DataSlot(block0))) && r.z == Zone(D(), n, DataSlot(block0))
        && Extended(old(D()), old(owner), D(), owner, n, Path(DataSlot(block0)))
        && Noted(old(D()), D(), old(dirty), dirty)
      ensures !create ==> D() == old(D()) && owner == old(owner) && dirty == old(dirty)
      ensures create && r == Block(0) ==> FullDisk(D())
    {
      hide Inv, BlockIs, Extended, FullDisk, Noted;
      r := FindZone(n, block0, create);
      if r.Block? { ZoneIs(D(), owner, n, block0); }
    }

    /** The body of _bmap, by slots. */
    method FindZone(n: nat, block0: int, create: bool) returns (r: Result)
      requires Valid() && IsPlace(D(), Place(n, Ind))
      modifies this`zmap, this`blocks, this`inodes, this`dirty, this`owner
      ensures Valid() && (r.Panic? <==> block0 < 0 || block0 >= MaxBlocks)
      ensures r.Panic? ==> D() == old(D()) && owner == old(owner) && dirty == old(dirty)
      ensures r.Block? ==>
        && IsPlace(D(), Place(n, DataSlot(block0))) && r.z == Zone(D(), n, DataSlot(block0))
        && Extended(old(D()), old(owner), D(), owner, n, Path(DataSlot(block0)))
        && Noted(old(D()), D(), old(dirty), dirty)
      ensures !create ==> D() == old(D()) && owner == old(owner) && dirty == old(dirty)
      ensures create && r == Block(0) ==> FullDisk(D())
    {
      hide Inv, Extended, FullDisk, Zone, SameFiles, SameBytes, Noted;
      var block := block0;
      if block < 0 { return Panic; }
      if block >= 7 + 512 + 512 * 512 { return Panic; }
      ghost var d, owner0, dirty0 := D(), owner, dirty;
      PathIs(DataSlot(block0));
      if block < 7 {
        var z := RootZone(n, block, create, Direct(block));
        return Block(z);
      }
      block := block - 7;
      if block < 512 {
        var ind := RootZone(n, 7, create, Ind);
        if ind == 0 {
          StillPlace(d, owner0, D(), owner, n, {Ind}, IndSlot(block));
          NothingBelow(d, owner0, D(), owner, n, Ind, IndSlot(block), {Ind});
          return Block(0);
        }
        ghost var d1, owner1, dirty1 := D(), owner, dirty;
        StillPlace(d, owner0, d1, owner1, n, {Ind}, IndSlot(block));
        var i := EntryZone(n, ind, block, create, IndSlot(block));
        ExtendedTwice(d, owner0, d1, owner1, D(), owner, n, {Ind}, {IndSlot(block)});
        NotedTwice(d, d1, D(), dirty0, dirty1, dirty);
        return Block(i);
      }
      block := block - 512;
      var i := DindZone(n, block / 512, block % 512, create);
      return Block(i);
    }

    /** The double indirect part of the mapping. */
    method DindZone(n: nat, k: nat, l: nat, create: bool) returns (i: nat)
      requires Valid() && IsPlace(D(), Place(n, Leaf(k, l)))
      modifies this`zmap, this`blocks, this`inodes, this`dirty, this`owner
      ensures Valid() && IsPlace(D(), Place(n, Leaf(k, l))) && i == Zone(D(), n, Leaf(k, l))
      ensures Extended(old(D()), old(owner), D(), owner, n, Path(Leaf(k, l))) && Noted(old(D()), D(), old(dirty), dirty)
      ensures !create ==> D() == old(D()) && owner == old(owner) && dirty == old(dirty)
      ensures create && i == 0 ==> FullDisk(D())
    {
      hide Inv, Extended, FullDisk, Zone, SameFiles, SameBytes, Noted;
      ghost var d, owner0, dirty0 := D(), owner, dirty;
      PathIs(Leaf(k, l));
      var dind := RootZone(n, 8, create, Dind);
      if dind == 0 {
        StillPlace(d, owner0, D(), owner, n, {Dind}, Leaf(k, l));
        NothingBelow(d, owner0, D(), owner, n, Dind, Leaf(k, l), {Dind});
        return 0;
      }
      ghost var d1, owner1, dirty1 := D(), owner, dirty;
      StillPlace(d, owner0, d1, owner1, n, {Dind}, DindSlot(k));
      i := EntryZone(n, dind, k, create, DindSlot(k));
      ghost var d2, owner2, dirty2 := D(), owner, dirty;
      ExtendedTwice(d, owner0, d1, owner1, d2, owner2, n, {Dind}, {DindSlot(k)});
      NotedTwice(d, d1, d2, dirty0, dirty1, dirty2);
      StillPlace(d, owner0, d2, owner2, n, {Dind} + {DindSlot(k)}, Leaf(k, l));
      if i == 0 {
        NothingBelow(d, owner0, d2, owner2, n, DindSlot(k), Leaf(k, l), {Dind} + {DindSlot(k)});
        return 0;
      }
      i := EntryZone(n, i, l, create, Leaf(k, l));
      ExtendedTwice(d, owner0, d2, owner2, D(), owner, n, {Dind} + {DindSlot(k)}, {Leaf(k, l)});
      NotedTwice(d, d2, D(), dirty0, dirty2, dirty);
    }

    method Bmap(n: nat, block: int) returns (r: Result)
      requires Valid() && IsPlace(D(), Place(n, Ind))
      modifies this`zmap, this`blocks, this`inodes, this`dirty, this`owner
      ensures Valid() && D() == old(D()) && owner == old(owner) && dirty == old(dirty)
        && (r.Panic? <==> block < 0 || block >= MaxBlocks)
      ensures r.Block? ==> BlockIs(D(), n, block, r.z)
      ensures r.Block? ==> IsPlace(D(), Place(n, DataSlot(block))) && r.z == Zone(D(), n, DataSlot(block))
    {
      r := Bmap0(n, block, false);
    }

    /** Adds at most a fresh path to the block; a later Bmap finds the same zone. */
    method CreateBlock(n: nat, block: int) returns (r: Result)
      requires Valid() && IsPlace(D(), Place(n, Ind))
      modifies this`zmap, this`blocks, this`inodes, this`dirty, this`owner
      ensures Valid() && (r.Panic? <==> block < 0 || block >= MaxBlocks)
      ensures r.Panic? ==> D() == old(D()) && owner == old(owner) && dirty == old(dirty)
      ensures r.Block? ==> BlockIs(D(), n, block, r.z)
      ensures r.Block? ==>
        && IsPlace(D(), Place(n, DataSlot(block))) && r.z == Zone(D(), n, DataSlot(block))
        && Extended(old(D()), old(owner), D(), owner, n, Path(DataSlot(block)))
        && Noted(old(D()), D(), old(dirty), dirty)
      ensures r == Block(0) ==> FullDisk(D())
    {
      r := Bmap0(n, block, true);
    }

    /** Clears the bit of a zone, unless somebody else holds its buffer; the contents of the block are lost. */
    method FreeBlock(z: nat, held: bool) returns (r: FreeReply)
      requires (forall i :: 0 <= i < |zmap| ==> |zmap[i]| == 8192) && |blocks| == nzones
      requires InRange(D(), z) ==> (z - first + 1) / 8192 < |zmap|
      modifies this`zmap, this`blocks, this`dirty
      ensures r == if !InRange(old(D()), z) then NotInZone else if held then InUse
                   else if ZoneMarked(old(D()), z) then GivenBack else NotMarked
      ensures r.NotInZone? || r.InUse? ==> D() == old(D()) && dirty == old(dirty)
      ensures r.GivenBack? ==> exists junk :: IsBlock(junk) && blocks == old(blocks)[z := junk]
      ensures r.GivenBack? ==> BitFlipped(old(zmap), zmap, z - first + 1, false)
      ensures r.GivenBack? ==> zmap == SetBit(old(zmap), z - first + 1, false) && dirty == old(dirty) - {z}
    {
      if z < first || z >= nzones { return NotInZone; }
      if held { return InUse; }
      var junk :| IsBlock(junk) by { assert IsBlock(Zeros()); }
      blocks := blocks[z := junk];
      dirty := dirty - {z};
      var bit := z - (first - 1);
      r := if Marked(zmap, bit) then GivenBack else NotMarked;
      zmap := SetBit(zmap, bit, false);
    }

    /** Gives back the zones of an indirect block and the block itself. */
    method FreeInd(block: nat, ghost d0: Disk, ghost n: nat, ghost par: Slot, ghost freed0: set<nat>)
      requires Freeing(d0, D(), owner, n, par, freed0) && block == Zone(d0, n, par) && (par.Ind? || par.DindSlot?)
      modifies this`zmap, this`blocks, this`dirty
      ensures Freed(d0, D(), freed0 + ZonesWithin(owner, n, par))
    {
      hide Freed, Inv, Zone, ZonesWithin, ZonesBelow, Entry, Freeing, Marked;
      FreeingFacts(d0, D(), owner, n, par, freed0);
      if block == 0 { return; }
      var i := 0;
      ghost var freed := freed0;
      while i < 512
        invariant i <= 512 && freed == freed0 + ZonesBelow(owner, n, par, i) && Freed(d0, D(), freed)
      {
        EntryToFree(d0, D(), owner, n, par, freed0, i);
        var p := Entry(blocks[block], i);
        if p != 0 {
          freed := FreeZone(p, d0, n, Child(par, i), freed);
        }
        i := i + 1;
      }
      OwnToFree(d0, D(), owner, n, par, freed0);
      freed := FreeZone(block, d0, n, par, freed);
    }

    /** Gives back one zone; its bit is still set. */
    method FreeZone(z: nat, ghost d0: Disk, ghost n: nat, ghost s: Slot, ghost freed: set<nat>)
      returns (ghost freed': set<nat>)
      requires Inv(d0, owner) && Freed(d0, D(), freed) && IsPlace(d0, Place(n, s)) && z == Zone(d0, n, s) != 0
        && z !in freed
      modifies this`zmap, this`blocks, this`dirty
      ensures freed' == freed + {z} && Freed(d0, D(), freed')
    {
      hide Inv, Zone, Marked, SetBit;
      FreedShape(d0, D(), owner, freed);
      StillMarked(d0, owner, D(), freed, n, s);
      ghost var d := D();
      var r := FreeBlock(z, false);
      assert r == GivenBack;
      ghost var junk :| IsBlock(junk) && blocks == d.blocks[z := junk];
      FreeOne(d0, d, freed, z, junk, D());
      freed' := freed + {z};
    }

    /** Gives back the zones of the double indirect block and the block itself. */
    method FreeDind(block: nat, ghost d0: Disk, ghost n: nat, ghost freed0: set<nat>)
      requires Freeing(d0, D(), owner, n, Dind, freed0) && block == Zone(d0, n, Dind)
      modifies this`zmap, this`blocks, this`dirty
      ensures Freed(d0, D(), freed0 + ZonesWithin(owner, n, Dind))
    {
      hide Freed, Inv, Zone, ZonesWithin, ZonesBelow, Entry, Freeing, Marked;
      FreeingFacts(d0, D(), owner, n, Dind, freed0);
      if block == 0 { return; }
      var i := 0;
      while i < 512
        invariant i <= 512 && Freed(d0, D(), freed0 + ZonesBelow(owner, n, Dind, i))
      {
        EntryToFree(d0, D(), owner, n, Dind, freed0, i);
        var p := Entry(blocks[block], i);
        StartFreeing(d0, D(), owner, n, Child(Dind, i), freed0 + ZonesBelow(owner, n, Dind, i));
        FreeingFacts(d0, D(), owner, n, Child(Dind, i), freed0 + ZonesBelow(owner, n, Dind, i));
        if p != 0 {
          FreeInd(p, d0, n, Child(Dind, i), freed0 + ZonesBelow(owner, n, Dind, i));
        }
        i := i + 1;
      }
      OwnToFree(d0, D(), owner, n, Dind, freed0);
      ghost var freed := FreeZone(block, d0, n, Dind, freed0 + ZonesBelow(owner, n, Dind, 512));
    }

    /** Gives back exactly the zones of a regular file or directory and empties it; free_block never panics. */
    method Truncate(n: nat)
      requires Valid() && n in inodes
      modifies this`zmap, this`blocks, this`inodes, this`dirty, this`owner
      ensures Valid() && owner == if old(inodes[n].hasZones) then Others(old(owner), n) else old(owner)
      ensures old(inodes[n].hasZones) ==> Emptied(old(D()), D(), old(owner), n)
      ensures !old(inodes[n].hasZones) ==> D() == old(D())
    {
      hide Freed, Inv, Zone, ZonesWithin, ZonesDirect, Freeing, Marked;
      if !inodes[n].hasZones { return; }
      ghost var d0 := D();
      FreedNothing(d0, owner, n);
      var i := 0;
      while i < 7
        invariant i <= 7 && Freed(d0, D(), ZonesDirect(owner, n, i)) && owner == old(owner)
        invariant inodes == d0.inodes[n := d0.inodes[n].(zone := Zeroed(d0.inodes[n].zone, i))]
      {
        DirectToFree(d0, owner, n, i);
        if inodes[n].zone[i] != 0 {
          ghost var freed := FreeZone(inodes[n].zone[i], d0, n, Direct(i), ZonesDirect(owner, n, i));
          ghost var d := D();
          inodes := inodes[n := inodes[n].(zone := inodes[n].zone[i := 0])];
          FreedInodes(d0, d, D(), freed);
        }
        i := i + 1;
      }
      DirectAll(d0, owner, n);
      StartFreeing(d0, D(), owner, n, Ind, ZonesDirect(owner, n, 7));
      FreeInd(inodes[n].zone[7], d0, n, Ind, ZonesDirect(owner, n, 7));
      StartFreeing(d0, D(), owner, n, Dind, ZonesDirect(owner, n, 7) + ZonesWithin(owner, n, Ind));
      FreeDind(inodes[n].zone[8], d0, n, ZonesDirect(owner, n, 7) + ZonesWithin(owner, n, Ind));
      ghost var d := D();
      inodes := inodes[n := inodes[n].(zone := inodes[n].zone[7 := 0][8 := 0], size := 0, dirt := true)];
      assert Zeroed(d0.inodes[n].zone, 7)[7 := 0][8 := 0] == [0, 0, 0, 0, 0, 0, 0, 0, 0];
      FreedInodes(d0, d, D(), AllZones(owner, n));
      EmptiedKeeps(d0, D(), owner, n);
      owner := Others(owner, n);
    }

    /** Reads count bytes at the file position, holes as zeros. */
    method FileRead(filp: OpenFile, count: int) returns (r: Outcome, buf: seq<int>)
      requires Valid() && IsPlace(D(), Place(filp.inode, Ind))
      modifies filp`pos, this`zmap, this`blocks, this`inodes, this`dirty, this`owner
      ensures Valid() && D() == old(D()) && owner == old(owner) && dirty == old(dirty)
      ensures r.Stopped? <==> count > 0 && old(filp.pos) + count > MaxBlocks * BlockSize
      ensures ReadFrom(D(), filp.inode, old(filp.pos), buf) && filp.pos == old(filp.pos) + |buf|
      ensures r.Done? ==> |buf| == (if count > 0 then count else 0) && r.n == |buf|
      ensures buf == Window(Contents(D(), filp.inode), old(filp.pos), |buf|)
    {
      hide Inv, Zone, DataSlot, ReadFrom, Contents, Window;
      buf := [];
      var left := count;
      ReadNothing(D(), owner, filp.inode, filp.pos);
      ReadContents(D(), owner, filp.inode, filp.pos, buf);
      if left <= 0 { return Done(0), buf; }
      while left != 0
        invariant 0 <= left <= count && |buf| == count - left && filp.pos == old(filp.pos) + |buf|
        invariant left < count ==> filp.pos <= MaxBlocks * BlockSize
        invariant Valid() && D() == old(D()) && owner == old(owner) && dirty == old(dirty)
        invariant ReadFrom(D(), filp.inode, old(filp.pos), buf)
        decreases left
      {
        var m := Bmap(filp.inode, filp.pos / BlockSize);
        if m.Panic? {
          ReadContents(D(), owner, filp.inode, old(filp.pos), buf);
          return Stopped, buf;
        }
        DataBytes(D(), owner, filp.inode, filp.pos);
        var nr := filp.pos % BlockSize;
        var chars := if BlockSize - nr < left then BlockSize - nr else left;
        var chunk := ReadChunk(m.z, nr, chars);
        ReadMore(D(), filp.inode, old(filp.pos), buf, m.z, chunk);
        filp.pos := filp.pos + chars;
        left := left - chars;
        buf := buf + chunk;
      }
      ReadContents(D(), owner, filp.inode, old(filp.pos), buf);
      r := Done(if count - left != 0 then count - left else -1);
    }

    /** read() on a regular file or directory: cut at the end of the file. */
    method SysRead(filp: OpenFile, count0: int) returns (r: int, buf: seq<int>)
      requires Valid() && IsPlace(D(), Place(filp.inode, Ind))
      modifies filp`pos, this`zmap, this`blocks, this`inodes, this`dirty, this`owner
      ensures Valid() && D() == old(D()) && owner == old(owner) && dirty == old(dirty)
      ensures count0 < 0 ==> r == -22 && buf == [] && filp.pos == old(filp.pos)
      ensures count0 >= 0 ==>
        && buf == Slice(Contents(D(), filp.inode), old(filp.pos), count0) && r == |buf|
        && filp.pos == old(filp.pos) + |buf| && ReadBytes(D(), filp.inode, old(filp.pos), count0, buf)
    {
      hide Inv, Zone, DataSlot, ReadFrom, Contents, Window, Slice, ReadBytes;
      if count0 < 0 { return -22, []; }
      ContentsEnd(D(), owner, filp.inode);
      SliceBytes(D(), owner, filp.inode, filp.pos, count0, Slice(Contents(D(), filp.inode), filp.pos, count0));
      WindowInside(Contents(D(), filp.inode), filp.pos, count0);
      if count0 == 0 { return 0, []; }
      var count := count0;
      var size := inodes[filp.inode].size;
      if count + filp.pos > size { count := size - filp.pos; }
      if count <= 0 { return 0, []; }
      var out;
      out, buf := FileRead(filp, count);
      r := out.n;
    }

    /** Bytes of one block, or zeros for a hole. */
    method ReadChunk(z: nat, nr: nat, chars: nat) returns (chunk: seq<int>)
      requires Shape(D()) && nr + chars <= 1024 && z < nzones
      ensures |chunk| == chars && forall i :: 0 <= i < chars ==> chunk[i] == DataByte(D(), z, nr + i)
    {
      assert IsBlock(blocks[z]);
      chunk := [];
      while |chunk| < chars
        invariant |chunk| <= chars && forall i :: 0 <= i < |chunk| ==> chunk[i] == DataByte(D(), z, nr + i)
      {
        chunk := chunk + [if z != 0 then blocks[z][nr + |chunk|] else 0];
      }
    }

    /** Copies data into the block from position p on. */
    method CopyIn(z: nat, p: nat, data: seq<int>)
      requires z < |blocks| && p + |data| <= |blocks[z]|
      modifies this`blocks
      ensures blocks == old(blocks)[z := Patched(old(blocks[z]), p, data)]
    {
      hide Patched;
      ghost var b := blocks[z];
      var k := 0;
      PatchStep(b, p, data, 0);
      while k < |data|
        invariant k <= |data| && |blocks| == |old(blocks)| && |blocks[z]| == |b|
        invariant blocks == old(blocks)[z := Patched(b, p, data[..k])]
      {
        PatchStep(b, p, data, k);
        blocks := blocks[z := blocks[z][p + k := data[k]]];
        k := k + 1;
      }
      assert data[..k] == data;
    }

    /** Writes buf at the file position, or at the end of the file; short when the disk is full. */
    method FileWrite(filp: OpenFile, buf: seq<int>) returns (r: Outcome, ghost start: nat, ghost written: nat)
      requires Valid() && IsPlace(D(), Place(filp.inode, Ind)) && Bytes(buf)
      modifies filp`pos, this`zmap, this`blocks, this`inodes, this`dirty, this`owner
      ensures Valid() && start == if filp.append then old(inodes[filp.inode].size) else old(filp.pos)
      ensures written <= |buf| && Replaced(old(D()), D(), filp.inode, start, buf[..written])
      ensures WrittenBytes(old(D()), D(), filp.inode, start, buf[..written])
      ensures Noted(old(D()), D(), old(dirty), dirty)
      ensures r.Stopped? ==> start + |buf| > MaxBlocks * BlockSize
      ensures r.Done? ==> r.n == (if written == 0 then -1 else written) && (written < |buf| ==> FullDisk(D()))
      ensures r.Done? ==> filp.pos == if filp.append then old(filp.pos) else start + written
    {
      hide Inv, Zone, DataSlot, Replaced, Noted, FullDisk, Extended, WrittenBytes;
      ghost var d, owners := D(), owner;
      var n := filp.inode;
      RootPlace(d, owner, n, Ind);
      var pos := if filp.append then inodes[filp.inode].size else filp.pos;
      start := pos;
      var i := 0;
      NothingReplaced(d, n, start, dirty);
      while i < |buf|
        invariant i <= |buf| && pos == start + i && Valid() && IsPlace(D(), Place(n, Ind))
        invariant Replaced(d, D(), n, start, buf[..i]) && Noted(d, D(), old(dirty), dirty)
        invariant filp.pos == old(filp.pos)
      {
        ghost var d0, owner0, dirty0 := D(), owner, dirty;
        var m := CreateBlock(n, pos / BlockSize);
        if m.Panic? {
          ReplacedBytes(d, owners, D(), owner, n, start, buf[..i]);
          return Stopped, start, i;
        }
        ghost var d1, dirty1 := D(), dirty;
        Regrown(d, d0, owner0, d1, owner, n, start, buf[..i], Path(DataSlot(pos / BlockSize)));
        NotedTwice(d, d0, d1, old(dirty), dirty0, dirty1);
        if m.z == 0 { break; }
        var c := WriteChunk(n, pos, m.z, buf, i);
        ReplacedTwice(d, d1, D(), n, start, buf[..i], buf[i..i + c]);
        assert buf[..i] + buf[i..i + c] == buf[..i + c];
        NotedTwice(d, d1, D(), old(dirty), dirty1, dirty);
        pos := pos + c;
        i := i + c;
      }
      if !filp.append { filp.pos := pos; }
      ReplacedBytes(d, owners, D(), owner, n, start, buf[..i]);
      r := Done(if i != 0 then i else -1);
      written := i;
    }

    /** Fills the rest of one block from buf[i..] and moves the end of the file. */
    method WriteChunk(n: nat, pos: nat, block: nat, buf: seq<int>, i: nat) returns (c: nat)
      requires Valid() && i < |buf| && Bytes(buf) && CanWrite(D(), owner, n, pos, block, [])
      modifies this`blocks, this`inodes, this`dirty
      ensures Valid() && 0 < c <= |buf| - i && IsPlace(D(), Place(n, Ind))
      ensures c == |buf| - i || (pos + c) % BlockSize == 0
      ensures Replaced(old(D()), D(), n, pos, buf[i..i + c]) && Noted(old(D()), D(), old(dirty), dirty)
    {
      hide Inv, Zone, DataSlot, Replaced;
      ghost var d := D();
      dirty := dirty + {block};
      c := BlockSize - pos % BlockSize;
      if c > |buf| - i { c := |buf| - i; }
      CanWriteMore(d, owner, n, pos, block, buf[i..i + c]);
      WroteReplaced(d, owner, n, pos, block, buf[i..i + c]);
      if pos + c > inodes[n].size {
        inodes := inodes[n := inodes[n].(size := pos + c, dirt := true)];
      }
      CopyIn(block, pos % BlockSize, buf[i..i + c]);
      assert D() == Wrote(d, n, pos, block, buf[i..i + c]);
    }
  }

  lemma CanWriteMore(d: Disk, owner: map<nat, Place>, n: nat, p: nat, z: nat, data: seq<int>)
    requires CanWrite(d, owner, n, p, z, []) && p % 1024 + |data| <= 1024 && Bytes(data)
    ensures CanWrite(d, owner, n, p, z, data) && z < |d.blocks| && |d.blocks[z]| == 1024 && IsPlace(d, Place(n, Ind))
  {
    WroteShape(d, owner, n, p, z, data);
  }

  lemma EmptyDevice(d: Disk)
    requires Shape(d)
      && forall n :: n in d.inodes ==> d.inodes[n].zone == [0, 0, 0, 0, 0, 0, 0, 0, 0] && d.inodes[n].size == 0
    requires forall z: nat :: InRange(d, z) ==> !ZoneMarked(d, z)
    ensures Inv(d, map[])
  {
    forall n, s | IsPlace(d, Place(n, s)) ensures Zone(d, n, s) == 0 {
      EmptyZone(d, n, s);
    }
    forall n, p: nat | n in d.inodes && d.inodes[n].hasZones && p < MaxBlocks * BlockSize ensures ByteAt(d, n, p) == 0 {
      assert IsPlace(d, Place(n, DataSlot(p / 1024)));
    }
  }

  lemma {:induction false} EmptyZone(d: Disk, n: nat, s: Slot)
    requires Shape(d) && n in d.inodes && ValidSlot(s) && d.inodes[n].zone == [0, 0, 0, 0, 0, 0, 0, 0, 0]
    ensures Zone(d, n, s) == 0
    decreases Depth(s)
  {
    if !Root(s) { EmptyZone(d, n, Parent(s)); }
  }

  lemma PatchStep(b: seq<int>, p: nat, data: seq<int>, k: nat)
    requires p + |data| <= |b| && k <= |data|
    ensures |Patched(b, p, data[..k])| == |b| && Patched(b, p, data[..0]) == b
    ensures k < |data| ==> Patched(b, p, data[..k + 1]) == Patched(b, p, data[..k])[p + k := data[k]]
  {
  }

  lemma NothingReplaced(d: Disk, n: nat, p: nat, dirty: set<nat>)
    requires Shape(d) && n in d.inodes
    ensures Replaced(d, d, n, p, []) && Noted(d, d, dirty, dirty)
  {
  }

  lemma Regrown(d: Disk, d0: Disk, owner0: map<nat, Place>, d1: Disk, owner1: map<nat, Place>, n: nat, p: nat,
                data: seq<int>, path: set<Slot>)
    requires Replaced(d, d0, n, p, data) && Extended(d0, owner0, d1, owner1, n, path)
    ensures Replaced(d, d1, n, p, data)
  {
    hide ByteAt, Zone;
    assert Replaced(d0, d1, n, p + |data|, []);
    ReplacedTwice(d, d0, d1, n, p, data, []);
    assert data + [] == data;
  }

  /** An open file; the position moves with every read and write. */
  class OpenFile {
    var pos: nat
    const inode: nat
    const append: bool

    constructor (inode: nat, append: bool)
      ensures this.inode == inode && this.append == append && pos == 0
    {
      this.inode, this.append, pos := inode, append, 0;
    }
  }

  datatype Outcome = Stopped | Done(n: int)

  /** These are the bytes of the file from position start on. */
  ghost predicate ReadFrom(d: Disk, n: nat, start: nat, buf: seq<int>) {
    && Shape(d) && n in d.inodes && (buf != [] ==> start + |buf| <= MaxBlocks * BlockSize)
    && forall i :: 0 <= i < |buf| ==> buf[i] == ByteAt(d, n, start + i)
  }

  lemma ReadNothing(d: Disk, owner: map<nat, Place>, n: nat, start: nat)
    requires Inv(d, owner) && n in d.inodes
    ensures ReadFrom(d, n, start, [])
  {
  }

  lemma ReadContents(d: Disk, owner: map<nat, Place>, n: nat, start: nat, buf: seq<int>)
    requires Inv(d, owner) && ReadFrom(d, n, start, buf) && d.inodes[n].hasZones
    ensures Shape(d) && buf == Window(Contents(d, n), start, |buf|)
  {
    hide Inv, ByteAt;
    ReadIsWindow(d, owner, n, start, buf);
  }

  lemma ContentsEnd(d: Disk, owner: map<nat, Place>, n: nat)
    requires Inv(d, owner) && IsPlace(d, Place(n, Ind))
    ensures Shape(d) && |Contents(d, n)| == d.inodes[n].size <= MaxBlocks * BlockSize
  {
  }

  lemma ReadMore(d: Disk, n: nat, start: nat, buf: seq<int>, z: nat, chunk: seq<int>)
    requires ReadFrom(d, n, start, buf) && chunk != [] && (start + |buf|) / 1024 < MaxBlocks
    requires z == Zone(d, n, DataSlot((start + |buf|) / 1024)) && (start + |buf|) % 1024 + |chunk| <= 1024
    requires forall i :: 0 <= i < |chunk| ==> chunk[i] == DataByte(d, z, (start + |buf|) % 1024 + i)
    ensures ReadFrom(d, n, start, buf + chunk)
  {
    hide Zone, DataSlot, DataByte, Shape;
    var p := start + |buf|;
    assert p + |chunk| <= MaxBlocks * BlockSize;
    forall i | 0 <= i < |buf + chunk| ensures (buf + chunk)[i] == ByteAt(d, n, start + i) {
      if i >= |buf| {
        var k := i - |buf|;
        assert (p + k) / 1024 == p / 1024 && (p + k) % 1024 == p % 1024 + k;
        assert chunk[k] == DataByte(d, z, p % 1024 + k);
      }
    }
  }

  lemma DataBytes(d: Disk, owner: map<nat, Place>, n: nat, p: nat)
    requires Inv(d, owner) && IsPlace(d, Place(n, Ind)) && p / 1024 < MaxBlocks
    ensures Shape(d) && IsPlace(d, Place(n, DataSlot(p / 1024))) && Zone(d, n, DataSlot(p / 1024)) < d.nzones
  {
    assert IsPlace(d, Place(n, DataSlot(p / 1024)));
    if Zone(d, n, DataSlot(p / 1024)) != 0 { assert Zone(d, n, DataSlot(p / 1024)) in owner; }
  }

  datatype Result = Panic | Block(z: nat)

  /** How free_block ends: a panic, an early return, or the zone is free. */
  datatype FreeReply = NotInZone | InUse | NotMarked | GivenBack

  /** None of the zones within par has been given back yet. */
  ghost predicate Freeing(d0: Disk, d: Disk, owner: map<nat, Place>, n: nat, par: Slot, freed: set<nat>) {
    && Inv(d0, owner) && IsPlace(d0, Place(n, par)) && Freed(d0, d, freed) && freed !! ZonesWithin(owner, n, par)
  }

  lemma FreedShape(d0: Disk, d: Disk, owner: map<nat, Place>, freed: set<nat>)
    requires Inv(d0, owner) && Freed(d0, d, freed)
    ensures forall i :: 0 <= i < |d.zmap| ==> |d.zmap[i]| == 8192
    ensures |d.blocks| == d.nzones && d.first == d0.first && d.nzones == d0.nzones && Shape(d0)
    ensures forall z: nat :: InRange(d, z) ==> (z - d.first + 1) / 8192 < |d.zmap|
    ensures forall z :: 0 <= z < |d.blocks| ==> IsBlock(d.blocks[z])
  {
  }

  lemma FreeingFacts(d0: Disk, d: Disk, owner: map<nat, Place>, n: nat, par: Slot, freed: set<nat>)
    requires Freeing(d0, d, owner, n, par, freed) && (par.Ind? || par.Dind? || par.DindSlot?)
    ensures Inv(d0, owner) && Shape(d0) && IsPlace(d0, Place(n, par)) && Freed(d0, d, freed)
      && freed !! ZonesWithin(owner, n, par)
    ensures Zone(d0, n, par) == 0 ==> freed + ZonesWithin(owner, n, par) == freed
    ensures freed + ZonesBelow(owner, n, par, 0) == freed
  {
    BelowAll(d0, owner, n, par);
  }

  /** The i-th entry of the block that par names has not been freed yet, and can be read. */
  lemma EntryToFree(d0: Disk, d: Disk, owner: map<nat, Place>, n: nat, par: Slot, freed0: set<nat>, i: nat)
    requires Inv(d0, owner) && IsPlace(d0, Place(n, par)) && freed0 !! ZonesWithin(owner, n, par)
      && (par.Ind? || par.Dind? || par.DindSlot?)
    requires Zone(d0, n, par) != 0 && i < 512 && Freed(d0, d, freed0 + ZonesBelow(owner, n, par, i))
    ensures Zone(d0, n, par) < |d.blocks| && IsBlock(d.blocks[Zone(d0, n, par)]) && IsPlace(d0, Place(n, Child(par, i)))
    ensures Entry(d.blocks[Zone(d0, n, par)], i) == Zone(d0, n, Child(par, i))
    ensures Zone(d0, n, Child(par, i)) != 0 ==> Zone(d0, n, Child(par, i)) !in freed0 + ZonesBelow(owner, n, par, i)
    ensures freed0 + ZonesBelow(owner, n, par, i) !! ZonesWithin(owner, n, Child(par, i))
    ensures freed0 + ZonesBelow(owner, n, par, i) + ZonesWithin(owner, n, Child(par, i))
      == freed0 + ZonesBelow(owner, n, par, i + 1)
    ensures par.Ind? || par.DindSlot? ==>
      ZonesWithin(owner, n, Child(par, i)) == if Zone(d0, n, Child(par, i)) == 0 then {}
        else {Zone(d0, n, Child(par, i))}
  {
    hide Freed, ZonesWithin, ZonesBelow, Within, Marked, Entry;
    ChildIsPlace(d0, n, par, i);
    ChildEntry(d0, d, owner, n, par, freed0, i);
    ZonesStep(d0, owner, n, par, i);
    if Zone(d0, n, Child(par, i)) != 0 { ParentInside(d0, owner, n, Child(par, i)); }
    if par.Ind? || par.DindSlot? { SingleZone(d0, owner, n, Child(par, i)); }
  }

  lemma ChildIsPlace(d0: Disk, n: nat, par: Slot, i: nat)
    requires IsPlace(d0, Place(n, par)) && (par.Ind? || par.Dind? || par.DindSlot?) && i < 512
    ensures IsPlace(d0, Place(n, Child(par, i)))
  {
  }

  lemma ChildEntry(d0: Disk, d: Disk, owner: map<nat, Place>, n: nat, par: Slot, freed0: set<nat>, i: nat)
    requires Inv(d0, owner) && IsPlace(d0, Place(n, par)) && freed0 !! ZonesWithin(owner, n, par)
      && (par.Ind? || par.Dind? || par.DindSlot?)
    requires Zone(d0, n, par) != 0 && i < 512 && Freed(d0, d, freed0 + ZonesBelow(owner, n, par, i))
      && IsPlace(d0, Place(n, Child(par, i)))
    ensures Zone(d0, n, par) < |d.blocks| && IsBlock(d.blocks[Zone(d0, n, par)])
    ensures Entry(d.blocks[Zone(d0, n, par)], i) == Zone(d0, n, Child(par, i))
  {
    hide ZonesWithin, Marked, Within, Owned, Entry;
    ParentOwned(d0, owner, n, Child(par, i));
    ParentInside(d0, owner, n, par);
    BelowAll(d0, owner, n, par);
    assert Zone(d0, n, par) !in ZonesBelow(owner, n, par, i);
  }

  /** The zones below the first i + 1 entries are those below the first i and those within entry i. */
  lemma ZonesStep(d0: Disk, owner: map<nat, Place>, n: nat, par: Slot, i: nat)
    requires (par.Ind? || par.Dind? || par.DindSlot?) && i < 512
    ensures ZonesBelow(owner, n, par, i + 1) == ZonesBelow(owner, n, par, i) + ZonesWithin(owner, n, Child(par, i))
    ensures ZonesBelow(owner, n, par, i) !! ZonesWithin(owner, n, Child(par, i))
    ensures ZonesWithin(owner, n, Child(par, i)) <= ZonesWithin(owner, n, par)
  {
    forall z | z in ZonesWithin(owner, n, Child(par, i))
      ensures z in ZonesWithin(owner, n, par) && z !in ZonesBelow(owner, n, par, i)
    {
      WithinParent(par, i, owner[z].slot);
    }
  }

  /** A slot for a data block has nothing below it. */
  lemma SingleZone(d: Disk, owner: map<nat, Place>, n: nat, s: Slot)
    requires Inv(d, owner) && IsPlace(d, Place(n, s)) && IsData(s)
    ensures ZonesWithin(owner, n, s) == if Zone(d, n, s) == 0 then {} else {Zone(d, n, s)}
  {
    forall z | z in ZonesWithin(owner, n, s) ensures z == Zone(d, n, s) && z != 0 {
      WithinCases(s, owner[z].slot);
    }
    if Zone(d, n, s) != 0 { ParentInside(d, owner, n, s); }
  }

  lemma OwnToFree(d0: Disk, d: Disk, owner: map<nat, Place>, n: nat, par: Slot, freed0: set<nat>)
    requires Inv(d0, owner) && IsPlace(d0, Place(n, par)) && freed0 !! ZonesWithin(owner, n, par)
      && (par.Ind? || par.Dind? || par.DindSlot?)
    requires Zone(d0, n, par) != 0
    ensures Zone(d0, n, par) !in freed0 + ZonesBelow(owner, n, par, 512)
    ensures freed0 + ZonesBelow(owner, n, par, 512) + {Zone(d0, n, par)} == freed0 + ZonesWithin(owner, n, par)
  {
    BelowAll(d0, owner, n, par);
    ParentInside(d0, owner, n, par);
  }

  lemma ParentInside(d: Disk, owner: map<nat, Place>, n: nat, par: Slot)
    requires Inv(d, owner) && IsPlace(d, Place(n, par)) && Zone(d, n, par) != 0
    ensures Zone(d, n, par) in ZonesWithin(owner, n, par)
  {
  }

  /** The direct zone pointers cleared up to i. */
  function Zeroed(zone: seq<nat>, i: nat): (r: seq<nat>)
    requires |zone| == 9 && i <= 7
    ensures |r| == 9
  {
    seq(9, k requires 0 <= k < 9 => if k < i then 0 else zone[k])
  }

  lemma FreedInodes(d0: Disk, d: Disk, d': Disk, freed: set<nat>)
    requires Freed(d0, d, freed) && d' == d.(inodes := d'.inodes)
    ensures Freed(d0, d', freed)
  {
  }

  lemma StartFreeing(d0: Disk, d: Disk, owner: map<nat, Place>, n: nat, par: Slot, freed: set<nat>)
    requires Inv(d0, owner) && IsPlace(d0, Place(n, par)) && Freed(d0, d, freed) && freed !! ZonesWithin(owner, n, par)
    ensures Freeing(d0, d, owner, n, par, freed)
  {
  }

  lemma FreedNothing(d: Disk, owner: map<nat, Place>, n: nat)
    requires Inv(d, owner) && n in d.inodes
    ensures Freed(d, d, ZonesDirect(owner, n, 0)) && |d.inodes[n].zone| == 9 && Shape(d)
    ensures d.inodes == d.inodes[n := d.inodes[n].(zone := Zeroed(d.inodes[n].zone, 0))]
  {
    assert Zeroed(d.inodes[n].zone, 0) == d.inodes[n].zone;
    assert ZonesDirect(owner, n, 0) == {};
  }

  lemma DirectToFree(d: Disk, owner: map<nat, Place>, n: nat, i: nat)
    requires Inv(d, owner) && IsPlace(d, Place(n, Direct(0))) && i < 7
    ensures IsPlace(d, Place(n, Direct(i))) && |d.inodes[n].zone| == 9 && Zone(d, n, Direct(i)) == d.inodes[n].zone[i]
    ensures d.inodes[n].zone[i] == 0 ==> ZonesDirect(owner, n, i + 1) == ZonesDirect(owner, n, i)
    ensures d.inodes[n].zone[i] == 0 ==> Zeroed(d.inodes[n].zone, i + 1) == Zeroed(d.inodes[n].zone, i)
    ensures d.inodes[n].zone[i] != 0 ==>
      ZonesDirect(owner, n, i + 1) == ZonesDirect(owner, n, i) + {d.inodes[n].zone[i]}
        && d.inodes[n].zone[i] !in ZonesDirect(owner, n, i)
    ensures Zeroed(d.inodes[n].zone, i + 1) == Zeroed(d.inodes[n].zone, i)[i := 0]
    ensures Zeroed(d.inodes[n].zone, i)[i] == d.inodes[n].zone[i]
  {
    forall z | z in ZonesDirect(owner, n, i + 1) && z !in ZonesDirect(owner, n, i)
      ensures z == d.inodes[n].zone[i] && z != 0
    {
      assert owner[z].slot == Direct(i);
    }
    if d.inodes[n].zone[i] != 0 { assert owner[Zone(d, n, Direct(i))] == Place(n, Direct(i)); }
  }

  /** The three parts of a zone tree share nothing and are all of it. */
  lemma DirectAll(d: Disk, owner: map<nat, Place>, n: nat)
    requires Inv(d, owner) && IsPlace(d, Place(n, Ind))
    ensures Zone(d, n, Ind) == d.inodes[n].zone[7] && Zone(d, n, Dind) == d.inodes[n].zone[8]
      && IsPlace(d, Place(n, Dind))
    ensures ZonesDirect(owner, n, 7) !! ZonesWithin(owner, n, Ind)
    ensures ZonesDirect(owner, n, 7) + ZonesWithin(owner, n, Ind) !! ZonesWithin(owner, n, Dind)
    ensures ZonesDirect(owner, n, 7) + ZonesWithin(owner, n, Ind) + ZonesWithin(owner, n, Dind) == AllZones(owner, n)
  {
    hide Within, Marked, Exact, ZeroBeyond;
    forall z | z in owner && owner[z].inode == n
      ensures z in ZonesDirect(owner, n, 7) || z in ZonesWithin(owner, n, Ind) || z in ZonesWithin(owner, n, Dind)
      ensures z in ZonesDirect(owner, n, 7) ==> z !in ZonesWithin(owner, n, Ind) && z !in ZonesWithin(owner, n, Dind)
      ensures z in ZonesWithin(owner, n, Ind) ==> z !in ZonesWithin(owner, n, Dind)
    {
      WithinRoots(owner[z].slot);
    }
  }

  lemma EntryPlace(d: Disk, owner: map<nat, Place>, n: nat, s: Slot)
    requires Inv(d, owner) && IsPlace(d, Place(n, s)) && !Root(s) && Zone(d, n, Parent(s)) != 0
    ensures Shape(d) && ParentZone(d, n, s) == Zone(d, n, Parent(s)) < d.nzones
      && IsBlock(d.blocks[ParentZone(d, n, s)])
    ensures Zone(d, n, s) == Entry(d.blocks[ParentZone(d, n, s)], Index(s))
    ensures ParentZone(d, n, s) in owner && d.nzones == |d.blocks|
  {
    ParentOwned(d, owner, n, s);
  }

  lemma NothingBelow(d: Disk, owner: map<nat, Place>, d': Disk, owner': map<nat, Place>, n: nat, par: Slot, s: Slot,
                     path: set<Slot>)
    requires Inv(d', owner') && IsPlace(d', Place(n, s)) && Within(par, s) && ValidSlot(par) && Zone(d', n, par) == 0
    requires Extended(d, owner, d', owner', n, path) && path <= Path(s)
    ensures Zone(d', n, s) == 0 && Extended(d, owner, d', owner', n, Path(s))
  {
    hide ByteAt, SameBytes, Inv;
    if Zone(d', n, s) != 0 { WithinPath(d', n, par, s); }
  }

  lemma StillPlace(d: Disk, owner: map<nat, Place>, d': Disk, owner': map<nat, Place>, n: nat, path: set<Slot>, s: Slot)
    requires Extended(d, owner, d', owner', n, path) && IsPlace(d, Place(n, s))
    ensures IsPlace(d', Place(n, s))
  {
  }

  lemma NotedTwice(d: Disk, d1: Disk, d2: Disk, dirty: set<nat>, dirty1: set<nat>, dirty2: set<nat>)
    requires Noted(d, d1, dirty, dirty1) && Noted(d1, d2, dirty1, dirty2)
    ensures Noted(d, d2, dirty, dirty2)
  {
  }

  lemma PathIs(s: Slot)
    ensures s.Direct? ==> Path(s) == {s}
    ensures s.IndSlot? ==> Path(s) == {Ind} + {s} && Within(Ind, s)
    ensures s.Leaf? ==> Path(s) == {Dind} + {DindSlot(s.k)} + {s} && Within(Dind, s) && Within(DindSlot(s.k), s)
  {
    if s.Leaf? {
      assert Path(DindSlot(s.k)) == {DindSlot(s.k)} + Path(Dind);
      assert Within(Dind, DindSlot(s.k));
    }
  }

  lemma RootPlace(d: Disk, owner: map<nat, Place>, n: nat, s: Slot)
    requires Inv(d, owner) && IsPlace(d, Place(n, s))
    ensures Shape(d) && |d.inodes[n].zone| == 9
    ensures Root(s) ==> Zone(d, n, s) == d.inodes[n].zone[Index(s)]
  {
  }

  lemma AnyInode(d: Disk, owner: map<nat, Place>, d': Disk, owner': map<nat, Place>, n: nat, path: set<Slot>, s: Slot)
    requires Extended(d, owner, d', owner', 0, {}) && IsPlace(d, Place(n, s))
    ensures Extended(d, owner, d', owner', n, path)
    ensures IsPlace(d', Place(n, s)) && Zone(d', n, s) == Zone(d, n, s)
  {
  }

  lemma ReadyToGraft(d: Disk, owner: map<nat, Place>, n: nat, s: Slot, z: nat)
    requires Inv(d, owner) && IsPlace(d, Place(n, s)) && Zone(d, n, s) == 0 && (!Root(s) ==> Zone(d, n, Parent(s)) != 0)
    requires InRange(d, z) && z !in owner && (z - d.first + 1) / 8192 < |d.zmap|
    ensures CanGraft(d, owner, n, s, z)
  {
  }

  lemma GrewExtended(d: Disk, owner: map<nat, Place>, n: nat, s: Slot, z: nat)
    requires CanGraft(d, owner, n, s, z) && ParentZone(d, n, s) < d.nzones && Grew(d, Grafted(d, n, s, z), n, s, z)
    ensures Extended(d, owner, Grafted(d, n, s, z), owner[z := Place(n, s)], n, {s})
    ensures IsPlace(Grafted(d, n, s, z), Place(n, s)) && Zone(Grafted(d, n, s, z), n, s) == z
    ensures Noted(d, Grafted(d, n, s, z), {}, {z} + if Root(s) then {} else {ParentZone(d, n, s)})
  {
    hide ByteAt, Zone;
    GrewNoted(d, owner, n, s, z);
    hide Noted, Grafted;
  }

  lemma GrewNoted(d: Disk, owner: map<nat, Place>, n: nat, s: Slot, z: nat)
    requires CanGraft(d, owner, n, s, z) && ParentZone(d, n, s) < d.nzones
    ensures Noted(d, Grafted(d, n, s, z), {}, {z} + if Root(s) then {} else {ParentZone(d, n, s)})
  {
    hide Zone;
  }

  lemma SameDisk(d: Disk, owner: map<nat, Place>)
    requires Inv(d, owner)
    ensures Extended(d, owner, d, owner, 0, {})
  {
  }

  /** A device with one data zone, which belongs to file 1, and a map block of 8192 bits. */
  function OneZone(): Disk {
    Disk(1, 2, [seq(8192, b => b < 2)], [Zeros(), Zeros()],
      map[1 := INode(true, 1, [1, 0, 0, 0, 0, 0, 0, 0, 0], false)])
  }

  /** It is full, and new_block sets bit 2 of its map, for which there is no zone. */
  lemma OneZoneLosesBit()
    ensures Inv(OneZone(), map[1 := Place(1, Direct(0))]) && FullDisk(OneZone()) && !NoneClear(OneZone().zmap)
    ensures LosesBit(OneZone(), OneZone().(zmap := SetBit(OneZone().zmap, 2, true)))
  {
    hide DataSlot;
    var d := OneZone();
    forall s | ValidSlot(s) ensures Zone(d, 1, s) == if s == Direct(0) then 1 else 0 { ZoneOfOne(s); }
    forall p: nat | p < MaxBlocks * BlockSize ensures ByteAt(d, 1, p) == 0 {
      assert IsPlace(d, Place(1, DataSlot(p / 1024)));
    }
    assert !Marked(d.zmap, 2) && LowestClear(d.zmap, 2);
  }

  lemma ZoneOfOne(s: Slot)
    requires ValidSlot(s)
    ensures Shape(OneZone()) && Zone(OneZone(), 1, s) == if s == Direct(0) then 1 else 0
    decreases Depth(s)
  {
    if !Root(s) { ZoneOfOne(Parent(s)); }
  }

  lemma FullWhen(d: Disk, b: nat)
    requires Shape(d) && forall c: nat :: c < b ==> Marked(d.zmap, c)
    requires b + d.first - 1 >= d.nzones || b >= 8192 * |d.zmap|
    ensures FullDisk(d)
  {
    forall z: nat | InRange(d, z) ensures ZoneMarked(d, z) {
      assert Marked(d.zmap, z - d.first + 1);
    }
  }
}
