/** Which block of the device holds a byte of a file, read off i_zone and the indirect blocks. */
module FileBytes {
  import opened Zones

  /** Number i in block b of zone numbers is z; a missing block has none. */
  predicate NumberIs(d: Disk, b: nat, i: nat, z: nat) {
    if b == 0 then z == 0
    else b < |d.blocks| && |d.blocks[b]| == 1024 && i < 512 && z == d.blocks[b][2 * i] + 256 * d.blocks[b][2 * i + 1]
  }

  /** Block number `block` of file n is in zone z: seven direct numbers, then 512 behind i_zone[7], then 512 times 512
      behind i_zone[8]. */
  ghost predicate BlockIs(d: Disk, n: nat, block: nat, z: nat) {
    && n in d.inodes && |d.inodes[n].zone| == 9
    && if block < 7 then z == d.inodes[n].zone[block]
       else if block < 519 then NumberIs(d, d.inodes[n].zone[7], block - 7, z)
       else TwoSteps(d, d.inodes[n].zone[8], (block - 519) / 512, (block - 519) % 512, z)
  }

  ghost predicate TwoSteps(d: Disk, b: nat, i: nat, j: nat, z: nat) {
    exists y: nat :: NumberIs(d, b, i, y) && NumberIs(d, y, j, z)
  }

  /** Byte p of file n is v: the one at p % 1024 in the zone of its block, 0 in a hole. */
  ghost predicate ByteIs(d: Disk, n: nat, p: nat, v: int) {
    exists z: nat :: BlockIs(d, n, p / 1024, z) && InBlock(d, z, p % 1024, v)
  }

  predicate InBlock(d: Disk, z: nat, i: nat, v: int) {
    if z == 0 then v == 0 else z < |d.blocks| && i < |d.blocks[z]| && d.blocks[z][i] == v
  }

  lemma EntryRead(d: Disk, b: nat, i: nat)
    requires Shape(d) && i < 512 && (b == 0 || InRange(d, b))
    ensures NumberIs(d, b, i, ReadEntry(d, b, i))
  {
  }

  lemma ZoneIs(d: Disk, owner: map<nat, Place>, n: nat, block: nat)
    requires Inv(d, owner) && block < MaxBlocks && IsPlace(d, Place(n, DataSlot(block)))
    ensures BlockIs(d, n, block, Zone(d, n, DataSlot(block)))
  {
    hide Exact, ZeroBeyond;
    if 7 <= block < 519 {
      assert IsPlace(d, Place(n, Ind)) && Zone(d, n, Ind) == d.inodes[n].zone[7];
      EntryRead(d, d.inodes[n].zone[7], block - 7);
    }
    if 519 <= block {
      var s := DindSlot((block - 519) / 512);
      assert IsPlace(d, Place(n, Dind)) && IsPlace(d, Place(n, s)) && Zone(d, n, Dind) == d.inodes[n].zone[8];
      EntryRead(d, d.inodes[n].zone[8], (block - 519) / 512);
      EntryRead(d, Zone(d, n, s), (block - 519) % 512);
    }
  }

  /** A byte of a file is what these look-ups find, and nothing else. */
  lemma ByteAtIs(d: Disk, owner: map<nat, Place>, n: nat, p: nat)
    requires Inv(d, owner) && p < MaxBlocks * BlockSize && n in d.inodes && d.inodes[n].hasZones
    ensures forall v :: ByteIs(d, n, p, v) <==> v == ByteAt(d, n, p)
  {
    hide Exact, ZeroBeyond, BlockIs;
    var s := DataSlot(p / 1024);
    assert IsPlace(d, Place(n, s));
    ZoneIs(d, owner, n, p / 1024);
    forall z: nat | BlockIs(d, n, p / 1024, z) ensures z == Zone(d, n, s) {
      OneZone(d, n, p / 1024, z, Zone(d, n, s));
    }
    assert InBlock(d, Zone(d, n, s), p % 1024, ByteAt(d, n, p));
  }

  lemma OneZone(d: Disk, n: nat, block: nat, y: nat, z: nat)
    requires BlockIs(d, n, block, y) && BlockIs(d, n, block, z)
    ensures y == z
  {
  }

  /** What read() returns, byte by byte. */
  ghost predicate ReadBytes(d: Disk, n: nat, pos: nat, count: nat, buf: seq<int>) {
    && n in d.inodes
    && |buf| == (if pos >= d.inodes[n].size then 0
                 else if pos + count > d.inodes[n].size then d.inodes[n].size - pos else count)
    && forall i :: 0 <= i < |buf| ==> ByteIs(d, n, pos + i, buf[i])
  }

  lemma SliceBytes(d: Disk, owner: map<nat, Place>, n: nat, pos: nat, count: nat, buf: seq<int>)
    requires Inv(d, owner) && n in d.inodes && d.inodes[n].hasZones && buf == Slice(Contents(d, n), pos, count)
    ensures ReadBytes(d, n, pos, count, buf)
  {
    hide Owned, Exact, ZeroBeyond, ByteIs, ByteAt;
    WindowInside(Contents(d, n), pos, count);
    forall i | 0 <= i < |buf| ensures ByteIs(d, n, pos + i, buf[i]) { ByteAtIs(d, owner, n, pos + i); }
  }

  /** What write() does: the data are at the position, the file is as long as it has to be, and no other byte of any
      file below its end changes. */
  ghost predicate WrittenBytes(d: Disk, d': Disk, n: nat, pos: nat, data: seq<int>) {
    && n in d.inodes && d'.inodes.Keys == d.inodes.Keys
    && d'.inodes[n].size == (if data == [] || pos + |data| < d.inodes[n].size then d.inodes[n].size else pos + |data|)
    && (forall m :: m in d.inodes && m != n ==> d'.inodes[m].size == d.inodes[m].size)
    && (forall i :: 0 <= i < |data| ==> ByteIs(d', n, pos + i, data[i]))
    && (forall m, q: nat :: m in d.inodes && d.inodes[m].hasZones && q < d.inodes[m].size ==>
          (m == n && pos <= q < pos + |data|) || SameByte(d, d', m, q))
    && (forall q: nat :: d.inodes[n].size <= q < pos && data != [] ==> ByteIs(d', n, q, 0))
  }

  ghost predicate SameByte(d: Disk, d': Disk, n: nat, p: nat) {
    forall v :: ByteIs(d', n, p, v) <==> ByteIs(d, n, p, v)
  }

  lemma ReplacedBytes(d: Disk, owner: map<nat, Place>, d': Disk, owner': map<nat, Place>, n: nat, pos: nat,
                      data: seq<int>)
    requires Inv(d, owner) && Inv(d', owner') && Replaced(d, d', n, pos, data) && d.inodes[n].hasZones
    ensures WrittenBytes(d, d', n, pos, data)
  {
    hide Owned, Exact, ByteIs, ByteAt;
    forall i | 0 <= i < |data| ensures ByteIs(d', n, pos + i, data[i]) { ByteAtIs(d', owner', n, pos + i); }
    forall m, q: nat | m in d.inodes && d.inodes[m].hasZones && q < d.inodes[m].size
                       && !(m == n && pos <= q < pos + |data|)
      ensures SameByte(d, d', m, q)
    {
      ByteAtIs(d, owner, m, q);
      ByteAtIs(d', owner', m, q);
    }
    forall q: nat | d.inodes[n].size <= q < pos && data != [] ensures ByteIs(d', n, q, 0) {
      ByteAtIs(d', owner', n, q);
    }
  }
}
