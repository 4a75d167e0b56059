/** The page allocator, fork's page-table copy and copy-on-write of VLinux0.11/mm/memory.c
    and copy_mem of VLinux0.11/kernel/fork.c, on physical memory and the mem_map array. */
module MemoryManager {
  import opened PageTables
  import opened PageSteps
  import opened LinearPages

  datatype Outcome = Done | OutOfMemory | Panic

  /** What the tasks of the machine may ask of the pager. */
  datatype Request =
    | FirstFork(child: int)                                  // by task 0
    | Fork(parent: int, child: int)
    | Exit(task: int)
    | Touch(address: nat)                                    // a fault on an absent page
    | Store(slot: Slot, k: int, word: Word)
    | ShareText(address: nat, other: int, current: int)

  const TABLE_SPAN := 0x400000        // bytes one page table maps

  /** The directory slot of an address, and the page tables a range of that size needs. */
  function DirSlot(address: nat): nat { address / TABLE_SPAN }
  function Blocks(size: nat): nat { (size + TABLE_SPAN - 1) / TABLE_SPAN }

  lemma TaskOffset(task: int, address: nat)
    requires 1 <= task < 64 && address < SPACE * TABLE_SPAN
    ensures DirSlot(task * SPACE * TABLE_SPAN + address) == task * SPACE + address / TABLE_SPAN
    ensures 0 <= address / TABLE_SPAN < SPACE
  {
  }

  /** Both tasks' directory slots for an offset sit at the same place of their 64 MB. */
  lemma SameOffset(address: nat, p: nat, q: nat)
    requires p != q && address < SPACE * TABLE_SPAN
    requires exists a, b :: 1 <= a < 64 && 1 <= b < 64 && p == a * SPACE * TABLE_SPAN && q == b * SPACE * TABLE_SPAN
    ensures FIRST_USER <= DirSlot(p + address) < WORDS && FIRST_USER <= DirSlot(q + address) < WORDS
    ensures DirSlot(p + address) % SPACE == DirSlot(q + address) % SPACE
    ensures DirSlot(p + address) != DirSlot(q + address)
  {
    var a, b :| 1 <= a < 64 && 1 <= b < 64 && p == a * SPACE * TABLE_SPAN && q == b * SPACE * TABLE_SPAN;
    TaskOffset(a, address);
    TaskOffset(b, address);
    hide DirSlot;
    InSpaceOffset(a, address / TABLE_SPAN);
    InSpaceOffset(b, address / TABLE_SPAN);
    assert a != b;
  }

  lemma PageNumber(start: nat, address: nat)
    requires exists a :: 1 <= a < 64 && start == a * SPACE * TABLE_SPAN
    requires address < SPACE * TABLE_SPAN
    ensures InUserSpace((start + address) / 4096)
    ensures DirSlot(start + address) == (start + address) / 4096 / 1024
    ensures address / 4096 % WORDS == (start + address) / 4096 % 1024
  {
    var a :| 1 <= a < 64 && start == a * SPACE * TABLE_SPAN;
    assert (start + address) / 4096 == a * 0x4000 + address / 4096;
  }

  lemma InSpaceOffset(task: int, x: int)
    requires 1 <= task < 64 && 0 <= x < SPACE
    ensures (task * SPACE + x) % SPACE == x && FIRST_USER <= task * SPACE + x < WORDS
  {
  }

  lemma TaskSpan(task: int)
    requires 1 <= task < 64
    ensures DirSlot(task * SPACE * TABLE_SPAN) == task * SPACE && Blocks(SPACE * TABLE_SPAN) == SPACE
    ensures task * SPACE * TABLE_SPAN % TABLE_SPAN == 0 && task * SPACE * TABLE_SPAN != 0
  {
  }

  lemma Swap<T>(s: seq<T>, i: nat, j: nat, x: T, y: T)
    requires i < |s| && j < |s| && i != j
    ensures s[i := x][j := y] == s[j := y][i := x]
  {
  }

  lemma NoTablesYet(tab: TableMap, lo: int)
    ensures |TablesIn(tab, lo, 0)| == 0
  {
    assert TablesIn(tab, lo, 0) == {};
  }

  function KernelWords(m: Phys): seq<Word>
    requires KernelTable(m)
  {
    m[m[0][0].frame]
  }

  /** copy_mem panics before it copies anything. */
  predicate BadSegments(dataBase: nat, codeBase: nat, dataLimit: nat, codeLimit: nat) {
    dataBase != codeBase || dataLimit < codeLimit
  }

  lemma NoneThere(tab: TableMap, lo: int, n: int)
    ensures TablesIn(tab, lo, n) == {} <==> forall d :: lo <= d < lo + n ==> d !in tab
  {
    forall d | lo <= d < lo + n && d in tab ensures d in TablesIn(tab, lo, n) { }
  }

  /** A free page is inside memory. */
  lemma InsideMemory(m: Phys, mm: seq<int>, holds: seq<nat>, home: seq<Slot>, k: int)
    requires Good(m, mm, holds, home) && 0 <= k < PAGING_PAGES && |mm| == PAGING_PAGES && mm[k] == 0
    ensures k + LOW < |m|
  {
    hide Tab, Ent, Sized;
  }

  lemma NoEntries(m: Phys, mm: seq<int>, holds: seq<nat>, home: seq<Slot>, task: int, n: int)
    requires Good(m, mm, holds, home) && Sized(m) && forall d :: task * SPACE <= d < task * SPACE + n ==> d !in Tab(m)
    ensures forall s :: s in Ent(m) ==> !Limited(s, task, n)
  {
    hide Tab, Ent, Sized;
  }

  lemma PageAt(address: nat)
    ensures address / 4096 / 1024 == DirSlot(address) && address / 4096 % 1024 == address / 4096 % WORDS
  {
  }

  lemma RangeEnd(from: nat, size: nat)
    requires from % TABLE_SPAN == 0
    ensures DirSlot(from) == from / 0x400000 && DirSlot(from) + Blocks(size) == (from + size + 0x3fffff) / 0x400000
  {
  }

  lemma BlocksCover(size: nat)
    ensures size <= Blocks(size) * 0x400000 && (size <= 0x4000000 ==> Blocks(size) <= 16)
  {
  }

  lemma OneBlock(size: nat)
    requires 0 < size <= TABLE_SPAN
    ensures Blocks(size) == 1
  {
  }

  lemma NothingCopied(m: Phys, mm: seq<int>, holds: seq<nat>, home: seq<Slot>, nr: int)
    requires Good(m, mm, holds, home) && 1 <= nr < 64
    ensures Sized(m) && CopiedTo(m, m, if nr == 1 then 2 * SPACE else SPACE, nr * SPACE, 0) && SamePages(m, m)
    ensures Ranges(if nr == 1 then 2 * SPACE else SPACE, nr * SPACE, 1)
  {
    hide Inv, Tab, Ent, Sized, CopyEnt, TabGrown, UserEntries, SamePages;
    AllUserEntries(m, mm, holds, home);
    SamePagesStart(m);
    CopyStart(Tab(m), Ent(m), if nr == 1 then 2 * SPACE else SPACE, nr * SPACE);
  }

  class Memory {
    var phys: Phys
    var memMap: seq<int>
    /** References the kernel holds itself: a page between get_free_page and put_page,
        a task structure, an argument page. */
    ghost var holds: seq<nat>
    /** The offset in an address space at which a mapped page sits. */
    ghost var home: seq<Slot>

    ghost predicate Valid()
      reads this
    {
      Good(phys, memMap, holds, home) && |phys| > 0 && DirOk(phys[0])
    }

    /** The last free page, zeroed and now held by the caller; 0 if there is none. */
    method GetFreePage() returns (f: int)
      requires Valid()
      modifies this`phys, this`memMap, this`holds
      ensures Valid() && Sized(phys) && |phys| == |holds| == |old(phys)| && SamePages(old(phys), phys)
      ensures Tab(phys) == old(Tab(phys)) && Ent(phys) == old(Ent(phys))
      ensures f == 0 <==> Free(old(memMap)) == {}
      ensures f != 0 ==> |Free(memMap)| == |Free(old(memMap))| - 1
      ensures f == 0 ==> phys == old(phys) && memMap == old(memMap) && holds == old(holds)
      ensures f != 0 ==>
        && LOW <= f < |phys| && old(memMap)[f - LOW] == 0
        && (forall k :: f - LOW < k < PAGING_PAGES ==> old(memMap)[k] != 0)
        && phys == old(phys)[f := ZeroPage()] && AllZero(phys[f])
        && memMap == old(memMap)[f - LOW := 1] && holds == old(holds)[f := 1] && old(holds)[f] == 0
        && (forall s :: s in Ent(phys) ==> Ent(phys)[s].frame != f)
    {
      hide Inv, Good, Tab, Ent, Sized, SamePages, Free;
      TableAt(phys, memMap, holds, home, FIRST_USER);
      SamePagesStart(phys);
      var k := LastFree();
      if k < 0 { return 0; }
      f := k + LOW;
      InsideMemory(phys, memMap, holds, home, k);
      FreeAfter(memMap, k, 1);
      TakeStep(phys, memMap, holds, home, f);
      memMap := memMap[k := 1];
      holds := holds[f := 1];
      phys := phys[f := ZeroPage()];
      TableAt(phys, memMap, holds, home, FIRST_USER);
    }

    /** The search of get_free_page: the place of the last 0 in mem_map, or -1. */
    method LastFree() returns (k: int)
      requires |memMap| == PAGING_PAGES
      ensures -1 <= k < PAGING_PAGES && (k < 0 <==> Free(memMap) == {}) && (k >= 0 ==> memMap[k] == 0)
      ensures forall j :: k < j < PAGING_PAGES ==> memMap[j] != 0
    {
      k := PAGING_PAGES - 1;
      while k >= 0 && memMap[k] != 0
        invariant -1 <= k < PAGING_PAGES
        invariant forall j :: k < j < PAGING_PAGES ==> memMap[j] != 0
      {
        k := k - 1;
      }
      assert k >= 0 ==> k in Free(memMap);
    }

    /** Drops one reference of page f. */
    method FreePage(f: int) returns (r: Outcome)
      requires |memMap| == PAGING_PAGES && |phys| <= LOW + PAGING_PAGES
      modifies this`memMap
      ensures f < LOW ==> r == Done && memMap == old(memMap)
      ensures LOW <= f < |phys| && old(memMap)[f - LOW] != 0 ==>
        r == Done && memMap == old(memMap)[f - LOW := old(memMap)[f - LOW] - 1]
      ensures r == Panic <==> LOW <= f && (f >= |phys| || old(memMap)[f - LOW] == 0)
    {
      if f < LOW { return Done; }
      if f >= |phys| { return Panic; }
      if memMap[f - LOW] != 0 {
        memMap := memMap[f - LOW := memMap[f - LOW] - 1];
        return Done;
      }
      return Panic;
    }

    /** Gives the entry a page of its own and makes it writable. */
    method UnWpPage(d: int, i: int) returns (r: Outcome)
      requires Valid() && Slot(d, i) in Ent(phys)
      modifies this
      ensures Valid() && holds == old(holds) && r != Panic
      ensures r == Done ==> Unshared(old(phys), phys, Slot(d, i))
      ensures (LOW <= old(Ent(phys))[Slot(d, i)].frame < LOW + |old(memMap)|
               && old(memMap)[old(Ent(phys))[Slot(d, i)].frame - LOW] == 1) ==>
        r == Done && memMap == old(memMap)
        && Sized(phys) && Ent(phys) == old(Ent(phys))[Slot(d, i) := old(Ent(phys))[Slot(d, i)].(writable := true)]
      ensures Sized(old(phys)) && Sized(phys) && Slot(d, i) in Ent(phys)
      ensures r == Done && !(LOW <= old(Ent(phys))[Slot(d, i)].frame < LOW + |old(memMap)|
                             && old(memMap)[old(Ent(phys))[Slot(d, i)].frame - LOW] == 1) ==>
        UserPage(Ent(phys)[Slot(d, i)], Ent(phys)[Slot(d, i)].frame)
      ensures r == OutOfMemory ==> phys == old(phys) && memMap == old(memMap) && Free(memMap) == {}
      ensures r == Done ==>
        Free(old(memMap)) != {}
        || (LOW <= old(Ent(phys))[Slot(d, i)].frame < LOW + |old(memMap)|
        && old(memMap)[old(Ent(phys))[Slot(d, i)].frame - LOW] == 1)
    {
      hide Inv, Good, Unshared, SamePages, Tab, Ent, Sized;
      ghost var s := Slot(d, i);
      EntryAt(phys, memMap, holds, home, s);
      var t := phys[0][d].frame;
      var entry := phys[t][i];
      var oldPage := entry.frame;
      if oldPage >= LOW && memMap[oldPage - LOW] == 1 {
        UnprotectStep(phys, memMap, holds, home, s);
        phys := phys[t := phys[t][i := entry.(writable := true)]];
        return Done;
      }
      var newPage := GetFreePage();
      if newPage == 0 { return OutOfMemory; }
      ghost var taken := phys;
      EntryAt(phys, memMap, holds, home, s);
      CopyStep(phys, memMap, holds, home, s, newPage);
      if oldPage >= LOW { memMap := memMap[oldPage - LOW := memMap[oldPage - LOW] - 1]; }
      phys := phys[t := phys[t][i := Attach(newPage)]];
      phys := phys[newPage := phys[oldPage]];
      holds := holds[newPage := 0];
      home := home[newPage := Slot(d % SPACE, i)];
      UnsharedAfter(old(phys), taken, phys, s);
      AllUserEntries(phys, memMap, holds, home);
      return Done;
    }

    /** Gives back all pages and tables of the directory slots from, from + 4 MB, ... */
    method FreePageTables(from: nat, size: nat) returns (r: Outcome)
      requires Valid()
      requires DirSlot(from) + Blocks(size) <= WORDS
      requires from % TABLE_SPAN == 0 && from != 0 ==> FIRST_USER <= DirSlot(from)
      modifies this`phys, this`memMap
      ensures r == if from % TABLE_SPAN != 0 || from == 0 then Panic else Done
      ensures r == Panic ==> phys == old(phys) && memMap == old(memMap)
      ensures r == Done ==>
        && Valid() && Sized(phys) && Shrunk(old(phys), phys)
        && Tab(phys) == TabOutside(old(Tab(phys)), DirSlot(from), DirSlot(from) + Blocks(size))
        && Ent(phys) == EntOutside(old(Ent(phys)), DirSlot(from), DirSlot(from) + Blocks(size), 0)
        && ClearedAt(old(phys), phys, from / 0x400000, (from + size + 0x3fffff) / 0x400000)
    {
      hide Inv, Good, Shrunk, SamePages, Tab, Ent, Sized, TabOutside, EntOutside, DirSlot, Blocks, ClearedAt;
      if from % TABLE_SPAN != 0 { return Panic; }
      if from == 0 { return Panic; }
      var first := DirSlot(from);
      var last := first + Blocks(size);
      var d := first;
      ghost var mm := memMap;
      TableAt(phys, memMap, holds, home, FIRST_USER);
      ghost var tab, ent := Tab(phys), Ent(phys);
      RangeStart(tab, ent, first);
      ShrunkStart(phys);
      while d < last
        invariant first <= d <= last
        invariant Valid() && Sized(phys) && Shrunk(old(phys), phys)
        invariant Tab(phys) == TabOutside(tab, first, d) && Ent(phys) == EntOutside(ent, first, d, 0)
      {
        TableAt(phys, memMap, holds, home, d);
        if phys[0][d].present {
          r := EmptyTable(d, old(phys), first, tab, ent);
          if r == Panic { return; }
          TableAt(phys, memMap, holds, home, d);
          ghost var before := phys;
          TabOutsideNext(tab, ent, first, d);
          EntOutsideNext(ent, first, d, WORDS);
          DropTableStep(phys, memMap, holds, home, d);
          r := FreePage(phys[0][d].frame);
          if r == Panic { return; }
          phys := phys[0 := phys[0][d := ZERO]];
          ShrunkAfter(old(phys), before, phys);
        } else {
          NoTableNoEntries(tab, ent, first, d);
        }
        d := d + 1;
      }
      RangeEnd(from, size);
      ClearedPages(old(phys), mm, holds, home, phys, memMap, holds, home, first, last);
      return Done;
    }

    /** The inner loop of free_page_tables: the entries of one table. */
    method EmptyTable(d: int, ghost m: Phys, ghost first: int, ghost tab: TableMap, ghost ent: EntryMap)
      returns (r: Outcome)
      requires Valid() && Sized(phys) && Sized(m) && Shrunk(m, phys) && FIRST_USER <= d < WORDS && d in Tab(phys)
      requires Tab(phys) == TabOutside(tab, first, d) && Ent(phys) == EntOutside(ent, first, d, 0)
      requires first <= d && forall s :: s in ent ==> 0 <= s.idx < WORDS
      modifies this`phys, this`memMap
      ensures r == Done && Valid() && Sized(phys) && Shrunk(m, phys) && Tab(phys) == old(Tab(phys))
      ensures Ent(phys) == EntOutside(ent, first, d, WORDS)
    {
      hide Inv, Good, Shrunk, SamePages, Tab, Ent, Sized, TabOutside, EntOutside;
      TableAt(phys, memMap, holds, home, d);
      var table := phys[0][d].frame;
      var nr := 0;
      r := Done;
      while nr < WORDS
        invariant 0 <= nr <= WORDS && r == Done
        invariant Valid() && Sized(phys) && Shrunk(m, phys)
        invariant Tab(phys) == old(Tab(phys)) && Ent(phys) == EntOutside(ent, first, d, nr)
        invariant d in Tab(phys) && Tab(phys)[d] == table
      {
        ghost var before := phys;
        TableAt(phys, memMap, holds, home, d);
        EntOutsideNext(ent, first, d, nr);
        if phys[table][nr].present {
          DropEntryStep(phys, memMap, holds, home, Slot(d, nr));
          r := FreePage(phys[table][nr].frame);
          if r == Panic { return; }
        } else {
          ClearStep(phys, memMap, holds, home, Slot(d, nr));
        }
        phys := phys[table := phys[table][nr := ZERO]];
        ShrunkAfter(m, before, phys);
        nr := nr + 1;
      }
    }

    /** The inner loop of copy_page_tables: the entries of one table. */
    method CopyTable(ghost m: Phys, fromTable: int, toTable: int, ghost fromDir: int, ghost toDir: int, ghost k: int,
                     ghost n: int)
      requires Sized(m) && UserEntries(Ent(m)) && Valid() && Sized(phys) && SamePages(m, phys)
      requires Ent(phys) == CopyEnt(Ent(m), fromDir, toDir, k, 0)
      requires Ranges(fromDir, toDir, n) && 0 <= k < n && forall s :: s in Ent(m) ==> s.dir != toDir + k
      requires fromDir + k in Tab(phys) && Tab(phys)[fromDir + k] == fromTable
      requires toDir + k in Tab(phys) && Tab(phys)[toDir + k] == toTable
      modifies this`phys, this`memMap
      ensures Valid() && Sized(phys) && Tab(phys) == old(Tab(phys)) && SamePages(m, phys)
      ensures Ent(phys) == CopyEnt(Ent(m), fromDir, toDir, k, WORDS) && Free(memMap) == Free(old(memMap))
    {
      hide Inv, Good, SamePages, Tab, Ent, Sized, CopyEnt, UserEntries, Shared, SharedRefs, Written;
      var nr := 0;
      while nr < WORDS
        invariant 0 <= nr <= WORDS
        invariant Valid() && Sized(phys) && SamePages(m, phys)
        invariant Ent(phys) == CopyEnt(Ent(m), fromDir, toDir, k, nr) && Tab(phys) == old(Tab(phys))
        invariant Free(memMap) == Free(old(memMap))
      {
        SharedWords(phys, memMap, holds, home, Slot(fromDir + k, nr), Slot(toDir + k, nr), fromTable, toTable);
        TableAt(phys, memMap, holds, home, fromDir + k);
        CopyOne(m, phys, memMap, holds, home, fromDir, toDir, k, nr, n, Slot(fromDir + k, nr), Slot(toDir + k, nr));
        var thisPage := phys[fromTable][nr];
        if thisPage.present {
          thisPage := ReadOnly(thisPage);
          phys := phys[toTable := phys[toTable][nr := thisPage]];
          if LOW <= thisPage.frame {
            phys := phys[fromTable := phys[fromTable][nr := thisPage]];
            FreeAfter(memMap, thisPage.frame - LOW, (memMap[thisPage.frame - LOW] + 1) % 256);
            memMap := memMap[thisPage.frame - LOW := (memMap[thisPage.frame - LOW] + 1) % 256];
          }
        }
        nr := nr + 1;
      }
    }

    /** Lets the directory slots from `to` on share the pages of the slots from `from` on,
        both without write permission. */
    method CopyPageTables(from: nat, to: nat, size: nat) returns (r: Outcome)
      requires Valid()
      requires Ranges(DirSlot(from), DirSlot(to), Blocks(size))
      modifies this`phys, this`memMap, this`holds
      ensures r == Panic ==>
        || from % TABLE_SPAN != 0 || to % TABLE_SPAN != 0
        || exists d :: DirSlot(to) <= d < DirSlot(to) + Blocks(size) && d in old(Tab(phys))
      ensures from % TABLE_SPAN != 0 || to % TABLE_SPAN != 0 ==>
        r == Panic && phys == old(phys) && memMap == old(memMap)
      ensures r != Panic ==> Valid() && Sized(phys) && SamePages(old(phys), phys) && holds == old(holds)
      ensures r == Done ==>
        && CopiedTo(old(phys), phys, DirSlot(from), DirSlot(to), Blocks(size))
        && forall d :: DirSlot(to) <= d < DirSlot(to) + Blocks(size) ==> d !in old(Tab(phys))
      ensures r == Done ==> |TablesIn(old(Tab(phys)), DirSlot(from), Blocks(size))| <= |Free(old(memMap))|
      ensures r == OutOfMemory ==> |TablesIn(old(Tab(phys)), DirSlot(from), Blocks(size))| > |Free(old(memMap))|
      ensures r == OutOfMemory ==>
        exists k :: 0 <= k < Blocks(size)
             && CopiedTo(old(phys), phys, DirSlot(from), DirSlot(to), k)
    {
      hide TablesIn, Free, Inv, SamePages, Tab, Ent, Sized, CopiedTo, Ranges, DirSlot, Blocks;
      if from % TABLE_SPAN != 0 || to % TABLE_SPAN != 0 { return Panic; }
      r := CopyRange(DirSlot(from), DirSlot(to), Blocks(size));
    }

    /** The outer loop of copy_page_tables. */
    method CopyRange(fromDir: int, toDir: int, n: nat) returns (r: Outcome)
      requires Valid() && Ranges(fromDir, toDir, n)
      modifies this`phys, this`memMap, this`holds
      ensures r == Panic ==> exists d :: toDir <= d < toDir + n && d in old(Tab(phys))
      ensures r != Panic ==> Valid() && Sized(phys) && SamePages(old(phys), phys) && holds == old(holds)
      ensures r == Done ==>
        && CopiedTo(old(phys), phys, fromDir, toDir, n)
        && forall d :: toDir <= d < toDir + n ==> d !in old(Tab(phys))
      ensures r == Done ==> |TablesIn(old(Tab(phys)), fromDir, n)| <= |Free(old(memMap))|
      ensures r == OutOfMemory ==> |TablesIn(old(Tab(phys)), fromDir, n)| > |Free(old(memMap))|
      ensures r == OutOfMemory ==> exists k :: 0 <= k < n && CopiedTo(old(phys), phys, fromDir, toDir, k)
    {
      hide TablesIn, Free;
      hide Inv, Good, SamePages, Tab, Ent, Sized, TabGrown, CopyEnt, UserEntries, Shared, SharedRefs, Written,
        Ranges;
      var k := 0;
      AllUserEntries(phys, memMap, holds, home);
      ghost var tab, ent := Tab(phys), Ent(phys);
      CopyStart(tab, ent, fromDir, toDir);
      SamePagesStart(phys);
      NoTablesYet(tab, fromDir);
      while k < n
        invariant 0 <= k <= n
        invariant Valid() && Sized(phys) && SamePages(old(phys), phys) && holds == old(holds)
        invariant Ent(phys) == CopyEnt(ent, fromDir, toDir, k, 0) && TabGrown(tab, Tab(phys), fromDir, toDir, k)
        invariant forall d :: toDir <= d < toDir + k ==> d !in tab
        invariant |Free(memMap)| == |Free(old(memMap))| - |TablesIn(tab, fromDir, k)|
      {
        TablesNext(tab, fromDir, k, n);
        assert CopiedTo(old(phys), phys, fromDir, toDir, k);
        r := CopySlot(old(phys), fromDir, toDir, k, n);
        if r != Done { return; }
        k := k + 1;
      }
      return Done;
    }

    /** One directory slot of the range. */
    method CopySlot(ghost m: Phys, fromDir: int, toDir: int, k: int, ghost n: int) returns (r: Outcome)
      requires Sized(m) && UserEntries(Ent(m)) && (forall s :: s in Ent(m) ==> s.dir in Tab(m)) && Valid()
        && Sized(phys)
      requires SamePages(m, phys) && Ranges(fromDir, toDir, n) && 0 <= k < n
      requires Ent(phys) == CopyEnt(Ent(m), fromDir, toDir, k, 0) && TabGrown(Tab(m), Tab(phys), fromDir, toDir, k)
      modifies this`phys, this`memMap, this`holds
      ensures (r == Panic <==> toDir + k in Tab(m)) && Sized(phys)
      ensures r != Panic ==> Valid() && SamePages(m, phys) && holds == old(holds)
      ensures r == OutOfMemory ==> fromDir + k in Tab(m) && Free(old(memMap)) == {} && phys == old(phys)
      ensures r == Done ==>
        && Ent(phys) == CopyEnt(Ent(m), fromDir, toDir, k + 1, 0) && TabGrown(Tab(m), Tab(phys), fromDir, toDir, k + 1)
        && |Free(memMap)| == |Free(old(memMap))| - if fromDir + k in Tab(m) then 1 else 0
    {
      hide Free, Inv, Good, SamePages, Tab, Ent, Sized, TabGrown, CopyEnt, UserEntries, Ranges;
      SlotsMatch(fromDir, toDir, n, k);
      TableAt(phys, memMap, holds, home, toDir + k);
      TabAhead(Tab(m), Tab(phys), fromDir, toDir, k, n);
      if phys[0][toDir + k].present { return Panic; }
      TableAt(phys, memMap, holds, home, fromDir + k);
      CopyNextTable(Ent(m), fromDir, toDir, k);
      if phys[0][fromDir + k].present {
        CopyKeeps(Ent(m), fromDir, toDir, k, 0);
        r := ShareTable(m, fromDir, toDir, k, n);
        return;
      }
      CopyNoTable(Ent(m), fromDir, toDir, k);
      return Done;
    }

    /** One page table of the range: the new table, and the entries in both. */
    method ShareTable(ghost m: Phys, fromDir: int, toDir: int, k: int, ghost n: int) returns (r: Outcome)
      requires Sized(m) && UserEntries(Ent(m)) && Valid() && Sized(phys) && SamePages(m, phys)
      requires Ent(phys) == CopyEnt(Ent(m), fromDir, toDir, k, 0) && TabGrown(Tab(m), Tab(phys), fromDir, toDir, k)
      requires Ranges(fromDir, toDir, n) && 0 <= k < n && forall s :: s in Ent(m) ==> s.dir != toDir + k
      requires fromDir + k in Tab(phys) && fromDir + k in Tab(m) && toDir + k !in Tab(phys) && toDir + k !in Tab(m)
      modifies this`phys, this`memMap, this`holds
      ensures r == (if Free(old(memMap)) == {} then OutOfMemory else Done) && Sized(phys) && holds == old(holds)
      ensures r == OutOfMemory ==> phys == old(phys) && memMap == old(memMap)
      ensures r == Done ==>
        && Valid() && SamePages(m, phys) && |Free(memMap)| == |Free(old(memMap))| - 1
        && Ent(phys) == CopyEnt(Ent(m), fromDir, toDir, k, WORDS) && TabGrown(Tab(m), Tab(phys), fromDir, toDir, k + 1)
    {
      hide Inv, Good, SamePages, Tab, Ent, Sized, TabGrown, CopyEnt, UserEntries, Free;
      TableFacts(phys, memMap, holds, home, fromDir + k);
      var fromTable := phys[0][fromDir + k].frame;
      ghost var tab := Tab(phys);
      ghost var before := phys;
      CopyKeeps(Ent(m), fromDir, toDir, k, 0);
      var toTable := GetFreePage();
      if toTable == 0 { return OutOfMemory; }
      AddTableStep(phys, memMap, holds, home, toDir + k, toTable);
      TabAdded(Tab(m), tab, fromDir, toDir, k, toTable);
      SamePagesTwice(m, before, phys);
      SamePagesTwice(m, phys, phys[0 := phys[0][toDir + k := Attach(toTable)]]);
      phys := phys[0 := phys[0][toDir + k := Attach(toTable)]];
      holds := holds[toTable := 0];
      CopyTable(m, fromTable, toTable, fromDir, toDir, k, n);
      return Done;
    }

    /** A store by a user task through entry (d, i), faults included: a write to a read-only page
        first goes through do_wp_page. */
    method UserStore(d: int, i: int, k: int, w: Word) returns (r: Outcome)
      requires Valid() && Slot(d, i) in Ent(phys) && 0 <= k < WORDS
      modifies this
      ensures Valid() && Sized(phys) && r != Panic
      ensures r == Done ==>
        OnlyStored(old(phys), phys, Slot(d, i), k, w) && StoredAt(old(phys), phys, 1024 * d + i, k, w)
      ensures r == OutOfMemory ==> phys == old(phys) && memMap == old(memMap) && Free(memMap) == {}
    {
      hide Inv, Good, SamePages, Tab, Ent, Sized, Unshared, OnlyStored, StoredAt;
      ghost var s := Slot(d, i);
      ghost var mm, hs, hm := memMap, holds, home;
      EntryAt(phys, memMap, holds, home, s);
      if phys[phys[0][d].frame][i].writable {
        AlreadyUnshared(phys, memMap, holds, home, s);
      } else {
        r := UnWpPage(d, i);
        if r == OutOfMemory { return; }
      }
      EntryOf(old(phys), phys, s);
      EntryAt(phys, memMap, holds, home, s);
      StoreStep(old(phys), phys, memMap, holds, home, s, k, w);
      var f := phys[phys[0][d].frame][i].frame;
      phys := phys[f := phys[f][k := w]];
      StoredPages(old(phys), mm, hs, hm, phys, memMap, holds, home, 1024 * d + i, k, w);
      return Done;
    }

    /** Makes the page at a linear address private before the kernel writes to it. */
    method WriteVerify(address: nat) returns (r: Outcome)
      requires Valid() && FIRST_USER <= DirSlot(address) < WORDS
      modifies this
      ensures Valid() && Sized(phys) && r != Panic
      ensures r == OutOfMemory ==> phys == old(phys) && memMap == old(memMap) && Free(memMap) == {}
      ensures r == Done && Slot(DirSlot(address), address / 4096 % WORDS) in old(Ent(phys)) ==>
        Unshared(old(phys), phys, Slot(DirSlot(address), address / 4096 % WORDS))
      ensures Slot(DirSlot(address), address / 4096 % WORDS) !in old(Ent(phys)) ==>
        phys == old(phys) && memMap == old(memMap)
    {
      hide Inv, Good, SamePages, Tab, Ent, Sized, Unshared;
      var d, i := DirSlot(address), address / 4096 % WORDS;
      TableAt(phys, memMap, holds, home, d);
      if !phys[0][d].present { return Done; }
      var entry := phys[phys[0][d].frame][i];
      if entry.present && !entry.writable {
        r := UnWpPage(d, i);
        if r == Done { EntryOf(old(phys), phys, Slot(d, i)); }
        return;
      }
      if Slot(d, i) in Ent(phys) { AlreadyUnshared(phys, memMap, holds, home, Slot(d, i)); }
      return Done;
    }

    /** copy_page_tables for the first fork, of the kernel's first 640 KB: the pages below LOW_MEM are not counted and
        stay writable for task 0. */
    method CopyFirst(toDir: int) returns (r: Outcome)
      requires Valid() && FIRST_USER <= toDir < WORDS && KernelTable(phys)
      modifies this`phys, this`memMap, this`holds
      ensures Sized(old(phys)) && Sized(phys) && holds == old(holds) && (r == Panic <==> toDir in old(Tab(phys)))
      ensures r == OutOfMemory <==> toDir !in old(Tab(phys)) && Free(old(memMap)) == {}
      ensures Valid() && (r != Done ==> phys == old(phys) && memMap == old(memMap))
      ensures r == Done ==>
        && SamePages(old(phys), phys) && KernelTable(phys) && phys[phys[0][0].frame] == KernelWords(old(phys))
        && Ent(phys) == FirstEnt(old(Ent(phys)), KernelWords(old(phys)), toDir, FIRST_PAGES)
        && toDir in Tab(phys) && Tab(phys).Keys == old(Tab(phys)).Keys + {toDir}
        && |Free(memMap)| == |Free(old(memMap))| - 1
    {
      hide Inv, Good, SamePages, Tab, Ent, Sized, FirstEnt, Free;
      TableAt(phys, memMap, holds, home, toDir);
      if phys[0][toDir].present { return Panic; }
      var toTable := GetFreePage();
      if toTable == 0 { return OutOfMemory; }
      ghost var m := phys;
      AddTableStep(phys, memMap, holds, home, toDir, toTable);
      SamePagesTwice(old(phys), m, phys[0 := phys[0][toDir := Attach(toTable)]]);
      phys := phys[0 := phys[0][toDir := Attach(toTable)]];
      holds := holds[toTable := 0];
      CopyWords(old(phys), toDir, toTable);
      return Done;
    }

    /** The inner loop, with nr = 0xA0. */
    method CopyWords(ghost m: Phys, toDir: int, toTable: int)
      requires Sized(m) && Valid() && Sized(phys) && SamePages(m, phys) && Ent(phys) == Ent(m) && KernelTable(phys)
      requires toDir in Tab(phys) && Tab(phys)[toDir] == toTable && forall s :: s in Ent(m) ==> s.dir != toDir
      modifies this`phys
      ensures Valid() && Sized(phys) && SamePages(m, phys) && Tab(phys) == old(Tab(phys)) && KernelTable(phys)
      ensures phys[phys[0][0].frame] == KernelWords(old(phys))
      ensures Ent(phys) == FirstEnt(Ent(m), KernelWords(old(phys)), toDir, FIRST_PAGES)
    {
      hide Inv, Good, SamePages, Tab, Ent, Sized;
      var fromTable := phys[0][0].frame;
      ghost var words := KernelWords(phys);
      TableFacts(phys, memMap, holds, home, toDir);
      var nr := 0;
      while nr < FIRST_PAGES
        invariant 0 <= nr <= FIRST_PAGES && Valid() && Sized(phys) && SamePages(m, phys) && Tab(phys) == old(Tab(phys))
        invariant |phys| == |old(phys)| && phys[0] == old(phys)[0] && phys[fromTable] == words
        invariant Ent(phys) == FirstEnt(Ent(m), words, toDir, nr)
      {
        var thisPage := phys[fromTable][nr];
        if thisPage.present {
          FirstEntAt(Ent(m), words, toDir, nr);
          TableFacts(phys, memMap, holds, home, toDir);
          ShareLowStep(phys, memMap, holds, home, Slot(toDir, nr), ReadOnly(thisPage));
          SamePagesTwice(m, phys, Written(phys, Slot(toDir, nr), ReadOnly(thisPage)));
          phys := phys[toTable := phys[toTable][nr := ReadOnly(thisPage)]];
        }
        nr := nr + 1;
      }
    }

    /** fork's copy of the address space: 0, or -ENOMEM after everything was taken back. */
    method CopyMem(nr: int, current: int, oldDataBase: nat, oldCodeBase: nat, dataLimit: nat, codeLimit: nat)
      returns (r: int, panicked: bool)
      requires Valid() && 1 <= nr < 64 && 1 <= current < 64 && nr != current
      requires oldDataBase == current * SPACE * TABLE_SPAN && dataLimit <= SPACE * TABLE_SPAN
      modifies this`phys, this`memMap, this`holds
      ensures BadSegments(oldDataBase, oldCodeBase, dataLimit, codeLimit) ==>
        panicked && phys == old(phys) && memMap == old(memMap)
      ensures panicked && !BadSegments(oldDataBase, oldCodeBase, dataLimit, codeLimit) ==>
        TablesIn(old(Tab(phys)), nr * SPACE, Blocks(dataLimit)) != {}
      ensures !panicked ==> Valid() && Sized(phys) && holds == old(holds) && (r == 0 || r == -12)
      ensures !panicked ==>
        (r == 0 <==> |TablesIn(old(Tab(phys)), current * SPACE, Blocks(dataLimit))| <= |Free(old(memMap))|)
      ensures !panicked && r == 0 ==>
        && Forked(old(phys), phys, current, nr, Blocks(dataLimit))
        && ForkedBelow(old(phys), phys, current, nr, dataLimit)
        && TablesIn(old(Tab(phys)), nr * SPACE, Blocks(dataLimit)) == {}
      ensures !panicked && r != 0 && TablesIn(old(Tab(phys)), nr * SPACE, Blocks(dataLimit)) == {} ==>
        && memMap == old(memMap) && Tab(phys) == old(Tab(phys)) && Reprotected(old(phys), phys)
        && StillThere(old(phys), phys)
    {
      hide Inv, Good, SamePages, Tab, Ent, Sized, UserEntries, CopyEnt, TabGrown, Reprotected, Forked, EntOutside,
        TabOutside, ForkedBelow, StillThere;
      r, panicked := 0, false;
      if oldDataBase != oldCodeBase || dataLimit < codeLimit { return 0, true; }
      var newDataBase := nr * SPACE * TABLE_SPAN;
      ghost var n := Blocks(dataLimit);
      ghost var mm, hs, hm := memMap, holds, home;
      AllUserEntries(phys, memMap, holds, home);
      NoneThere(old(Tab(phys)), nr * SPACE, n);
      var copied := CopyPageTables(oldDataBase, newDataBase, dataLimit);
      if copied == Panic { return 0, true; }
      if copied == OutOfMemory {
        ghost var k :| 0 <= k < n && CopiedTo(old(phys), phys, current * SPACE, nr * SPACE, k);
        ghost var m1 := phys;
        var freed := FreePageTables(newDataBase, dataLimit);
        if freed == Panic { return -12, true; }
        if TablesIn(old(Tab(phys)), nr * SPACE, n) == {} {
          RolledBack(old(phys), m1, phys, old(memMap), memMap, holds, home, home, current * SPACE, nr * SPACE, k, n);
          ReprotectedPages(old(phys), mm, hs, hm, phys, memMap, holds, home);
        }
        return -12, false;
      }
      NoEntries(old(phys), old(memMap), old(holds), old(home), nr, n);
      CopyIsFork(old(phys), phys, current, nr, n);
      BlocksCover(dataLimit);
      ForkedPages(old(phys), mm, hs, hm, phys, memMap, holds, home, current, nr, n, dataLimit);
    }

    /** The same for task 0, whose segments begin at 0: only the kernel's first 640 KB are copied. */
    method CopyMemFirst(nr: int, dataLimit: nat, codeLimit: nat) returns (r: int, panicked: bool)
      requires Valid() && 1 <= nr < 64 && KernelTable(phys) && 0 < dataLimit <= TABLE_SPAN
      modifies this`phys, this`memMap, this`holds
      ensures Sized(old(phys)) && Sized(phys) && (panicked <==> dataLimit < codeLimit || nr * SPACE in old(Tab(phys)))
      ensures panicked ==> phys == old(phys) && memMap == old(memMap)
      ensures Valid() && holds == old(holds)
      ensures !panicked ==> r == if Free(old(memMap)) == {} then -12 else 0
      ensures !panicked && r == 0 ==>
        && SamePages(old(phys), phys) && Tab(phys).Keys == old(Tab(phys)).Keys + {nr * SPACE}
        && Ent(phys) == FirstEnt(old(Ent(phys)), KernelWords(old(phys)), nr * SPACE, FIRST_PAGES)
        && FirstForkedAt(old(phys), phys, old(phys)[old(phys)[0][0].frame], nr)
        && KernelTable(phys) && KernelWords(phys) == KernelWords(old(phys))
      ensures !panicked && r != 0 ==>
        memMap == old(memMap) && Tab(phys) == old(Tab(phys)) && Reprotected(old(phys), phys)
          && StillThere(old(phys), phys)
    {
      hide Inv, Good, SamePages, Tab, Ent, Sized, FirstEnt, EntOutside, TabOutside, Shrunk, Reprotected,
        DirSlot, Blocks,
        Free, FirstForkedAt, StillThere;
      AllUserEntries(phys, memMap, holds, home);
      r, panicked := 0, false;
      ghost var mm0, hs, hm0 := memMap, holds, home;
      if dataLimit < codeLimit { return 0, true; }
      TaskSpan(nr);
      OneBlock(dataLimit);
      var copied := CopyFirst(nr * SPACE);
      if copied == Panic { return 0, true; }
      if copied == OutOfMemory {
        ghost var mm, hm := memMap, home;
        NothingCopied(phys, mm, holds, hm, nr);
        var freed := FreePageTables(nr * SPACE * TABLE_SPAN, dataLimit);
        ghost var other := if nr == 1 then 2 * SPACE else SPACE;
        RolledBack(old(phys), old(phys), phys, mm, memMap, holds, hm, home, other, nr * SPACE, 0, 1);
        ReprotectedPages(old(phys), mm0, hs, hm0, phys, memMap, holds, home);
        return -12, false;
      }
      FirstForkedPages(old(phys), mm0, hs, hm0, phys, memMap, holds, home, KernelWords(old(phys)), nr);
    }

    /** Gives a directory slot a page table if it has none; false without a free page. */
    method NeedTable(d: int) returns (ok: bool)
      requires Valid() && FIRST_USER <= d < WORDS
      modifies this`phys, this`memMap, this`holds
      ensures Sized(old(phys)) && Sized(phys) && (ok <==> d in old(Tab(phys)) || Free(old(memMap)) != {})
      ensures !ok ==> phys == old(phys) && memMap == old(memMap) && holds == old(holds)
      ensures ok ==> Valid() && |phys| == |old(phys)| && SamePages(old(phys), phys) && holds == old(holds)
      ensures ok ==> Ent(phys) == old(Ent(phys)) && d in Tab(phys) && forall x :: x in old(Tab(phys)) ==> x in Tab(phys)
      ensures ok ==> forall x :: x in Tab(phys) ==> x in old(Tab(phys)) || x == d
      ensures ok ==>
        |memMap| == |old(memMap)|
        && forall k :: 0 <= k < |memMap| && old(memMap)[k] != 0 ==> memMap[k] == old(memMap)[k]
      ensures ok ==>
        |old(holds)| == |phys| && forall f :: LOW <= f < |phys| && old(holds)[f] != 0 ==> phys[f] == old(phys)[f]
    {
      hide Inv, Good, SamePages, Tab, Ent, Sized;
      TableAt(phys, memMap, holds, home, d);
      SamePagesStart(phys);
      if phys[0][d].present { return true; }
      var table := GetFreePage();
      if table == 0 { return false; }
      ghost var m := phys;
      AddTableStep(phys, memMap, holds, home, d, table);
      phys := phys[0 := phys[0][d := Attach(table)]];
      holds := holds[table := 0];
      SamePagesTwice(old(phys), m, phys);
      return true;
    }

    /** Puts a page the caller holds at a linear address. An entry that is there already is overwritten, and its page
        is never freed. */
    method PutPage(page: int, address: nat) returns (r: Outcome)
      requires Valid() && FIRST_USER <= DirSlot(address) < WORDS && LOW <= page < |phys| == |holds| && holds[page] == 1
      requires |memMap| == PAGING_PAGES && page < LOW + PAGING_PAGES && memMap[page - LOW] == 1
      modifies this
      ensures Sized(phys) && |phys| == |holds| == |old(phys)| && |memMap| == |old(memMap)| && r != Panic
      ensures Slot(DirSlot(address), address / 4096 % WORDS) !in old(Ent(phys)) ==> Valid()
      ensures Slot(DirSlot(address), address / 4096 % WORDS) in old(Ent(phys)) ==>
        r == Done
        && (LOW <= old(Ent(phys))[Slot(DirSlot(address), address / 4096 % WORDS)].frame < LOW + |memMap| ==>
              Lost(Ent(phys), memMap, old(Ent(phys))[Slot(DirSlot(address), address / 4096 % WORDS)].frame))
      ensures r == Done ==>
        && PagePut(old(phys), phys, Slot(DirSlot(address), address / 4096 % WORDS), page)
        && holds == old(holds)[page := 0] && phys[page] == old(phys)[page]
        && Mapped(phys, address / 4096) && UserPage(Pte(phys, address / 4096), page)
      ensures r == OutOfMemory ==> phys == old(phys) && memMap == old(memMap) && holds == old(holds)
      ensures r == OutOfMemory <==> DirSlot(address) !in old(Tab(phys)) && Free(old(memMap)) == {}
    {
      hide Inv, Good, SamePages, Tab, Ent, Sized, PagePut, DirSlot;
      var d, i := DirSlot(address), address / 4096 % WORDS;
      TableAt(phys, memMap, holds, home, d);
      var ok := NeedTable(d);
      if !ok { return OutOfMemory; }
      ghost var m := phys;
      TableAt(phys, memMap, holds, home, d);
      HeldIsNoTable(phys, memMap, holds, home, d, page);
      if Slot(d, i) in Ent(phys) {
        PutOverStep(phys, memMap, holds, home, Slot(d, i), page);
      } else {
        PutStep(phys, memMap, holds, home, Slot(d, i), page);
      }
      var table := phys[0][d].frame;
      phys := phys[table := phys[table][i := Attach(page)]];
      holds := holds[page := 0];
      home := home[page := Slot(d % SPACE, i)];
      PutIsPut(old(phys), m, phys, Slot(d, i), page);
      PageAt(address);
      return Done;
    }

    /** A fresh zeroed page for a linear address whose entry is absent. */
    method GetEmptyPage(address: nat) returns (r: Outcome)
      requires Valid() && FIRST_USER <= DirSlot(address) < WORDS
      requires Slot(DirSlot(address), address / 4096 % WORDS) !in Ent(phys)
      modifies this
      ensures Valid() && Sized(phys) && |phys| == |old(phys)| && holds == old(holds) && r != Panic
      ensures r == OutOfMemory ==> memMap == old(memMap) && Tab(phys) == old(Tab(phys)) && Ent(phys) == old(Ent(phys))
      ensures r == OutOfMemory ==> SamePages(old(phys), phys)
      ensures r == OutOfMemory <==> |Free(old(memMap))| < if DirSlot(address) in old(Tab(phys)) then 1 else 2
      ensures r == Done ==>
        exists g: nat :: (LOW <= g < |phys| && phys[g] == ZeroPage() && AllZero(phys[g])
                          && PagePut(old(phys), phys, Slot(DirSlot(address), address / 4096 % WORDS), g)
                          && Mapped(phys, address / 4096) && UserPage(Pte(phys, address / 4096), g))
    {
      hide Inv, Good, SamePages, Tab, Ent, Sized, PagePut, DirSlot;
      TableAt(phys, memMap, holds, home, DirSlot(address));
      SamePagesStart(phys);
      var tmp := GetFreePage();
      if tmp == 0 { return OutOfMemory; }
      ghost var m1 := phys;
      TableAt(phys, memMap, holds, home, DirSlot(address));
      r := PutPage(tmp, address);
      if r == OutOfMemory {
        ReleaseStep(phys, memMap, holds, home, tmp);
        var freed := FreePage(tmp);
        if freed == Panic { return Panic; }
        holds := holds[tmp := 0];
        return;
      }
      PutAfter(old(phys), m1, phys, Slot(DirSlot(address), address / 4096 % WORDS), tmp);
      return Done;
    }

    /** Lets the current task read the page that task p has at the same offset, if it is clean. */
    method TryToShare(address: nat, pStart: nat, currentStart: nat) returns (shared: bool, r: Outcome)
      requires Valid() && pStart != currentStart && address < SPACE * TABLE_SPAN
      requires exists a, b ::
                 1 <= a < 64 && 1 <= b < 64
                 && pStart == a * SPACE * TABLE_SPAN && currentStart == b * SPACE * TABLE_SPAN
      modifies this`phys, this`memMap, this`holds
      ensures r != Panic ==> Valid() && Sized(phys) && holds == old(holds)
      ensures r == OutOfMemory || (r == Done && !shared) ==> phys == old(phys) && memMap == old(memMap)
      ensures r == OutOfMemory <==>
        (r != Done || shared) && DirSlot(currentStart + address) !in old(Tab(phys)) && Free(old(memMap)) == {}
      ensures r != Done || shared <==>
        (&& Slot(DirSlot(pStart + address), address / 4096 % WORDS) in old(Ent(phys))
         && !old(Ent(phys))[Slot(DirSlot(pStart + address), address / 4096 % WORDS)].dirty
         && LOW <= old(Ent(phys))[Slot(DirSlot(pStart + address), address / 4096 % WORDS)].frame)
      ensures r == Panic ==> !shared && Slot(DirSlot(currentStart + address), address / 4096 % WORDS) in old(Ent(phys))
      ensures r != Panic && (r == OutOfMemory || shared) ==>
        Slot(DirSlot(currentStart + address), address / 4096 % WORDS) !in old(Ent(phys))
      ensures r == Done && shared ==>
        PageShared(old(phys), phys, Slot(DirSlot(pStart + address), address / 4096 % WORDS),
                   Slot(DirSlot(currentStart + address), address / 4096 % WORDS))
        && SharedAt(old(phys), phys, (pStart + address) / 4096, (currentStart + address) / 4096)
    {
      hide Inv, Good, SamePages, Tab, Ent, Sized, PageShared, DirSlot, Free, SharedAt;
      var d, e, i := DirSlot(pStart + address), DirSlot(currentStart + address), address / 4096 % WORDS;
      shared := false;
      ghost var mm, hs, hm := memMap, holds, home;
      SameOffset(address, pStart, currentStart);
      TableAt(phys, memMap, holds, home, d);
      if !phys[0][d].present { return false, Done; }
      var entry := phys[phys[0][d].frame][i];
      if !entry.present || entry.dirty { return false, Done; }
      if entry.frame >= |phys| || entry.frame < LOW { return false, Done; }
      var ok := NeedTable(e);
      if !ok { return false, OutOfMemory; }
      TableAt(phys, memMap, holds, home, e);
      if phys[phys[0][e].frame][i].present { return false, Panic; }
      ghost var m := phys;
      ShareEntries(d, e, i);
      ShareIsShare(old(phys), m, phys, Slot(d, i), Slot(e, i));
      PageNumber(pStart, address);
      PageNumber(currentStart, address);
      SharedPages(old(phys), mm, hs, hm, phys, memMap, holds, home,
                  (pStart + address) / 4096, (currentStart + address) / 4096);
      return true, Done;
    }

    /** The end of try_to_share: both entries name the page without write permission. */
    method ShareEntries(d: int, e: int, i: int)
      requires Valid() && Sized(phys) && d != e && d % SPACE == e % SPACE && d in Tab(phys) && e in Tab(phys)
        && 0 <= i < WORDS
      requires Slot(d, i) in Ent(phys) && LOW <= Ent(phys)[Slot(d, i)].frame && Slot(e, i) !in Ent(phys)
      modifies this`phys, this`memMap
      ensures Valid() && Sized(phys) && SamePages(old(phys), phys)
      ensures Ent(phys) == old(Ent(phys))[Slot(d, i) := ReadOnly(old(Ent(phys))[Slot(d, i)])]
                                         [Slot(e, i) := ReadOnly(old(Ent(phys))[Slot(d, i)])]
    {
      hide Inv, Good, SamePages, Tab, Ent, Sized, Shared, SharedRefs, Written;
      TableFacts(phys, memMap, holds, home, d);
      TableFacts(phys, memMap, holds, home, e);
      var from, to := phys[0][d].frame, phys[0][e].frame;
      SharedWords(phys, memMap, holds, home, Slot(d, i), Slot(e, i), from, to);
      SharedStep(phys, memMap, holds, home, Slot(d, i), Slot(e, i));
      var entry := phys[from][i];
      Swap(phys, from, to, phys[from][i := ReadOnly(entry)], phys[to][i := ReadOnly(entry)]);
      phys := phys[from := phys[from][i := ReadOnly(entry)]];
      phys := phys[to := phys[to][i := phys[from][i]]];
      memMap := memMap[entry.frame - LOW := (memMap[entry.frame - LOW] + 1) % 256];
    }

    /** mem_init: the pages from `start` on are free, everything else is in use. */
    constructor (start: nat, high: nat, m: Phys)
      requires LOW <= start <= high <= LOW + PAGING_PAGES && LOW < high && |m| == high
      requires (forall f :: 0 <= f < |m| ==> |m[f]| == WORDS)
        && forall d :: FIRST_USER <= d < WORDS ==> !m[0][d].present
      ensures Valid() && phys == m
      ensures forall k :: 0 <= k < PAGING_PAGES ==> memMap[k] == if start <= k + LOW < high then 0 else USED
    {
      var mm := seq(PAGING_PAGES, _ => USED);
      var i := start - LOW;
      while i < high - LOW
        invariant start - LOW <= i <= high - LOW && |mm| == PAGING_PAGES
        invariant forall k :: 0 <= k < PAGING_PAGES ==> mm[k] == if start - LOW <= k < i then 0 else USED
      {
        mm := mm[i := 0];
        i := i + 1;
      }
      phys := m;
      memMap := mm;
      holds := seq(|m|, f requires 0 <= f < |m| => if f < LOW then 0 else mm[f - LOW]);
      home := seq(|m|, _ => Slot(0, 0));
      new;
      NoUsersYet(m, mm, home);
    }

    /** Any run of requests: a word that a task sees changes only if this task stores to it or exits. */
    method Run(requests: seq<Request>)
      requires Valid()
      modifies this
      ensures Valid() && Undisturbed(old(phys), phys, requests, |requests|)
    {
      hide Inv, Good, KeepsWords, Undisturbed;
      NothingYet(phys, memMap, holds, home, requests);
      var n := 0;
      while n < |requests|
        invariant n <= |requests| && Valid() && Undisturbed(old(phys), phys, requests, n)
      {
        ghost var m := phys;
        Step(requests[n]);
        RequestKeeps(old(phys), m, phys, requests, n);
        n := n + 1;
      }
    }

    /** One request, if the kernel admits it: fork into an empty slot, exit of a user task, faults at absent entries,
        stores through present ones, sharing between two tasks. */
    method Step(r: Request)
      requires Valid()
      modifies this
      ensures Valid() && KeepsWords(old(phys), phys, r)
    {
      hide Inv, Good, KeepsWords, DirSlot, Tab, Ent, Sized;
      AllUserEntries(phys, memMap, holds, home);
      NothingKeeps(phys, memMap, holds, home, r);
      match r
      case FirstFork(child) => if 1 <= child < 64 && KernelTable(phys) { FirstForkStep(child); }
      case Fork(parent, child) =>
        if 1 <= parent < 64 && 1 <= child < 64 && parent != child
           && (forall d :: d in Tab(phys) ==> !(child * SPACE <= d < (child + 1) * SPACE)) {
          ForkStep(parent, child);
        }
      case Exit(task) => if 1 <= task < 64 { ExitStep(task); }
      case Touch(address) =>
        if FIRST_USER <= DirSlot(address) < WORDS && Slot(DirSlot(address), address / 4096 % WORDS) !in Ent(phys) {
          TouchStep(address);
        }
      case Store(slot, k, word) => if slot in Ent(phys) && 0 <= k < WORDS { StoreInto(slot, k, word); }
      case ShareText(address, other, current) =>
        if 1 <= other < 64 && 1 <= current < 64 && other != current && address < SPACE * TABLE_SPAN
           && Slot(DirSlot(current * SPACE * TABLE_SPAN + address), address / 4096 % WORDS) !in Ent(phys) {
          ShareStep(address, other, current);
        }
    }

    method ForkStep(parent: int, child: int)
      requires Valid() && Sized(phys) && 1 <= parent < 64 && 1 <= child < 64 && parent != child
      requires forall d :: d in Tab(phys) ==> !(child * SPACE <= d < (child + 1) * SPACE)
      modifies this`phys, this`memMap, this`holds
      ensures Valid() && KeepsWords(old(phys), phys, Fork(parent, child))
    {
      hide Inv, Good, KeepsWords, Tab, Ent, Sized, SamePages, DirSlot, Blocks;
      TaskSpan(parent);
      TaskSpan(child);
      NoTablesIn(Tab(phys), child * SPACE, SPACE);
      ghost var mm, hs, hm := memMap, holds, home;
      var r, panicked := CopyMem(child, parent, parent * SPACE * TABLE_SPAN, parent * SPACE * TABLE_SPAN,
                                 SPACE * TABLE_SPAN, SPACE * TABLE_SPAN);
      SamePagesKeep(old(phys), mm, hs, hm, phys, Fork(parent, child));
    }

    method FirstForkStep(child: int)
      requires Valid() && 1 <= child < 64 && KernelTable(phys)
      modifies this`phys, this`memMap, this`holds
      ensures Valid() && KeepsWords(old(phys), phys, FirstFork(child))
    {
      hide Inv, Good, KeepsWords, Tab, Ent, Sized, SamePages, FirstEnt;
      ghost var mm, hs, hm := memMap, holds, home;
      NothingKeeps(phys, mm, hs, hm, FirstFork(child));
      TableAt(phys, memMap, holds, home, child * SPACE);
      var r, panicked := CopyMemFirst(child, FIRST_PAGES * 4096, FIRST_PAGES * 4096);
      if !panicked {
        if r == 0 { FirstEntKeeps(old(phys), mm, hs, hm, child); }
        SamePagesKeep(old(phys), mm, hs, hm, phys, FirstFork(child));
      }
    }

    method ExitStep(task: int)
      requires Valid() && 1 <= task < 64
      modifies this`phys, this`memMap
      ensures Valid() && KeepsWords(old(phys), phys, Exit(task))
    {
      hide Inv, Good, KeepsWords, Tab, Ent, Sized, Shrunk, EntOutside, DirSlot, Blocks;
      TaskSpan(task);
      ghost var mm := memMap;
      var r := FreePageTables(task * SPACE * TABLE_SPAN, SPACE * TABLE_SPAN);
      ExitKeeps(old(phys), mm, holds, home, phys, task);
    }

    method TouchStep(address: nat)
      requires Valid() && FIRST_USER <= DirSlot(address) < WORDS && Sized(phys)
      requires Slot(DirSlot(address), address / 4096 % WORDS) !in Ent(phys)
      modifies this
      ensures Valid() && KeepsWords(old(phys), phys, Touch(address))
    {
      hide Inv, Good, KeepsWords, Tab, Ent, Sized, SamePages, DirSlot;
      ghost var mm, hs, hm := memMap, holds, home;
      var r := GetEmptyPage(address);
      SamePagesKeep(old(phys), mm, hs, hm, phys, Touch(address));
    }

    method StoreInto(s: Slot, k: int, w: Word)
      requires Valid() && Sized(phys) && s in Ent(phys) && 0 <= k < WORDS
      modifies this
      ensures Valid() && KeepsWords(old(phys), phys, Store(s, k, w))
    {
      hide Inv, Good, KeepsWords, Tab, Ent, Sized, OnlyStored;
      NothingKeeps(phys, memMap, holds, home, Store(s, k, w));
      ghost var mm, hs, hm := memMap, holds, home;
      var r := UserStore(s.dir, s.idx, k, w);
      if r == Done { StoreKeeps(old(phys), mm, hs, hm, phys, s, k, w); }
    }

    method ShareStep(address: nat, other: int, current: int)
      requires Valid() && 1 <= other < 64 && 1 <= current < 64 && other != current && address < SPACE * TABLE_SPAN
      requires Sized(phys)
        && Slot(DirSlot(current * SPACE * TABLE_SPAN + address), address / 4096 % WORDS) !in Ent(phys)
      modifies this`phys, this`memMap, this`holds
      ensures Valid() && KeepsWords(old(phys), phys, ShareText(address, other, current))
    {
      hide Inv, Good, KeepsWords, Tab, Ent, Sized, SamePages, DirSlot;
      NothingKeeps(phys, memMap, holds, home, ShareText(address, other, current));
      ghost var mm, hs, hm := memMap, holds, home;
      var shared, r := TryToShare(address, other * SPACE * TABLE_SPAN, current * SPACE * TABLE_SPAN);
      if shared && r == Done { SamePagesKeep(old(phys), mm, hs, hm, phys, ShareText(address, other, current)); }
    }
  }

  /** The request may change word k behind entry t: its task stores there or exits. */
  predicate Touches(r: Request, t: Slot, k: int) {
    (r.Exit? && InSpace(t, r.task)) || (r.Store? && r.slot == t && r.k == k)
  }

  /** All other words stay what they are. */
  ghost predicate KeepsWords(m: Phys, m': Phys, r: Request) {
    && Sized(m) && Sized(m')
    && forall t, k :: t in Ent(m) && Ent(m)[t].frame > 0 && 0 <= k < WORDS && !Touches(r, t, k) ==>
       WordStays(m, m', t, k)
  }

  /** None of the first n requests touches the word. */
  predicate Untouched(requests: seq<Request>, n: nat, t: Slot, k: int)
    requires n <= |requests|
  {
    forall j :: 0 <= j < n ==> !Touches(requests[j], t, k)
  }

  ghost predicate Undisturbed(m: Phys, m': Phys, requests: seq<Request>, n: nat) {
    && Sized(m) && Sized(m') && n <= |requests|
    && forall t, k :: t in Ent(m) && Ent(m)[t].frame > 0 && 0 <= k < WORDS && Untouched(requests, n, t, k) ==>
         WordStays(m, m', t, k)
  }

  lemma SamePagesKeep(m: Phys, mm: seq<int>, holds: seq<nat>, home: seq<Slot>, m': Phys, r: Request)
    requires Good(m, mm, holds, home) && Sized(m') && SamePages(m, m')
    requires forall t :: t in Ent(m) ==> t in Ent(m') && Ent(m')[t].frame == Ent(m)[t].frame
    ensures KeepsWords(m, m', r)
  {
    hide Inv, Ent, Tab, Sized, WordStays;
    AllUserEntries(m, mm, holds, home);
    forall t, k | t in Ent(m) && Ent(m)[t].frame > 0 && 0 <= k < WORDS ensures WordStays(m, m', t, k) {
      EntryAt(m, mm, holds, home, t);
      PageStays(m, m', t, k);
    }
  }

  lemma FirstEntKeeps(m: Phys, mm: seq<int>, holds: seq<nat>, home: seq<Slot>, child: int)
    requires Good(m, mm, holds, home) && KernelTable(m) && Sized(m) && child * SPACE !in Tab(m)
    ensures forall t :: t in Ent(m) ==>
      && t in FirstEnt(Ent(m), KernelWords(m), child * SPACE, FIRST_PAGES)
      && FirstEnt(Ent(m), KernelWords(m), child * SPACE, FIRST_PAGES)[t] == Ent(m)[t]
  {
    hide Inv, Tab, Ent, Sized, FirstEnt;
    AllUserEntries(m, mm, holds, home);
    FirstEntAt(Ent(m), KernelWords(m), child * SPACE, FIRST_PAGES);
  }

  lemma NothingKeeps(m: Phys, mm: seq<int>, holds: seq<nat>, home: seq<Slot>, r: Request)
    requires Good(m, mm, holds, home)
    ensures KeepsWords(m, m, r)
  {
    hide Inv, Ent, Tab, Sized;
    AllUserEntries(m, mm, holds, home);
    SamePagesStart(m);
    SamePagesKeep(m, mm, holds, home, m, r);
  }

  lemma ExitKeeps(m: Phys, mm: seq<int>, holds: seq<nat>, home: seq<Slot>, m': Phys, task: int)
    requires Good(m, mm, holds, home) && Sized(m') && Shrunk(m, m')
    requires Ent(m') == EntOutside(Ent(m), task * SPACE, task * SPACE + SPACE, 0)
    ensures KeepsWords(m, m', Exit(task))
  {
    hide Inv, Ent, Tab, Sized, WordStays;
    AllUserEntries(m, mm, holds, home);
    forall t, k | t in Ent(m) && Ent(m)[t].frame > 0 && 0 <= k < WORDS && !Touches(Exit(task), t, k)
      ensures WordStays(m, m', t, k)
    {
      EntryAt(m, mm, holds, home, t);
      PageStays(m, m', t, k);
    }
  }

  lemma StoreKeeps(m: Phys, mm: seq<int>, holds: seq<nat>, home: seq<Slot>, m': Phys, s: Slot, j: int, w: Word)
    requires Good(m, mm, holds, home) && Sized(m') && OnlyStored(m, m', s, j, w)
    ensures KeepsWords(m, m', Store(s, j, w))
  {
    hide Inv, Ent, Tab, Sized, WordStays, OnlyStored;
    AllUserEntries(m, mm, holds, home);
    forall t, k | t in Ent(m) && Ent(m)[t].frame > 0 && 0 <= k < WORDS && !Touches(Store(s, j, w), t, k)
      ensures WordStays(m, m', t, k)
    {
      EntryAt(m, mm, holds, home, t);
      StoredStays(m, m', s, j, w, t, k);
    }
  }

  lemma NothingYet(m: Phys, mm: seq<int>, holds: seq<nat>, home: seq<Slot>, requests: seq<Request>)
    requires Good(m, mm, holds, home)
    ensures Undisturbed(m, m, requests, 0)
  {
    hide Inv, Ent, Tab, Sized, WordStays;
    NothingKeeps(m, mm, holds, home, Fork(1, 2));
  }

  lemma RequestKeeps(m0: Phys, m: Phys, m': Phys, requests: seq<Request>, n: nat)
    requires Undisturbed(m0, m, requests, n) && n < |requests| && KeepsWords(m, m', requests[n])
    ensures Undisturbed(m0, m', requests, n + 1)
  {
    hide Ent, Tab, Sized;
    forall t, k | t in Ent(m0) && Ent(m0)[t].frame > 0 && 0 <= k < WORDS && Untouched(requests, n + 1, t, k)
      ensures WordStays(m0, m', t, k)
    {
      assert Untouched(requests, n, t, k) && !Touches(requests[n], t, k);
      assert WordStays(m0, m, t, k) && WordStays(m, m', t, k);
      StaysTwice(m0, m, m', t, k);
    }
  }

  lemma NoTablesIn(tab: TableMap, lo: int, n: int)
    requires forall d :: d in tab ==> !(lo <= d < lo + n)
    ensures TablesIn(tab, lo, n) == {}
  {
  }
}
