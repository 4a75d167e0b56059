/** Page directory and page tables of VLinux0.11/mm/memory.c: what physical memory says
    about the address spaces, and the reference-counting and copy-on-write invariant with
    the lemmas that tell what one change of an entry does to it. */
module PageTables {

  const LOW := 0x100                  // LOW_MEM >> 12: the first page that mem_map counts
  const PAGING_PAGES := 3840          // 15 MB of counted pages
  const USED := 100                   // mem_map value of pages the pager never hands out
  const WORDS := 1024                 // 32-bit words in a page
  const FIRST_USER := 16              // first directory entry of task 1 (0x4000000 >> 22)
  const SPACE := 16                   // directory entries per task (64 MB)
  const FIRST_PAGES := 160            // pages of the kernel that task 1 shares (640 KB)

  /** A 32-bit word of physical memory, cut into the fields of a page-table entry:
      bits 12-31, the bits not named here, and bits 6, 2, 1 and 0. */
  datatype Word = Word(frame: nat, rest: nat, dirty: bool, user: bool, writable: bool, present: bool)

  const ZERO := Word(0, 0, false, false, false, false)

  /** frame << 12 | 7 */
  function Attach(f: nat): Word { Word(f, 0, false, true, true, true) }

  /** w & ~2 */
  function ReadOnly(w: Word): Word { w.(writable := false) }

  /** Physical memory, page by page; the page directory is page 0. */
  type Phys = seq<seq<Word>>

  /** An entry: directory slot and index in its page table. */
  datatype Slot = Slot(dir: int, idx: int)

  type TableMap = map<int, int>       // user directory slot -> page of its table
  type EntryMap = map<Slot, Word>     // user entry -> its word, present entries only

  predicate Sized(m: Phys) {
    && LOW < |m| <= LOW + PAGING_PAGES
    && (forall f :: 0 <= f < |m| ==> |m[f]| == WORDS)
    && (forall d :: FIRST_USER <= d < WORDS && m[0][d].present ==> LOW <= m[0][d].frame < |m|)
  }

  function Tab(m: Phys): TableMap
    requires Sized(m)
  {
    map d: int | FIRST_USER <= d < WORDS && m[0][d].present :: m[0][d].frame
  }

  function UserSlots(): (r: set<Slot>)
    ensures forall s :: s in r <==> FIRST_USER <= s.dir < WORDS && 0 <= s.idx < WORDS
  {
    set d: int, i: int | FIRST_USER <= d < WORDS && 0 <= i < WORDS :: Slot(d, i)
  }

  predicate Present(m: Phys, s: Slot)
    requires Sized(m)
  {
    FIRST_USER <= s.dir < WORDS && 0 <= s.idx < WORDS && m[0][s.dir].present && m[m[0][s.dir].frame][s.idx].present
  }

  function Ent(m: Phys): EntryMap
    requires Sized(m)
  {
    map s | s in UserSlots() && Present(m, s) :: m[m[0][s.dir].frame][s.idx]
  }

  /** The free pages, by their place in mem_map. */
  ghost function Free(mm: seq<int>): set<int> { set k | 0 <= k < |mm| && mm[k] == 0 }

  lemma FreeAfter(mm: seq<int>, k: int, v: int)
    requires 0 <= k < |mm| && v != 0
    ensures mm[k] != 0 ==> Free(mm[k := v]) == Free(mm)
    ensures mm[k] == 0 ==> k in Free(mm) && Free(mm[k := v]) == Free(mm) - {k} && |Free(mm[k := v])| == |Free(mm)| - 1
  {
    if mm[k] == 0 { assert Free(mm[k := v]) == Free(mm) - {k}; }
  }

  /** The page tables of n directory slots from lo on. */
  ghost function TablesIn(tab: TableMap, lo: int, n: int): set<int> { set d | d in tab && lo <= d < lo + n }

  lemma TablesNext(tab: TableMap, lo: int, n: nat, m: int)
    requires n < m
    ensures TablesIn(tab, lo, 0) == {}
    ensures TablesIn(tab, lo, n + 1) == TablesIn(tab, lo, n) + if lo + n in tab then {lo + n} else {}
    ensures |TablesIn(tab, lo, n + 1)| == |TablesIn(tab, lo, n)| + if lo + n in tab then 1 else 0
    ensures |TablesIn(tab, lo, n + 1)| <= |TablesIn(tab, lo, m)|
  {
    SubsetSize(TablesIn(tab, lo, n + 1), TablesIn(tab, lo, m));
  }

  // ---------- the invariant ----------

  ghost function Uses(ent: EntryMap, f: int): set<Slot> { set s | s in ent && ent[s].frame == f }

  ghost function Tables(tab: TableMap, f: int): set<int> { set d | d in tab && tab[d] == f }

  /** Tables are separate pages that no entry names. */
  ghost predicate Apart(tab: TableMap, ent: EntryMap, size: int) {
    && (forall d, e :: d in tab && e in tab && tab[d] == tab[e] ==> d == e)
    && (forall d :: d in tab ==> FIRST_USER <= d < WORDS && LOW <= tab[d] < size)
    && (forall s :: s in ent ==> s.dir in tab && 0 <= s.idx < WORDS && ent[s].frame < size)
    && (forall s, d :: s in ent && d in tab ==> ent[s].frame != tab[d])
  }

  /** Pages the kernel itself holds (task structures, argument pages, a page between
      get_free_page and put_page) are neither tables nor mapped. */
  ghost predicate HoldsApart(tab: TableMap, ent: EntryMap, holds: seq<nat>) {
    && (forall d :: d in tab && 0 <= tab[d] < |holds| ==> holds[tab[d]] == 0)
    && (forall s :: s in ent && LOW <= ent[s].frame < |holds| ==> holds[ent[s].frame] == 0)
  }

  /** mem_map is exact. */
  ghost predicate Counted(tab: TableMap, ent: EntryMap, mm: seq<int>, holds: seq<nat>) {
    && |mm| == PAGING_PAGES && LOW < |holds| <= LOW + PAGING_PAGES
    && (forall f :: LOW <= f < |holds| ==> mm[f - LOW] == |Uses(ent, f)| + |Tables(tab, f)| + holds[f])
    && (forall k :: |holds| - LOW <= k < PAGING_PAGES ==> mm[k] == USED)
  }

  /** All entries that name a page sit at one and the same offset of their address spaces. */
  ghost predicate Homed(ent: EntryMap, home: seq<Slot>) {
    forall s :: s in ent && LOW <= ent[s].frame < |home| ==> home[ent[s].frame] == Slot(s.dir % SPACE, s.idx)
  }

  /** A writable entry names a counted page with mem_map 1. */
  ghost predicate CopyOnWrite(ent: EntryMap, mm: seq<int>) {
    forall s :: s in ent && ent[s].writable
      ==> LOW <= ent[s].frame < LOW + |mm| && mm[ent[s].frame - LOW] == 1
  }

  ghost predicate Inv(tab: TableMap, ent: EntryMap, mm: seq<int>, holds: seq<nat>, home: seq<Slot>) {
    && |home| == |holds|
    && Apart(tab, ent, |holds|) && HoldsApart(tab, ent, holds)
    && Counted(tab, ent, mm, holds) && Homed(ent, home) && CopyOnWrite(ent, mm)
  }

  /** What the invariant says about one entry. */
  lemma EntryFacts(tab: TableMap, ent: EntryMap, mm: seq<int>, holds: seq<nat>, home: seq<Slot>, s: Slot)
    requires Inv(tab, ent, mm, holds, home) && s in ent
    ensures |mm| == PAGING_PAGES && LOW < |holds| <= LOW + PAGING_PAGES && |home| == |holds|
    ensures s.dir in tab && FIRST_USER <= s.dir < WORDS && 0 <= s.idx < WORDS && LOW <= tab[s.dir] < |holds|
    ensures ent[s].frame < |holds| && forall d :: d in tab ==> tab[d] != ent[s].frame
    ensures LOW <= ent[s].frame ==> holds[ent[s].frame] == 0 && home[ent[s].frame] == Slot(s.dir % SPACE, s.idx)
    ensures forall t :: t in ent ==> ent[t].frame != tab[s.dir] && ent[t].frame < |holds|
    ensures ent[s].writable ==> LOW <= ent[s].frame && mm[ent[s].frame - LOW] == 1
  {
  }

  /** A page with one reference, which is an entry, is named by that entry only. */
  lemma SoleEntry(tab: TableMap, ent: EntryMap, mm: seq<int>, holds: seq<nat>, home: seq<Slot>, s: Slot)
    requires Inv(tab, ent, mm, holds, home) && s in ent && LOW <= ent[s].frame < |holds| && |mm| == PAGING_PAGES
    requires mm[ent[s].frame - LOW] == 1
    ensures forall t :: t in ent && ent[t].frame == ent[s].frame ==> t == s
  {
    forall t | t in ent && ent[t].frame == ent[s].frame ensures t == s { SoleUse(tab, ent, mm, holds, s, t); }
  }

  lemma TwoTables(tab: TableMap, ent: EntryMap, mm: seq<int>, holds: seq<nat>, home: seq<Slot>, d: int, e: int)
    requires Inv(tab, ent, mm, holds, home) && d in tab && e in tab && d != e
    ensures tab[d] != tab[e]
    ensures FIRST_USER <= d < WORDS && FIRST_USER <= e < WORDS
  {
  }

  lemma SizeFacts(tab: TableMap, ent: EntryMap, mm: seq<int>, holds: seq<nat>, home: seq<Slot>)
    requires Inv(tab, ent, mm, holds, home)
    ensures |mm| == PAGING_PAGES && LOW < |holds| <= LOW + PAGING_PAGES && |home| == |holds|
    ensures Apart(tab, ent, |holds|) && Counted(tab, ent, mm, holds)
  {
  }

  // ---------- counting ----------

  lemma SubsetSize<T>(a: set<T>, b: set<T>)
    requires a <= b
    ensures |a| <= |b|
  {
    assert b == a + (b - a);
  }

  lemma UseIsCounted(tab: TableMap, ent: EntryMap, mm: seq<int>, holds: seq<nat>, s: Slot)
    requires Counted(tab, ent, mm, holds) && s in ent && LOW <= ent[s].frame < |holds|
    ensures mm[ent[s].frame - LOW] >= 1
  {
    assert s in Uses(ent, ent[s].frame);
  }

  lemma NoTables(tab: TableMap, f: int)
    requires forall d :: d in tab ==> tab[d] != f
    ensures Tables(tab, f) == {}
  {
    forall d | d in Tables(tab, f) ensures false { }
  }

  lemma SoleUse(tab: TableMap, ent: EntryMap, mm: seq<int>, holds: seq<nat>, s: Slot, t: Slot)
    requires Counted(tab, ent, mm, holds) && s in ent && t in ent
    requires LOW <= ent[s].frame < |holds| && ent[t].frame == ent[s].frame && mm[ent[s].frame - LOW] == 1
    ensures s == t
  {
    if s != t {
      assert |{s, t}| == 2;
      SubsetSize({s, t}, Uses(ent, ent[s].frame));
    }
  }

  lemma FreeIsUnused(tab: TableMap, ent: EntryMap, mm: seq<int>, holds: seq<nat>, f: int)
    requires Counted(tab, ent, mm, holds) && LOW <= f < |holds| && mm[f - LOW] == 0
    ensures holds[f] == 0 && Uses(ent, f) == {} && Tables(tab, f) == {}
    ensures forall s :: s in ent ==> ent[s].frame != f
    ensures forall d :: d in tab ==> tab[d] != f
  {
    assert forall s :: s in ent && ent[s].frame == f ==> s in Uses(ent, f);
    assert forall d :: d in tab && tab[d] == f ==> d in Tables(tab, f);
  }

  /** Slots at one offset of the address spaces 1..k: at most k of them. */
  lemma {:induction false} OnePerSpace(u: set<Slot>, home: Slot, k: nat)
    requires forall s :: s in u ==> FIRST_USER <= s.dir < SPACE * (k + 1) && Slot(s.dir % SPACE, s.idx) == home
    ensures |u| <= k
  {
    if k == 0 {
      assert u == {};
    } else {
      var top := Slot(SPACE * k + home.dir, home.idx);
      OnePerSpace(u - {top}, home, k - 1);
      if top in u { assert u == (u - {top}) + {top}; } else { assert u == u - {top}; }
    }
  }

  /** Entries never outnumber the 63 user address spaces, so the count byte cannot wrap. */
  lemma UsesBounded(tab: TableMap, ent: EntryMap, home: seq<Slot>, f: int)
    requires Apart(tab, ent, |home|) && Homed(ent, home) && LOW <= f < |home|
    ensures |Uses(ent, f)| <= 63
  {
    OnePerSpace(Uses(ent, f), home[f], 63);
  }

  // ---------- one entry changes ----------

  lemma UseAdded(ent: EntryMap, s: Slot, w: Word, f: int)
    requires s !in ent
    ensures |Uses(ent[s := w], f)| == |Uses(ent, f)| + if w.frame == f then 1 else 0
  {
    assert Uses(ent[s := w], f) == Uses(ent, f) + if w.frame == f then {s} else {};
  }

  lemma UsesAdded(ent: EntryMap, s: Slot, w: Word)
    requires s !in ent
    ensures forall f :: |Uses(ent[s := w], f)| == |Uses(ent, f)| + if w.frame == f then 1 else 0
  {
    forall f
      ensures |Uses(ent[s := w], f)| == |Uses(ent, f)| + if w.frame == f then 1 else 0
    {
      UseAdded(ent, s, w, f);
    }
  }

  lemma UsesRemoved(ent: EntryMap, s: Slot)
    requires s in ent
    ensures forall f :: |Uses(ent - {s}, f)| == |Uses(ent, f)| - if ent[s].frame == f then 1 else 0
  {
    assert (ent - {s})[s := ent[s]] == ent;
    UsesAdded(ent - {s}, s, ent[s]);
  }

  lemma UsesKept(ent: EntryMap, s: Slot, w: Word)
    requires s in ent && w.frame == ent[s].frame
    ensures forall f :: Uses(ent[s := w], f) == Uses(ent, f)
  {
  }

  /** An entry may be set to a page that is neither table nor held by the kernel. */
  lemma SetPlaced(tab: TableMap, ent: EntryMap, holds: seq<nat>, t: Slot, w: Word)
    requires Apart(tab, ent, |holds|) && HoldsApart(tab, ent, holds) && t.dir in tab && 0 <= t.idx < WORDS
    requires w.frame < |holds| && (LOW <= w.frame ==> holds[w.frame] == 0)
    requires forall d :: d in tab ==> tab[d] != w.frame
    ensures Apart(tab, ent[t := w], |holds|)
    ensures HoldsApart(tab, ent[t := w], holds)
  {
  }

  lemma SetHomed(ent: EntryMap, home: seq<Slot>, t: Slot, w: Word)
    requires Homed(ent, home)
    requires LOW <= w.frame < |home| ==> home[w.frame] == Slot(t.dir % SPACE, t.idx)
    ensures Homed(ent[t := w], home)
  {
  }

  lemma SetCopyOnWrite(ent: EntryMap, mm: seq<int>, t: Slot, w: Word)
    requires CopyOnWrite(ent, mm)
    requires w.writable ==> LOW <= w.frame < LOW + |mm| && mm[w.frame - LOW] == 1
    ensures CopyOnWrite(ent[t := w], mm)
  {
  }

  lemma RemoveCopyOnWrite(ent: EntryMap, mm: seq<int>, s: Slot)
    requires CopyOnWrite(ent, mm)
    ensures CopyOnWrite(ent - {s}, mm)
  {
  }

  lemma RemovePlaced(tab: TableMap, ent: EntryMap, holds: seq<nat>, home: seq<Slot>, s: Slot)
    requires Apart(tab, ent, |holds|) && HoldsApart(tab, ent, holds) && Homed(ent, home)
    ensures Apart(tab, ent - {s}, |holds|)
    ensures HoldsApart(tab, ent - {s}, holds)
    ensures Homed(ent - {s}, home)
  {
  }

  lemma ChangeCounted(tab: TableMap, ent: EntryMap, mm: seq<int>, holds: seq<nat>, s: Slot, w: Word)
    requires Counted(tab, ent, mm, holds) && s in ent && w.frame == ent[s].frame
    ensures Counted(tab, ent[s := w], mm, holds)
  {
    UsesKept(ent, s, w);
  }

  /** Taking away write permission keeps the invariant. */
  lemma Protect(tab: TableMap, ent: EntryMap, mm: seq<int>, holds: seq<nat>, home: seq<Slot>, s: Slot)
    requires Inv(tab, ent, mm, holds, home) && s in ent
    ensures Inv(tab, ent[s := ReadOnly(ent[s])], mm, holds, home)
  {
    var w := ReadOnly(ent[s]);
    ChangeCounted(tab, ent, mm, holds, s, w);
    SetPlaced(tab, ent, holds, s, w);
    SetHomed(ent, home, s, w);
    SetCopyOnWrite(ent, mm, s, w);
  }

  /** Giving it back to the only user keeps the invariant. */
  lemma Unprotect(tab: TableMap, ent: EntryMap, mm: seq<int>, holds: seq<nat>, home: seq<Slot>, s: Slot)
    requires Inv(tab, ent, mm, holds, home) && s in ent
    requires LOW <= ent[s].frame && mm[ent[s].frame - LOW] == 1
    ensures Inv(tab, ent[s := ent[s].(writable := true)], mm, holds, home)
  {
    var w := ent[s].(writable := true);
    ChangeCounted(tab, ent, mm, holds, s, w);
    SetPlaced(tab, ent, holds, s, w);
    SetHomed(ent, home, s, w);
    SetCopyOnWrite(ent, mm, s, w);
  }

  lemma ShareCounted(tab: TableMap, ent: EntryMap, mm: seq<int>, holds: seq<nat>, t: Slot, w: Word)
    requires Counted(tab, ent, mm, holds) && t !in ent && LOW <= w.frame < |holds|
    ensures Counted(tab, ent[t := w], mm[w.frame - LOW := mm[w.frame - LOW] + 1], holds)
  {
    UsesAdded(ent, t, w);
  }

  lemma ShareCopyOnWrite(tab: TableMap, ent: EntryMap, mm: seq<int>, holds: seq<nat>, s: Slot, t: Slot)
    requires Counted(tab, ent, mm, holds) && CopyOnWrite(ent, mm) && s in ent
    requires !ent[s].writable && LOW <= ent[s].frame < |holds|
    ensures CopyOnWrite(ent[t := ent[s]], mm[ent[s].frame - LOW := mm[ent[s].frame - LOW] + 1])
  {
    forall r | r in ent && ent[r].writable ensures ent[r].frame != ent[s].frame {
      if ent[r].frame == ent[s].frame { SoleUse(tab, ent, mm, holds, r, s); }
    }
  }

  /** There is room for one more reference. */
  lemma ShareBound(tab: TableMap, ent: EntryMap, mm: seq<int>, holds: seq<nat>, home: seq<Slot>, s: Slot)
    requires Inv(tab, ent, mm, holds, home) && s in ent && LOW <= ent[s].frame
    ensures |mm| == PAGING_PAGES && ent[s].frame < |holds| <= LOW + PAGING_PAGES
    ensures 1 <= mm[ent[s].frame - LOW] && mm[ent[s].frame - LOW] + 1 < 256
  {
    EntryFacts(tab, ent, mm, holds, home, s);
    UseIsCounted(tab, ent, mm, holds, s);
    UsesBounded(tab, ent, home, ent[s].frame);
    NoTables(tab, ent[s].frame);
  }

  /** One more read-only entry for a page that has a read-only entry at the same offset. */
  lemma AddShare(tab: TableMap, ent: EntryMap, mm: seq<int>, holds: seq<nat>, home: seq<Slot>, s: Slot, t: Slot)
    requires Inv(tab, ent, mm, holds, home) && s in ent && t !in ent && t.dir in tab
    requires !ent[s].writable && LOW <= ent[s].frame && t.idx == s.idx && t.dir % SPACE == s.dir % SPACE
    ensures 1 <= mm[ent[s].frame - LOW] && mm[ent[s].frame - LOW] + 1 < 256
    ensures Inv(tab, ent[t := ent[s]], mm[ent[s].frame - LOW := mm[ent[s].frame - LOW] + 1], holds, home)
  {
    hide Apart, HoldsApart, Counted, Homed, CopyOnWrite;
    var w := ent[s];
    ShareBound(tab, ent, mm, holds, home, s);
    EntryFacts(tab, ent, mm, holds, home, s);
    ShareCounted(tab, ent, mm, holds, t, w);
    ShareCopyOnWrite(tab, ent, mm, holds, s, t);
    SetPlaced(tab, ent, holds, t, w);
    SetHomed(ent, home, t, w);
  }

  lemma AddLowCounted(tab: TableMap, ent: EntryMap, mm: seq<int>, holds: seq<nat>, t: Slot, w: Word)
    requires Counted(tab, ent, mm, holds) && t !in ent && w.frame < LOW
    ensures Counted(tab, ent[t := w], mm, holds)
  {
    UsesAdded(ent, t, w);
  }

  /** A read-only entry for an uncounted page below LOW_MEM. */
  lemma AddLow(tab: TableMap, ent: EntryMap, mm: seq<int>, holds: seq<nat>, home: seq<Slot>, t: Slot, w: Word)
    requires Inv(tab, ent, mm, holds, home) && t !in ent && t.dir in tab && 0 <= t.idx < WORDS
    requires !w.writable && w.frame < LOW
    ensures Inv(tab, ent[t := w], mm, holds, home)
  {
    AddLowCounted(tab, ent, mm, holds, t, w);
    SetPlaced(tab, ent, holds, t, w);
    SetHomed(ent, home, t, w);
    SetCopyOnWrite(ent, mm, t, w);
  }

  lemma DropCounted(tab: TableMap, ent: EntryMap, mm: seq<int>, holds: seq<nat>, s: Slot)
    requires Counted(tab, ent, mm, holds) && s in ent && LOW <= ent[s].frame < |holds|
    ensures Counted(tab, ent - {s}, mm[ent[s].frame - LOW := mm[ent[s].frame - LOW] - 1], holds)
  {
    UsesRemoved(ent, s);
  }

  lemma DropLowCounted(tab: TableMap, ent: EntryMap, mm: seq<int>, holds: seq<nat>, s: Slot)
    requires Counted(tab, ent, mm, holds) && s in ent && ent[s].frame < LOW
    ensures Counted(tab, ent - {s}, mm, holds)
  {
    UsesRemoved(ent, s);
  }

  lemma DropCopyOnWrite(tab: TableMap, ent: EntryMap, mm: seq<int>, holds: seq<nat>, s: Slot)
    requires Counted(tab, ent, mm, holds) && CopyOnWrite(ent, mm) && s in ent && LOW <= ent[s].frame < |holds|
    ensures CopyOnWrite(ent - {s}, mm[ent[s].frame - LOW := mm[ent[s].frame - LOW] - 1])
  {
    forall r | r in ent && r != s && ent[r].writable ensures ent[r].frame != ent[s].frame {
      if ent[r].frame == ent[s].frame { SoleUse(tab, ent, mm, holds, r, s); }
    }
  }

  /** Dropping an entry together with its reference. */
  lemma Drop(tab: TableMap, ent: EntryMap, mm: seq<int>, holds: seq<nat>, home: seq<Slot>, s: Slot)
    requires Inv(tab, ent, mm, holds, home) && s in ent && LOW <= ent[s].frame
    ensures mm[ent[s].frame - LOW] >= 1
    ensures Inv(tab, ent - {s}, mm[ent[s].frame - LOW := mm[ent[s].frame - LOW] - 1], holds, home)
  {
    DropCounted(tab, ent, mm, holds, s);
    UseIsCounted(tab, ent, mm, holds, s);
    DropCopyOnWrite(tab, ent, mm, holds, s);
    RemovePlaced(tab, ent, holds, home, s);
  }

  /** mem_map counts one reference to page f more than there are entries. */
  ghost predicate Lost(ent: EntryMap, mm: seq<int>, f: nat)
    requires LOW <= f < LOW + |mm|
  {
    mm[f - LOW] == |Uses(ent, f)| + 1
  }

  lemma LostAt(tab: TableMap, ent: EntryMap, mm: seq<int>, holds: seq<nat>, home: seq<Slot>, t: Slot, g: int)
    requires Inv(tab, ent, mm, holds, home) && t in ent && LOW <= ent[t].frame && LOW <= g < |holds| && holds[g] == 1
    ensures ent[t].frame < LOW + |mm| && Lost(ent[t := Attach(g)], mm, ent[t].frame)
  {
    var f := ent[t].frame;
    EntryFacts(tab, ent, mm, holds, home, t);
    UsesRemoved(ent, t);
    assert g != f && Uses(ent[t := Attach(g)], f) == Uses(ent - {t}, f);
    NoTableOf(tab, f);
    hide Uses;
  }

  lemma NoTableOf(tab: TableMap, f: int)
    requires forall d :: d in tab ==> tab[d] != f
    ensures Tables(tab, f) == {}
  {
    assert forall d :: d !in Tables(tab, f);
  }

  lemma DropLow(tab: TableMap, ent: EntryMap, mm: seq<int>, holds: seq<nat>, home: seq<Slot>, s: Slot)
    requires Inv(tab, ent, mm, holds, home) && s in ent && ent[s].frame < LOW
    ensures Inv(tab, ent - {s}, mm, holds, home)
  {
    DropLowCounted(tab, ent, mm, holds, s);
    RemovePlaced(tab, ent, holds, home, s);
    RemoveCopyOnWrite(ent, mm, s);
  }

  lemma PutCounted(tab: TableMap, ent: EntryMap, mm: seq<int>, holds: seq<nat>, t: Slot, g: int)
    requires Counted(tab, ent, mm, holds) && t !in ent && LOW <= g < |holds| && holds[g] == 1
    ensures Counted(tab, ent[t := Attach(g)], mm, holds[g := 0])
  {
    UsesAdded(ent, t, Attach(g));
  }

  lemma ReleaseHold(tab: TableMap, ent: EntryMap, holds: seq<nat>, home: seq<Slot>, g: int, h: Slot)
    requires |home| == |holds| && Apart(tab, ent, |holds|) && HoldsApart(tab, ent, holds) && Homed(ent, home)
    requires LOW <= g < |holds| && holds[g] == 1
    ensures forall d :: d in tab ==> tab[d] != g
    ensures HoldsApart(tab, ent, holds[g := 0])
    ensures Homed(ent, home[g := h])
  {
    assert forall s :: s in ent ==> ent[s].frame != g;
  }

  /** A page that only the kernel holds becomes a user page. */
  lemma PutHeld(tab: TableMap, ent: EntryMap, mm: seq<int>, holds: seq<nat>, home: seq<Slot>, t: Slot, g: int)
    requires Inv(tab, ent, mm, holds, home) && t !in ent && t.dir in tab && 0 <= t.idx < WORDS
    requires LOW <= g < |holds| && holds[g] == 1 && mm[g - LOW] == 1
    ensures Inv(tab, ent[t := Attach(g)], mm, holds[g := 0], home[g := Slot(t.dir % SPACE, t.idx)])
  {
    PutCounted(tab, ent, mm, holds, t, g);
    var h := Slot(t.dir % SPACE, t.idx);
    ReleaseHold(tab, ent, holds, home, g, h);
    SetPlaced(tab, ent, holds[g := 0], t, Attach(g));
    SetHomed(ent, home[g := h], t, Attach(g));
    SetCopyOnWrite(ent, mm, t, Attach(g));
  }

  // ---------- one directory entry changes ----------

  lemma TableAdded(tab: TableMap, d: int, g: int, f: int)
    requires d !in tab
    ensures |Tables(tab[d := g], f)| == |Tables(tab, f)| + if f == g then 1 else 0
  {
    assert Tables(tab[d := g], f) == Tables(tab, f) + if f == g then {d} else {};
  }

  lemma TablesAdded(tab: TableMap, d: int, g: int)
    requires d !in tab
    ensures forall f :: |Tables(tab[d := g], f)| == |Tables(tab, f)| + if f == g then 1 else 0
  {
    forall f
      ensures |Tables(tab[d := g], f)| == |Tables(tab, f)| + if f == g then 1 else 0
    {
      TableAdded(tab, d, g, f);
    }
  }

  lemma AddTableCounted(tab: TableMap, ent: EntryMap, mm: seq<int>, holds: seq<nat>, d: int, g: int)
    requires Counted(tab, ent, mm, holds) && d !in tab && LOW <= g < |holds| && holds[g] == 1
    ensures Counted(tab[d := g], ent, mm, holds[g := 0])
  {
    TablesAdded(tab, d, g);
    hide Tables, Uses;
  }

  lemma AddTable(tab: TableMap, ent: EntryMap, mm: seq<int>, holds: seq<nat>, home: seq<Slot>, d: int, g: int)
    requires Inv(tab, ent, mm, holds, home) && d !in tab && FIRST_USER <= d < WORDS
    requires LOW <= g < |holds| && holds[g] == 1
    ensures Inv(tab[d := g], ent, mm, holds[g := 0], home)
  {
    hide Counted, Homed, CopyOnWrite;
    AddTableCounted(tab, ent, mm, holds, d, g);
    HeldNowhere(tab, ent, holds, g);
    HoldsStayApart(tab, ent, holds, d, g);
  }

  /** A page the kernel holds is neither mapped nor a table. */
  lemma HeldNowhere(tab: TableMap, ent: EntryMap, holds: seq<nat>, g: int)
    requires HoldsApart(tab, ent, holds) && LOW <= g < |holds| && holds[g] == 1
    ensures forall s :: s in ent ==> ent[s].frame != g
    ensures forall e :: e in tab ==> tab[e] != g
  {
  }

  lemma HoldsStayApart(tab: TableMap, ent: EntryMap, holds: seq<nat>, d: int, g: int)
    requires HoldsApart(tab, ent, holds) && LOW <= g < |holds|
    ensures HoldsApart(tab[d := g], ent, holds[g := 0])
  {
  }

  lemma RemoveTableCounted(tab: TableMap, ent: EntryMap, mm: seq<int>, holds: seq<nat>, d: int)
    requires Counted(tab, ent, mm, holds) && d in tab && LOW <= tab[d] < |holds| && mm[tab[d] - LOW] >= 1
    ensures Counted(tab - {d}, ent, mm[tab[d] - LOW := mm[tab[d] - LOW] - 1], holds)
  {
    assert (tab - {d})[d := tab[d]] == tab;
    TablesAdded(tab - {d}, d, tab[d]);
    hide Tables, Uses;
  }

  lemma RemoveTable(tab: TableMap, ent: EntryMap, mm: seq<int>, holds: seq<nat>, home: seq<Slot>, d: int)
    requires Inv(tab, ent, mm, holds, home) && d in tab && (forall s :: s in ent ==> s.dir != d)
    ensures mm[tab[d] - LOW] == 1
    ensures Inv(tab - {d}, ent, mm[tab[d] - LOW := 0], holds, home)
  {
    var g := tab[d];
    assert forall e :: e in Tables(tab, g) <==> e == d;
    assert Tables(tab, g) == {d};
    assert forall s :: s !in Uses(ent, g);
    assert Uses(ent, g) == {};
    RemoveTableCounted(tab, ent, mm, holds, d);
  }

  /** A free page becomes held by the kernel. */
  lemma Take(tab: TableMap, ent: EntryMap, mm: seq<int>, holds: seq<nat>, home: seq<Slot>, g: int)
    requires Inv(tab, ent, mm, holds, home) && LOW <= g < |holds| && mm[g - LOW] == 0
    ensures Inv(tab, ent, mm[g - LOW := 1], holds[g := 1], home)
  {
    FreeIsUnused(tab, ent, mm, holds, g);
  }

  lemma SameCount(tab: TableMap, ent: EntryMap, mm: seq<int>, ent': EntryMap, mm': seq<int>, holds: seq<nat>, f: int)
    requires Counted(tab, ent, mm, holds) && Counted(tab, ent', mm', holds) && LOW <= f < |holds|
    requires Uses(ent, f) == Uses(ent', f)
    ensures mm[f - LOW] == mm'[f - LOW]
  {
  }

  /** Two states with the same tables, the same named pages and the same kernel holds
      have the same counts. */
  lemma SameNamesSameCounts(tab: TableMap, ent: EntryMap, mm: seq<int>, ent': EntryMap, mm': seq<int>, holds: seq<nat>)
    requires Counted(tab, ent, mm, holds) && Counted(tab, ent', mm', holds)
    requires ent.Keys == ent'.Keys && forall s :: s in ent ==> ent[s].frame == ent'[s].frame
    ensures mm == mm'
  {
    forall f ensures Uses(ent, f) == Uses(ent', f) { }
    forall k | 0 <= k < PAGING_PAGES ensures mm[k] == mm'[k] {
      if k < |holds| - LOW { SameCount(tab, ent, mm, ent', mm', holds, k + LOW); }
    }
  }

  // ---------- what stores into physical memory do to the maps ----------

  lemma StoreEntryWords(m: Phys, d: int, i: int, w: Word)
    requires Sized(m) && Apart(Tab(m), Ent(m), |m|) && d in Tab(m) && 0 <= i < WORDS
    ensures var m' := m[Tab(m)[d] := m[Tab(m)[d]][i := w]];
      && Sized(m') && m'[0] == m[0]
      && forall e, j :: FIRST_USER <= e < WORDS && 0 <= j < WORDS && m[0][e].present
           ==> m'[m[0][e].frame][j] == if (e, j) == (d, i) then w else m[m[0][e].frame][j]
  {
    var tab := Tab(m);
    var m' := m[tab[d] := m[tab[d]][i := w]];
    forall e, j | FIRST_USER <= e < WORDS && 0 <= j < WORDS && m[0][e].present
      ensures m'[m[0][e].frame][j] == if (e, j) == (d, i) then w else m[m[0][e].frame][j]
    {
      assert e in tab;
    }
  }

  /** m' agrees with m on the directory and on every entry but t. */
  ghost predicate SameBut(m: Phys, m': Phys, t: Slot)
    requires Sized(m) && Sized(m')
  {
    && m'[0] == m[0]
    && forall s: Slot :: s != t && FIRST_USER <= s.dir < WORDS && 0 <= s.idx < WORDS && m[0][s.dir].present
         ==> m'[m[0][s.dir].frame][s.idx] == m[m[0][s.dir].frame][s.idx]
  }

  lemma EntryStored(m: Phys, m': Phys, t: Slot, w: Word)
    requires Sized(m) && Sized(m') && SameBut(m, m', t)
    requires t.dir in Tab(m) && 0 <= t.idx < WORDS && m'[m[0][t.dir].frame][t.idx] == w
    ensures w.present ==> Ent(m') == Ent(m)[t := w]
    ensures !w.present ==> Ent(m') == Ent(m) - {t}
  {
    hide Ent, Tab, Sized, SameBut;
    StoredHere(m, m', t, w);
    forall s | s != t ensures (s in Ent(m') <==> s in Ent(m)) && (s in Ent(m) ==> Ent(m')[s] == Ent(m)[s]) {
      StoredElse(m, m', t, s);
    }
  }

  lemma StoredElse(m: Phys, m': Phys, t: Slot, s: Slot)
    requires Sized(m) && Sized(m') && SameBut(m, m', t) && s != t
    ensures s in Ent(m') <==> s in Ent(m)
    ensures s in Ent(m) ==> Ent(m')[s] == Ent(m)[s]
  {
  }

  lemma StoredHere(m: Phys, m': Phys, t: Slot, w: Word)
    requires Sized(m) && Sized(m') && SameBut(m, m', t)
    requires t.dir in Tab(m) && 0 <= t.idx < WORDS && m'[m[0][t.dir].frame][t.idx] == w
    ensures t in Ent(m') <==> w.present
    ensures w.present ==> Ent(m')[t] == w
  {
  }

  lemma StoreEntry(m: Phys, d: int, i: int, w: Word)
    requires Sized(m) && Apart(Tab(m), Ent(m), |m|) && d in Tab(m) && 0 <= i < WORDS
    ensures var m' := m[Tab(m)[d] := m[Tab(m)[d]][i := w]];
      && Sized(m') && Tab(m') == Tab(m)
      && Ent(m') == if w.present then Ent(m)[Slot(d, i) := w] else Ent(m) - {Slot(d, i)}
  {
    var m' := m[Tab(m)[d] := m[Tab(m)[d]][i := w]];
    StoreEntryWords(m, d, i, w);
    EntryStored(m, m', Slot(d, i), w);
  }

  lemma StoreDir(m: Phys, d: int, w: Word)
    requires Sized(m) && FIRST_USER <= d < WORDS && w.present && LOW <= w.frame < |m| && d !in Tab(m)
    requires forall i :: 0 <= i < WORDS ==> !m[w.frame][i].present
    ensures var m' := m[0 := m[0][d := w]];
      Sized(m') && Tab(m') == Tab(m)[d := w.frame] && Ent(m') == Ent(m)
  {
    var m' := m[0 := m[0][d := w]];
    assert forall s :: Present(m', s) <==> Present(m, s);
  }

  lemma ClearDir(m: Phys, d: int)
    requires Sized(m) && d in Tab(m)
    requires forall i :: 0 <= i < WORDS ==> !m[Tab(m)[d]][i].present
    ensures var m' := m[0 := m[0][d := ZERO]];
      Sized(m') && Tab(m') == Tab(m) - {d} && Ent(m') == Ent(m)
  {
    var m' := m[0 := m[0][d := ZERO]];
    assert forall s :: Present(m', s) <==> Present(m, s);
  }

  lemma StorePage(m: Phys, g: int, page: seq<Word>)
    requires Sized(m) && LOW <= g < |m| && |page| == WORDS && forall d :: d in Tab(m) ==> Tab(m)[d] != g
    ensures var m' := m[g := page];
      Sized(m') && Tab(m') == Tab(m) && Ent(m') == Ent(m)
  {
    var m' := m[g := page];
    assert Tab(m') == Tab(m);
    forall e, j | FIRST_USER <= e < WORDS && 0 <= j < WORDS && m[0][e].present
      ensures m'[m[0][e].frame][j] == m[m[0][e].frame][j]
    {
      assert e in Tab(m);
    }
  }
}
