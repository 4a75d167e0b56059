/** What each step of the pager does to a whole memory state: physical memory, mem_map and
    the two ghost accounts. The methods of class Memory below take these steps. */
module PageSteps {
  import opened PageTables

  function ZeroPage(): (p: seq<Word>)
    ensures |p| == WORDS && forall i :: 0 <= i < WORDS ==> p[i] == ZERO
  {
    seq(WORDS, _ => ZERO)
  }

  ghost predicate Good(m: Phys, mm: seq<int>, holds: seq<nat>, home: seq<Slot>) {
    Sized(m) && |holds| == |m| && Inv(Tab(m), Ent(m), mm, holds, home)
  }

  /** A word that lets a user task read and write page f: present, user, writable, nothing else. */
  predicate UserPage(w: Word, f: int) {
    w.frame == f && w.rest == 0 && !w.dirty && w.user && w.writable && w.present
  }

  /** The directory words of user tasks let them through to the page tables. */
  predicate DirOk(dir: seq<Word>) {
    forall d :: FIRST_USER <= d < |dir| && dir[d].present ==> UserPage(dir[d], dir[d].frame)
  }

  /** m' shows the same tables and the same page behind every entry of m. */
  ghost predicate SamePages(m: Phys, m': Phys)
    requires Sized(m)
  {
    |m'| == |m| && forall s :: s in Ent(m) && 0 < Ent(m)[s].frame < |m| ==> m'[Ent(m)[s].frame] == m[Ent(m)[s].frame]
  }

  ghost function Written(m: Phys, s: Slot, w: Word): (m': Phys)
    requires Sized(m) && s.dir in Tab(m) && 0 <= s.idx < WORDS
    ensures |m'| == |m| && m'[0] == m[0] && Sized(m') && Tab(m') == Tab(m)
    ensures forall f :: 0 <= f < |m| && f != Tab(m)[s.dir] ==> m'[f] == m[f]
  {
    var t := Tab(m)[s.dir];
    m[t := m[t][s.idx := w]]
  }

  /** Storing one entry: what every step below has in common. */
  lemma EntryWritten(m: Phys, s: Slot, w: Word)
    requires Sized(m) && Apart(Tab(m), Ent(m), |m|) && s.dir in Tab(m) && 0 <= s.idx < WORDS
    ensures Ent(Written(m, s, w)) == if w.present then Ent(m)[s := w] else Ent(m) - {s}
    ensures SamePages(m, Written(m, s, w))
  {
    StoreEntry(m, s.dir, s.idx, w);
  }

  /** The words an entry is found by. */
  lemma EntryAt(m: Phys, mm: seq<int>, holds: seq<nat>, home: seq<Slot>, s: Slot)
    requires Good(m, mm, holds, home) && s in Ent(m)
    ensures Sized(m) && |m| == |holds| == |home| && |mm| == PAGING_PAGES && LOW < |m| <= LOW + PAGING_PAGES
      && |m[0]| == WORDS
    ensures s.dir in Tab(m) && FIRST_USER <= s.dir < WORDS && 0 <= s.idx < WORDS
    ensures Tab(m)[s.dir] == m[0][s.dir].frame && LOW <= m[0][s.dir].frame < |m| && |m[m[0][s.dir].frame]| == WORDS
    ensures Ent(m)[s] == m[m[0][s.dir].frame][s.idx] && Ent(m)[s].present && Ent(m)[s].frame < |m|
    ensures Ent(m)[s].writable ==> LOW <= Ent(m)[s].frame && mm[Ent(m)[s].frame - LOW] == 1
  {
    hide Inv;
    EntryFacts(Tab(m), Ent(m), mm, holds, home, s);
  }

  /** What the directory word d and its table say. */
  lemma TableAt(m: Phys, mm: seq<int>, holds: seq<nat>, home: seq<Slot>, d: int)
    requires Good(m, mm, holds, home) && FIRST_USER <= d < WORDS
    ensures Sized(m) && |m| == |holds| == |home| && |mm| == PAGING_PAGES && LOW < |m| <= LOW + PAGING_PAGES
      && |m[0]| == WORDS
    ensures d in Tab(m) <==> m[0][d].present
    ensures d in Tab(m) ==> Tab(m)[d] == m[0][d].frame && LOW <= m[0][d].frame < |m| && |m[m[0][d].frame]| == WORDS
    ensures forall i :: 0 <= i < WORDS && d in Tab(m) ==> (Slot(d, i) in Ent(m) <==> m[m[0][d].frame][i].present)
    ensures forall i :: 0 <= i < WORDS && Slot(d, i) in Ent(m) ==>
      d in Tab(m) && Ent(m)[Slot(d, i)] == m[m[0][d].frame][i]
    ensures forall s :: s in Ent(m) ==>
      s.dir in Tab(m) && 0 <= s.idx < WORDS && Ent(m)[s].present && Ent(m)[s].frame < |m|
  {
    hide Inv;
    SizeFacts(Tab(m), Ent(m), mm, holds, home);
  }

  /** The table of directory slot d. */
  lemma TableFacts(m: Phys, mm: seq<int>, holds: seq<nat>, home: seq<Slot>, d: int)
    requires Good(m, mm, holds, home) && Sized(m) && d in Tab(m)
    ensures FIRST_USER <= d < WORDS && |m[0]| == WORDS && Tab(m)[d] == m[0][d].frame && LOW <= m[0][d].frame < |m|
    ensures |m[m[0][d].frame]| == WORDS && |mm| == PAGING_PAGES && |m| <= LOW + PAGING_PAGES && |holds| == |m|
  {
    hide Ent;
  }

  lemma TakeStep(m: Phys, mm: seq<int>, holds: seq<nat>, home: seq<Slot>, g: int)
    requires Good(m, mm, holds, home) && |mm| == PAGING_PAGES && LOW <= g < |m| && mm[g - LOW] == 0
    ensures holds[g] == 0 && (forall s :: s in Ent(m) ==> Ent(m)[s].frame != g)
    ensures Good(m[g := ZeroPage()], mm[g - LOW := 1], holds[g := 1], home)
    ensures Tab(m[g := ZeroPage()]) == Tab(m) && Ent(m[g := ZeroPage()]) == Ent(m)
    ensures SamePages(m, m[g := ZeroPage()])
  {
    FreeIsUnused(Tab(m), Ent(m), mm, holds, g);
    Take(Tab(m), Ent(m), mm, holds, home, g);
    hide Inv;
    StorePage(m, g, ZeroPage());
  }

  lemma UnprotectStep(m: Phys, mm: seq<int>, holds: seq<nat>, home: seq<Slot>, s: Slot)
    requires Good(m, mm, holds, home) && s in Ent(m) && s.dir in Tab(m) && 0 <= s.idx < WORDS
    requires LOW <= Ent(m)[s].frame && |mm| == PAGING_PAGES && Ent(m)[s].frame < |m| && mm[Ent(m)[s].frame - LOW] == 1
    ensures Good(Written(m, s, Ent(m)[s].(writable := true)), mm, holds, home)
    ensures Unshared(m, Written(m, s, Ent(m)[s].(writable := true)), s)
    ensures Ent(Written(m, s, Ent(m)[s].(writable := true))) == Ent(m)[s := Ent(m)[s].(writable := true)]
  {
    hide Inv, Apart, Counted, Sized, Tab, Ent, Written;
    SizeFacts(Tab(m), Ent(m), mm, holds, home);
    EntryAt(m, mm, holds, home, s);
    Unprotect(Tab(m), Ent(m), mm, holds, home, s);
    EntryWritten(m, s, Ent(m)[s].(writable := true));
  }

  /** m' differs from m only in that entry s has a page of its own, with the same contents,
      and may be written. */
  ghost predicate Unshared(m: Phys, m': Phys, s: Slot)
    requires Sized(m)
  {
    && Sized(m') && Tab(m') == Tab(m) && SamePages(m, m') && m'[0] == m[0]
    && s in Ent(m) && Ent(m').Keys == Ent(m).Keys
    && (forall t :: t in Ent(m) && t != s ==> Ent(m')[t] == Ent(m)[t])
    && Ent(m')[s].writable && LOW <= Ent(m')[s].frame < |m'|
    && 0 <= Ent(m)[s].frame < |m| && m'[Ent(m')[s].frame] == m[Ent(m)[s].frame]
  }

  lemma UnsharedAfter(m: Phys, m1: Phys, m2: Phys, s: Slot)
    requires Sized(m) && Sized(m1) && SamePages(m, m1) && Tab(m1) == Tab(m) && Ent(m1) == Ent(m) && m1[0] == m[0]
    requires Unshared(m1, m2, s) && 0 <= Ent(m)[s].frame < |m| && m1[Ent(m)[s].frame] == m[Ent(m)[s].frame]
    ensures Unshared(m, m2, s)
  {
    hide Ent, Tab, Sized;
  }

  /** mem_map after one reference to page f is dropped. */
  function Unref(mm: seq<int>, f: int): seq<int>
    requires |mm| == PAGING_PAGES && f < LOW + PAGING_PAGES
  {
    if f < LOW then mm else mm[f - LOW := mm[f - LOW] - 1]
  }

  /** The entry moves from its page to the held page g. */
  lemma MoveEntry(tab: TableMap, ent: EntryMap, mm: seq<int>, holds: seq<nat>, home: seq<Slot>, s: Slot, g: int)
    requires Inv(tab, ent, mm, holds, home) && s in ent && s.dir in tab && 0 <= s.idx < WORDS && ent[s].frame < |holds|
    requires |holds| <= LOW + PAGING_PAGES && |mm| == PAGING_PAGES
    requires LOW <= g < |holds| == |home| && holds[g] == 1 && mm[g - LOW] == 1 && ent[s].frame != g
    ensures Inv(tab, ent[s := Attach(g)], Unref(mm, ent[s].frame), holds[g := 0], home[g := Slot(s.dir % SPACE, s.idx)])
  {
    hide Inv;
    var f := ent[s].frame;
    if f < LOW { DropLow(tab, ent, mm, holds, home, s); } else { Drop(tab, ent, mm, holds, home, s); }
    PutHeld(tab, ent - {s}, Unref(mm, f), holds, home, s, g);
    assert (ent - {s})[s := Attach(g)] == ent[s := Attach(g)];
  }

  /** A page that an entry names and no table uses may be rewritten. */
  lemma FillStep(m: Phys, mm: seq<int>, holds: seq<nat>, home: seq<Slot>, s: Slot, page: seq<Word>)
    requires Good(m, mm, holds, home) && s in Ent(m) && LOW <= Ent(m)[s].frame && |page| == WORDS
    ensures Ent(m)[s].frame < |m|
    ensures Good(m[Ent(m)[s].frame := page], mm, holds, home)
    ensures Tab(m[Ent(m)[s].frame := page]) == Tab(m) && Ent(m[Ent(m)[s].frame := page]) == Ent(m)
  {
    EntryFacts(Tab(m), Ent(m), mm, holds, home, s);
    hide Inv;
    StorePage(m, Ent(m)[s].frame, page);
  }

  ghost function Copied(m: Phys, s: Slot, g: int): (m': Phys)
    requires Sized(m) && s in Ent(m) && s.dir in Tab(m) && 0 <= s.idx < WORDS
    requires LOW <= g < |m| && Ent(m)[s].frame < |m|
    ensures |m'| == |m|
  {
    var m1 := Written(m, s, Attach(g));
    m1[g := m1[Ent(m)[s].frame]]
  }

  /** Copy on write: the entry gets page g of its own, with the same contents. */
  lemma CopyStep(m: Phys, mm: seq<int>, holds: seq<nat>, home: seq<Slot>, s: Slot, g: int)
    requires Good(m, mm, holds, home) && s in Ent(m) && s.dir in Tab(m) && 0 <= s.idx < WORDS
    requires |mm| == PAGING_PAGES && LOW <= g < |m| && holds[g] == 1 && mm[g - LOW] == 1 && Ent(m)[s].frame < |m|
    requires forall t :: t in Ent(m) ==> Ent(m)[t].frame != g
    ensures Good(Copied(m, s, g), Unref(mm, Ent(m)[s].frame), holds[g := 0], home[g := Slot(s.dir % SPACE, s.idx)])
    ensures Tab(Copied(m, s, g)) == Tab(m) && Ent(Copied(m, s, g)) == Ent(m)[s := Attach(g)]
    ensures Unshared(m, Copied(m, s, g), s)
  {
    hide Inv, Apart, Counted, Ent, Tab, Written;
    SizeFacts(Tab(m), Ent(m), mm, holds, home);
    EntryFacts(Tab(m), Ent(m), mm, holds, home, s);
    MoveEntry(Tab(m), Ent(m), mm, holds, home, s, g);
    EntryWritten(m, s, Attach(g));
    var m1 := Written(m, s, Attach(g));
    FillStep(m1, Unref(mm, Ent(m)[s].frame), holds[g := 0], home[g := Slot(s.dir % SPACE, s.idx)], s,
      m1[Ent(m)[s].frame]);
  }

  lemma SamePagesTwice(m: Phys, m1: Phys, m2: Phys)
    requires Sized(m) && Sized(m1) && SamePages(m, m1) && SamePages(m1, m2)
    requires forall s :: s in Ent(m) ==> s in Ent(m1) && Ent(m1)[s].frame == Ent(m)[s].frame
    ensures SamePages(m, m2)
  {
    hide Ent, Sized;
  }

  lemma WrittenTwice(m: Phys, holds: seq<nat>, s: Slot, t: Slot, w: Word)
    requires Sized(m) && |holds| == |m| && Apart(Tab(m), Ent(m), |m|) && HoldsApart(Tab(m), Ent(m), holds)
    requires s in Ent(m) && s.dir in Tab(m) && 0 <= s.idx < WORDS && t !in Ent(m) && t.dir in Tab(m)
      && 0 <= t.idx < WORDS
    requires w.present && w.frame == Ent(m)[s].frame < |m| && (LOW <= w.frame ==> holds[w.frame] == 0)
    requires forall d :: d in Tab(m) ==> Tab(m)[d] != w.frame
    ensures Ent(Written(Written(m, t, w), s, w)) == Ent(m)[s := w][t := w]
    ensures SamePages(m, Written(Written(m, t, w), s, w))
  {
    hide Apart, HoldsApart, Written, Ent, Tab, Sized, SamePages;
    EntryWritten(m, t, w);
    SetPlaced(Tab(m), Ent(m), holds, t, w);
    var m1 := Written(m, t, w);
    EntryWritten(m1, s, w);
    assert Ent(m)[t := w][s := w] == Ent(m)[s := w][t := w];
    SamePagesTwice(m, m1, Written(m1, s, w));
  }

  lemma ShareInv(tab: TableMap, ent: EntryMap, mm: seq<int>, holds: seq<nat>, home: seq<Slot>, s: Slot, t: Slot,
                 w: Word)
    requires Inv(tab, ent, mm, holds, home) && s in ent && t !in ent && t.dir in tab && w == ReadOnly(ent[s])
    requires LOW <= w.frame && t.idx == s.idx && t.dir % SPACE == s.dir % SPACE && |mm| == PAGING_PAGES
      && w.frame < LOW + |mm|
    ensures 1 <= mm[w.frame - LOW] && mm[w.frame - LOW] + 1 < 256
    ensures Inv(tab, ent[s := w][t := w], mm[w.frame - LOW := mm[w.frame - LOW] + 1], holds, home)
  {
    hide Inv;
    Protect(tab, ent, mm, holds, home, s);
    AddShare(tab, ent[s := w], mm, holds, home, s, t);
  }

  /** One more address space reads the page of entry s, at slot t; both lose write permission. */
  lemma ShareStep(m: Phys, mm: seq<int>, holds: seq<nat>, home: seq<Slot>, s: Slot, t: Slot, w: Word)
    requires Good(m, mm, holds, home) && s in Ent(m) && t !in Ent(m) && t.dir in Tab(m) && s.dir in Tab(m)
    requires LOW <= Ent(m)[s].frame < |m| <= LOW + PAGING_PAGES && |mm| == PAGING_PAGES && 0 <= s.idx < WORDS
    requires t.idx == s.idx && t.dir % SPACE == s.dir % SPACE && Ent(m)[s].present && w == ReadOnly(Ent(m)[s])
    ensures 1 <= mm[w.frame - LOW] && mm[w.frame - LOW] + 1 < 256
    ensures Good(Written(Written(m, t, w), s, w), mm[w.frame - LOW := mm[w.frame - LOW] + 1], holds, home)
    ensures Tab(Written(Written(m, t, w), s, w)) == Tab(m)
    ensures Ent(Written(Written(m, t, w), s, w)) == Ent(m)[s := w][t := w]
    ensures SamePages(m, Written(Written(m, t, w), s, w))
  {
    hide Apart, HoldsApart, Counted, Homed, CopyOnWrite, Written, Tab, Ent, Sized, SamePages;
    EntryFacts(Tab(m), Ent(m), mm, holds, home, s);
    assert Apart(Tab(m), Ent(m), |m|) && HoldsApart(Tab(m), Ent(m), holds);
    hide Inv;
    WrittenTwice(m, holds, s, t, w);
    ShareInv(Tab(m), Ent(m), mm, holds, home, s, t, w);
  }

  /** A read-only copy of an entry that names a page below LOW_MEM. */
  lemma ShareLowStep(m: Phys, mm: seq<int>, holds: seq<nat>, home: seq<Slot>, t: Slot, w: Word)
    requires Good(m, mm, holds, home) && t !in Ent(m) && t.dir in Tab(m) && 0 <= t.idx < WORDS
    requires w.present && !w.writable && w.frame < LOW
    ensures Good(Written(m, t, w), mm, holds, home)
    ensures Ent(Written(m, t, w)) == Ent(m)[t := w]
    ensures SamePages(m, Written(m, t, w))
  {
    hide Inv;
    SizeFacts(Tab(m), Ent(m), mm, holds, home);
    EntryWritten(m, t, w);
    AddLow(Tab(m), Ent(m), mm, holds, home, t, w);
  }

  lemma HeldIsNoTable(m: Phys, mm: seq<int>, holds: seq<nat>, home: seq<Slot>, d: int, g: int)
    requires Good(m, mm, holds, home) && d in Tab(m) && LOW <= g < |m| && holds[g] == 1
    ensures Tab(m)[d] != g
  {
    hide Tab, Ent, Sized;
  }

  /** A held page becomes the page behind an absent entry. */
  lemma PutStep(m: Phys, mm: seq<int>, holds: seq<nat>, home: seq<Slot>, t: Slot, g: int)
    requires Good(m, mm, holds, home) && t !in Ent(m) && t.dir in Tab(m) && 0 <= t.idx < WORDS
    requires LOW <= g < |m| && |mm| == PAGING_PAGES && holds[g] == 1 && mm[g - LOW] == 1
    ensures Good(Written(m, t, Attach(g)), mm, holds[g := 0], home[g := Slot(t.dir % SPACE, t.idx)])
    ensures Ent(Written(m, t, Attach(g))) == Ent(m)[t := Attach(g)]
    ensures SamePages(m, Written(m, t, Attach(g)))
  {
    hide Inv;
    SizeFacts(Tab(m), Ent(m), mm, holds, home);
    EntryWritten(m, t, Attach(g));
    PutHeld(Tab(m), Ent(m), mm, holds, home, t, g);
  }

  /** A held page overwrites an entry: the reference to the page that was there is lost, its count one too high. */
  lemma PutOverStep(m: Phys, mm: seq<int>, holds: seq<nat>, home: seq<Slot>, t: Slot, g: int)
    requires Good(m, mm, holds, home) && t in Ent(m) && t.dir in Tab(m) && 0 <= t.idx < WORDS
    requires LOW <= g < |m| && |mm| == PAGING_PAGES && holds[g] == 1
    ensures Ent(Written(m, t, Attach(g))) == Ent(m)[t := Attach(g)]
    ensures SamePages(m, Written(m, t, Attach(g)))
    ensures LOW <= Ent(m)[t].frame < LOW + |mm| ==> Lost(Ent(m)[t := Attach(g)], mm, Ent(m)[t].frame)
  {
    hide Inv;
    SizeFacts(Tab(m), Ent(m), mm, holds, home);
    EntryWritten(m, t, Attach(g));
    if LOW <= Ent(m)[t].frame { LostAt(Tab(m), Ent(m), mm, holds, home, t, g); }
  }

  lemma DropEntryStep(m: Phys, mm: seq<int>, holds: seq<nat>, home: seq<Slot>, s: Slot)
    requires Good(m, mm, holds, home) && s in Ent(m) && s.dir in Tab(m) && 0 <= s.idx < WORDS
    requires |mm| == PAGING_PAGES && Ent(m)[s].frame < |m|
    ensures LOW <= Ent(m)[s].frame ==> mm[Ent(m)[s].frame - LOW] >= 1
    ensures Good(Written(m, s, ZERO), Unref(mm, Ent(m)[s].frame), holds, home)
    ensures Ent(Written(m, s, ZERO)) == Ent(m) - {s}
    ensures SamePages(m, Written(m, s, ZERO))
  {
    hide Inv;
    SizeFacts(Tab(m), Ent(m), mm, holds, home);
    EntryWritten(m, s, ZERO);
    if Ent(m)[s].frame < LOW {
      DropLow(Tab(m), Ent(m), mm, holds, home, s);
    } else {
      Drop(Tab(m), Ent(m), mm, holds, home, s);
    }
  }

  lemma ClearStep(m: Phys, mm: seq<int>, holds: seq<nat>, home: seq<Slot>, s: Slot)
    requires Good(m, mm, holds, home) && s !in Ent(m) && s.dir in Tab(m) && 0 <= s.idx < WORDS
    ensures Good(Written(m, s, ZERO), mm, holds, home)
    ensures Ent(Written(m, s, ZERO)) == Ent(m)
    ensures SamePages(m, Written(m, s, ZERO))
  {
    hide Inv;
    SizeFacts(Tab(m), Ent(m), mm, holds, home);
    EntryWritten(m, s, ZERO);
    assert Ent(m) - {s} == Ent(m);
  }

  /** A held, zeroed page becomes the table of an empty directory slot. */
  lemma AddTableStep(m: Phys, mm: seq<int>, holds: seq<nat>, home: seq<Slot>, d: int, g: int)
    requires Good(m, mm, holds, home) && d !in Tab(m) && FIRST_USER <= d < WORDS
    requires LOW <= g < |m| && holds[g] == 1 && m[g] == ZeroPage()
    ensures Sized(m[0 := m[0][d := Attach(g)]])
    ensures Good(m[0 := m[0][d := Attach(g)]], mm, holds[g := 0], home)
    ensures Tab(m[0 := m[0][d := Attach(g)]]) == Tab(m)[d := g]
    ensures Ent(m[0 := m[0][d := Attach(g)]]) == Ent(m)
    ensures SamePages(m, m[0 := m[0][d := Attach(g)]])
  {
    hide Inv;
    StoreDir(m, d, Attach(g));
    AddTable(Tab(m), Ent(m), mm, holds, home, d, g);
  }

  lemma DropTableStep(m: Phys, mm: seq<int>, holds: seq<nat>, home: seq<Slot>, d: int)
    requires Good(m, mm, holds, home) && d in Tab(m) && |mm| == PAGING_PAGES
    requires forall s :: s in Ent(m) ==> s.dir != d
    ensures LOW <= Tab(m)[d] < |m| && mm[Tab(m)[d] - LOW] == 1
    ensures Sized(m[0 := m[0][d := ZERO]])
    ensures Good(m[0 := m[0][d := ZERO]], Unref(mm, Tab(m)[d]), holds, home)
    ensures Tab(m[0 := m[0][d := ZERO]]) == Tab(m) - {d}
    ensures Ent(m[0 := m[0][d := ZERO]]) == Ent(m)
    ensures SamePages(m, m[0 := m[0][d := ZERO]])
  {
    hide Inv;
    forall i | 0 <= i < WORDS ensures !m[Tab(m)[d]][i].present {
      assert Slot(d, i) !in Ent(m);
    }
    ClearDir(m, d);
    RemoveTable(Tab(m), Ent(m), mm, holds, home, d);
  }

  /** Nobody but the kernel has page g, and the kernel lets go of it. */
  lemma ReleaseStep(m: Phys, mm: seq<int>, holds: seq<nat>, home: seq<Slot>, g: int)
    requires Good(m, mm, holds, home) && LOW <= g < |m| && |mm| == PAGING_PAGES && |m| <= LOW + PAGING_PAGES
    requires holds[g] == 1
    ensures mm[g - LOW] >= 1
    ensures Good(m, mm[g - LOW := mm[g - LOW] - 1], holds[g := 0], home)
  {
    hide Sized, Tab, Ent, Uses, Tables;
    assert forall s :: s in Ent(m) ==> Ent(m)[s].frame != g;
  }

  /** Every entry of m' is an entry of m that shows the same page. */
  ghost predicate Shrunk(m: Phys, m': Phys)
    requires Sized(m) && Sized(m')
  {
    && |m'| == |m|
    && forall s :: s in Ent(m') ==>
         && s in Ent(m) && Ent(m)[s] == Ent(m')[s]
         && (0 < Ent(m')[s].frame < |m| ==> m'[Ent(m')[s].frame] == m[Ent(m')[s].frame])
  }

  lemma ShrunkStart(m: Phys)
    requires Sized(m)
    ensures Shrunk(m, m)
  {
  }

  lemma ShrunkAfter(m: Phys, m1: Phys, m2: Phys)
    requires Sized(m) && Sized(m1) && Sized(m2) && Shrunk(m, m1) && SamePages(m1, m2)
    requires forall s :: s in Ent(m2) ==> s in Ent(m1) && Ent(m2)[s] == Ent(m1)[s]
    ensures Shrunk(m, m2)
  {
    hide Sized, Tab, Ent;
  }

  // ---------- ranges of directory slots ----------

  ghost function TabOutside(tab: TableMap, lo: int, hi: int): TableMap {
    map d | d in tab && !(lo <= d < hi) :: tab[d]
  }

  /** ent without the slots lo..hi and without the first n entries of slot hi. */
  ghost function EntOutside(ent: EntryMap, lo: int, hi: int, n: int): EntryMap {
    map s | s in ent && !(lo <= s.dir < hi) && !(s.dir == hi && s.idx < n) :: ent[s]
  }

  lemma EntOutsideNext(ent: EntryMap, lo: int, hi: int, n: int)
    requires lo <= hi && forall s :: s in ent ==> 0 <= s.idx < WORDS
    ensures EntOutside(ent, lo, hi, n + 1) == EntOutside(ent, lo, hi, n) - {Slot(hi, n)}
    ensures EntOutside(ent, lo, hi, WORDS) == EntOutside(ent, lo, hi + 1, 0)
  {
  }

  lemma RangeStart(tab: TableMap, ent: EntryMap, lo: int)
    requires forall s :: s in ent ==> 0 <= s.idx < WORDS
    ensures TabOutside(tab, lo, lo) == tab && EntOutside(ent, lo, lo, 0) == ent
  {
  }

  lemma TabOutsideNext(tab: TableMap, ent: EntryMap, lo: int, hi: int)
    requires lo <= hi
    ensures TabOutside(tab, lo, hi + 1) == TabOutside(tab, lo, hi) - {hi}
    ensures forall s :: s in EntOutside(ent, lo, hi + 1, 0) ==> s.dir != hi
  {
  }

  lemma NoTableNoEntries(tab: TableMap, ent: EntryMap, lo: int, hi: int)
    requires lo <= hi && hi !in TabOutside(tab, lo, hi) && forall s :: s in ent ==> s.dir in tab && 0 <= s.idx < WORDS
    ensures TabOutside(tab, lo, hi + 1) == TabOutside(tab, lo, hi)
    ensures EntOutside(ent, lo, hi + 1, 0) == EntOutside(ent, lo, hi, 0)
  {
  }

  // ---------- what copy_page_tables has done after k tables and n entries of the next ----------

  ghost predicate Reached(s: Slot, base: int, k: int, n: int) {
    base <= s.dir < base + k || (s.dir == base + k && s.idx < n)
  }

  ghost function Source(t: Slot, from: int, to: int): Slot { Slot(t.dir - to + from, t.idx) }

  ghost function CopyEnt(ent: EntryMap, from: int, to: int, k: int, n: int): EntryMap {
    map s | s in UserSlots() && (s in ent || (Reached(s, to, k, n) && Source(s, from, to) in ent)) ::
      if s !in ent then ReadOnly(ent[Source(s, from, to)])
      else if Reached(s, from, k, n) && LOW <= ent[s].frame then ReadOnly(ent[s])
      else ent[s]
  }

  ghost predicate TabGrown(tab: TableMap, tab': TableMap, from: int, to: int, k: int) {
    && (forall d :: d in tab ==> d in tab' && tab'[d] == tab[d])
    && (forall d {:trigger d in tab'} :: d in tab' ==> d in tab || (to <= d < to + k && d - to + from in tab))
    && (forall d {:trigger d in tab'} :: to <= d < to + k && d - to + from in tab ==> d in tab')
  }

  /** The directory slots of the two ranges: user slots, apart, at the same offset of their spaces. */
  ghost predicate Ranges(from: int, to: int, n: int) {
    && FIRST_USER <= from && FIRST_USER <= to && from + n <= WORDS && to + n <= WORDS
    && (from + n <= to || to + n <= from) && from % SPACE == to % SPACE && 0 <= n
  }

  ghost predicate UserEntries(ent: EntryMap) { forall s :: s in ent ==> s in UserSlots() }

  lemma CopyStart(tab: TableMap, ent: EntryMap, from: int, to: int)
    requires UserEntries(ent)
    ensures CopyEnt(ent, from, to, 0, 0) == ent && TabGrown(tab, tab, from, to, 0)
  {
  }

  lemma AllUserEntries(m: Phys, mm: seq<int>, holds: seq<nat>, home: seq<Slot>)
    requires Good(m, mm, holds, home)
    ensures Sized(m) && UserEntries(Ent(m)) && forall s :: s in Ent(m) ==> s.dir in Tab(m)
  {
    hide Inv;
  }

  lemma SamePagesStart(m: Phys)
    requires Sized(m)
    ensures SamePages(m, m)
  {
  }

  /** m' is m after k page tables were copied. */
  ghost predicate CopiedTo(m: Phys, m': Phys, from: int, to: int, k: int)
    requires Sized(m) && Sized(m')
  {
    Ent(m') == CopyEnt(Ent(m), from, to, k, 0) && TabGrown(Tab(m), Tab(m'), from, to, k)
  }

  lemma TabAhead(tab: TableMap, tab': TableMap, from: int, to: int, k: int, m: int)
    requires TabGrown(tab, tab', from, to, k) && Ranges(from, to, m) && 0 <= k < m
    ensures to + k in tab' <==> to + k in tab
    ensures from + k in tab' <==> from + k in tab
    ensures from + k !in tab && to + k !in tab ==> TabGrown(tab, tab', from, to, k + 1)
  {
  }

  lemma TabAdded(tab: TableMap, tab': TableMap, from: int, to: int, k: int, g: int)
    requires TabGrown(tab, tab', from, to, k) && from + k in tab && to + k !in tab && 0 <= k
    ensures TabGrown(tab, tab'[to + k := g], from, to, k + 1)
  {
  }

  lemma CopyNextTable(ent: EntryMap, from: int, to: int, k: int)
    requires UserEntries(ent) && 0 <= k
    ensures CopyEnt(ent, from, to, k + 1, 0) == CopyEnt(ent, from, to, k, WORDS)
  {
    assert forall s, base :: s in UserSlots() ==> (Reached(s, base, k + 1, 0) <==> Reached(s, base, k, WORDS));
  }

  lemma CopyNoTable(ent: EntryMap, from: int, to: int, k: int)
    requires UserEntries(ent) && 0 <= k && forall s :: s in ent ==> s.dir != from + k
    ensures CopyEnt(ent, from, to, k + 1, 0) == CopyEnt(ent, from, to, k, 0)
  {
  }

  lemma CopyKeeps(ent: EntryMap, from: int, to: int, k: int, n: int)
    requires UserEntries(ent)
    ensures forall s :: s in ent ==>
      s in CopyEnt(ent, from, to, k, n) && CopyEnt(ent, from, to, k, n)[s].frame == ent[s].frame
  {
  }

  lemma CopyAhead(ent: EntryMap, from: int, to: int, k: int, n: int, m: int)
    requires UserEntries(ent) && Ranges(from, to, m) && 0 <= k < m && 0 <= n < WORDS
    requires forall s :: s in ent ==> s.dir != to + k
    ensures Slot(to + k, n) !in CopyEnt(ent, from, to, k, n)
    ensures Slot(from + k, n) in CopyEnt(ent, from, to, k, n) <==> Slot(from + k, n) in ent
    ensures Slot(from + k, n) in ent ==> CopyEnt(ent, from, to, k, n)[Slot(from + k, n)] == ent[Slot(from + k, n)]
  {
  }

  lemma CopyAbsent(ent: EntryMap, from: int, to: int, k: int, n: int)
    requires UserEntries(ent) && Slot(from + k, n) !in ent
    ensures CopyEnt(ent, from, to, k, n + 1) == CopyEnt(ent, from, to, k, n)
  {
  }

  /** One more entry reached changes nothing but the two slots of that entry. */
  lemma CopyElsewhere(ent: EntryMap, from: int, to: int, k: int, n: int, r: Slot)
    requires r != Slot(from + k, n) && r != Slot(to + k, n)
    ensures r in CopyEnt(ent, from, to, k, n + 1) <==> r in CopyEnt(ent, from, to, k, n)
    ensures r in CopyEnt(ent, from, to, k, n) ==>
      CopyEnt(ent, from, to, k, n + 1)[r] == CopyEnt(ent, from, to, k, n)[r]
  {
  }

  lemma CopyHere(ent: EntryMap, from: int, to: int, k: int, n: int, m: int, s: Slot, t: Slot)
    requires UserEntries(ent) && Ranges(from, to, m) && 0 <= k < m && 0 <= n < WORDS
    requires s == Slot(from + k, n) && t == Slot(to + k, n) && s in ent && t !in ent
    ensures t in CopyEnt(ent, from, to, k, n + 1) && CopyEnt(ent, from, to, k, n + 1)[t] == ReadOnly(ent[s])
    ensures s in CopyEnt(ent, from, to, k, n + 1) && s in CopyEnt(ent, from, to, k, n)
    ensures CopyEnt(ent, from, to, k, n + 1)[s] == if LOW <= ent[s].frame then ReadOnly(ent[s])
      else CopyEnt(ent, from, to, k, n)[s]
  {
    assert Source(t, from, to) == s;
  }

  lemma CopyPresent(ent: EntryMap, from: int, to: int, k: int, n: int, m: int, s: Slot, t: Slot)
    requires UserEntries(ent) && Ranges(from, to, m) && 0 <= k < m && 0 <= n < WORDS
    requires s == Slot(from + k, n) && t == Slot(to + k, n) && s in ent && t !in ent && LOW <= ent[s].frame
    ensures CopyEnt(ent, from, to, k, n + 1)
      == CopyEnt(ent, from, to, k, n)[s := ReadOnly(ent[s])][t := ReadOnly(ent[s])]
  {
    hide CopyEnt, UserEntries;
    CopyHere(ent, from, to, k, n, m, s, t);
    forall r | r != s && r != t
      ensures r in CopyEnt(ent, from, to, k, n + 1) <==> r in CopyEnt(ent, from, to, k, n)
      ensures r in CopyEnt(ent, from, to, k, n) ==>
        CopyEnt(ent, from, to, k, n + 1)[r] == CopyEnt(ent, from, to, k, n)[r]
    {
      CopyElsewhere(ent, from, to, k, n, r);
    }
  }

  lemma CopyPresentLow(ent: EntryMap, from: int, to: int, k: int, n: int, m: int, s: Slot, t: Slot)
    requires UserEntries(ent) && Ranges(from, to, m) && 0 <= k < m && 0 <= n < WORDS
    requires s == Slot(from + k, n) && t == Slot(to + k, n) && s in ent && t !in ent && ent[s].frame < LOW
    ensures CopyEnt(ent, from, to, k, n + 1) == CopyEnt(ent, from, to, k, n)[t := ReadOnly(ent[s])]
  {
    hide CopyEnt, UserEntries;
    CopyHere(ent, from, to, k, n, m, s, t);
    forall r | r != s && r != t
      ensures r in CopyEnt(ent, from, to, k, n + 1) <==> r in CopyEnt(ent, from, to, k, n)
      ensures r in CopyEnt(ent, from, to, k, n) ==>
        CopyEnt(ent, from, to, k, n + 1)[r] == CopyEnt(ent, from, to, k, n)[r]
    {
      CopyElsewhere(ent, from, to, k, n, r);
    }
  }

  /** Taking the copy back leaves the old entries, up to write protection. */
  lemma CopyUndone(ent: EntryMap, from: int, to: int, k: int, m: int)
    requires UserEntries(ent) && Ranges(from, to, m) && 0 <= k <= m
    requires forall s :: s in ent ==> !(to <= s.dir < to + m)
    ensures EntOutside(CopyEnt(ent, from, to, k, 0), to, to + m, 0).Keys == ent.Keys
    ensures forall s :: s in ent ==> EntOutside(CopyEnt(ent, from, to, k, 0), to, to + m, 0)[s].frame == ent[s].frame
  {
  }

  lemma TableUndone(tab: TableMap, tab': TableMap, from: int, to: int, k: int, m: int)
    requires TabGrown(tab, tab', from, to, k) && 0 <= k <= m
    requires forall d :: d in tab ==> !(to <= d < to + m)
    ensures TabOutside(tab', to, to + m) == tab
  {
    forall d | d in tab ensures d in TabOutside(tab', to, to + m) && tab'[d] == tab[d] { }
    forall d | d in TabOutside(tab', to, to + m) ensures d in tab { }
  }

  /** Memory after one pass of the inner loop of copy_page_tables, from entry s to entry t. */
  ghost function Shared(m: Phys, s: Slot, t: Slot): (m': Phys)
    requires Sized(m) && s.dir in Tab(m) && t.dir in Tab(m) && 0 <= s.idx < WORDS && 0 <= t.idx < WORDS
    ensures |m'| == |m| && Sized(m') && Tab(m') == Tab(m)
  {
    if s !in Ent(m) then m
    else if LOW <= Ent(m)[s].frame then Written(Written(m, t, ReadOnly(Ent(m)[s])), s, ReadOnly(Ent(m)[s]))
    else Written(m, t, ReadOnly(Ent(m)[s]))
  }

  /** mem_map after that pass. */
  ghost function SharedRefs(ent: EntryMap, mm: seq<int>, s: Slot): seq<int> {
    if s in ent && LOW <= ent[s].frame < LOW + |mm|
      then mm[ent[s].frame - LOW := mm[ent[s].frame - LOW] + 1] else mm
  }

  lemma SharedStep(m: Phys, mm: seq<int>, holds: seq<nat>, home: seq<Slot>, s: Slot, t: Slot)
    requires Good(m, mm, holds, home) && s.dir in Tab(m) && t.dir in Tab(m) && t !in Ent(m)
    requires 0 <= s.idx < WORDS && t.idx == s.idx && t.dir % SPACE == s.dir % SPACE
    requires |mm| == PAGING_PAGES && |m| <= LOW + PAGING_PAGES && FIRST_USER <= s.dir < WORDS
    ensures s in Ent(m) && LOW <= Ent(m)[s].frame ==> Ent(m)[s].frame < |m| && 1 <= mm[Ent(m)[s].frame - LOW] < 255
    ensures Good(Shared(m, s, t), SharedRefs(Ent(m), mm, s), holds, home)
    ensures s in Ent(m) && LOW <= Ent(m)[s].frame ==>
      Ent(Shared(m, s, t)) == Ent(m)[s := ReadOnly(Ent(m)[s])][t := ReadOnly(Ent(m)[s])]
    ensures s in Ent(m) && Ent(m)[s].frame < LOW ==> Ent(Shared(m, s, t)) == Ent(m)[t := ReadOnly(Ent(m)[s])]
    ensures s !in Ent(m) ==> Ent(Shared(m, s, t)) == Ent(m)
    ensures SamePages(m, Shared(m, s, t))
  {
    hide Inv, Tab, Ent, Sized, SamePages, Written;
    TableAt(m, mm, holds, home, s.dir);
    if s in Ent(m) {
      if LOW <= Ent(m)[s].frame {
        ShareStep(m, mm, holds, home, s, t, ReadOnly(Ent(m)[s]));
      } else {
        ShareLowStep(m, mm, holds, home, t, ReadOnly(Ent(m)[s]));
      }
    } else {
      SamePagesStart(m);
    }
  }

  /** The same in terms of words. */
  lemma SharedWords(m: Phys, mm: seq<int>, holds: seq<nat>, home: seq<Slot>, s: Slot, t: Slot, ft: int, tt: int)
    requires Good(m, mm, holds, home) && s.dir in Tab(m) && t.dir in Tab(m) && s.dir != t.dir
    requires 0 <= s.idx < WORDS && t.idx == s.idx && ft == Tab(m)[s.dir] && tt == Tab(m)[t.dir]
    ensures LOW <= ft < |m| && LOW <= tt < |m| && |m[ft]| == WORDS && |m[tt]| == WORDS && ft != tt
      && |mm| == PAGING_PAGES
    ensures |m[tt := m[tt][t.idx := ReadOnly(m[ft][s.idx])]][ft]| == WORDS
    ensures m[ft][s.idx].present ==> s in Ent(m) && Ent(m)[s] == m[ft][s.idx]
    ensures !m[ft][s.idx].present ==> Shared(m, s, t) == m && SharedRefs(Ent(m), mm, s) == mm
    ensures m[ft][s.idx].present && m[ft][s.idx].frame < LOW ==>
      Shared(m, s, t) == m[tt := m[tt][t.idx := ReadOnly(m[ft][s.idx])]] && SharedRefs(Ent(m), mm, s) == mm
    ensures m[ft][s.idx].present && LOW <= m[ft][s.idx].frame ==>
      Shared(m, s, t) == m[tt := m[tt][t.idx := ReadOnly(m[ft][s.idx])]][ft := m[ft][s.idx := ReadOnly(m[ft][s.idx])]]
    ensures m[ft][s.idx].present && LOW <= m[ft][s.idx].frame < LOW + |mm| ==>
      SharedRefs(Ent(m), mm, s) == mm[m[ft][s.idx].frame - LOW := mm[m[ft][s.idx].frame - LOW] + 1]
  {
    hide Inv, Sized, Tab, Ent;
    TwoTables(Tab(m), Ent(m), mm, holds, home, s.dir, t.dir);
    TableAt(m, mm, holds, home, s.dir);
    TableAt(m, mm, holds, home, t.dir);
  }

  lemma CopyOne(m0: Phys, m: Phys, mm: seq<int>, holds: seq<nat>, home: seq<Slot>,
                from: int, to: int, k: int, n: int, cnt: int, s: Slot, t: Slot)
    requires Sized(m0) && UserEntries(Ent(m0)) && Good(m, mm, holds, home) && SamePages(m0, m)
    requires Ent(m) == CopyEnt(Ent(m0), from, to, k, n) && s == Slot(from + k, n) && t == Slot(to + k, n)
    requires Ranges(from, to, cnt) && 0 <= k < cnt && 0 <= n < WORDS && s.dir in Tab(m) && t.dir in Tab(m)
    requires forall r :: r in Ent(m0) ==> r.dir != to + k
    requires |mm| == PAGING_PAGES && |m| <= LOW + PAGING_PAGES
    ensures s in Ent(m) && LOW <= Ent(m)[s].frame ==> Ent(m)[s].frame < |m| && 1 <= mm[Ent(m)[s].frame - LOW] < 255
    ensures Good(Shared(m, s, t), SharedRefs(Ent(m), mm, s), holds, home)
    ensures Ent(Shared(m, s, t)) == CopyEnt(Ent(m0), from, to, k, n + 1)
    ensures SamePages(m0, Shared(m, s, t))
  {
    hide Inv, Tab, Ent, Sized, SamePages, Written, Shared, CopyEnt, UserEntries, SharedRefs, Ranges;
    SlotsMatch(from, to, cnt, k);
    CopyAhead(Ent(m0), from, to, k, n, cnt);
    CopyKeeps(Ent(m0), from, to, k, n);
    SharedStep(m, mm, holds, home, s, t);
    SamePagesTwice(m0, m, Shared(m, s, t));
    NextCopied(Ent(m0), Ent(m), Ent(Shared(m, s, t)), from, to, k, n, cnt, s, t);
  }

  lemma SlotsMatch(from: int, to: int, cnt: int, k: int)
    requires Ranges(from, to, cnt) && 0 <= k < cnt
    ensures (to + k) % SPACE == (from + k) % SPACE && FIRST_USER <= from + k < WORDS && FIRST_USER <= to + k < WORDS
  {
    SameShifted(from, to, k);
  }

  lemma SameShifted(a: int, b: int, k: int)
    requires a % SPACE == b % SPACE
    ensures (a + k) % SPACE == (b + k) % SPACE
  {
    var q, r := (a + k) / SPACE, (a + k) % SPACE;
    assert b + k == SPACE * (q + b / SPACE - a / SPACE) + r;
    Remainder(b + k, q + b / SPACE - a / SPACE, r);
  }

  lemma Remainder(x: int, q: int, r: int)
    requires x == SPACE * q + r && 0 <= r < SPACE
    ensures x % SPACE == r
  {
  }

  /** The kernel's page table for its first 4 MB is below LOW_MEM, and so are the pages of its first 640 KB. */
  predicate KernelTable(m: Phys) {
    && LOW < |m| && |m[0]| == WORDS && m[0][0].present && 0 < m[0][0].frame < LOW && |m[m[0][0].frame]| == WORDS
    && forall i :: 0 <= i < FIRST_PAGES && m[m[0][0].frame][i].present ==> m[m[0][0].frame][i].frame < LOW
  }

  /** The entries after the first n words of the kernel's table were copied, read-only, to directory slot d. */
  ghost function FirstEnt(ent: EntryMap, words: seq<Word>, d: int, n: nat): EntryMap
    requires n <= |words|
  {
    if n == 0 then ent
    else if words[n - 1].present then FirstEnt(ent, words, d, n - 1)[Slot(d, n - 1) := ReadOnly(words[n - 1])]
    else FirstEnt(ent, words, d, n - 1)
  }

  lemma {:induction false} FirstEntAt(ent: EntryMap, words: seq<Word>, d: int, n: nat)
    requires n <= |words| && forall s :: s in ent ==> s.dir != d
    ensures forall s :: s in FirstEnt(ent, words, d, n) <==>
      s in ent || (s.dir == d && 0 <= s.idx < n && words[s.idx].present)
    ensures forall s :: s in ent ==> s in FirstEnt(ent, words, d, n) && FirstEnt(ent, words, d, n)[s] == ent[s]
    ensures forall i :: 0 <= i < n && words[i].present ==>
      Slot(d, i) in FirstEnt(ent, words, d, n) && FirstEnt(ent, words, d, n)[Slot(d, i)] == ReadOnly(words[i])
  {
    if n > 0 { FirstEntAt(ent, words, d, n - 1); }
  }

  /** The map of entries after one pass. */
  lemma NextCopied(ent0: EntryMap, ent: EntryMap, ent': EntryMap, from: int, to: int, k: int, n: int, cnt: int, s: Slot,
                   t: Slot)
    requires UserEntries(ent0) && Ranges(from, to, cnt) && 0 <= k < cnt && 0 <= n < WORDS
    requires ent == CopyEnt(ent0, from, to, k, n) && s == Slot(from + k, n) && t == Slot(to + k, n) && t !in ent0
    requires s in ent <==> s in ent0
    requires s in ent0 ==> ent[s] == ent0[s]
    requires s in ent && LOW <= ent[s].frame ==> ent' == ent[s := ReadOnly(ent[s])][t := ReadOnly(ent[s])]
    requires s in ent && ent[s].frame < LOW ==> ent' == ent[t := ReadOnly(ent[s])]
    requires s !in ent ==> ent' == ent
    ensures ent' == CopyEnt(ent0, from, to, k, n + 1)
  {
    hide CopyEnt, UserEntries;
    if s !in ent0 {
      CopyAbsent(ent0, from, to, k, n);
    } else if LOW <= ent0[s].frame {
      CopyPresent(ent0, from, to, k, n, cnt, s, t);
    } else {
      CopyPresentLow(ent0, from, to, k, n, cnt, s, t);
    }
  }

  // ---------- what a fork and a store mean ----------

  predicate InSpace(s: Slot, task: int) { task * SPACE <= s.dir < (task + 1) * SPACE }

  /** The slot at the same offset of another address space. */
  ghost function Twin(s: Slot, task: int, other: int): Slot { Slot(s.dir - task * SPACE + other * SPACE, s.idx) }

  /** The slot is in the first n directory slots of the task. */
  predicate Limited(s: Slot, task: int, n: int) { task * SPACE <= s.dir < task * SPACE + n }

  /** m' is m after task `parent` forked task `child`: both see the pages in the parent's first n directory slots,
      both read-only, and no other entry changed or came. */
  ghost predicate Forked(m: Phys, m': Phys, parent: int, child: int, n: int)
    requires Sized(m) && Sized(m')
  {
    && SamePages(m, m')
    && (forall s :: s in Ent(m) ==> s in Ent(m') && Ent(m')[s].frame == Ent(m)[s].frame)
    && (forall s :: s in Ent(m) && !Limited(s, parent, n) ==> Ent(m')[s] == Ent(m)[s])
    && (forall s :: s in Ent(m) && Limited(s, parent, n) ==>
          && Twin(s, parent, child) in Ent(m')
          && Ent(m')[Twin(s, parent, child)] == ReadOnly(Ent(m)[s])
          && (LOW <= Ent(m)[s].frame ==> Ent(m')[s] == ReadOnly(Ent(m)[s])))
    && (forall s :: s in Ent(m') && s !in Ent(m) ==>
       InSpace(s, child) && Limited(s, child, n) && Twin(s, child, parent) in Ent(m))
  }

  ghost predicate ForkRange(ent: EntryMap, parent: int, child: int, n: int) {
    && UserEntries(ent) && 1 <= parent < 64 && 1 <= child < 64 && parent != child && 0 <= n <= SPACE
    && (forall s :: s in ent ==> !Limited(s, child, n))
  }

  lemma ForkTwins(ent: EntryMap, parent: int, child: int, n: int, s: Slot)
    requires ForkRange(ent, parent, child, n) && s in ent && Limited(s, parent, n)
    ensures Twin(s, parent, child) in CopyEnt(ent, parent * SPACE, child * SPACE, n, 0)
    ensures CopyEnt(ent, parent * SPACE, child * SPACE, n, 0)[Twin(s, parent, child)] == ReadOnly(ent[s])
    ensures LOW <= ent[s].frame ==> CopyEnt(ent, parent * SPACE, child * SPACE, n, 0)[s] == ReadOnly(ent[s])
  {
    assert Source(Twin(s, parent, child), parent * SPACE, child * SPACE) == s;
    assert Twin(s, parent, child) !in ent by { assert Limited(Twin(s, parent, child), child, n); }
  }

  lemma ForkOthers(ent: EntryMap, parent: int, child: int, n: int, s: Slot)
    requires ForkRange(ent, parent, child, n) && s in ent && !Limited(s, parent, n)
    ensures CopyEnt(ent, parent * SPACE, child * SPACE, n, 0)[s] == ent[s]
  {
  }

  lemma ForkNew(ent: EntryMap, parent: int, child: int, n: int, s: Slot)
    requires ForkRange(ent, parent, child, n) && s !in ent && s in CopyEnt(ent, parent * SPACE, child * SPACE, n, 0)
    ensures InSpace(s, child) && Limited(s, child, n) && Twin(s, child, parent) in ent
  {
  }

  lemma CopyIsFork(m: Phys, m': Phys, parent: int, child: int, n: int)
    requires Sized(m) && Sized(m') && SamePages(m, m') && ForkRange(Ent(m), parent, child, n)
    requires Ent(m') == CopyEnt(Ent(m), parent * SPACE, child * SPACE, n, 0)
    ensures Forked(m, m', parent, child, n)
  {
    hide SamePages, Ent, Sized, CopyEnt, InSpace, Limited, Twin, UserEntries;
    CopyKeeps(Ent(m), parent * SPACE, child * SPACE, n, 0);
    forall s | s in Ent(m) && Limited(s, parent, n)
      ensures Twin(s, parent, child) in Ent(m') && Ent(m')[Twin(s, parent, child)] == ReadOnly(Ent(m)[s])
      ensures LOW <= Ent(m)[s].frame ==> Ent(m')[s] == ReadOnly(Ent(m)[s])
    {
      ForkTwins(Ent(m), parent, child, n, s);
    }
    forall s | s in Ent(m) && !Limited(s, parent, n) ensures Ent(m')[s] == Ent(m)[s] {
      ForkOthers(Ent(m), parent, child, n, s);
    }
    forall s | s in Ent(m') && s !in Ent(m)
      ensures InSpace(s, child) && Limited(s, child, n) && Twin(s, child, parent) in Ent(m)
    {
      ForkNew(Ent(m), parent, child, n, s);
    }
  }

  /** m' is m with word k of the page behind entry s set, as far as any task can see. */
  ghost predicate OnlyStored(m: Phys, m': Phys, s: Slot, k: int, w: Word)
    requires Sized(m) && Sized(m')
  {
    && s in Ent(m) && Ent(m').Keys == Ent(m).Keys && 0 <= k < WORDS
    && 0 <= Ent(m)[s].frame < |m| && LOW <= Ent(m')[s].frame < |m'|
    && m'[Ent(m')[s].frame] == m[Ent(m)[s].frame][k := w]
    && forall t :: t in Ent(m) && t != s ==>
         && Ent(m')[t] == Ent(m)[t]
         && (Ent(m)[t].frame < |m| ==> |m'| == |m| && m'[Ent(m)[t].frame] == m[Ent(m)[t].frame])
  }

  lemma StoreStep(m: Phys, m1: Phys, mm: seq<int>, holds: seq<nat>, home: seq<Slot>, s: Slot, k: int, w: Word)
    requires Sized(m) && Good(m1, mm, holds, home) && Unshared(m, m1, s) && 0 <= k < WORDS
    ensures LOW <= Ent(m1)[s].frame < |m1| && |m1[Ent(m1)[s].frame]| == WORDS
    ensures Good(m1[Ent(m1)[s].frame := m1[Ent(m1)[s].frame][k := w]], mm, holds, home)
    ensures Sized(m1[Ent(m1)[s].frame := m1[Ent(m1)[s].frame][k := w]])
    ensures OnlyStored(m, m1[Ent(m1)[s].frame := m1[Ent(m1)[s].frame][k := w]], s, k, w)
  {
    hide Inv, Tab, Ent;
    EntryAt(m1, mm, holds, home, s);
    SoleEntry(Tab(m1), Ent(m1), mm, holds, home, s);
    FillStep(m1, mm, holds, home, s, m1[Ent(m1)[s].frame][k := w]);
  }

  lemma AlreadyUnshared(m: Phys, mm: seq<int>, holds: seq<nat>, home: seq<Slot>, s: Slot)
    requires Good(m, mm, holds, home) && s in Ent(m) && Ent(m)[s].writable
    ensures Unshared(m, m, s)
  {
    hide Inv, Tab, Ent, Sized;
    EntryAt(m, mm, holds, home, s);
  }

  lemma EntryOf(m: Phys, m': Phys, s: Slot)
    requires Sized(m) && Unshared(m, m', s)
    ensures Sized(m') && s in Ent(m') && |m'| == |m|
  {
    hide Tab, Ent;
  }

  /** The same entries with the same pages; write permission may be gone. */
  ghost predicate Reprotected(m: Phys, m': Phys)
    requires Sized(m) && Sized(m')
  {
    && SamePages(m, m') && Ent(m').Keys == Ent(m).Keys
    && forall s :: s in Ent(m) ==> Ent(m')[s] == Ent(m)[s] || Ent(m')[s] == ReadOnly(Ent(m)[s])
  }

  lemma CopyUndoneWords(ent: EntryMap, from: int, to: int, k: int, m: int)
    requires UserEntries(ent) && Ranges(from, to, m) && 0 <= k <= m
    requires forall s :: s in ent ==> !(to <= s.dir < to + m)
    ensures forall s :: s in ent && s in EntOutside(CopyEnt(ent, from, to, k, 0), to, to + m, 0) ==>
      EntOutside(CopyEnt(ent, from, to, k, 0), to, to + m, 0)[s] in {ent[s], ReadOnly(ent[s])}
  {
  }

  lemma ShrunkPages(m: Phys, m1: Phys, m2: Phys)
    requires Sized(m) && Sized(m1) && Sized(m2) && SamePages(m, m1) && Shrunk(m1, m2)
    requires Ent(m2).Keys == Ent(m).Keys && forall s :: s in Ent(m) ==> Ent(m2)[s].frame == Ent(m)[s].frame
    ensures SamePages(m, m2)
  {
    hide Sized, Ent;
  }

  /** A fork that ran out of memory and was freed again: every count is what it was. */
  lemma RolledBack(m: Phys, m1: Phys, m2: Phys, mm: seq<int>, mm2: seq<int>, holds: seq<nat>, home: seq<Slot>,
                   home2: seq<Slot>,
                   from: int, to: int, k: int, n: int)
    requires Good(m, mm, holds, home) && Sized(m1) && Good(m2, mm2, holds, home2) && SamePages(m, m1) && Shrunk(m1, m2)
    requires CopiedTo(m, m1, from, to, k) && Ranges(from, to, n) && 0 <= k <= n
    requires Tab(m2) == TabOutside(Tab(m1), to, to + n) && Ent(m2) == EntOutside(Ent(m1), to, to + n, 0)
    requires forall d :: d in Tab(m) ==> !(to <= d < to + n)
    ensures mm2 == mm && Tab(m2) == Tab(m) && Reprotected(m, m2)
  {
    hide Inv, Tab, Ent, Sized, SamePages, Shrunk, UserEntries, CopyEnt, TabGrown, EntOutside, TabOutside,
      Counted, Apart;
    AllUserEntries(m, mm, holds, home);
    CopyUndone(Ent(m), from, to, k, n);
    CopyUndoneWords(Ent(m), from, to, k, n);
    TableUndone(Tab(m), Tab(m1), from, to, k, n);
    SizeFacts(Tab(m), Ent(m), mm, holds, home);
    SizeFacts(Tab(m2), Ent(m2), mm2, holds, home2);
    SameNamesSameCounts(Tab(m), Ent(m), mm, Ent(m2), mm2, holds);
    ShrunkPages(m, m1, m2);
  }

  /** Word k of the page behind entry t is the same; frame 0 is the page directory. */
  ghost predicate WordStays(m: Phys, m': Phys, t: Slot, k: int)
    requires Sized(m) && Sized(m')
  {
    && t in Ent(m) && t in Ent(m') && 0 < Ent(m)[t].frame < |m| && 0 < Ent(m')[t].frame < |m'| && 0 <= k < WORDS
    && m'[Ent(m')[t].frame][k] == m[Ent(m)[t].frame][k]
  }

  /** The page behind t is the same. */
  lemma PageStays(m: Phys, m': Phys, t: Slot, k: int)
    requires Sized(m) && Sized(m') && |m'| == |m| && t in Ent(m) && t in Ent(m') && 0 <= k < WORDS
    requires Ent(m')[t].frame == Ent(m)[t].frame && 0 < Ent(m)[t].frame < |m|
    requires m'[Ent(m)[t].frame] == m[Ent(m)[t].frame]
    ensures WordStays(m, m', t, k)
  {
    hide Ent, Sized;
  }

  /** A store changes the one word. */
  lemma StoredStays(m: Phys, m': Phys, s: Slot, k: int, w: Word, t: Slot, j: int)
    requires Sized(m) && Sized(m') && OnlyStored(m, m', s, k, w) && t in Ent(m) && 0 < Ent(m)[t].frame < |m|
    requires 0 <= j < WORDS && !(t == s && j == k)
    ensures WordStays(m, m', t, j)
  {
    hide Ent;
  }

  lemma StaysTwice(m: Phys, m1: Phys, m2: Phys, t: Slot, k: int)
    requires Sized(m) && Sized(m1) && Sized(m2) && WordStays(m, m1, t, k) && WordStays(m1, m2, t, k)
    ensures WordStays(m, m2, t, k)
  {
    hide Ent, Sized;
  }

  /** The memory while stores go through the entries `slots`, one after the other. */
  ghost predicate Stores(ms: seq<Phys>, slots: seq<Slot>, ks: seq<int>, ws: seq<Word>) {
    && |ms| == |slots| + 1 && |slots| == |ks| == |ws| && (forall j :: 0 <= j < |ms| ==> Sized(ms[j]))
    && forall j :: 0 <= j < |slots| ==> OnlyStored(ms[j], ms[j + 1], slots[j], ks[j], ws[j])
  }

  /** Whatever one task stores, no other task sees a page change. */
  lemma {:induction false} StoresIsolate(ms: seq<Phys>, slots: seq<Slot>, ks: seq<int>, ws: seq<Word>, task: int,
                                         n: nat)
    requires Stores(ms, slots, ks, ws) && n < |ms| && forall j :: 0 <= j < n ==> InSpace(slots[j], task)
    ensures forall t :: t in Ent(ms[0]) && !InSpace(t, task) ==> t in Ent(ms[n]) && Ent(ms[n])[t] == Ent(ms[0])[t]
    ensures forall t :: t in Ent(ms[0]) && !InSpace(t, task) && Ent(ms[0])[t].frame < |ms[0]| ==>
      |ms[n]| == |ms[0]| && ms[n][Ent(ms[0])[t].frame] == ms[0][Ent(ms[0])[t].frame]
  {
    hide Ent, Sized, InSpace;
    if n > 0 {
      StoresIsolate(ms, slots, ks, ws, task, n - 1);
      assert OnlyStored(ms[n - 1], ms[n - 1 + 1], slots[n - 1], ks[n - 1], ws[n - 1]);
      forall t | t in Ent(ms[0]) && !InSpace(t, task) ensures t in Ent(ms[n]) && Ent(ms[n])[t] == Ent(ms[0])[t] {
        assert t in Ent(ms[n - 1]) && t != slots[n - 1];
      }
    }
  }

  /** After a fork, whatever the child stores, everybody else reads what he read right after the fork, and, but for
      a page directory that somebody may have mapped, what he read before the fork. */
  lemma ForkIsolates(m: Phys, ms: seq<Phys>, slots: seq<Slot>, ks: seq<int>, ws: seq<Word>,
                     parent: int, child: int, n: int)
    requires Stores(ms, slots, ks, ws) && Sized(m) && Forked(m, ms[0], parent, child, n)
    requires forall j :: 0 <= j < |slots| ==> InSpace(slots[j], child)
    requires forall t :: t in Ent(m) ==> !InSpace(t, child)
    ensures forall t :: t in Ent(m) && Ent(m)[t].frame < |m| ==>
      && t in Ent(ms[0]) && t in Ent(ms[|slots|]) && Ent(ms[|slots|])[t] == Ent(ms[0])[t]
      && Ent(ms[0])[t].frame == Ent(m)[t].frame && |ms[|slots|]| == |ms[0]| == |m|
      && ms[|slots|][Ent(m)[t].frame] == ms[0][Ent(m)[t].frame]
      && (Ent(m)[t].frame > 0 ==> ms[|slots|][Ent(m)[t].frame] == m[Ent(m)[t].frame])
  {
    hide Ent, Sized, OnlyStored, InSpace;
    StoresIsolate(ms, slots, ks, ws, child, |slots|);
  }

  /** A task gets page g at an absent entry, perhaps with a new page table. */
  ghost predicate PagePut(m: Phys, m': Phys, t: Slot, g: nat)
    requires Sized(m) && Sized(m')
  {
    && SamePages(m, m') && Ent(m') == Ent(m)[t := Attach(g)]
    && (forall d :: d in Tab(m) ==> d in Tab(m')) && (forall d :: d in Tab(m') ==> d in Tab(m) || d == t.dir)
  }

  lemma PutIsPut(m: Phys, m1: Phys, m2: Phys, t: Slot, g: nat)
    requires Sized(m) && Sized(m1) && Sized(m2) && SamePages(m, m1) && SamePages(m1, m2)
    requires Ent(m1) == Ent(m) && Ent(m2) == Ent(m)[t := Attach(g)] && Tab(m2) == Tab(m1)
    requires forall d :: d in Tab(m) ==> d in Tab(m1)
    requires forall d :: d in Tab(m1) ==> d in Tab(m) || d == t.dir
    ensures PagePut(m, m2, t, g)
  {
    hide SamePages, Ent, Sized, Tab;
    SamePagesTwice(m, m1, m2);
  }

  /** The entry of another task's page is now also at slot t; both are read-only. */
  ghost predicate PageShared(m: Phys, m': Phys, s: Slot, t: Slot)
    requires Sized(m) && Sized(m')
  {
    && s in Ent(m) && SamePages(m, m')
    && Ent(m') == Ent(m)[s := ReadOnly(Ent(m)[s])][t := ReadOnly(Ent(m)[s])]
  }

  lemma ShareIsShare(m: Phys, m1: Phys, m2: Phys, s: Slot, t: Slot)
    requires Sized(m) && Sized(m1) && Sized(m2) && SamePages(m, m1) && SamePages(m1, m2)
    requires s in Ent(m) && Ent(m1) == Ent(m)
    requires Ent(m2) == Ent(m)[s := ReadOnly(Ent(m)[s])][t := ReadOnly(Ent(m)[s])]
    ensures PageShared(m, m2, s, t)
  {
    hide SamePages, Ent, Sized;
    SamePagesTwice(m, m1, m2);
  }

  /** Before any task but task 0 runs. */
  lemma NoUsersYet(m: Phys, mm: seq<int>, home: seq<Slot>)
    requires Sized(m) && |home| == |m| && |mm| == PAGING_PAGES && (forall k :: 0 <= k < |mm| ==> mm[k] >= 0)
    requires forall d :: FIRST_USER <= d < WORDS ==> !m[0][d].present
    requires forall k :: |m| - LOW <= k < PAGING_PAGES ==> mm[k] == USED
    ensures Good(m, mm, seq(|m|, f requires 0 <= f < |m| => if f < LOW then 0 else mm[f - LOW]), home)
  {
    assert Tab(m) == map[];
    assert Ent(m) == map[];
    forall f ensures Uses(Ent(m), f) == {} && Tables(Tab(m), f) == {} { }
  }

  lemma PutAfter(m: Phys, m1: Phys, m2: Phys, t: Slot, g: nat)
    requires Sized(m) && Sized(m1) && Sized(m2) && SamePages(m, m1) && Ent(m1) == Ent(m) && Tab(m1) == Tab(m)
    requires PagePut(m1, m2, t, g)
    ensures PagePut(m, m2, t, g)
  {
    hide SamePages, Ent, Sized, Tab;
    SamePagesTwice(m, m1, m2);
  }
}
