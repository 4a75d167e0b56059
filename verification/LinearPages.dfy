/** The page tables as the processor reads them: an entry of the page directory in page 0, then an entry of the page
    table it names. These lemmas say what fork, sharing and faults mean for linear page numbers. */
module LinearPages {
  import opened PageTables
  import opened PageSteps

  /** There is a present entry for linear page x. */
  predicate Mapped(m: Phys, x: int) {
    && 0 <= x < 0x100000 && |m| > 0 && |m[0]| == 1024 && m[0][x / 1024].present && m[0][x / 1024].frame < |m|
    && |m[m[0][x / 1024].frame]| == 1024 && m[m[0][x / 1024].frame][x % 1024].present
  }

  /** That entry. */
  function Pte(m: Phys, x: int): Word
    requires Mapped(m, x)
  {
    m[m[0][x / 1024].frame][x % 1024]
  }

  /** A page of zeros. */
  predicate AllZero(p: seq<Word>) {
    |p| == 1024 && forall i :: 0 <= i < 1024 ==> p[i] == Word(0, 0, false, false, false, false)
  }

  /** The same page with the same flags, but not writable. */
  predicate Protected(w: Word, w': Word) {
    && w'.frame == w.frame && w'.rest == w.rest && w'.dirty == w.dirty && w'.user == w.user && w'.present == w.present
    && !w'.writable
  }

  /** A page of the tasks 1 to 63. */
  predicate InUserSpace(x: int) { 0x4000 <= x < 0x100000 }

  /** The page in frame f is the same; frame 0 is the page directory. */
  predicate SameFrame(m: Phys, m': Phys, f: nat) { 0 < f < |m| ==> f < |m'| && m'[f] == m[f] }

  /** Linear page x has the same entry and the same page. */
  predicate SamePage(m: Phys, m': Phys, x: int) {
    (Mapped(m', x) <==> Mapped(m, x)) && (Mapped(m, x) ==> Pte(m', x) == Pte(m, x) && SameFrame(m, m', Pte(m, x).frame))
  }

  /** Page x of the parent after a fork: the child has the same page at its page x, read-only for both unless it is
      below 1 MB, where the parent may go on writing. */
  predicate ForkedAt(m: Phys, m': Phys, parent: int, child: int, x: int) {
    && (Mapped(m', 0x4000 * child + x) <==> Mapped(m, 0x4000 * parent + x))
    && (Mapped(m, 0x4000 * parent + x) ==>
          && Mapped(m', 0x4000 * parent + x) && SameFrame(m, m', Pte(m, 0x4000 * parent + x).frame)
          && Protected(Pte(m, 0x4000 * parent + x), Pte(m', 0x4000 * child + x))
          && if Pte(m, 0x4000 * parent + x).frame < 0x100
             then Pte(m', 0x4000 * parent + x).frame == Pte(m, 0x4000 * parent + x).frame
             else Protected(Pte(m, 0x4000 * parent + x), Pte(m', 0x4000 * parent + x)))
  }

  /** All pages below the limit. */
  ghost predicate ForkedBelow(m: Phys, m': Phys, parent: int, child: int, limit: nat) {
    && (forall x :: 0 <= x && 4096 * x < limit ==> ForkedAt(m, m', parent, child, x))
    && (forall y :: InUserSpace(y) && y / 0x4000 != parent && y / 0x4000 != child ==> SamePage(m, m', y))
  }

  lemma MappedIs(m: Phys, mm: seq<int>, holds: seq<nat>, home: seq<Slot>, x: int)
    requires Good(m, mm, holds, home) && InUserSpace(x)
    ensures Sized(m) && (Mapped(m, x) <==> Slot(x / 1024, x % 1024) in Ent(m))
    ensures Mapped(m, x) ==> Pte(m, x) == Ent(m)[Slot(x / 1024, x % 1024)] && Pte(m, x).frame < |m|
  {
    hide Inv, Ent, Tab;
    TableAt(m, mm, holds, home, x / 1024);
  }

  lemma TaskPage(task: int, x: int)
    requires 1 <= task < 64 && 0 <= x < 0x4000
    ensures InUserSpace(0x4000 * task + x) && (0x4000 * task + x) / 0x4000 == task
    ensures (0x4000 * task + x) / 1024 == 16 * task + x / 1024 && (0x4000 * task + x) % 1024 == x % 1024
    ensures 0 <= x / 1024 < 16 && 0 <= x % 1024 < 1024
  {
  }

  lemma TaskOf(y: int)
    requires InUserSpace(y)
    ensures 1 <= y / 0x4000 < 64 && (y / 0x4000) * 16 <= y / 1024 < (y / 0x4000 + 1) * 16
  {
  }

  lemma ForkedSlot(m: Phys, m': Phys, parent: int, child: int, n: int, s: Slot, t: Slot)
    requires Sized(m) && Sized(m') && Forked(m, m', parent, child, n) && Limited(s, parent, n)
    requires t == Slot(s.dir - parent * SPACE + child * SPACE, s.idx) && t !in Ent(m)
    ensures t in Ent(m') <==> s in Ent(m)
    ensures s in Ent(m) ==>
      && s in Ent(m') && Protected(Ent(m)[s], Ent(m')[t]) && SameFrame(m, m', Ent(m)[s].frame)
      && Ent(m')[s].frame == Ent(m)[s].frame && (0x100 <= Ent(m)[s].frame ==> Protected(Ent(m)[s], Ent(m')[s]))
  {
    hide Ent, Sized;
    assert Twin(s, parent, child) == t && Twin(t, child, parent) == s;
  }

  lemma ForkedPage(m: Phys, mm: seq<int>, holds: seq<nat>, home: seq<Slot>,
                   m': Phys, mm': seq<int>, holds': seq<nat>, home': seq<Slot>, parent: int, child: int, n: int, x: int)
    requires Good(m, mm, holds, home) && Good(m', mm', holds', home') && 1 <= parent < 64 && 1 <= child < 64
    requires Forked(m, m', parent, child, n) && 0 <= x < 1024 * n && n <= 16
    requires forall s :: s in Ent(m) ==> !Limited(s, child, n)
    ensures ForkedAt(m, m', parent, child, x)
  {
    hide Inv, Ent, Tab, Sized, Mapped, Pte, Forked, Good;
    TaskPage(parent, x);
    TaskPage(child, x);
    MappedIs(m, mm, holds, home, 0x4000 * parent + x);
    MappedIs(m', mm', holds', home', 0x4000 * parent + x);
    MappedIs(m', mm', holds', home', 0x4000 * child + x);
    var s, t := Slot(16 * parent + x / 1024, x % 1024), Slot(16 * child + x / 1024, x % 1024);
    assert Limited(t, child, n);
    ForkedSlot(m, m', parent, child, n, s, t);
  }

  lemma ForkedElsewhere(m: Phys, mm: seq<int>, holds: seq<nat>, home: seq<Slot>,
                        m': Phys, mm': seq<int>, holds': seq<nat>, home': seq<Slot>, parent: int, child: int, n: int,
                        y: int)
    requires Good(m, mm, holds, home) && Good(m', mm', holds', home') && n <= 16
    requires Forked(m, m', parent, child, n) && InUserSpace(y) && y / 0x4000 != parent && y / 0x4000 != child
    ensures SamePage(m, m', y)
  {
    hide Inv, Ent, Tab, Sized, Mapped, Pte;
    TaskOf(y);
    MappedIs(m, mm, holds, home, y);
    MappedIs(m', mm', holds', home', y);
    var s := Slot(y / 1024, y % 1024);
    assert !Limited(s, parent, n) && !InSpace(s, child);
  }

  /** A fork, read off the page tables. */
  lemma ForkedPages(m: Phys, mm: seq<int>, holds: seq<nat>, home: seq<Slot>,
                    m': Phys, mm': seq<int>, holds': seq<nat>, home': seq<Slot>, parent: int, child: int, n: int,
                    limit: nat)
    requires Good(m, mm, holds, home) && Good(m', mm', holds', home') && 1 <= parent < 64 && 1 <= child < 64
    requires Forked(m, m', parent, child, n) && n <= 16 && limit <= n * 0x400000
    requires forall s :: s in Ent(m) ==> !Limited(s, child, n)
    ensures ForkedBelow(m, m', parent, child, limit)
  {
    hide Inv, Ent, Tab, Sized, Forked, ForkedAt, SamePage, Good;
    forall x | 0 <= x && 4096 * x < limit ensures ForkedAt(m, m', parent, child, x) {
      ForkedPage(m, mm, holds, home, m', mm', holds', home', parent, child, n, x);
    }
    forall y | InUserSpace(y) && y / 0x4000 != parent && y / 0x4000 != child ensures SamePage(m, m', y) {
      ForkedElsewhere(m, mm, holds, home, m', mm', holds', home', parent, child, n, y);
    }
  }

  /** Every linear page is still there, perhaps without write permission. */
  ghost predicate StillThere(m: Phys, m': Phys) {
    forall y :: InUserSpace(y) ==>
      && (Mapped(m', y) <==> Mapped(m, y))
      && (Mapped(m, y) ==>
            && (Pte(m', y) == Pte(m, y) || Protected(Pte(m, y), Pte(m', y))) && SameFrame(m, m', Pte(m, y).frame))
  }

  lemma ReprotectedPages(m: Phys, mm: seq<int>, holds: seq<nat>, home: seq<Slot>,
                         m': Phys, mm': seq<int>, holds': seq<nat>, home': seq<Slot>)
    requires Good(m, mm, holds, home) && Good(m', mm', holds', home') && Reprotected(m, m')
    ensures StillThere(m, m')
  {
    hide Inv, Ent, Tab, Sized, Mapped, Pte;
    forall y | InUserSpace(y)
      ensures (Mapped(m', y) <==> Mapped(m, y))
        && (Mapped(m, y) ==>
              && (Pte(m', y) == Pte(m, y) || Protected(Pte(m, y), Pte(m', y))) && SameFrame(m, m', Pte(m, y).frame))
    {
      MappedIs(m, mm, holds, home, y);
      MappedIs(m', mm', holds', home', y);
    }
  }

  /** Page y shows the page of x, both read-only, and all other pages are the same. */
  ghost predicate SharedAt(m: Phys, m': Phys, x: int, y: int) {
    && Mapped(m, x) && Mapped(m', x) && Mapped(m', y) && SameFrame(m, m', Pte(m, x).frame)
    && Protected(Pte(m, x), Pte(m', x)) && Protected(Pte(m, x), Pte(m', y))
    && forall z :: InUserSpace(z) && z != x && z != y ==> SamePage(m, m', z)
  }

  lemma SharedPages(m: Phys, mm: seq<int>, holds: seq<nat>, home: seq<Slot>,
                    m': Phys, mm': seq<int>, holds': seq<nat>, home': seq<Slot>, x: int, y: int)
    requires Good(m, mm, holds, home) && Good(m', mm', holds', home') && InUserSpace(x) && InUserSpace(y)
    requires PageShared(m, m', Slot(x / 1024, x % 1024), Slot(y / 1024, y % 1024))
    ensures SharedAt(m, m', x, y)
  {
    hide Inv, Ent, Tab, Sized, Mapped, Pte;
    MappedIs(m, mm, holds, home, x);
    MappedIs(m', mm', holds', home', x);
    MappedIs(m', mm', holds', home', y);
    forall z | InUserSpace(z) && z != x && z != y ensures SamePage(m, m', z) {
      MappedIs(m, mm, holds, home, z);
      MappedIs(m', mm', holds', home', z);
      SlotsDiffer(x, z);
      SlotsDiffer(y, z);
    }
  }

  lemma SlotsDiffer(x: int, z: int)
    requires x != z
    ensures Slot(x / 1024, x % 1024) != Slot(z / 1024, z % 1024)
  {
  }

  /** Word k of page x is w; nothing else that a task can read has changed. */
  ghost predicate StoredAt(m: Phys, m': Phys, x: int, k: int, w: Word) {
    && Mapped(m, x) && Mapped(m', x) && Pte(m, x).frame < |m| && Pte(m', x).frame < |m'|
    && 0 <= k < |m[Pte(m, x).frame]| && m'[Pte(m', x).frame] == m[Pte(m, x).frame][k := w]
    && forall z :: InUserSpace(z) && z != x ==> SamePage(m, m', z)
  }

  lemma StoredPages(m: Phys, mm: seq<int>, holds: seq<nat>, home: seq<Slot>,
                    m': Phys, mm': seq<int>, holds': seq<nat>, home': seq<Slot>, x: int, k: int, w: Word)
    requires Good(m, mm, holds, home) && Good(m', mm', holds', home') && InUserSpace(x)
    requires OnlyStored(m, m', Slot(x / 1024, x % 1024), k, w)
    ensures StoredAt(m, m', x, k, w)
  {
    hide Inv, Ent, Tab, Mapped, Pte;
    MappedIs(m, mm, holds, home, x);
    MappedIs(m', mm', holds', home', x);
    forall z | InUserSpace(z) && z != x ensures SamePage(m, m', z) {
      MappedIs(m, mm, holds, home, z);
      MappedIs(m', mm', holds', home', z);
      SlotsDiffer(x, z);
    }
  }

  /** The directory slots lo to hi - 1 map nothing, and all other pages are the same. */
  ghost predicate ClearedAt(m: Phys, m': Phys, lo: int, hi: int) {
    forall x :: InUserSpace(x) ==> if lo <= x / 1024 < hi then !Mapped(m', x) else SamePage(m, m', x)
  }

  lemma ClearedPages(m: Phys, mm: seq<int>, holds: seq<nat>, home: seq<Slot>,
                     m': Phys, mm': seq<int>, holds': seq<nat>, home': seq<Slot>, lo: int, hi: int)
    requires Good(m, mm, holds, home) && Good(m', mm', holds', home')
    requires Shrunk(m, m') && Ent(m') == EntOutside(Ent(m), lo, hi, 0)
    ensures ClearedAt(m, m', lo, hi)
  {
    hide Inv, Ent, Tab, Sized, Mapped, Pte;
    forall x | InUserSpace(x) ensures if lo <= x / 1024 < hi then !Mapped(m', x) else SamePage(m, m', x) {
      MappedIs(m, mm, holds, home, x);
      MappedIs(m', mm', holds', home', x);
    }
  }

  /** Page x of the child after the first fork; w is the kernel's entry. */
  predicate FirstPage(m: Phys, w: Word, child: int, x: int) {
    && (Mapped(m, 0x4000 * child + x) <==> w.present && x < 160)
    && (w.present && x < 160 ==> Protected(w, Pte(m, 0x4000 * child + x)))
  }

  /** The first 160 pages of task 0 are in the child, read-only; the child has nothing else in these 4 MB. */
  ghost predicate FirstForkedAt(m: Phys, m': Phys, words: seq<Word>, child: int) {
    && |words| == 1024
    && (forall x :: 0 <= x < 1024 ==> FirstPage(m', words[x], child, x))
    && (forall y :: InUserSpace(y) && y / 1024 != 16 * child ==> SamePage(m, m', y))
  }

  lemma FirstForkedPages(m: Phys, mm: seq<int>, holds: seq<nat>, home: seq<Slot>,
                         m': Phys, mm': seq<int>, holds': seq<nat>, home': seq<Slot>, words: seq<Word>, child: int)
    requires Good(m, mm, holds, home) && Good(m', mm', holds', home') && SamePages(m, m') && 1 <= child < 64
    requires |words| == 1024 && 16 * child !in Tab(m) && Ent(m') == FirstEnt(Ent(m), words, 16 * child, FIRST_PAGES)
    ensures FirstForkedAt(m, m', words, child)
  {
    hide Inv, Ent, Tab, Sized, Mapped, Pte, FirstEnt;
    AllUserEntries(m, mm, holds, home);
    FirstEntAt(Ent(m), words, 16 * child, FIRST_PAGES);
    forall x | 0 <= x < 1024 ensures FirstPage(m', words[x], child, x) {
      TaskPage(child, x);
      MappedIs(m', mm', holds', home', 0x4000 * child + x);
    }
    forall y | InUserSpace(y) && y / 1024 != 16 * child ensures SamePage(m, m', y) {
      MappedIs(m, mm, holds, home, y);
      MappedIs(m', mm', holds', home', y);
    }
  }
}
