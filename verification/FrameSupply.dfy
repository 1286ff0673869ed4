// How many page frames vmm_map can get, and how many it needs.
module FrameSupply {
  import opened Words
  import opened Ranges
  import opened PhysicalMemory
  import opened PageTables
  import opened Slots
  import Unmapping

  // The single frames that pmm_alloc hands out before it returns 0: all free
  // ones, or when page 0 is free those of the first range above it, because they
  // are taken from that range's end and page 0 is taken for a failure.
  ghost function Supply(s: seq<Range>): int {
    if s == [] then 0
    else if s[0].ptr == 0 then s[0].size / PAGE_SIZE - 1
    else |PagesOf(s)|
  }

  lemma SupplyIsFree(pages: Pages, s: seq<Range>)
    requires ListShape(pages, s)
    ensures 0 !in PagesOf(s) ==> Supply(s) == |PagesOf(s)|
  {
    if s == [] {
      assert PagesOf(s) == {};
    } else if s[0].ptr == 0 {
      assert s[0].Contains(0) && 0 in PagesOf(s);
    }
  }

  // One frame is taken at a time.
  lemma SupplyShrinks(pages: Pages, s: seq<Range>)
    requires ListShape(pages, s)
    ensures Supply(s) >= 0
    ensures Supply(s) > 0 <==> Fits(s, PAGE_SIZE) && TakenAt(s, PAGE_SIZE) != 0
    ensures Supply(s) > 0 ==> Supply(Take(s, PAGE_SIZE)) == Supply(s) - 1
  {
    if s != [] {
      var frame, t := TakenAt(s, PAGE_SIZE), Take(s, PAGE_SIZE);
      FirstRange(pages, s);
      if s[0].ptr != 0 {
        OneFrame(pages, s);
        if t == [] {
          assert PagesOf(t) == {};
        }
      }
    }
  }

  lemma SupplyIsNat(pages: Pages, link: Word, s: seq<Range>)
    requires FreeListOk(pages, link, s)
    ensures Supply(s) >= 0
  {
    SupplyShrinks(pages, s);
  }

  lemma FirstRange(pages: Pages, s: seq<Range>)
    requires ListShape(pages, s) && s != []
    ensures s[0].ptr >= 0 && s[0].size >= PAGE_SIZE && s[0].size % PAGE_SIZE == 0 && s[0].ptr % PAGE_SIZE == 0
    ensures Fits(s, PAGE_SIZE) && TakenAt(s, PAGE_SIZE) == s[0].End() - PAGE_SIZE
    ensures Take(s, PAGE_SIZE) ==
            if s[0].size == PAGE_SIZE then s[1..] else Cons(Range(s[0].ptr, s[0].size - PAGE_SIZE), s[1..])
    ensures Take(s, PAGE_SIZE) != [] ==> Take(s, PAGE_SIZE)[0].ptr >= s[0].ptr
  {
    assert s[0].Contains(s[0].ptr) && Covers(s, s[0].ptr);
    if |s| > 1 {
      assert s[1] == s[1..][0];
    }
  }

  // Taking a page removes exactly one page.
  lemma OnePage(pages: Pages, s: seq<Range>)
    requires ListShape(pages, s)
    ensures Fits(s, PAGE_SIZE) ==>
              var frame := TakenAt(s, PAGE_SIZE);
              && frame % PAGE_SIZE == 0 && frame in PagesOf(s)
              && PagesOf(Take(s, PAGE_SIZE)) == PagesOf(s) - {frame}
    ensures !Fits(s, PAGE_SIZE) ==> Take(s, PAGE_SIZE) == s
  {
    TakeRemovesOneBlock(s, PAGE_SIZE);
    TakeAligned(s, PAGE_SIZE);
    TakeKeepsShape(pages, s, PAGE_SIZE);
    if Fits(s, PAGE_SIZE) {
      var block := Range(TakenAt(s, PAGE_SIZE), PAGE_SIZE);
      assert block.Contains(block.ptr);
    }
  }

  lemma OneFrame(pages: Pages, s: seq<Range>)
    requires ListShape(pages, s) && Fits(s, PAGE_SIZE)
    ensures |PagesOf(Take(s, PAGE_SIZE))| == |PagesOf(s)| - 1
  {
    hide PagesOf, ListShape, Take, TakenAt, Fits;
    OnePage(pages, s);
  }

  ghost function PagesIn(ptr: int, n: int): set<int> {
    set p: int | ptr <= p < ptr + n && p % PAGE_SIZE == 0
  }

  lemma {:induction false} CountPages(ptr: int, k: nat)
    requires ptr % PAGE_SIZE == 0
    ensures |PagesIn(ptr, k * PAGE_SIZE)| == k
    decreases k
  {
    if k == 0 {
      assert PagesIn(ptr, 0) == {};
    } else {
      var last := ptr + (k - 1) * PAGE_SIZE;
      CountPages(ptr, k - 1);
      forall p ensures p in PagesIn(ptr, k * PAGE_SIZE) <==> p in PagesIn(ptr, (k - 1) * PAGE_SIZE) || p == last {
      }
      assert PagesIn(ptr, k * PAGE_SIZE) == PagesIn(ptr, (k - 1) * PAGE_SIZE) + {last};
    }
  }

  // A block takes as many pages out of the free ones as it has.
  lemma BlockCount(pages: Pages, s: seq<Range>, n: int)
    requires ListShape(pages, s) && Fits(s, n) && n > 0 && n % PAGE_SIZE == 0
    ensures |PagesOf(Take(s, n))| + n / PAGE_SIZE == |PagesOf(s)|
    ensures PagesOf(s) == PagesOf(Take(s, n)) + PagesIn(TakenAt(s, n), n)
            && PagesOf(Take(s, n)) !! PagesIn(TakenAt(s, n), n)
    ensures TakenAt(s, n) % PAGE_SIZE == 0 && 0 <= TakenAt(s, n) && TakenAt(s, n) + n <= MEMORY_LIMIT
  {
    var r := Range(TakenAt(s, n), n);
    TakeKeepsShape(pages, s, n);
    TakeAligned(s, n);
    TakeRemovesOneBlock(s, n);
    CountPages(r.ptr, n / PAGE_SIZE);
    assert r.Contains(r.ptr) && r.Contains(r.End() - 1);
    forall p ensures p in PagesOf(s) <==> p in PagesOf(Take(s, n)) || p in PagesIn(r.ptr, n) {
      assert r.Contains(p) <==> r.ptr <= p < r.ptr + n;
    }
    assert PagesOf(s) == PagesOf(Take(s, n)) + PagesIn(r.ptr, n);
    assert PagesOf(Take(s, n)) !! PagesIn(r.ptr, n);
  }

  // The tables that the walk to the pages lo to hi still lacks.
  ghost function Missing(w: View, lo: int, hi: int): set<Slot> {
    set level: int, prefix: int |
      && 1 <= level <= 3 && 0 <= prefix < 0x800_0000
      && OnPath(Slot(level, prefix), lo, hi) && Slot(level, prefix) !in w.tab ::
      Slot(level, prefix)
  }

  ghost predicate NewTables(w: View, x: View, lo: int, hi: int) {
    && ROOT in w.tab && TreeOk(x, NO_SLOT)
    && (forall s :: s in w.tab ==> s in x.tab)
    && (forall s :: s in x.tab && s !in w.tab ==> OnPath(s, lo, hi))
  }

  lemma MissingSlot(w: View, x: View, lo: int, hi: int, s: Slot)
    requires NewTables(w, x, lo, hi) && s in x.tab && s !in w.tab
    ensures s in Missing(w, lo, hi)
  {
    assert SlotOk(x, s);
    Unmapping.AllUnderRoot(x, s, NO_SLOT);
    assert s == Slot(s.level, s.prefix);
  }

  lemma NewIsMissing(w: View, x: View, lo: int, hi: int)
    requires NewTables(w, x, lo, hi)
    ensures x.tab.Keys - w.tab.Keys <= Missing(w, lo, hi)
    ensures |x.tab| == |w.tab| + |x.tab.Keys - w.tab.Keys|
  {
    hide TreeOk, Missing;
    forall s | s in x.tab.Keys - w.tab.Keys ensures s in Missing(w, lo, hi) {
      MissingSlot(w, x, lo, hi, s);
    }
    assert x.tab.Keys == w.tab.Keys + (x.tab.Keys - w.tab.Keys);
  }

  // When the pages' page tables are all there, nothing is missing any more.
  lemma AllFound(w: View, x: View, lo: int, hi: int)
    requires NewTables(w, x, lo, hi) && 0 <= lo
    requires forall v :: lo <= v < hi ==> LeafSlot(v) in x.tab
    ensures |x.tab| == |w.tab| + |Missing(w, lo, hi)|
  {
    NewIsMissing(w, x, lo, hi);
    forall s | s in Missing(w, lo, hi) ensures s in x.tab {
      var v := if Lo(s) < lo then lo else Lo(s);
      LeafUnder(v, s);
      Unmapping.Ancestor(x, LeafSlot(v), s, NO_SLOT);
    }
    assert x.tab.Keys - w.tab.Keys == Missing(w, lo, hi);
  }

  // While one of them is absent, something is.
  lemma NotAllFound(w: View, x: View, lo: int, hi: int, v: int)
    requires NewTables(w, x, lo, hi) && 0 <= lo <= v < hi <= VIRTUAL_PAGES && LeafSlot(v) !in x.tab
    ensures |x.tab| < |w.tab| + |Missing(w, lo, hi)|
  {
    NewIsMissing(w, x, lo, hi);
    assert LeafSlot(v) == Slot(1, v / 512);
    assert LeafSlot(v) in Missing(w, lo, hi);
    Smaller(x.tab.Keys - w.tab.Keys, Missing(w, lo, hi), LeafSlot(v));
  }

  lemma Smaller(a: set<Slot>, b: set<Slot>, s: Slot)
    requires a <= b && s in b && s !in a
    ensures |a| < |b|
  {
    NotLarger(a, b - {s});
  }

  lemma {:induction false} NotLarger(a: set<Slot>, b: set<Slot>)
    requires a <= b
    ensures |a| <= |b|
    decreases |a|
  {
    if a != {} {
      var s :| s in a;
      NotLarger(a - {s}, b - {s});
    }
  }

  lemma {:induction false} ValuesCount(tab: Tables)
    requires forall s, t :: s in tab && t in tab && tab[s] == tab[t] ==> s == t
    ensures |tab.Values| == |tab|
    decreases |tab|
  {
    if tab != map[] {
      var s :| s in tab;
      var rest := tab - {s};
      ValuesCount(rest);
      forall p ensures p in tab.Values <==> p in rest.Values || p == tab[s] {
        if p in tab.Values {
          var t :| t in tab && tab[t] == p;
          assert t == s || (t in rest && rest[t] == p);
        }
        if p in rest.Values {
          var t :| t in rest && rest[t] == p;
          assert t in tab && tab[t] == p;
        }
      }
      assert tab.Values == rest.Values + {tab[s]};
      assert tab.Keys == rest.Keys + {s};
    }
  }

  // Free frames, tables and lost frames are counted once.
  lemma FramesCount(w: View)
    requires TreeOk(w, NO_SLOT)
    ensures |Frames(w)| == |w.free| + |w.tab| + |w.lost|
  {
    hide TreeOk;
    TablesExist(w, NO_SLOT);
    ValuesCount(w.tab);
    forall p | p in w.tab.Values ensures p !in w.free && p !in w.lost {
      var s :| s in w.tab && w.tab[s] == p;
    }
    assert |w.free + w.tab.Values| == |w.free| + |w.tab.Values|;
  }

  // When every free frame has become a table, none is left.
  lemma NoneLeft(w: View, x: View, lo: int, hi: int)
    requires TreeOk(w, NO_SLOT) && TreeOk(x, NO_SLOT) && Extends(w, x, lo, hi) && w.lost <= x.lost
    requires |x.tab| == |w.tab| + |w.free|
    ensures x.free == {}
  {
    hide TreeOk, OnPath, Extends, Frames;
    FramesCount(w);
    FramesCount(x);
    FramesStay(w, x, lo, hi);
    assert x.lost == w.lost + (x.lost - w.lost);
    assert |x.lost| == |w.lost| + |x.lost - w.lost|;
  }

  lemma FramesStay(w: View, x: View, lo: int, hi: int)
    requires Extends(w, x, lo, hi)
    ensures Frames(x) == Frames(w)
  {
  }

  // Below a table that is not there, no page has a page table.
  lemma NoTableBelow(x: View, s: Slot, v: int)
    requires TreeOk(x, NO_SLOT) && s !in x.tab && 1 <= s.level <= 4 && Covering(s, v)
    ensures LeafSlot(v) !in x.tab
  {
    LeafUnder(v, s);
    if LeafSlot(v) in x.tab {
      Unmapping.Ancestor(x, LeafSlot(v), s, NO_SLOT);
    }
  }
}
