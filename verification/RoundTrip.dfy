// The laws of mapping and unmapping, stated on what the methods of AddressSpace
// promise.
module RoundTrip {
  import opened Words
  import opened PhysicalMemory
  import opened PageTables
  import opened FrameSupply
  import opened Slots
  import opened Unmapping
  import Spaces = AddressSpace

  // A caller can check for whole blocks by rounding the start up.
  lemma WholeBlockTest(lo: int, hi: int)
    ensures NoWholeBlock(lo, hi) <==> hi < (lo + 511) / 512 * 512 + 512
  {
    var b := (lo + 511) / 512 * 512;
    if b + 512 <= hi {
      assert WholeBlock(b, lo, hi);
    }
    forall v | WholeBlock(v, lo, hi) ensures b + 512 <= hi {
      assert b <= v / 512 * 512;
    }
  }

  // The law of vmm_unmap: no page of the range is mapped any more, every other
  // page is as before, and no table is dropped without being given back.
  ghost predicate RangeUnmapped(w: View, x: View, lo: int, hi: int) {
    && (forall v :: Leaf(x, v) == if lo <= v < hi then 0 else Leaf(w, v))
    && x.lost == w.lost
  }

  // On a mapped range vmm_unmap keeps its law exactly when the range contains no
  // whole page table.
  lemma UnmapLaw(w: View, x: View, lo: int, hi: int, freed: bool)
    requires Unmapped(w, x, ROOT, lo, hi, freed)
    requires forall v :: lo <= v < hi ==> Leaf(w, v) != 0
    ensures RangeUnmapped(w, x, lo, hi) <==> NoWholeBlock(lo, hi)
  {
    forall v ensures NoWholeBlock(lo, hi) ==> Leaf(x, v) == if lo <= v < hi then 0 else Leaf(w, v) {
      assert LeafMid(w, x, v, lo, hi, hi);
    }
    if !NoWholeBlock(lo, hi) {
      var v :| WholeBlock(v, lo, hi);
      assert LeafMid(w, x, v, lo, hi, hi);
      assert lo <= v < hi;
      assert RangeUnmapped(w, x, lo, hi) ==> Leaf(x, v) == 0;
    }
  }

  // Which tables go: exactly those on the walked path that are left without a
  // present entry, and their frames, nothing else, become free.
  lemma EmptyTablesGo(w: View, x: View, lo: int, hi: int, freed: bool, s: Slot)
    requires TreeOk(w, NO_SLOT) && Unmapped(w, x, ROOT, lo, hi, freed) && NoWholeBlock(lo, hi)
    requires s in w.tab && OnPath(s, lo, hi) && Under(s, ROOT)
    ensures s in x.tab <==> HasPresent(x, s)
    ensures s !in x.tab ==> w.tab[s] in x.free && forall v :: Covering(s, v) ==> Leaf(x, v) == 0
  {
    hide LeafMid, Elsewhere, Leaf;
    if s !in x.tab {
      assert SlotOk(w, s);
      FrameGiven(w, x, s);
      forall v | Covering(s, v) ensures Leaf(x, v) == 0 {
        PathGone(x, s, v, if freed then ROOT else NO_SLOT);
      }
    }
  }

  lemma FrameGiven(w: View, x: View, s: Slot)
    requires Shrinks(w, x) && x.lost == w.lost && s in w.tab && s !in x.tab && w.tab[s] !in w.lost
    requires forall s, t :: s in w.tab && t in w.tab && w.tab[s] == w.tab[t] ==> s == t
    ensures w.tab[s] in x.free
  {
    assert s in w.tab && w.tab[s] in w.tab.Values;
    assert w.tab[s] in Frames(w);
    forall t | t in x.tab ensures x.tab[t] != w.tab[s] {
      assert t in w.tab && w.tab[t] == x.tab[t];
    }
  }

  // ------------------------------------------------------------ map, then unmap

  // w, then a successful vmm_map of n pages to x, then vmm_unmap of the same
  // pages to y.
  ghost predicate MapThenUnmap(w: View, x: View, y: View, first: int, n: int, physical: int, flags: int, freed: bool) {
    && TreeOk(w, NO_SLOT) && TreeOk(x, NO_SLOT) && ROOT in w.tab
    && Spaces.MapsTo(w, x, first, n, physical, flags) && Extends(w, x, first, first + n) && x.lost == w.lost
    && Unmapped(x, y, ROOT, first, first + n, freed)
    && NoWholeBlock(first, first + n)
    && 0 <= first && first + n <= VIRTUAL_PAGES
    && (forall v :: first <= v < first + n ==> Leaf(w, v) == 0)
  }

  lemma LeavesRestored(w: View, x: View, y: View, first: int, n: int, physical: int, flags: int, freed: bool)
    requires MapThenUnmap(w, x, y, first, n, physical, flags, freed)
    ensures SameLeaves(w, y)
  {
    forall v ensures Leaf(y, v) == Leaf(w, v) {
      assert LeafMid(x, y, v, first, first + n, first + n);
    }
  }

  // A table of the old tree that has something below it stays.
  lemma {:induction false} OldTableStays(w: View, y: View, s: Slot, dangling: Slot)
    requires TreeOk(w, NO_SLOT) && TreeOk(y, dangling) && SameLeaves(w, y) && NoEmptyTables(w)
    requires s in w.tab && HasPresent(w, s) && 1 <= s.level <= 4
    ensures s in y.tab
    decreases s.level
  {
    if s.level == 1 {
      var v := PresentLeaf(w, s, NO_SLOT);
    } else {
      var i := PresentChild(w, s);
      OldTableStays(w, y, Child(s, i), dangling);
      assert SlotOk(y, Child(s, i));
    }
  }

  // A table that only the mapping needed goes.
  lemma {:induction false} NewTableGoes(w: View, x: View, y: View, s: Slot, lo: int, hi: int)
    requires TreeOk(w, NO_SLOT) && TreeOk(y, NO_SLOT) && SameLeaves(w, y)
    requires Extends(w, x, lo, hi) && Shrinks(x, y) && PathKept(y, ROOT, lo, hi)
    requires s !in w.tab && 1 <= s.level <= 4 && ROOT in w.tab
    ensures s !in y.tab
    decreases s.level
  {
    hide TreeOk, Leaf, Evolves, HasPresent;
    if s in y.tab {
      AllUnderRoot(y, s, NO_SLOT);
      assert OnPath(s, lo, hi) && HasPresent(y, s);
      if s.level == 1 {
        var v := PresentLeaf(y, s, NO_SLOT);
        LeafHasTable(w, v);
        assert false;
      } else {
        var i := PresentChild(y, s);
        NoOrphans(w, s, i, NO_SLOT);
        NewTableGoes(w, x, y, Child(s, i), lo, hi);
        assert false;
      }
    }
  }

  // The contents of a table are fixed by the tree and its meaning.
  lemma TableRestored(w: View, y: View, s: Slot)
    requires TreeOk(w, NO_SLOT) && TreeOk(y, NO_SLOT) && y.tab == w.tab && SameLeaves(w, y) && s in w.tab
    ensures w.tab[s] in w.pages && w.tab[s] in y.pages && y.pages[w.tab[s]] == w.pages[w.tab[s]]
  {
    assert SlotOk(w, s) && SlotOk(y, s);
    forall i | 0 <= i < ENTRIES ensures y.pages[w.tab[s]][i] == w.pages[w.tab[s]][i] {
      if s.level >= 2 {
        assert EntryOk(w, s, i, NO_SLOT) && EntryOk(y, s, i, NO_SLOT);
      } else {
        var v := s.prefix * 512 + i;
        assert LeafSlot(v) == s && v % 512 == i;
        assert Leaf(y, v) == Leaf(w, v);
      }
    }
  }

  // Mapping unmapped pages and unmapping them again restores everything - every
  // translation, the tree, the contents of every table and the set of free
  // frames - exactly when something else keeps the PML4 in use; otherwise
  // vmm_unmap goes on to free the PML4 twice.
  lemma MapThenUnmapRestores(w: View, x: View, y: View, first: int, n: int, physical: int, flags: int, freed: bool)
    requires MapThenUnmap(w, x, y, first, n, physical, flags, freed) && NoEmptyTables(w) && n > 0
    ensures SameLeaves(w, y)
    ensures !freed <==> HasPresent(w, ROOT)
    ensures !freed ==> Restored(w, y)
  {
    hide TreeOk, Leaf, Evolves, HasPresent;
    LeavesRestored(w, x, y, first, n, physical, flags, freed);
    if freed {
      if HasPresent(w, ROOT) {
        OldTableStays(w, y, ROOT, ROOT);
      }
    } else {
      RootInUse(w, x, y, first, n);
      TreeRestored(w, x, y, first, n);
      FreeRestored(w, x, y, first, n);
      forall s | s in w.tab
        ensures w.tab[s] in w.pages && w.tab[s] in y.pages && y.pages[w.tab[s]] == w.pages[w.tab[s]]
      {
        TableRestored(w, y, s);
      }
    }
  }

  ghost predicate Restored(w: View, y: View) {
    && y.tab == w.tab && y.free == w.free
    && (forall s :: s in w.tab ==> w.tab[s] in w.pages && w.tab[s] in y.pages && y.pages[w.tab[s]] == w.pages[w.tab[s]])
  }

  lemma TreeRestored(w: View, x: View, y: View, first: int, n: int)
    requires TreeOk(w, NO_SLOT) && TreeOk(y, NO_SLOT) && SameLeaves(w, y) && NoEmptyTables(w) && HasPresent(w, ROOT)
    requires ROOT in w.tab && Extends(w, x, first, first + n) && Shrinks(x, y) && PathKept(y, ROOT, first, first + n)
    ensures y.tab == w.tab
  {
    hide TreeOk, Leaf, Evolves, HasPresent;
    forall s | s in w.tab ensures s in y.tab {
      AllUnderRoot(w, s, NO_SLOT);
      OldTableStays(w, y, s, NO_SLOT);
    }
    forall s | s in y.tab ensures s in w.tab {
      AllUnderRoot(y, s, NO_SLOT);
      if s !in w.tab {
        NewTableGoes(w, x, y, s, first, first + n);
      }
    }
  }

  lemma FreeRestored(w: View, x: View, y: View, first: int, n: int)
    requires TreeOk(w, NO_SLOT) && TreeOk(y, NO_SLOT) && Extends(w, x, first, first + n) && Shrinks(x, y)
    requires y.tab == w.tab && x.lost == w.lost && y.lost == x.lost
    ensures y.free == w.free
  {
    TablesExist(w, NO_SLOT);
    TablesExist(y, NO_SLOT);
    assert Frames(y) == Frames(w);
    forall p | p in w.free ensures p in y.free {
      assert p in Frames(y) && p !in w.tab.Values;
    }
    forall p | p in y.free ensures p in w.free {
      assert p in Frames(w) && p !in y.tab.Values;
    }
  }

  // When the PML4 is kept, one of its entries was there before.
  lemma RootInUse(w: View, x: View, y: View, first: int, n: int)
    requires TreeOk(w, NO_SLOT) && TreeOk(y, NO_SLOT) && SameLeaves(w, y) && ROOT in w.tab && ROOT in y.tab
    requires Extends(w, x, first, first + n) && Shrinks(x, y) && PathKept(y, ROOT, first, first + n)
    requires OnPath(ROOT, first, first + n)
    ensures HasPresent(w, ROOT)
  {
    assert HasPresent(y, ROOT);
    var i := PresentChild(y, ROOT);
    if Child(ROOT, i) !in w.tab {
      NewTableGoes(w, x, y, Child(ROOT, i), first, first + n);
    }
    ChildStays(w, ROOT, i);
  }

  lemma SameBytes(vptr: Word, pptr: Word, size: Word)
    requires vptr % PAGE_SIZE == pptr % PAGE_SIZE
    ensures AlignRange(pptr, size).1 == AlignRange(vptr, size).1
  {
  }

  // vmm_map and then vmm_unmap of the same unmapped range without whole page
  // tables: when the call maps, either everything is as before, or nothing else
  // used the PML4 and vmm_unmap frees it twice.
  method MapAndUnmap(space: Spaces.AddressSpace, vptr: Word, pptr: Word, size: Word, flags: int)
    returns (mapped: Spaces.MapResult, unmapped: Spaces.UnmapResult)
    requires space.Valid() && NoEmptyTables(space.Now())
    requires vptr % PAGE_SIZE == pptr % PAGE_SIZE
    requires AlignRange(vptr, size).1 > 0
    requires Spaces.FirstPage(vptr) + AlignRange(vptr, size).1 / PAGE_SIZE <= VIRTUAL_PAGES
    requires AlignRange(pptr, size).0 + AlignRange(pptr, size).1 <= PHYSICAL_LIMIT
    requires NoWholeBlock(Spaces.FirstPage(vptr), Spaces.FirstPage(vptr) + AlignRange(vptr, size).1 / PAGE_SIZE)
    requires forall v :: Spaces.FirstPage(vptr) <= v < Spaces.FirstPage(vptr) + AlignRange(vptr, size).1 / PAGE_SIZE ==>
               Leaf(space.Now(), v) == 0
    modifies space`tab, space`lost, space.pmm, space.pmm.memory
    ensures var first, n := Spaces.FirstPage(vptr), AlignRange(vptr, size).1 / PAGE_SIZE;
            mapped.Mapped? <==> |Missing(old(space.Now()), first, first + n)| <= Supply(old(space.pmm.nodes))
    ensures mapped.Mapped? ==> SameLeaves(old(space.Now()), space.Now())
    ensures mapped.Mapped? ==> (unmapped.Done? <==> HasPresent(old(space.Now()), ROOT))
    ensures mapped.Mapped? && unmapped.Done? ==> space.Valid() && Restored(old(space.Now()), space.Now())
  {
    hide TreeOk, Leaf, FreeListOk, Evolves, HasPresent, Spaces.MapsTo, Extends, Unmapped, NoWholeBlock, Restored,
         Missing, Supply, SameLeaves;
    ghost var w, first, n := space.Now(), Spaces.FirstPage(vptr), AlignRange(vptr, size).1 / PAGE_SIZE;
    ghost var leaf := LeafFlags(space.pat, flags, Spaces.Index(AlignRange(vptr, size).0, 0x80_0000_0000) < 256);
    SameBytes(vptr, pptr, size);
    hide AlignRange, Spaces.FirstPage, Spaces.Index, LeafFlags;
    mapped := space.Map(vptr, pptr, size, flags);
    unmapped := Spaces.Done;
    if mapped.Mapped? {
      ghost var x := space.Now();
      Spaces.MappedHasTables(w, x, first, n, AlignRange(pptr, size).0, leaf);
      unmapped := space.Unmap(vptr, size);
      MapThenUnmapRestores(w, x, space.Now(), first, n, AlignRange(pptr, size).0, leaf, unmapped.DoubleFree?);
    }
  }
}
