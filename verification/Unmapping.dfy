// What vmm_unmapRecursive leaves of a tree, for every range whose page tables
// exist: the reasoning behind the method in AddressSpace.
module Unmapping {
  import opened Words
  import opened PhysicalMemory
  import opened PageTables
  import opened Slots

  // The 512 pages of v's page table all lie in the range. The count mask turns
  // the 512 of such a table into 0, so the walk passes it over.
  predicate WholeBlock(v: int, lo: int, hi: int) {
    lo <= v / 512 * 512 && v / 512 * 512 + 512 <= hi
  }

  ghost predicate NoWholeBlock(lo: int, hi: int) {
    forall v :: !WholeBlock(v, lo, hi)
  }

  ghost predicate HasPresent(w: View, s: Slot) {
    && s in w.tab && w.tab[s] in w.pages && |w.pages[w.tab[s]]| == ENTRIES
    && exists i :: 0 <= i < ENTRIES && Present(w.pages[w.tab[s]][i])
  }

  // Page v after the pages of lo to cur have been dealt with: pages in the range
  // have no leaf any more, except those of whole blocks, which keep theirs unless
  // a table above them was dropped without its frames being given back.
  ghost predicate LeafMid(w: View, x: View, v: int, lo: int, cur: int, hi: int) {
    if lo <= v < cur then
      if WholeBlock(v, lo, hi) then Leaf(x, v) == Leaf(w, v) || (Leaf(x, v) == 0 && x.lost != w.lost)
      else Leaf(x, v) == 0
    else Leaf(x, v) == Leaf(w, v)
  }

  ghost predicate Shrinks(w: View, x: View) {
    && (forall s :: s in x.tab ==> s in w.tab && x.tab[s] == w.tab[s])
    && w.lost <= x.lost
    && Evolves(w, x)
  }

  ghost predicate Elsewhere(w: View, x: View, n: Slot) {
    forall s :: s in w.tab && !Under(s, n) ==>
      w.tab[s] in w.pages && w.tab[s] in x.pages && x.pages[w.tab[s]] == w.pages[w.tab[s]]
  }

  // Tables on the walked path are kept only while they have a present entry.
  ghost predicate PathKept(x: View, n: Slot, lo: int, hi: int) {
    forall s :: s in x.tab && Under(s, n) && OnPath(s, lo, hi) ==> HasPresent(x, s)
  }

  // What one call does to the tree w for the pages lo to hi below n.
  ghost predicate Unmapped(w: View, x: View, n: Slot, lo: int, hi: int, freed: bool) {
    && TreeOk(x, if freed then n else NO_SLOT)
    && (n in x.tab <==> !freed)
    && (freed ==> n in w.tab && w.tab[n] in x.free)
    && Shrinks(w, x)
    && (forall s :: s in w.tab && s !in x.tab ==> Under(s, n) && OnPath(s, lo, hi))
    && (forall v :: LeafMid(w, x, v, lo, hi, hi))
    && Elsewhere(w, x, n)
    && (NoWholeBlock(lo, hi) ==> x.lost == w.lost && PathKept(x, n, lo, hi))
  }

  // The loop over the children of n, with those below page cur done; the others
  // start at bound.
  ghost predicate Midway(w: View, x: View, n: Slot, lo: int, cur: int, hi: int, bound: int) {
    && TreeOk(x, NO_SLOT)
    && n in x.tab
    && Shrinks(w, x)
    && (forall s :: s in w.tab && s !in x.tab ==> Under(s, n) && s != n && OnPath(s, lo, hi) && Hi(s) <= bound)
    && (forall v :: LeafMid(w, x, v, lo, cur, hi))
    && Elsewhere(w, x, n)
    && (NoWholeBlock(lo, hi) ==> x.lost == w.lost && ChildrenKept(x, n, lo, cur))
  }

  ghost predicate ChildrenKept(x: View, n: Slot, lo: int, cur: int) {
    forall s :: s in x.tab && Under(s, n) && s != n && OnPath(s, lo, cur) ==> HasPresent(x, s)
  }

  // ------------------------------------------------------------- one child done

  lemma BlockInChild(v: int, lo: int, hi: int, c: Slot, from: int, to: int)
    requires 1 <= c.level <= 4 && from == (if lo < Lo(c) then Lo(c) else lo) && to == (if hi < Hi(c) then hi else Hi(c))
    requires from <= v < to
    ensures WholeBlock(v, from, to) <==> WholeBlock(v, lo, hi)
  {
    BlockBounds(c);
  }

  lemma NoBlockInChild(lo: int, hi: int, c: Slot, from: int, to: int)
    requires 1 <= c.level <= 4 && from == (if lo < Lo(c) then Lo(c) else lo) && to == (if hi < Hi(c) then hi else Hi(c))
    requires NoWholeBlock(lo, hi)
    ensures NoWholeBlock(from, to)
  {
    forall v ensures !WholeBlock(v, from, to) {
      assert !WholeBlock(v, lo, hi);
    }
  }

  ghost predicate EntryZeroed(w: View, x: View, n: Slot, i: int) {
    && n in w.tab && 0 <= i < ENTRIES
    && x.tab == w.tab && x.free == w.free && x.lost == w.lost
    && w.tab[n] in w.pages && |w.pages[w.tab[n]]| == ENTRIES
    && x.pages == Store(w.pages, w.tab[n], i, 0)
  }

  // The entry of a freed child is cleared: the tree is a tree again.
  lemma EntryCleared(w: View, x: View, n: Slot, i: int)
    requires TreeOk(w, Child(n, i)) && 2 <= n.level && Child(n, i) !in w.tab
    requires EntryZeroed(w, x, n, i)
    ensures TreeOk(x, NO_SLOT)
    ensures SameLeaves(w, x)
  {
    var c := Child(n, i);
    forall s | s in w.tab ensures w.tab[s] in x.pages && |x.pages[w.tab[s]]| == ENTRIES {
      assert SlotOk(w, s);
    }
    SameShape(w, x);
    forall s, j | s in x.tab && s.level >= 2 && 0 <= j < ENTRIES ensures EntryOk(x, s, j, NO_SLOT) {
      assert EntryOk(w, s, j, c);
      assert Child(s, j) == c ==> s == n && j == i;
    }
    forall s, j | s in x.tab && s.level == 1 && 0 <= j < ENTRIES ensures LeafOk(x, s, j) {
      assert LeafOk(w, s, j);
    }
    forall v ensures Leaf(x, v) == Leaf(w, v) {
      if LeafSlot(v) in w.tab {
        assert SlotOk(w, LeafSlot(v));
      }
    }
  }

  lemma LeavesCompose(w: View, x: View, y: View, lo: int, cur: int, next: int, hi: int, c: Slot)
    requires 1 <= c.level <= 4 && lo <= cur <= next <= hi
    requires cur == (if lo < Lo(c) then Lo(c) else lo) && next == (if hi < Hi(c) then hi else Hi(c))
    requires w.lost <= x.lost && x.lost <= y.lost
    requires forall v :: LeafMid(w, x, v, lo, cur, hi)
    requires forall v :: LeafMid(x, y, v, cur, next, next)
    ensures forall v :: LeafMid(w, y, v, lo, next, hi)
  {
    forall v ensures LeafMid(w, y, v, lo, next, hi) {
      assert LeafMid(w, x, v, lo, cur, hi) && LeafMid(x, y, v, cur, next, next);
      if cur <= v < next {
        BlockInChild(v, lo, hi, c, cur, next);
      }
    }
  }

  lemma ShrinksTwice(w: View, x: View, y: View)
    requires Shrinks(w, x) && Shrinks(x, y)
    ensures Shrinks(w, y)
  {
  }

  lemma ElsewhereTwice(w: View, x: View, y: View, n: Slot, c: Slot)
    requires Elsewhere(w, x, n) && Elsewhere(x, y, c) && Under(c, n)
    requires forall s :: s in w.tab && s !in x.tab ==> Under(s, n)
    requires forall s :: s in x.tab ==> s in w.tab && x.tab[s] == w.tab[s]
    ensures Elsewhere(w, y, n)
  {
  }

  // Tables kept below the children done before child i, and those below i.
  lemma KeptCompose(x: View, y: View, n: Slot, i: int, lo: int, cur: int, next: int)
    requires 2 <= n.level <= 4 && 0 <= i < ENTRIES
    requires Lo(Child(n, i)) <= cur <= next <= Hi(Child(n, i))
    requires cur == lo || cur == Lo(Child(n, i))
    requires forall s :: s in y.tab ==> s in x.tab && y.tab[s] == x.tab[s] && 1 <= s.level <= 4
    requires ChildrenKept(x, n, lo, cur) && PathKept(y, Child(n, i), cur, next)
    requires Elsewhere(x, y, Child(n, i))
    ensures ChildrenKept(y, n, lo, next)
  {
    forall s | s in y.tab && Under(s, n) && s != n && OnPath(s, lo, next) ensures HasPresent(y, s) {
      if s.level == n.level {
        UnderSame(s, n);
      } else {
        var j := UnderChild(s, n);
        if j < i {
          ChildrenApart(n, j, i);
          BlockBounds(s);
          BlockBounds(Child(n, i));
          assert HasPresent(x, s);
        } else if j > i {
          ChildrenApart(n, i, j);
        } else {
          BlockBounds(s);
        }
      }
    }
  }

  lemma ZeroingShrinks(w: View, x: View, n: Slot, i: int, dangling: Slot)
    requires TreeOk(w, dangling) && EntryZeroed(w, x, n, i) && n.level <= 4
    ensures Shrinks(w, x) && Elsewhere(w, x, n)
    ensures OthersSame(w, x, n)
  {
    TablesExist(w, dangling);
    assert w.tab[n] in w.tab.Values;
  }

  // One turn of the loop over the children: the call for child i, and clearing
  // its entry when the call has freed it.
  lemma ChildDone(w: View, x: View, y: View, z: View, n: Slot, i: int, lo: int, cur: int, next: int, hi: int,
                  freed: bool)
    requires 2 <= n.level <= 4 && 0 <= i < ENTRIES && lo <= cur < next <= hi
    requires var c := Child(n, i);
             && cur == (if lo < Lo(c) then Lo(c) else lo) && next == (if hi < Hi(c) then hi else Hi(c)) && Lo(c) <= cur
    requires Midway(w, x, n, lo, cur, hi, Lo(Child(n, i)))
    requires Unmapped(x, y, Child(n, i), cur, next, freed)
    requires if freed then EntryZeroed(y, z, n, i) else z == y
    ensures Midway(w, z, n, lo, next, hi, Lo(Child(n, i + 1)))
  {
    hide TreeOk, Leaf, Evolves, HasPresent, LeafMid, ChildrenKept, PathKept, Elsewhere, OnPath, WholeBlock,
         NoWholeBlock, Size;
    var c := Child(n, i);
    ChildSpan(n, i);
    UnderParent(c);
    LeavesCompose(w, x, y, lo, cur, next, hi, c);
    ShrinksTwice(w, x, y);
    ElsewhereTwice(w, x, y, n, c);
    if NoWholeBlock(lo, hi) {
      NoBlockInChild(lo, hi, c, cur, next);
      LevelsOk(y, if freed then c else NO_SLOT);
      KeptCompose(x, y, n, i, lo, cur, next);
    }
    ChildRemoved(w, x, y, n, i, lo, cur, next, hi, freed);
    assert n in y.tab by {
      assert !Under(n, c);
    }
    if freed {
      EntryCleared(y, z, n, i);
      ZeroingShrinks(y, z, n, i, c);
      ShrinksTwice(w, y, z);
      ElsewhereTwice(w, y, z, n, n);
      ZeroingKeeps(w, y, z, n, i, lo, next, hi);
    }
  }

  lemma LevelsOk(w: View, dangling: Slot)
    requires TreeOk(w, dangling)
    ensures forall s :: s in w.tab ==> 1 <= s.level <= 4
  {
    forall s | s in w.tab ensures 1 <= s.level <= 4 {
      assert SlotOk(w, s);
    }
  }

  lemma ChildRemoved(w: View, x: View, y: View, n: Slot, i: int, lo: int, cur: int, next: int, hi: int, freed: bool)
    requires 2 <= n.level <= 4 && 0 <= i < ENTRIES && lo <= cur < next <= hi
    requires Midway(w, x, n, lo, cur, hi, Lo(Child(n, i)))
    requires Unmapped(x, y, Child(n, i), cur, next, freed)
    ensures forall s :: s in w.tab && s !in y.tab ==>
              Under(s, n) && s != n && OnPath(s, lo, hi) && Hi(s) <= Lo(Child(n, i + 1))
  {
    hide TreeOk, Leaf, LeafMid, Evolves, Size, Lo, Elsewhere, HasPresent;
    SizesPositive(Child(n, i));
    ChildSpan(n, i);
    UnderParent(Child(n, i));
  }

  lemma ZeroingKeeps(w: View, y: View, z: View, n: Slot, i: int, lo: int, next: int, hi: int)
    requires EntryZeroed(y, z, n, i) && OthersSame(y, z, n) && SameLeaves(y, z)
    requires forall v :: LeafMid(w, y, v, lo, next, hi)
    ensures forall v :: LeafMid(w, z, v, lo, next, hi)
    ensures ChildrenKept(y, n, lo, next) ==> ChildrenKept(z, n, lo, next)
  {
    forall v ensures LeafMid(w, z, v, lo, next, hi) {
      assert LeafMid(w, y, v, lo, next, hi);
    }
    if ChildrenKept(y, n, lo, next) {
      forall s | s in z.tab && Under(s, n) && s != n && OnPath(s, lo, next) ensures HasPresent(z, s) {
        assert HasPresent(y, s);
      }
    }
  }

  // ---------------------------------------------------------- freeing the table

  // The tables that go with n when n is given back.
  ghost function FramesBelow(x: View, n: Slot): set<int> {
    set s | s in x.tab && Under(s, n) && s != n :: x.tab[s]
  }

  ghost predicate TableDropped(x: View, y: View, n: Slot) {
    && n in x.tab
    && y.tab == (map s | s in x.tab && !Under(s, n) :: x.tab[s])
    && y.free == x.free + {x.tab[n]}
    && y.lost == x.lost + FramesBelow(x, n)
    && y.pages.Keys == x.pages.Keys
    && (forall p :: p in x.pages && p != x.tab[n] && p !in x.free ==> y.pages[p] == x.pages[p])
  }

  lemma DropSlots(x: View, y: View, n: Slot)
    requires TreeOk(x, NO_SLOT) && TableDropped(x, y, n)
    ensures forall s :: s in y.tab ==>
              s in x.tab && y.tab[s] == x.tab[s] && SlotOk(y, s) && y.pages[y.tab[s]] == x.pages[x.tab[s]]
    ensures y.free !! y.lost && n !in y.tab && 1 <= n.level <= 4
  {
    assert SlotOk(x, n);
    TablesExist(x, NO_SLOT);
    forall s | s in y.tab ensures SlotOk(y, s) && y.pages[y.tab[s]] == x.pages[x.tab[s]] {
      assert SlotOk(x, s);
      assert s != n;
      if s.level < 4 {
        UnderParent(s);
        assert Parent(s) in y.tab;
      }
    }
  }

  lemma DropTree(x: View, y: View, n: Slot)
    requires TreeOk(x, NO_SLOT) && TableDropped(x, y, n)
    ensures TreeOk(y, n)
    ensures forall v :: Leaf(y, v) == if Covering(n, v) then 0 else Leaf(x, v)
  {
    DropSlots(x, y, n);
    forall s, j | s in y.tab && s.level >= 2 && 0 <= j < ENTRIES ensures EntryOk(y, s, j, n) {
      assert EntryOk(x, s, j, NO_SLOT);
      DroppedChild(x, y, n, s, j);
    }
    forall s, j | s in y.tab && s.level == 1 && 0 <= j < ENTRIES ensures LeafOk(y, s, j) {
      assert LeafOk(x, s, j);
    }
    forall v ensures Leaf(y, v) == if Covering(n, v) then 0 else Leaf(x, v) {
      LeafUnder(v, n);
      if LeafSlot(v) in x.tab {
        assert SlotOk(x, LeafSlot(v));
      }
    }
  }

  // A table that stays has lost no child but n.
  lemma DroppedChild(x: View, y: View, n: Slot, s: Slot, j: int)
    requires TreeOk(x, NO_SLOT) && TableDropped(x, y, n) && s in y.tab && 2 <= s.level && 0 <= j < ENTRIES
    ensures Child(s, j) in x.tab ==> Child(s, j) in y.tab || Child(s, j) == n
  {
    var c := Child(s, j);
    if c in x.tab && c !in y.tab && c != n {
      assert SlotOk(x, c) && SlotOk(x, n) && SlotOk(x, s);
      ChildSpan(s, j);
      if c.level < n.level {
        UnderUp(c, n);
      } else {
        UnderSame(c, n);
      }
    }
  }

  lemma DropFrames(x: View, y: View, n: Slot)
    requires TreeOk(x, NO_SLOT) && TableDropped(x, y, n)
    ensures Shrinks(x, y) && Elsewhere(x, y, n)
  {
    hide TreeOk;
    TablesExist(x, NO_SLOT);
    SameFrames(x, y, n);
    assert x.tab[n] in x.tab.Values;
    assert Under(n, n);
  }

  lemma SameFrames(x: View, y: View, n: Slot)
    requires TableDropped(x, y, n)
    ensures Frames(y) == Frames(x)
  {
    forall p | p in x.tab.Values ensures p in Frames(y) {
      var s :| s in x.tab && x.tab[s] == p;
      if !Under(s, n) {
        assert s in y.tab && y.tab[s] == p;
      }
    }
    forall p | p in y.tab.Values ensures p in x.tab.Values {
      var s :| s in y.tab && y.tab[s] == p;
      assert s in x.tab && x.tab[s] == p;
    }
    forall p | p in FramesBelow(x, n) ensures p in x.tab.Values {
      var s :| s in x.tab && Under(s, n) && s != n && x.tab[s] == p;
    }
  }

  // The scan of vmm_unmapRecursive found nothing from the start of table n to
  // entry first, nor from entry last to its end.
  ghost predicate EmptyAround(x: View, n: Slot, first: int, last: int) {
    && n in x.tab && x.tab[n] in x.pages && |x.pages[x.tab[n]]| == ENTRIES
    && forall j :: 0 <= j < ENTRIES && (j <= first || last <= j) ==> !Present(x.pages[x.tab[n]][j])
  }

  lemma ScannedChild(x: View, n: Slot, first: int, last: int, s: Slot) returns (j: int)
    requires TreeOk(x, NO_SLOT) && 2 <= n.level <= 4 && EmptyAround(x, n, first, last)
    requires s in x.tab && Under(s, n) && s != n
    ensures 0 <= j < ENTRIES && first < j < last && Under(s, Child(n, j))
  {
    assert SlotOk(x, s);
    if s.level == n.level {
      UnderSame(s, n);
    }
    j := UnderChild(s, n);
    ChildInTree(x, s, n, j, NO_SLOT);
    UpperEntry(x, n, j, NO_SLOT);
    FrameOfEntry(x.tab[Child(n, j)], UPPER_FLAGS);
  }

  lemma BlockInside(v: int, a: int, b: int)
    requires a % 512 == 0 && b % 512 == 0 && a <= v < b
    ensures a <= v / 512 * 512 && v / 512 * 512 + 512 <= b
  {
  }

  lemma InsideIsWhole(c: Slot, lo: int, hi: int, v: int)
    requires 1 <= c.level <= 4 && lo <= Lo(c) && Hi(c) <= hi && Covering(c, v)
    ensures WholeBlock(v, lo, hi)
  {
    BlockBounds(c);
    BlockInside(v, Lo(c), Hi(c));
  }

  // The children strictly between the first and the last lie in the range.
  lemma Between(n: Slot, first: int, j: int, last: int, lo: int, hi: int)
    requires 2 <= n.level <= 4 && first < j < last
    requires Covering(Child(n, first), lo) && Covering(Child(n, last), hi - 1)
    ensures lo <= Lo(Child(n, j)) && Hi(Child(n, j)) <= hi
    ensures !NoWholeBlock(lo, hi)
    ensures forall v :: Covering(Child(n, j), v) ==> WholeBlock(v, lo, hi)
  {
    hide WholeBlock, Size, Lo;
    ChildrenApart(n, first, j);
    ChildrenApart(n, j, last);
    var c := Child(n, j);
    forall v | Covering(c, v) ensures WholeBlock(v, lo, hi) {
      InsideIsWhole(c, lo, hi, v);
    }
    BlockBounds(c);
    assert Covering(c, Lo(c));
  }

  lemma FreedLeaf(w: View, x: View, y: View, n: Slot, lo: int, hi: int, first: int, last: int, v: int)
    requires TreeOk(x, NO_SLOT) && TreeOk(y, n) && TableDropped(x, y, n) && 2 <= n.level <= 4
    requires 0 <= first <= last < ENTRIES && EmptyAround(x, n, first, last)
    requires Covering(Child(n, first), lo) && Covering(Child(n, last), hi - 1)
    requires LeafMid(w, x, v, lo, hi, hi) && w.lost <= x.lost
    requires Leaf(y, v) == if Covering(n, v) then 0 else Leaf(x, v)
    ensures LeafMid(w, y, v, lo, hi, hi)
  {
    if Covering(n, v) && Leaf(x, v) != 0 {
      LeafUnder(v, n);
      var s := LeafSlot(v);
      var j := ScannedChild(x, n, first, last, s);
      Between(n, first, j, last, lo, hi);
      LeafUnder(v, Child(n, j));
      assert SlotOk(x, s);
      assert x.tab[s] in FramesBelow(x, n);
    }
  }

  // The call frees its table.
  lemma TableFreed(w: View, x: View, y: View, n: Slot, lo: int, hi: int, first: int, last: int, bound: int)
    requires 2 <= n.level <= 4 && lo < hi && Midway(w, x, n, lo, hi, hi, bound) && TableDropped(x, y, n)
    requires 0 <= first <= last < ENTRIES && EmptyAround(x, n, first, last)
    requires Covering(n, lo) && Covering(Child(n, first), lo) && Covering(Child(n, last), hi - 1)
    ensures Unmapped(w, y, n, lo, hi, true)
  {
    hide TreeOk, Leaf, Evolves, HasPresent;
    DropTree(x, y, n);
    DropFrames(x, y, n);
    ShrinksTwice(w, x, y);
    ElsewhereTwice(w, x, y, n, n);
    forall v ensures LeafMid(w, y, v, lo, hi, hi) {
      FreedLeaf(w, x, y, n, lo, hi, first, last, v);
    }
    FreedRemoved(w, x, y, n, lo, hi, first, last, bound);
    if NoWholeBlock(lo, hi) {
      NothingLost(x, n, lo, hi, first, last);
    }
  }

  lemma NothingLost(x: View, n: Slot, lo: int, hi: int, first: int, last: int)
    requires TreeOk(x, NO_SLOT) && 2 <= n.level <= 4 && EmptyAround(x, n, first, last) && NoWholeBlock(lo, hi)
    requires Covering(Child(n, first), lo) && Covering(Child(n, last), hi - 1)
    ensures FramesBelow(x, n) == {}
  {
    forall s | s in x.tab && Under(s, n) && s != n ensures false {
      var j := ScannedChild(x, n, first, last, s);
      Between(n, first, j, last, lo, hi);
    }
  }

  lemma FreedRemoved(w: View, x: View, y: View, n: Slot, lo: int, hi: int, first: int, last: int, bound: int)
    requires 2 <= n.level <= 4 && lo < hi && Midway(w, x, n, lo, hi, hi, bound) && TableDropped(x, y, n)
    requires 0 <= first <= last < ENTRIES && EmptyAround(x, n, first, last)
    requires Covering(n, lo) && Covering(Child(n, first), lo) && Covering(Child(n, last), hi - 1)
    ensures forall s :: s in w.tab && s !in y.tab ==> Under(s, n) && OnPath(s, lo, hi)
    ensures forall s :: s in y.tab ==> !Under(s, n)
  {
    forall s | s in w.tab && s !in y.tab ensures Under(s, n) && OnPath(s, lo, hi) {
      if s in x.tab && s != n {
        var j := ScannedChild(x, n, first, last, s);
        Between(n, first, j, last, lo, hi);
        assert SlotOk(x, s);
        BlockBounds(s);
      }
    }
  }

  // The call keeps its table.
  lemma TableKept(w: View, x: View, n: Slot, lo: int, hi: int, bound: int)
    requires Midway(w, x, n, lo, hi, hi, bound)
    requires NoWholeBlock(lo, hi) && lo < hi ==> HasPresent(x, n)
    ensures Unmapped(w, x, n, lo, hi, false)
  {
  }

  // When no child was freed, the table still names the first of them.
  lemma ChildStays(x: View, n: Slot, i: int)
    requires TreeOk(x, NO_SLOT) && n in x.tab && 2 <= n.level && 0 <= i < ENTRIES && Child(n, i) in x.tab
    ensures HasPresent(x, n)
  {
    UpperEntry(x, n, i, NO_SLOT);
    FrameOfEntry(x.tab[Child(n, i)], UPPER_FLAGS);
    assert Present(x.pages[x.tab[n]][i]);
  }

  // -------------------------------------------------------------- a page table

  // Level 1: the entries of lo to hi have been cleared - none of them when the
  // range is the whole table.
  ghost predicate Cleared(w: View, x: View, n: Slot, lo: int, hi: int) {
    && TreeOk(x, NO_SLOT) && n in x.tab && n.level == 1 && x.tab == w.tab && x.lost == w.lost
    && Evolves(w, x) && Elsewhere(w, x, n)
    && (forall v :: Leaf(x, v) == if lo <= v < hi && hi - lo < 512 then 0 else Leaf(w, v))
  }

  lemma LeafTableOnly(x: View, n: Slot, s: Slot)
    requires n.level == 1 && 1 <= s.level && Under(s, n)
    ensures s == n
  {
    UnderSame(s, n);
  }

  lemma ClearedMidway(w: View, x: View, n: Slot, lo: int, hi: int)
    requires Cleared(w, x, n, lo, hi) && Lo(n) <= lo < hi <= Hi(n)
    ensures Midway(w, x, n, lo, hi, hi, hi)
  {
    hide TreeOk, Leaf, Evolves, HasPresent;
    forall v ensures LeafMid(w, x, v, lo, hi, hi) {
      if lo <= v < hi {
        LeafUnder(v, n);
        assert WholeBlock(v, lo, hi) <==> hi - lo == 512;
      }
    }
    LevelsOk(x, NO_SLOT);
    forall s | s in x.tab && Under(s, n) && s != n ensures false {
      LeafTableOnly(x, n, s);
    }
  }

  lemma LeafTableFreed(w: View, x: View, y: View, n: Slot, lo: int, hi: int)
    requires Cleared(w, x, n, lo, hi) && Lo(n) <= lo < hi <= Hi(n)
    requires EmptyAround(x, n, ENTRIES, ENTRIES) && TableDropped(x, y, n)
    ensures Unmapped(w, y, n, lo, hi, true)
  {
    hide TreeOk, Leaf, Evolves, HasPresent;
    ClearedMidway(w, x, n, lo, hi);
    DropTree(x, y, n);
    DropFrames(x, y, n);
    ShrinksTwice(w, x, y);
    ElsewhereTwice(w, x, y, n, n);
    LevelsOk(x, NO_SLOT);
    forall s | s in x.tab && Under(s, n) ensures s == n {
      LeafTableOnly(x, n, s);
    }
    assert FramesBelow(x, n) == {};
    forall v ensures LeafMid(w, y, v, lo, hi, hi) {
      EmptyLeaf(x, n, v);
      assert LeafMid(w, x, v, lo, hi, hi);
    }
  }

  lemma EmptyLeaf(x: View, n: Slot, v: int)
    requires TreeOk(x, NO_SLOT) && n in x.tab && n.level == 1 && EmptyAround(x, n, ENTRIES, ENTRIES)
    ensures Covering(n, v) ==> Leaf(x, v) == 0
  {
    if Covering(n, v) {
      assert LeafSlot(v) == n;
      assert LeafOk(x, n, v % 512);
    }
  }

  // ------------------------------------------------------------- doing nothing

  lemma Untouched(w: View, n: Slot, lo: int, cur: int, hi: int, bound: int)
    requires TreeOk(w, NO_SLOT) && n in w.tab && cur <= lo
    ensures Midway(w, w, n, lo, cur, hi, bound)
  {
    forall s | s in w.tab ensures w.tab[s] in w.pages {
      assert SlotOk(w, s);
    }
  }

  lemma NothingToUnmap(w: View, n: Slot, lo: int)
    requires TreeOk(w, NO_SLOT) && n in w.tab
    ensures Unmapped(w, w, n, lo, lo, false)
  {
    Untouched(w, n, lo, lo, lo, lo);
  }

  // The count of a whole table is masked to 0.
  lemma WholeTableSkipped(w: View, n: Slot)
    requires TreeOk(w, NO_SLOT) && n in w.tab && 2 <= n.level <= 4
    ensures Unmapped(w, w, n, Lo(n), Hi(n), false)
  {
    Untouched(w, n, Lo(n), Lo(n), Hi(n), Lo(n));
    forall v | Covering(n, v) ensures WholeBlock(v, Lo(n), Hi(n)) {
      InsideIsWhole(n, Lo(n), Hi(n), v);
    }
    BlockBounds(n);
    assert Covering(n, Lo(n));
  }

  // -------------------------------------------------------- when the PML4 goes

  // Below a table that is gone there are no leaves.
  lemma PathGone(x: View, s: Slot, v: int, dangling: Slot)
    requires TreeOk(x, dangling) && 1 <= s.level <= 4 && s !in x.tab && Covering(s, v)
    ensures Leaf(x, v) == 0
  {
    var l := LeafSlot(v);
    LeafUnder(v, s);
    if l in x.tab {
      Ancestor(x, l, s, dangling);
    }
  }

  lemma {:induction false} Ancestor(x: View, l: Slot, s: Slot, dangling: Slot)
    requires TreeOk(x, dangling) && l in x.tab && 1 <= l.level <= s.level <= 4 && Under(l, s)
    ensures s in x.tab
    decreases s.level - l.level
  {
    if l.level == s.level {
      UnderSame(l, s);
    } else {
      assert SlotOk(x, l);
      UnderUp(l, s);
      Ancestor(x, Parent(l), s, dangling);
    }
  }

  // No table of the tree is empty, except perhaps the PML4.
  ghost predicate NoEmptyTables(w: View) {
    forall s :: s in w.tab && s != ROOT ==> HasPresent(w, s)
  }

  lemma AllUnderRoot(w: View, s: Slot, dangling: Slot)
    requires TreeOk(w, dangling) && s in w.tab
    ensures Under(s, ROOT) && 1 <= s.level <= 4 && (s.level == 4 ==> s == ROOT)
  {
    assert SlotOk(w, s);
    if s.level == 1 {
    } else if s.level == 2 {
    } else if s.level == 3 {
    } else {
    }
  }

  lemma PresentLeaf(w: View, s: Slot, dangling: Slot) returns (v: int)
    requires TreeOk(w, dangling) && s in w.tab && s.level == 1 && HasPresent(w, s)
    ensures LeafSlot(v) == s && Leaf(w, v) != 0
  {
    var i :| 0 <= i < ENTRIES && Present(w.pages[w.tab[s]][i]);
    v := s.prefix * 512 + i;
  }

  lemma LeafHasTable(w: View, v: int)
    ensures Leaf(w, v) != 0 ==> LeafSlot(v) in w.tab
  {
  }

  lemma PresentChild(w: View, s: Slot) returns (i: int)
    requires TreeOk(w, NO_SLOT) && s in w.tab && s.level >= 2 && HasPresent(w, s)
    ensures 0 <= i < ENTRIES && Child(s, i) in w.tab && Parent(Child(s, i)) == s
  {
    i :| 0 <= i < ENTRIES && Present(w.pages[w.tab[s]][i]);
    UpperEntry(w, s, i, NO_SLOT);
  }

  // A table that a mapped page's walk goes through is not empty.
  lemma LeafKeepsTable(x: View, s: Slot, v: int)
    requires TreeOk(x, NO_SLOT) && s in x.tab && 1 <= s.level <= 4 && Covering(s, v) && Leaf(x, v) != 0
    ensures HasPresent(x, s)
  {
    LeafUnder(v, s);
    if s.level == 1 {
      UnderSame(LeafSlot(v), s);
      assert SlotOk(x, s) && LeafOk(x, s, v % 512);
    } else {
      hide TreeOk, HasPresent, Leaf;
      LeafHasTable(x, v);
      var j := UnderChild(LeafSlot(v), s);
      Ancestor(x, LeafSlot(v), Child(s, j), NO_SLOT);
      ChildStays(x, s, j);
    }
  }

  // Conversely a table that is not empty has a mapped page below it.
  lemma {:induction false} TableHasLeaf(w: View, s: Slot) returns (v: int)
    requires TreeOk(w, NO_SLOT) && NoEmptyTables(w) && s in w.tab && 1 <= s.level <= 4 && HasPresent(w, s)
    ensures Covering(s, v) && Leaf(w, v) != 0
    decreases s.level
  {
    hide TreeOk, HasPresent, Leaf;
    if s.level == 1 {
      v := PresentLeaf(w, s, NO_SLOT);
      LeafUnder(v, s);
    } else {
      var i := PresentChild(w, s);
      v := TableHasLeaf(w, Child(s, i));
      UnderParent(Child(s, i));
    }
  }

  // Unmapping leaves no empty table.
  lemma UnmapLeavesNoneEmpty(w: View, x: View, lo: int, hi: int)
    requires TreeOk(w, NO_SLOT) && NoEmptyTables(w) && NoWholeBlock(lo, hi) && Unmapped(w, x, ROOT, lo, hi, false)
    ensures NoEmptyTables(x)
  {
    hide TreeOk, HasPresent, Leaf, Evolves, NoWholeBlock;
    forall s | s in x.tab && s != ROOT ensures HasPresent(x, s) {
      AllUnderRoot(x, s, NO_SLOT);
      if !OnPath(s, lo, hi) {
        var v := TableHasLeaf(w, s);
        assert LeafMid(w, x, v, lo, hi, hi);
        LeafStays(w, x, s, v, lo, hi);
        LeafKeepsTable(x, s, v);
      }
    }
  }

  lemma LeafStays(w: View, x: View, s: Slot, v: int, lo: int, hi: int)
    requires LeafMid(w, x, v, lo, hi, hi) && !OnPath(s, lo, hi) && Covering(s, v)
    ensures Leaf(x, v) == Leaf(w, v)
  {
  }

  // Every table that an unmap leaves has a leaf somewhere below it.
  lemma {:induction false} SurvivorHasLeaf(w: View, x: View, s: Slot, lo: int, hi: int) returns (v: int)
    requires TreeOk(w, NO_SLOT) && NoEmptyTables(w) && 0 <= lo < hi <= VIRTUAL_PAGES && NoWholeBlock(lo, hi)
    requires Unmapped(w, x, ROOT, lo, hi, false) && s in x.tab && 1 <= s.level <= 4
    ensures Leaf(x, v) != 0
    decreases s.level
  {
    hide TreeOk, Leaf, Evolves, HasPresent, NoWholeBlock, LeafMid;
    AllUnderRoot(x, s, NO_SLOT);
    if s.level == 1 {
      v := KeptLeaf(w, x, s, lo, hi);
    } else {
      var i := KeptChild(w, x, s, lo, hi);
      v := SurvivorHasLeaf(w, x, Child(s, i), lo, hi);
    }
  }

  lemma KeptLeaf(w: View, x: View, s: Slot, lo: int, hi: int) returns (v: int)
    requires TreeOk(w, NO_SLOT) && TreeOk(x, NO_SLOT) && NoEmptyTables(w) && Unmapped(w, x, ROOT, lo, hi, false)
    requires NoWholeBlock(lo, hi) && s in x.tab && s.level == 1 && Under(s, ROOT) && lo < hi
    ensures Leaf(x, v) != 0
  {
    hide TreeOk, Leaf, Evolves, HasPresent;
    if OnPath(s, lo, hi) {
      v := PresentLeaf(x, s, NO_SLOT);
    } else {
      v := PresentLeaf(w, s, NO_SLOT);
      assert Lo(LeafSlot(v)) <= v < Hi(LeafSlot(v));
      assert LeafMid(w, x, v, lo, hi, hi);
    }
  }

  lemma KeptChild(w: View, x: View, s: Slot, lo: int, hi: int) returns (i: int)
    requires TreeOk(w, NO_SLOT) && TreeOk(x, NO_SLOT) && NoEmptyTables(w) && Unmapped(w, x, ROOT, lo, hi, false)
    requires NoWholeBlock(lo, hi) && s in x.tab && 2 <= s.level <= 4 && Under(s, ROOT)
    requires 0 <= lo < hi <= VIRTUAL_PAGES
    ensures 0 <= i < ENTRIES && Child(s, i) in x.tab
  {
    hide TreeOk, Leaf, Evolves, HasPresent;
    if OnPath(s, lo, hi) {
      i := PresentChild(x, s);
    } else {
      i := PresentChild(w, s);
      UnderParent(Child(s, i));
      assert !OnPath(Child(s, i), lo, hi);
    }
  }

  lemma NoBlockAt(v: int, lo: int, hi: int)
    requires NoWholeBlock(lo, hi)
    ensures !WholeBlock(v, lo, hi)
  {
  }

  // For a range without whole page tables, in a tree without empty ones: the
  // PML4 goes - and vmm_unmap frees it a second time - exactly when every mapped
  // page lies in the range.
  lemma RootGoesExactly(w: View, x: View, lo: int, hi: int, freed: bool)
    requires TreeOk(w, NO_SLOT) && ROOT in w.tab && NoEmptyTables(w) && 0 <= lo < hi <= VIRTUAL_PAGES
    requires NoWholeBlock(lo, hi) && Unmapped(w, x, ROOT, lo, hi, freed)
    ensures freed <==> forall v :: Leaf(w, v) != 0 ==> lo <= v < hi
  {
    hide TreeOk, Leaf, Evolves, HasPresent, NoWholeBlock;
    if freed {
      forall v | Leaf(w, v) != 0 ensures lo <= v < hi {
        LeafHasTable(w, v);
        AllUnderRoot(w, LeafSlot(v), NO_SLOT);
        PathGone(x, ROOT, v, ROOT);
        assert LeafMid(w, x, v, lo, hi, hi);
      }
    } else {
      var v := SurvivorHasLeaf(w, x, ROOT, lo, hi);
      assert LeafMid(w, x, v, lo, hi, hi);
      NoBlockAt(v, lo, hi);
    }
  }
}
