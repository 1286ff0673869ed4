// The loop of malloc_refillPhysicalMemoryPool (kernel/src/stdlib.c): backing a
// virtual reservation with page frames, in blocks that are halved whenever the
// physical allocator has none of the current size.
module Refill {
  import opened Words
  import opened Ranges
  import opened PhysicalMemory
  import opened PageTables
  import opened FrameSupply
  import opened AddressSpace
  import opened BlockSizes

  // ------------------------------------------------------------ what is mapped

  // x means what w means, except that the pages from first go to the given frames.
  ghost predicate Backs(w: View, x: View, first: int, frames: seq<int>, flags: int) {
    forall v :: Leaf(x, v) == if first <= v < first + |frames| then frames[v - first] + flags else Leaf(w, v)
  }

  // The frames were free at first, and are now neither free nor tables; no frame
  // is there twice.
  ghost predicate Claimed(w: View, x: View, frames: seq<int>) {
    && (forall i :: 0 <= i < |frames| ==>
          && 0 < frames[i] < MEMORY_LIMIT && frames[i] % PAGE_SIZE == 0
          && frames[i] in w.free && frames[i] !in x.free && frames[i] !in x.tab.Values)
    && (forall i, j :: 0 <= i < j < |frames| ==> frames[i] != frames[j])
    && x.free <= w.free
  }

  ghost function FramesFrom(physical: int, n: nat): (s: seq<int>)
    ensures |s| == n
  {
    seq(n, i => physical + i * PAGE_SIZE)
  }

  lemma BacksMore(w: View, x: View, y: View, first: int, frames: seq<int>, n: nat, physical: int, flags: int)
    requires Backs(w, x, first, frames, flags) && MapsTo(x, y, first + |frames|, n, physical, flags)
    ensures Backs(w, y, first, frames + FramesFrom(physical, n), flags)
  {
    hide Leaf;
    var more := frames + FramesFrom(physical, n);
    forall v ensures Leaf(y, v) == if first <= v < first + |more| then more[v - first] + flags else Leaf(w, v) {
      assert Leaf(x, v) == if first <= v < first + |frames| then frames[v - first] + flags else Leaf(w, v);
    }
  }

  lemma BacksSame(w: View, x: View, y: View, first: int, frames: seq<int>, flags: int)
    requires Backs(w, x, first, frames, flags) && SameLeaves(x, y)
    ensures Backs(w, y, first, frames, flags)
  {
  }

  // A mapped tree takes its new tables from the free frames.
  lemma TablesWereFree(w: View, x: View, lo: int, hi: int)
    requires TreeOk(w, NO_SLOT) && TreeOk(x, NO_SLOT) && Extends(w, x, lo, hi) && x.lost == w.lost
    ensures x.free <= w.free && x.tab.Values <= w.tab.Values + w.free
  {
    hide Leaf;
    forall p | p in x.tab.Values ensures p !in x.free && p !in x.lost {
      var s :| s in x.tab && x.tab[s] == p;
      assert SlotOk(x, s);
    }
    forall p | p in w.tab.Values ensures p in x.tab.Values {
      var s :| s in w.tab && w.tab[s] == p;
      assert x.tab[s] == p;
    }
    forall p | p in x.tab.Values ensures p in w.tab.Values || p in w.free {
      assert p in Frames(x) && p in Frames(w);
    }
    forall p | p in x.free ensures p in w.free {
      assert p in Frames(x) && p in Frames(w);
    }
  }

  lemma ClaimedStill(w: View, x: View, y: View, frames: seq<int>, lo: int, hi: int)
    requires Claimed(w, x, frames) && TreeOk(x, NO_SLOT) && TreeOk(y, NO_SLOT) && Extends(x, y, lo, hi)
             && y.lost == x.lost
    ensures Claimed(w, y, frames)
  {
    hide TreeOk, Extends;
    TablesWereFree(x, y, lo, hi);
    forall i | 0 <= i < |frames| ensures frames[i] !in y.tab.Values {
      assert frames[i] !in x.tab.Values + x.free;
    }
  }

  // The frames of a block that pmm_alloc took.
  ghost predicate BlockTaken(x: View, y: View, physical: int, n: nat) {
    && physical % PAGE_SIZE == 0 && 0 <= physical && physical + n * PAGE_SIZE <= MEMORY_LIMIT
    && y.tab == x.tab && y.lost == x.lost
    && x.free == y.free + PagesIn(physical, n * PAGE_SIZE) && |y.free| + n == |x.free|
    && forall i :: 0 <= i < n ==> physical + i * PAGE_SIZE in x.free && physical + i * PAGE_SIZE !in y.free
  }

  lemma ClaimedMore(w: View, x: View, y: View, frames: seq<int>, physical: int, n: nat)
    requires Claimed(w, x, frames) && TreeOk(x, NO_SLOT) && BlockTaken(x, y, physical, n) && 0 < physical
    ensures Claimed(w, y, frames + FramesFrom(physical, n))
  {
    hide Leaf;
    var more := frames + FramesFrom(physical, n);
    forall i | 0 <= i < |more|
      ensures 0 < more[i] < MEMORY_LIMIT && more[i] % PAGE_SIZE == 0
      ensures more[i] in w.free && more[i] !in y.free && more[i] !in y.tab.Values
    {
      if i >= |frames| {
        var p := physical + (i - |frames|) * PAGE_SIZE;
        assert more[i] == p && p in x.free;
        forall s | s in x.tab ensures x.tab[s] != p {
          assert SlotOk(x, s);
        }
      }
    }
  }

  // pmm_alloc beside a tree: the tree keeps its meaning.
  lemma AllocBesideTree(x: View, y: View, s: seq<Range>, n: int)
    requires TreeOk(x, NO_SLOT) && ListShape(x.pages, s) && x.free == PagesOf(s) && n > 0 && n % PAGE_SIZE == 0
    requires y == x.(pages := y.pages, free := PagesOf(Take(s, n))) && OnlyFreeWritten(x, y, {})
    ensures TreeOk(y, NO_SLOT) && SameLeaves(x, y) && y.free <= x.free
    ensures Fits(s, n) ==> BlockTaken(x, y, TakenAt(s, n), n / PAGE_SIZE)
  {
    hide TreeOk, ListShape, PagesOf, Take, Fits, TakenAt;
    FewerPages(x.pages, s, n);
    TreeTables(x);
    if Fits(s, n) {
      TakenBlock(x, y, s, n);
    }
    FramesMove(x, y, {});
    forall v ensures Leaf(y, v) == Leaf(x, v) {
    }
  }

  lemma FewerPages(pages: Pages, s: seq<Range>, n: int)
    requires ListShape(pages, s) && n > 0 && n % PAGE_SIZE == 0
    ensures PagesOf(Take(s, n)) <= PagesOf(s)
  {
    TakeKeepsShape(pages, s, n);
    TakeRemovesOneBlock(s, n);
  }

  lemma TakenBlock(x: View, y: View, s: seq<Range>, n: int)
    requires ListShape(x.pages, s) && x.free == PagesOf(s) && n > 0 && n % PAGE_SIZE == 0 && Fits(s, n)
    requires y == x.(pages := y.pages, free := PagesOf(Take(s, n)))
    ensures BlockTaken(x, y, TakenAt(s, n), n / PAGE_SIZE)
  {
    hide PagesOf, ListShape, Take, TakenAt, Fits;
    BlockCount(x.pages, s, n);
    var ptr := TakenAt(s, n);
    forall i | 0 <= i < n / PAGE_SIZE ensures ptr + i * PAGE_SIZE in x.free && ptr + i * PAGE_SIZE !in y.free {
      assert ptr + i * PAGE_SIZE in PagesIn(ptr, n);
    }
    assert n / PAGE_SIZE * PAGE_SIZE == n;
  }

  lemma TreeTables(x: View)
    requires TreeOk(x, NO_SLOT)
    ensures x.free !! x.lost && forall s :: s in x.tab ==> x.tab[s] in x.pages && x.tab[s] !in x.free
  {
    forall s | s in x.tab ensures x.tab[s] in x.pages && x.tab[s] !in x.free {
      assert SlotOk(x, s);
    }
  }

  // --------------------------------------------------------------- the accounts

  // PRESENT, ACCESSED and READ_WRITE, write-back: the leaf flags of the heap.
  const HEAP_FLAGS: int := 35

  // C_VMM_PROT_EXEC | C_VMM_PROT_READ_WRITE
  const PROTECTION: int := 6

  // What the loop has done to w when it has mapped the given frames: unless page 0
  // is free, every frame that is gone from the free ones is a page or a table.
  ghost predicate Standing(w: View, x: View, first: int, frames: seq<int>) {
    && Backs(w, x, first, frames, HEAP_FLAGS) && Claimed(w, x, frames)
    && NewTables(w, x, first, first + |frames|) && x.lost == w.lost
    && (0 !in w.free ==> |x.free| + |x.tab| + |frames| == |w.free| + |w.tab|)
  }

  // The heap's pages are present, writable, supervisor and write-back.
  lemma HeapPagesAreWritable(w: View, x: View, first: int, frames: seq<int>, i: int, pat: bool)
    requires Standing(w, x, first, frames) && 0 <= i < |frames|
    ensures LeafBits(Leaf(x, first + i), pat, 2, false) && FrameOf(Leaf(x, first + i)) == frames[i]
  {
    hide Leaf, NewTables;
    assert Leaf(x, first + i) == frames[i] + HEAP_FLAGS;
    LowBits(frames[i], HEAP_FLAGS);
    FrameOfEntry(frames[i], HEAP_FLAGS);
  }

  // What it has done when vmm_map does not return: the given frames are mapped; a
  // block has been taken that is not mapped up to its end, and unless page 0 was
  // free all the other frames that were free are tables or mapped by now.
  ghost predicate StuckAt(w: View, x: View, first: int, frames: seq<int>) {
    && Backs(w, x, first, frames, HEAP_FLAGS)
    && (0 !in w.free ==> x.free == {} && |x.tab| + |frames| < |w.free| + |w.tab|)
  }

  lemma GetsStuck(w: View, x: View, y: View, z: View, first: int, frames: seq<int>, physical: int, n: nat, done: nat)
    requires Standing(w, x, first, frames) && SameLeaves(x, y) && BlockTaken(x, y, physical, n) && done < n
    requires MapsTo(y, z, first + |frames|, done, physical, HEAP_FLAGS)
    requires 0 !in y.free ==> z.free == {} && |z.tab| == |y.tab| + |y.free|
    ensures StuckAt(w, z, first, frames + FramesFrom(physical, done))
  {
    hide Leaf, Backs, Claimed, MapsTo, NewTables;
    BacksSame(w, x, y, first, frames, HEAP_FLAGS);
    BacksMore(w, y, z, first, frames, done, physical, HEAP_FLAGS);
    ClaimedFree(w, x, frames);
  }

  lemma StandsAtFirst(w: View, first: int)
    requires TreeOk(w, NO_SLOT) && ROOT in w.tab
    ensures Standing(w, w, first, [])
  {
  }

  lemma StandsStill(w: View, x: View, y: View, first: int, frames: seq<int>)
    requires Standing(w, x, first, frames) && SameLeaves(x, y) && TreeOk(y, NO_SLOT)
    requires y.tab == x.tab && y.lost == x.lost && y.free <= x.free && (0 !in x.free ==> y.free == x.free)
    ensures Standing(w, y, first, frames)
  {
    hide TreeOk, Leaf;
    BacksSame(w, x, y, first, frames, HEAP_FLAGS);
  }

  lemma StandsMore(w: View, x: View, y: View, z: View, first: int, frames: seq<int>, physical: int, n: nat)
    requires Standing(w, x, first, frames) && TreeOk(x, NO_SLOT) && TreeOk(y, NO_SLOT) && TreeOk(z, NO_SLOT)
    requires SameLeaves(x, y) && BlockTaken(x, y, physical, n) && 0 < physical
    requires MapsTo(y, z, first + |frames|, n, physical, HEAP_FLAGS)
    requires Extends(y, z, first + |frames|, first + |frames| + n) && z.lost == y.lost
    requires 0 !in y.free ==> |z.free| + |z.tab| == |y.free| + |y.tab|
    ensures Standing(w, z, first, frames + FramesFrom(physical, n))
  {
    hide TreeOk, Leaf, Backs, Claimed, MapsTo;
    BlockBacked(w, x, y, z, first, frames, physical, n);
    ClaimedFree(w, x, frames);
  }

  lemma StandingFree(w: View, x: View, first: int, frames: seq<int>)
    requires Standing(w, x, first, frames)
    ensures x.free <= w.free
  {
  }

  lemma ClaimedFree(w: View, x: View, frames: seq<int>)
    requires Claimed(w, x, frames)
    ensures x.free <= w.free
  {
  }

  lemma BlockBacked(w: View, x: View, y: View, z: View, first: int, frames: seq<int>, physical: int, n: nat)
    requires Backs(w, x, first, frames, HEAP_FLAGS) && Claimed(w, x, frames)
    requires SameLeaves(x, y) && BlockTaken(x, y, physical, n) && 0 < physical && TreeOk(x, NO_SLOT)
             && TreeOk(y, NO_SLOT) && TreeOk(z, NO_SLOT)
    requires MapsTo(y, z, first + |frames|, n, physical, HEAP_FLAGS)
    requires Extends(y, z, first + |frames|, first + |frames| + n) && z.lost == y.lost
    ensures Backs(w, z, first, frames + FramesFrom(physical, n), HEAP_FLAGS)
    ensures Claimed(w, z, frames + FramesFrom(physical, n))
  {
    hide TreeOk, Leaf, Backs, Claimed, Extends, MapsTo;
    BacksSame(w, x, y, first, frames, HEAP_FLAGS);
    BacksMore(w, y, z, first, frames, n, physical, HEAP_FLAGS);
    ClaimedMore(w, x, y, frames, physical, n);
    ClaimedStill(w, y, z, frames + FramesFrom(physical, n), first + |frames|, first + |frames| + n);
  }

  lemma NewTablesFurther(w: View, x: View, lo: int, hi: int, further: int)
    requires NewTables(w, x, lo, hi) && hi <= further
    ensures NewTables(w, x, lo, further)
  {
    hide TreeOk;
  }

  // With every page mapped, the free frames were enough for pages and tables.
  lemma EnoughFrames(w: View, x: View, first: int, frames: seq<int>)
    requires Standing(w, x, first, frames) && 0 !in w.free && 0 <= first
    ensures |frames| + |Missing(w, first, first + |frames|)| <= |w.free|
  {
    forall v | first <= v < first + |frames| ensures LeafSlot(v) in x.tab {
      BackedHasTable(w, x, first, frames, v);
    }
    hide TreeOk, Missing;
    AllFound(w, x, first, first + |frames|);
  }

  lemma BackedHasTable(w: View, x: View, first: int, frames: seq<int>, v: int)
    requires Backs(w, x, first, frames, HEAP_FLAGS) && Claimed(w, x, frames)
    requires first <= v < first + |frames|
    ensures LeafSlot(v) in x.tab
  {
    assert frames[v - first] in w.free;
    assert Leaf(x, v) != 0;
  }

  // With no frame left and pages still unmapped, they were not.
  lemma TooFewFrames(w: View, x: View, first: int, frames: seq<int>, pages: int)
    requires Standing(w, x, first, frames) && 0 !in w.free && x.free == {} && |frames| < pages
    ensures pages + |Missing(w, first, first + pages)| > |w.free|
  {
    hide TreeOk, Missing;
    NewTablesFurther(w, x, first, first + |frames|, first + pages);
    NewIsMissing(w, x, first, first + pages);
    NotLarger(x.tab.Keys - w.tab.Keys, Missing(w, first, first + pages));
  }

  // Nor when the tables of one more block of n pages could not be had.
  lemma TooFewForTables(w: View, x: View, y: View, first: int, frames: seq<int>, physical: int, n: nat, pages: int)
    requires Standing(w, x, first, frames) && 0 !in w.free && BlockTaken(x, y, physical, n)
    requires |Missing(y, first + |frames|, first + |frames| + n)| > |y.free| && |frames| + n <= pages
    ensures pages + |Missing(w, first, first + pages)| > |w.free|
  {
    hide TreeOk;
    var lo, hi := first, first + pages;
    NewTablesFurther(w, x, first, first + |frames|, hi);
    NewIsMissing(w, x, lo, hi);
    var added, still := x.tab.Keys - w.tab.Keys, Missing(y, first + |frames|, first + |frames| + n);
    forall s | s in still ensures s in Missing(w, lo, hi) && s !in added {
      assert s == Slot(s.level, s.prefix);
    }
    NotLarger(added + still, Missing(w, lo, hi));
    assert |added + still| == |added| + |still|;
  }

  // ------------------------------------------------------------------- the loop

  lemma HeapFlags(pat: bool, virtual: Word, size: Word)
    requires HEAP_START <= virtual < HEAP_END
    ensures LeafFlags(pat, PROTECTION, Index(AlignRange(virtual, size).0, 0x80_0000_0000) < 256) == HEAP_FLAGS
  {
    var start := AlignRange(virtual, size).0;
    assert start / 0x80_0000_0000 == 0x1ff_ffff;
  }

  // A range that starts on a page boundary is extended to whole pages.
  lemma WholePagesAligned(ptr: Word, size: Word)
    requires ptr % PAGE_SIZE == 0
    ensures AlignRange(ptr, size) == (ptr, RoundUpPage(size))
  {
  }

  // The window lies in the last 2^36 pages.
  lemma WindowPage(x: Word)
    requires HEAP_START <= x
    ensures FirstPage(x) == x / PAGE_SIZE - 0xf_fff0_0000_0000
  {
    var page := x / PAGE_SIZE;
    assert 0xf_fff0_0000_0000 <= page < 0x10_0000_0000_0000;
  }

  lemma WholePagesAdd(a: int, b: int)
    requires a % PAGE_SIZE == 0 && b % PAGE_SIZE == 0
    ensures (a + b) / PAGE_SIZE == a / PAGE_SIZE + b / PAGE_SIZE && (a + b) % PAGE_SIZE == 0
  {
  }

  // A block behind the total, in a reservation of the window.
  predicate InWindow(virtual: Word, total: int, block: int, goal: int) {
    && virtual % PAGE_SIZE == 0 && HEAP_START <= virtual && virtual + goal <= HEAP_END
    && 0 <= total < goal && 0 < block && total + block <= goal + goal / 8192
  }

  // The page numbers of a block of the reservation.
  lemma PageNumber(virtual: Word, total: int, block: Word, goal: int)
    requires InWindow(virtual, total, block, goal) && total % PAGE_SIZE == 0
    ensures total + block <= WORD_LIMIT - PAGE_SIZE && HEAP_START <= virtual + total < HEAP_END
    ensures (virtual + total) % PAGE_SIZE == 0
    ensures FirstPage(virtual + total) == FirstPage(virtual) + total / PAGE_SIZE
    ensures FirstPage(virtual + total) + RoundUpPage(block) / PAGE_SIZE <= VIRTUAL_PAGES
  {
    hide FirstPage, RoundUpPage;
    var rounded := RoundUpPage(block);
    RoundUpIsLeast(block);
    WindowPage(virtual);
    WholePagesAdd(virtual, total);
    WindowPage(virtual + total);
    WholePagesAdd(virtual + total, rounded);
    assert goal <= 0x7f_8000_0000;
    assert virtual + total + rounded <= WORD_LIMIT;
  }

  lemma PagesSoFar(total: Word, block: Word)
    requires total % PAGE_SIZE == 0 && total + block <= WORD_LIMIT - PAGE_SIZE
    ensures RoundUpPage(total + block) / PAGE_SIZE == total / PAGE_SIZE + RoundUpPage(block) / PAGE_SIZE
    ensures RoundUpPage(total) == total
  {
    RoundUpIsLeast(block);
    RoundUpIsLeast(total + block);
  }

  // pmm_alloc; when page 0 is free, a result of 0 may still have taken a block.
  method TakeBlock(space: AddressSpace, block: Word) returns (physical: Word)
    requires space.Valid() && 0 < block <= WORD_LIMIT - PAGE_SIZE
    modifies space.pmm, space.pmm.memory
    ensures space.Valid() && SameLeaves(old(space.Now()), space.Now())
    ensures space.Now().free <= old(space.Now()).free && space.Now().pages.Keys == old(space.Now()).pages.Keys
    ensures forall p :: p in old(space.Now()).free ==> p in space.Now().pages
    ensures physical != 0 ==> BlockTaken(old(space.Now()), space.Now(), physical, RoundUpPage(block) / PAGE_SIZE)
    ensures physical == 0 && 0 !in old(space.Now()).free ==>
              && !Fits(old(space.pmm.nodes), RoundUpPage(block))
              && space.Now().free == old(space.Now()).free && (block <= PAGE_SIZE ==> space.Now().free == {})
  {
    ghost var x, s, n := space.Now(), space.pmm.nodes, RoundUpPage(block);
    RoundUpIsLeast(block);
    physical := space.pmm.Alloc(block);
    AllocBesideTree(x, space.Now(), s, n);
    NullBlock(x.pages, s, n);
  }

  lemma NullBlock(pages: Pages, s: seq<Range>, n: int)
    requires ListShape(pages, s) && n > 0 && n % PAGE_SIZE == 0
    ensures Fits(s, n) && TakenAt(s, n) == 0 ==> 0 in PagesOf(s)
    ensures !Fits(s, n) ==> Take(s, n) == s && (n == PAGE_SIZE ==> PagesOf(s) == {})
  {
    TakeRemovesOneBlock(s, n);
    if Fits(s, n) {
      var block := Range(TakenAt(s, n), n);
      assert block.Contains(block.ptr);
    } else if n == PAGE_SIZE && s != [] {
      FirstRange(pages, s);
      assert false;
    }
  }

  // vmm_map on one block of the reservation.
  method MapBlock(space: AddressSpace, virtual: Word, physical: Word, block: Word, ghost first: int)
    returns (r: MapResult)
    requires space.Valid() && virtual % PAGE_SIZE == 0 && physical % PAGE_SIZE == 0 && block <= WORD_LIMIT - PAGE_SIZE
    requires HEAP_START <= virtual < HEAP_END && first == FirstPage(virtual)
    requires first + RoundUpPage(block) / PAGE_SIZE <= VIRTUAL_PAGES && physical + RoundUpPage(block) <= MEMORY_LIMIT
    modifies space`tab, space`lost, space.pmm, space.pmm.memory
    ensures space.Valid() && !r.Invalid?
    ensures var n := RoundUpPage(block) / PAGE_SIZE;
            r.Mapped? ==>
              && MapsTo(old(space.Now()), space.Now(), first, n, physical, HEAP_FLAGS)
              && Extends(old(space.Now()), space.Now(), first, first + n)
              && space.lost == old(space.lost)
    ensures var n := RoundUpPage(block) / PAGE_SIZE;
            0 !in old(space.Now()).free ==>
              (r.Mapped? <==> |Missing(old(space.Now()), first, first + n)| <= |old(space.Now()).free|)
    ensures 0 !in old(space.Now()).free && r.Mapped? ==>
              |space.Now().free| + |space.tab| == |old(space.Now()).free| + |old(space.tab)|
    ensures r.Stuck? ==>
              && 0 <= r.done < RoundUpPage(block) / PAGE_SIZE
              && MapsTo(old(space.Now()), space.Now(), first, r.done, physical, HEAP_FLAGS)
    ensures 0 !in old(space.Now()).free && r.Stuck? ==>
              space.Now().free == {} && |space.tab| == |old(space.tab)| + |old(space.Now()).free|
  {
    hide TreeOk, Leaf, MapsTo, FirstPage, LeafFlags, AlignRange, Chain, PagesOf, Covers, Supply;
    WholePagesAligned(virtual, block);
    WholePagesAligned(physical, block);
    HeapFlags(space.pat, virtual, block);
    ghost var y, s := space.Now(), space.pmm.nodes;
    SupplyIsFree(y.pages, s);
    r := space.Map(virtual, physical, block, PROTECTION);
    SupplyIsFree(space.Now().pages, space.pmm.nodes);
    if r.Mapped? {
      TablesWereFree(y, space.Now(), first, first + RoundUpPage(block) / PAGE_SIZE);
    } else if 0 !in y.free {
      NoneLeft(y, space.Now(), first, first + RoundUpPage(block) / PAGE_SIZE);
    }
  }

  // pmm_free of a block whose mapping was refused.
  method GiveBack(space: AddressSpace, physical: Word, block: Word, ghost x: View)
    requires space.Valid() && TreeOk(x, NO_SLOT) && 0 < block <= WORD_LIMIT - PAGE_SIZE
    requires BlockTaken(x, space.Now(), physical, RoundUpPage(block) / PAGE_SIZE)
    requires x.pages.Keys == space.Now().pages.Keys && forall p :: p in x.free ==> p in x.pages
    modifies space.pmm, space.pmm.memory
    ensures space.Valid() && SameLeaves(old(space.Now()), space.Now()) && space.Now().free == x.free
  {
    ghost var y, s, n := space.Now(), space.pmm.nodes, RoundUpPage(block);
    RoundUpIsLeast(block);
    ghost var r := Range(physical, n);
    BlockIsDisjoint(y.pages, s, r, x);
    space.pmm.Free(physical, block);
    FreeBesideTree(x, y, space.Now(), s, r);
  }

  lemma BlockIsDisjoint(pages: Pages, s: seq<Range>, r: Range, x: View)
    requires ListShape(pages, s) && r.size > 0 && r.ptr % PAGE_SIZE == 0 && r.size % PAGE_SIZE == 0
    requires forall i :: 0 <= i < r.size / PAGE_SIZE ==>
               r.ptr + i * PAGE_SIZE in x.free && r.ptr + i * PAGE_SIZE !in PagesOf(s)
    requires 0 <= r.ptr && r.End() <= MEMORY_LIMIT
    ensures Disjoint(s, r)
    ensures forall p :: r.ptr <= p < r.End() && p % PAGE_SIZE == 0 ==> p in x.free
  {
    forall p | r.ptr <= p < r.End() && p % PAGE_SIZE == 0 ensures p in x.free && p !in PagesOf(s) {
      var i := (p - r.ptr) / PAGE_SIZE;
      assert p == r.ptr + i * PAGE_SIZE;
    }
    forall a | r.Contains(a) ensures !Covers(s, a) {
      var p := a - a % PAGE_SIZE;
      assert r.ptr <= p && p !in PagesOf(s);
      if Covers(s, a) {
        CoversItsPage(s, a);
      }
    }
    DisjointFromBytes(s, r);
  }

  lemma FreeBesideTree(x: View, y: View, z: View, s: seq<Range>, r: Range)
    requires TreeOk(x, NO_SLOT) && TreeOk(y, NO_SLOT) && r.size > 0 && BlockTaken(x, y, r.ptr, r.size / PAGE_SIZE)
    requires ListShape(y.pages, s) && y.free == PagesOf(s) && Disjoint(s, r)
    requires r.ptr % PAGE_SIZE == 0 && r.size % PAGE_SIZE == 0
    requires z == y.(pages := z.pages, free := PagesOf(PutBackwardFirst(s, r))) && OnlyFreeWritten(y, z, {r.ptr})
    ensures TreeOk(z, NO_SLOT) && SameLeaves(y, z) && z.free == x.free
  {
    hide TreeOk;
    PutsAdd(s, r);
    forall p ensures p in z.free <==> p in y.free || p in PagesIn(r.ptr, r.size) {
      assert r.Contains(p) <==> r.ptr <= p < r.ptr + r.size;
    }
    assert r.size / PAGE_SIZE * PAGE_SIZE == r.size;
    assert r.ptr in PagesIn(r.ptr, r.size);
    TreeTables(x);
    TreeTables(y);
    FramesMove(y, z, {r.ptr});
    forall v ensures Leaf(z, v) == Leaf(y, v) {
    }
  }

  // There are frames for so many pages and the tables they lack.
  ghost predicate Fillable(w: View, first: int, pages: int) {
    pages + |Missing(w, first, first + pages)| <= |w.free|
  }

  lemma LeavesTwice(x: View, y: View, z: View)
    requires SameLeaves(x, y) && SameLeaves(y, z)
    ensures SameLeaves(x, z)
  {
  }

  lemma BlockEnds(x: View, y: View, physical: int, block: Word)
    requires 0 < block <= WORD_LIMIT - PAGE_SIZE && BlockTaken(x, y, physical, RoundUpPage(block) / PAGE_SIZE)
    ensures physical + RoundUpPage(block) <= MEMORY_LIMIT && physical % PAGE_SIZE == 0 && y.free <= x.free
  {
    RoundUpIsLeast(block);
  }

  datatype BlockResult = NoBlock | Backed | Declined | NoReturn

  // One turn of the loop: a block of the current size, mapped behind the total,
  // or given back when vmm_map does not take the total as an offset.
  method BackBlock(space: AddressSpace, virtual: Word, total: Word, block: Word, ghost goal: int,
                   ghost w: View, ghost frames: seq<int>)
    returns (r: BlockResult, ghost more: seq<int>)
    requires space.Valid() && 0 < block <= WORD_LIMIT - PAGE_SIZE && InWindow(virtual, total, block, goal)
    requires |frames| == RoundUpPage(total) / PAGE_SIZE
    requires Standing(w, space.Now(), FirstPage(virtual), frames)
    modifies space`tab, space`lost, space.pmm, space.pmm.memory
    ensures space.Valid()
    ensures r.NoBlock? || r.Declined? ==> more == frames
    ensures !r.NoReturn? ==> Standing(w, space.Now(), FirstPage(virtual), more)
    ensures r.NoBlock? && 0 !in w.free && block <= PAGE_SIZE ==> space.Now().free == {}
    ensures r.Declined? ==> total % PAGE_SIZE != 0
    ensures r.Backed? ==> total % PAGE_SIZE == 0 && |more| == RoundUpPage(total + block) / PAGE_SIZE
    ensures r.NoReturn? ==> total % PAGE_SIZE == 0 && StuckAt(w, space.Now(), FirstPage(virtual), more)
    ensures r.NoReturn? && 0 !in w.free && |frames| + RoundUpPage(block) / PAGE_SIZE <= goal / PAGE_SIZE ==>
              !Fillable(w, FirstPage(virtual), goal / PAGE_SIZE)
  {
    hide TreeOk, FreeListOk, Leaf, Backs, Claimed, Extends, MapsTo, FirstPage, SameLeaves, NewTables, RoundUpPage,
         Missing, PagesOf, Standing, BlockTaken, FramesFrom, InWindow, StuckAt;
    ghost var x, first := space.Now(), FirstPage(virtual);
    StandingFree(w, x, first, frames);
    more := frames;
    var physical := TakeBlock(space, block);
    ghost var y := space.Now();
    if physical == 0 {
      StandsStill(w, x, y, first, frames);
      return NoBlock, more;
    }
    if total % PAGE_SIZE != 0 {
      GiveBack(space, physical, block, x);
      LeavesTwice(x, y, space.Now());
      StandsStill(w, x, space.Now(), first, frames);
      return Declined, more;
    }
    PageNumber(virtual, total, block, goal);
    PagesSoFar(total, block);
    BlockEnds(x, y, physical, block);
    var mapped := MapBlock(space, virtual + total, physical, block, first + |frames|);
    if mapped.Stuck? {
      if 0 !in w.free && |frames| + RoundUpPage(block) / PAGE_SIZE <= goal / PAGE_SIZE {
        TooFewForTables(w, x, y, first, frames, physical, RoundUpPage(block) / PAGE_SIZE, goal / PAGE_SIZE);
      }
      GetsStuck(w, x, y, space.Now(), first, frames, physical, RoundUpPage(block) / PAGE_SIZE, mapped.done);
      return NoReturn, frames + FramesFrom(physical, mapped.done);
    }
    StandsMore(w, x, y, space.Now(), first, frames, physical, RoundUpPage(block) / PAGE_SIZE);
    more := frames + FramesFrom(physical, RoundUpPage(block) / PAGE_SIZE);
    r := Backed;
  }

  // ------------------------------------------------------------- the whole loop

  // Hangs: vmm_map ran out of table frames. Otherwise the loop has ended; a
  // size of 0 would be asked for again and again.
  datatype RefillResult = Ended(end: End) | Hangs

  // The loop's arithmetic so far, for the outcomes so far.
  ghost predicate Traces(goal: int, size: int, outcomes: seq<bool>, block: int, total: int) {
    forall rest: seq<bool> :: Loop(goal, 0, size, outcomes + rest) == Loop(block, total, size, rest)
  }

  lemma TracesAtFirst(goal: int, size: int)
    ensures Traces(goal, size, [], goal, 0)
  {
    forall rest: seq<bool> ensures Loop(goal, 0, size, [] + rest) == Loop(goal, 0, size, rest) {
      assert [] + rest == rest;
    }
  }

  lemma TracesOn(goal: int, size: int, outcomes: seq<bool>, block: int, total: int, b: bool, block': int, total': int)
    requires Traces(goal, size, outcomes, block, total)
    requires forall rest :: Loop(block, total, size, Prepend(b, rest)) == Loop(block', total', size, rest)
    ensures Traces(goal, size, outcomes + [b], block', total')
  {
    hide Loop;
    forall rest: seq<bool> ensures Loop(goal, 0, size, (outcomes + [b]) + rest) == Loop(block', total', size, rest) {
      assert (outcomes + [b]) + rest == outcomes + Prepend(b, rest);
    }
  }

  lemma TraceSuccess(goal: int, size: int, outcomes: seq<bool>, block: int, total: int)
    requires Traces(goal, size, outcomes, block, total) && 0 < block && total < size && total % PAGE_SIZE == 0
    ensures Traces(goal, size, outcomes + [true], block, total + block)
  {
    TracesOn(goal, size, outcomes, block, total, true, block, total + block);
  }

  lemma TraceFailure(goal: int, size: int, outcomes: seq<bool>, block: int, total: int)
    requires Traces(goal, size, outcomes, block, total) && 0 < block && total < size && block != PAGE_SIZE
    ensures Traces(goal, size, outcomes + [false], block / 2, total)
  {
    TracesOn(goal, size, outcomes, block, total, false, block / 2, total);
  }

  lemma TraceEnd(goal: int, size: int, outcomes: seq<bool>, block: int, total: int, rest: seq<bool>)
    requires Traces(goal, size, outcomes, block, total)
    ensures Loop(goal, 0, size, outcomes + rest) == Loop(block, total, size, rest)
    ensures Loop(goal, 0, size, outcomes) == Loop(block, total, size, [])
  {
    assert outcomes + [] == outcomes;
    assert Loop(goal, 0, size, outcomes + []) == Loop(block, total, size, []);
  }

  // The loop's verdict on a power of two of pages: it depends on the number of
  // free frames only.
  ghost predicate Decided(w: View, first: int, goal: int, filled: bool) {
    PowerOfTwo(goal / PAGE_SIZE) && 0 !in w.free ==> (filled <==> Fillable(w, first, goal / PAGE_SIZE))
  }

  lemma DecidedFilled(w: View, x: View, first: int, frames: seq<int>, goal: int)
    requires Standing(w, x, first, frames) && 0 <= first
    requires PowerOfTwo(goal / PAGE_SIZE) ==> |frames| == goal / PAGE_SIZE
    ensures Decided(w, first, goal, true)
  {
    hide Standing, PowerOfTwo;
    if PowerOfTwo(goal / PAGE_SIZE) && 0 !in w.free {
      EnoughFrames(w, x, first, frames);
    }
  }

  lemma DecidedShort(w: View, x: View, first: int, frames: seq<int>, goal: int)
    requires Standing(w, x, first, frames) && (0 !in w.free ==> x.free == {})
    requires PowerOfTwo(goal / PAGE_SIZE) ==> |frames| < goal / PAGE_SIZE
    ensures Decided(w, first, goal, false)
  {
    hide Standing, PowerOfTwo;
    if PowerOfTwo(goal / PAGE_SIZE) && 0 !in w.free {
      TooFewFrames(w, x, first, frames, goal / PAGE_SIZE);
    }
  }

  lemma NotDecided(w: View, first: int, goal: int)
    requires PowerOfTwo(goal / PAGE_SIZE) && 0 !in w.free ==> !Fillable(w, first, goal / PAGE_SIZE)
    ensures Decided(w, first, goal, false)
  {
  }

  // What a power of two of pages keeps at the top of the loop.
  ghost predicate Even(block: int, total: int, goal: int) {
    PowerOfTwo(goal / PAGE_SIZE) ==> Whole(block, total, goal)
  }

  lemma EvenFacts(block: int, total: Word, goal: int, size: Word)
    requires Even(block, total, goal) && 0 < goal && goal % PAGE_SIZE == 0 && size <= goal < size + PAGE_SIZE
             && 0 <= block
    requires goal <= WORD_LIMIT - PAGE_SIZE
    ensures PowerOfTwo(goal / PAGE_SIZE) ==>
              && block > 0 && total % PAGE_SIZE == 0 && RoundUpPage(total) == total
              && (total < size ==>
                   && total / PAGE_SIZE < goal / PAGE_SIZE
                   && total / PAGE_SIZE + RoundUpPage(block) / PAGE_SIZE <= goal / PAGE_SIZE)
              && (total >= size ==> total == goal)
  {
    if PowerOfTwo(goal / PAGE_SIZE) {
      hide PowerOfTwo;
      WholeParts(block, total, goal);
      if total >= size {
        WholeEnds(block, total, goal, size);
      } else {
        WholeMore(block, total, goal);
        PagesSoFar(total, block);
      }
    }
  }

  lemma EvenFirst(goal: int)
    requires 0 < goal && goal % PAGE_SIZE == 0
    ensures Even(goal, 0, goal)
  {
    if PowerOfTwo(goal / PAGE_SIZE) {
      WholeAtFirst(goal);
    }
  }

  lemma EvenMore(block: int, total: int, goal: int)
    requires Even(block, total, goal) && total < goal
    ensures Even(block, total + block, goal)
  {
    if PowerOfTwo(goal / PAGE_SIZE) {
      WholeMore(block, total, goal);
    }
  }

  lemma EvenHalved(block: int, total: int, goal: int)
    requires Even(block, total, goal) && block != PAGE_SIZE
    ensures Even(block / 2, total, goal)
  {
    if PowerOfTwo(goal / PAGE_SIZE) {
      WholeHalved(block, total, goal);
    }
  }

  // malloc_refillPhysicalMemoryPool up to the rollback. The loop is its arithmetic
  // with the real allocator's outcomes; what it counts is mapped, every page to a
  // frame of its own that is neither free nor a table; and unless page 0 is free
  // it runs out only when no frame is left, so that a power of two of pages is
  // filled exactly when there are frames for the pages and the tables they lack.
  method Fill(space: AddressSpace, virtual: Word, size: Word)
    returns (r: RefillResult, ghost frames: seq<int>, ghost outcomes: seq<bool>)
    requires space.Valid() && 0 < size
    requires virtual % PAGE_SIZE == 0 && HEAP_START <= virtual && size <= WORD_LIMIT - PAGE_SIZE
    requires virtual + RoundUpPage(size) <= HEAP_END
    modifies space`tab, space`lost, space.pmm, space.pmm.memory
    ensures space.Valid()
    ensures r.Ended? ==>
              && r.end == Loop(RoundUpPage(size), 0, size, outcomes) && !r.end.Open? && 0 <= r.end.total < WORD_LIMIT
              && Standing(old(space.Now()), space.Now(), FirstPage(virtual), frames)
              && |frames| == RoundUpPage(r.end.total) / PAGE_SIZE
    ensures r.Ended? && r.end.Filled? && Splits(RoundUpPage(size), RoundUpPage(size)) ==>
              r.end.total == RoundUpPage(size)
    ensures r.Hangs? ==> StuckAt(old(space.Now()), space.Now(), FirstPage(virtual), frames)
    ensures r.Ended? && (r.end.Exhausted? || r.end.Zero?) && 0 !in old(space.Now()).free ==> space.Now().free == {}
    ensures Decided(old(space.Now()), FirstPage(virtual), RoundUpPage(size), r.Ended? && r.end.Filled?)
  {
    hide TreeOk, FreeListOk, Leaf, FirstPage, RoundUpPage, Standing, Traces, Bounded, Even, Decided, Fillable,
         Splits, PowerOfTwo, StuckAt;
    ghost var w, first, goal := space.Now(), FirstPage(virtual), RoundUpPage(size);
    RoundUpIsLeast(size);
    StandsAtFirst(w, first);
    TracesAtFirst(goal, size);
    BoundedAtFirst(goal);
    EvenFirst(goal);
    FilledExactly(goal, size);
    var block: Word, total: Word := RoundUpPage(size), 0;
    frames, outcomes := [], [];
    NothingRounds();
    RootOf(virtual);
    while total < size
      invariant Bounded(block, total, goal) && Even(block, total, goal) && Traces(goal, size, outcomes, block, total)
      invariant total <= goal + goal / 8192 && block <= goal
      invariant space.Valid() && Standing(w, space.Now(), first, frames) && |frames| == RoundUpPage(total) / PAGE_SIZE
      invariant block == 0 && 0 !in w.free ==> space.Now().free == {}
      decreases block, size - total
    {
      EvenFacts(block, total, goal, size);
      TraceEnd(goal, size, outcomes, block, total, []);
      if block == 0 {
        DecidedShort(w, space.Now(), first, frames, goal);
        return Ended(Zero(total)), frames, outcomes;
      }
      BoundedMore(block, total, goal);
      var result;
      result, frames := BackBlock(space, virtual, total, block, goal, w, frames);
      match result
      case NoReturn =>
        NotDecided(w, first, goal);
        return Hangs, frames, outcomes;
      case Declined =>
        TraceEnd(goal, size, outcomes, block, total, [true]);
        NotDecided(w, first, goal);
        return Ended(End.Refused(total)), frames, outcomes + [true];
      case NoBlock =>
        if block == PAGE_SIZE {
          TraceEnd(goal, size, outcomes, block, total, [false]);
          DecidedShort(w, space.Now(), first, frames, goal);
          return Ended(End.Exhausted(total)), frames, outcomes + [false];
        }
        BoundedHalved(block, total, goal);
        EvenHalved(block, total, goal);
        TraceFailure(goal, size, outcomes, block, total);
        block, outcomes := block / 2, outcomes + [false];
      case Backed =>
        EvenMore(block, total, goal);
        TraceSuccess(goal, size, outcomes, block, total);
        total, outcomes := total + block, outcomes + [true];
    }
    EvenFacts(block, total, goal, size);
    TraceEnd(goal, size, outcomes, block, total, []);
    DecidedFilled(w, space.Now(), first, frames, goal);
    r := Ended(Filled(total));
  }

  lemma NothingRounds()
    ensures RoundUpPage(0) == 0
  {
  }

  lemma FilledExactly(goal: int, size: int)
    requires 0 < goal && goal % PAGE_SIZE == 0 && size <= goal < size + PAGE_SIZE
    ensures Splits(goal, goal) ==>
              forall outcomes :: Loop(goal, 0, size, outcomes).Filled? ==> Loop(goal, 0, size, outcomes).total == goal
  {
    FillsExactly(goal, size);
  }

  // --------------------------------------------------------------- the rollback

  // What vmm_getPhysicalAddress returns for a page.
  ghost function Physical(x: View, v: int): int {
    if Leaf(x, v) == 0 then 0 else FrameOf(Leaf(x, v))
  }

  // What the rollback of n mapped pages passes to pmm_free: it starts one page
  // behind the last mapped one, and ends before it comes to the first.
  ghost function GivenBack(x: View, first: int, n: nat): seq<int> {
    if n == 0 then [] else [Physical(x, first + n)] + GivenBack(x, first, n - 1)
  }

  lemma {:induction false} GivenBackAt(x: View, first: int, n: nat, i: nat)
    requires i < n
    ensures |GivenBack(x, first, n)| == n && GivenBack(x, first, n)[i] == Physical(x, first + n - i)
    decreases n
  {
    hide Physical;
    if n > 1 {
      GivenBackAt(x, first, n - 1, if i > 0 then i - 1 else 0);
    }
  }

  lemma FrameRead(w: View, x: View, first: int, frames: seq<int>, k: int)
    requires Backs(w, x, first, frames, HEAP_FLAGS) && Claimed(w, x, frames) && 0 <= k < |frames|
    ensures Physical(x, first + k) == frames[k] > 0
  {
    assert Leaf(x, first + k) == frames[k] + HEAP_FLAGS;
  }

  // Of the frames the loop took, the first is never given back; page 0, which it
  // cannot have taken, is.
  lemma RollbackMissesFirst(w: View, x: View, first: int, frames: seq<int>)
    requires Standing(w, x, first, frames) && Leaf(x, first + |frames|) == 0
    ensures var back := GivenBack(x, first, |frames|);
            |back| == |frames| && forall i :: 0 <= i < |frames| ==>
                back[i] == if i == 0 then 0 else frames[|frames| - i]
    ensures frames != [] ==> frames[0] !in GivenBack(x, first, |frames|)
  {
    hide Leaf, Backs, Claimed, NewTables;
    var n, back := |frames|, GivenBack(x, first, |frames|);
    if n == 0 {
      assert back == [];
    } else {
      GivenBackAt(x, first, n, 0);
    }
    forall i | 0 <= i < n
      ensures |back| == n && back[i] == if i == 0 then 0 else frames[n - i]
      ensures back[i] != frames[0]
    {
      GivenBackAt(x, first, n, i);
      FrameRead(w, x, first, frames, 0);
      if i > 0 {
        FrameRead(w, x, first, frames, n - i);
        FramesDiffer(w, x, frames, n - i);
      }
    }
  }

  lemma FramesDiffer(w: View, x: View, frames: seq<int>, k: int)
    requires Claimed(w, x, frames) && 0 < k < |frames|
    ensures frames[k] != frames[0]
  {
  }

  // Counting down in pages, in a 64-bit word, only meets 0 from a whole number of
  // them: when vmm_map has refused an offset the rollback never ends.
  lemma RollbackEnds(total: Word)
    ensures (exists k: nat :: (total - k * PAGE_SIZE) % WORD_LIMIT == 0) <==> total % PAGE_SIZE == 0
  {
    if total % PAGE_SIZE == 0 {
      assert (total - total / PAGE_SIZE * PAGE_SIZE) % WORD_LIMIT == 0;
    }
    forall k: nat | (total - k * PAGE_SIZE) % WORD_LIMIT == 0 ensures total % PAGE_SIZE == 0 {
      assert total == k * PAGE_SIZE + (total - k * PAGE_SIZE) / WORD_LIMIT * 0x10_0000_0000_0000 * PAGE_SIZE;
    }
  }
}
