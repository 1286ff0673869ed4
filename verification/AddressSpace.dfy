// Mapping and unmapping pages (kernel/src/arch/amd64/mm/vmm.c).
module AddressSpace {
  import opened Words
  import opened Ranges
  import opened PhysicalMemory
  import opened PageTables
  import opened Slots
  import opened FrameSupply
  import Unmapping
  import Pmm = PhysicalAllocator

  datatype Pointer = Null | To(address: int)

  // vmm_map's outcomes. When it runs out of page frames it calls vmm_unmap while
  // it holds the lock that vmm_unmap takes, and never returns; done is the
  // number of pages it has mapped by then.
  datatype MapResult = Mapped | Invalid | Stuck(done: int)

  // The meaning of x is that of w, overridden on exactly n pages from first:
  // page i goes to the i-th frame from physical, with the given flags.
  ghost predicate MapsTo(w: View, x: View, first: int, n: int, physical: int, flags: int) {
    forall v :: Leaf(x, v) == if first <= v < first + n then physical + (v - first) * PAGE_SIZE + flags else Leaf(w, v)
  }

  // (address >> shift) & 0x1ff, the shift given as a power of two.
  function Index(address: Word, shift: int): int
    requires shift > 0
  {
    address / shift % 512
  }

  function FirstPage(address: Word): int {
    address / PAGE_SIZE % VIRTUAL_PAGES
  }

  // The four indices vmm_map cuts out of an address are the base-512 digits of
  // its page number.
  lemma Digits(vptr: Word)
    ensures var virtual := vptr - vptr % PAGE_SIZE;
            var i4, i3, i2, i1 := Index(virtual, 0x80_0000_0000), Index(virtual, 0x4000_0000),
                                  Index(virtual, 0x20_0000), Index(virtual, PAGE_SIZE);
            && ((i4 * 512 + i3) * 512 + i2) * 512 + i1 == FirstPage(vptr)
            && 0 <= i4 < 512 && 0 <= i3 < 512 && 0 <= i2 < 512 && 0 <= i1 < 512
  {
    var virtual := vptr - vptr % PAGE_SIZE;
    var page := virtual / PAGE_SIZE;
    Shift(virtual, PAGE_SIZE);
    Shift(virtual, 0x20_0000);
    Shift(virtual, 0x4000_0000);
    DigitSum(page);
  }

  lemma WholeRange(ptr: Word, size: Word)
    ensures AlignRange(ptr, size).0 == ptr - ptr % PAGE_SIZE && AlignRange(ptr, size).0 % PAGE_SIZE == 0
    ensures AlignRange(ptr, size).1 == AlignRange(ptr, size).1 / PAGE_SIZE * PAGE_SIZE
  {
    AlignRangeIsLeast(ptr, size);
  }

  lemma DigitSum(page: int)
    requires 0 <= page
    ensures var a, b, c := page / 512, page / 512 / 512, page / 512 / 512 / 512;
            page % VIRTUAL_PAGES == ((c % 512 * 512 + b % 512) * 512 + a % 512) * 512 + page % 512
  {
    var a, b, c := page / 512, page / 512 / 512, page / 512 / 512 / 512;
    var sum := ((c % 512 * 512 + b % 512) * 512 + a % 512) * 512 + page % 512;
    assert page == c / 512 * VIRTUAL_PAGES + sum;
  }

  lemma Shift(x: int, k: int)
    requires 0 <= x && (k == PAGE_SIZE || k == 0x20_0000 || k == 0x4000_0000)
    ensures x / (k * 512) == x / k / 512
  {
  }

  // The tables of the path that the indices of page v lead through.
  lemma PathCovers(i4: int, i3: int, i2: int, v: int)
    requires 0 <= i3 < 512 && 0 <= i2 < 512 && v / 512 == (i4 * 512 + i3) * 512 + i2
    ensures OnPath(Slot(3, i4), v, v + 1) && OnPath(Slot(2, i4 * 512 + i3), v, v + 1) && OnPath(LeafSlot(v), v, v + 1)
  {
  }

  lemma EntryFits(physical: int, done: int, n: int, flags: int)
    requires 0 <= physical && physical % PAGE_SIZE == 0 && 0 <= done < n && physical + n * PAGE_SIZE <= PHYSICAL_LIMIT
    requires 0 <= flags < 256 && flags % 2 == 1
    ensures LeafEntry(physical + done * PAGE_SIZE + flags)
  {
    var e := physical + done * PAGE_SIZE + flags;
    assert e % PAGE_SIZE == flags;
    assert e % 2 == 1;
  }

  // What the entries of n mapped pages look like, bit by bit.
  ghost predicate PagesLookLike(x: View, first: int, n: int, physical: int, pat: bool, flags: int, lowerHalf: bool) {
    forall v :: first <= v < first + n ==>
      LeafBits(Leaf(x, v), pat, flags, lowerHalf) && FrameOf(Leaf(x, v)) == physical + (v - first) * PAGE_SIZE
  }

  lemma MappedPages(w: View, x: View, first: int, n: int, all: int, physical: int, pat: bool, flags: int,
                    lowerHalf: bool)
    requires MapsTo(w, x, first, n, physical, LeafFlags(pat, flags, lowerHalf))
    requires 0 <= physical && physical % PAGE_SIZE == 0 && n <= all && physical + all * PAGE_SIZE <= PHYSICAL_LIMIT
    ensures PagesLookLike(x, first, n, physical, pat, flags, lowerHalf)
  {
    hide Leaf, LeafBits, LeafFlags, FrameOf;
    forall v | first <= v < first + n
      ensures LeafBits(Leaf(x, v), pat, flags, lowerHalf) && FrameOf(Leaf(x, v)) == physical + (v - first) * PAGE_SIZE
    {
      assert Leaf(x, v) == physical + (v - first) * PAGE_SIZE + LeafFlags(pat, flags, lowerHalf);
      LeafFlagsAreBits(physical + (v - first) * PAGE_SIZE, pat, flags, lowerHalf);
    }
  }

  // What the processor grants for a mapped page, walking from the PML4: writing
  // exactly when it was mapped with READ_WRITE, user mode exactly when it was
  // mapped at an address of the lower half.
  lemma MappedRights(x: View, first: int, n: int, physical: int, pat: bool, flags: int, lowerHalf: bool, v: int)
    requires TreeOk(x, NO_SLOT) && ROOT in x.tab && PagesLookLike(x, first, n, physical, pat, flags, lowerHalf)
    requires first <= v < first + n && 0 <= v < VIRTUAL_PAGES
    ensures Walkable(x.pages, x.tab[ROOT], 4, v) && WalkHas(x.pages, x.tab[ROOT], 4, v, 1)
    ensures WalkHas(x.pages, x.tab[ROOT], 4, v, 2) <==> Bit(flags, 2)
    ensures WalkHas(x.pages, x.tab[ROOT], 4, v, 4) <==> lowerHalf
  {
    hide TreeOk, Leaf, WalkHas, Walkable;
    assert LeafBits(Leaf(x, v), pat, flags, lowerHalf);
    assert ROOT == Slot(4, v / Size(4));
    RightsAreTheLeafs(x, 4, v, 1);
    RightsAreTheLeafs(x, 4, v, 2);
    RightsAreTheLeafs(x, 4, v, 4);
  }

  // Every table below the root is named by an entry that lets everything through.
  ghost predicate TablesNamed(x: View) {
    forall s, i :: s in x.tab && s.level >= 2 && 0 <= i < ENTRIES && Child(s, i) in x.tab ==> NamesTable(x, s, i)
  }

  lemma AllNamed(x: View)
    requires TreeOk(x, NO_SLOT)
    ensures TablesNamed(x)
  {
    hide TreeOk, NamesTable;
    forall s, i | s in x.tab && s.level >= 2 && 0 <= i < ENTRIES && Child(s, i) in x.tab ensures NamesTable(x, s, i) {
      EntryNamesTable(x, s, i);
    }
  }

  // The PML4 indices below 256 are those of addresses without bit 47.
  lemma LowerHalf(vptr: Word)
    ensures Index(vptr - vptr % PAGE_SIZE, 0x80_0000_0000) < 256 <==> !Bit(vptr, 0x8000_0000_0000)
  {
    var q := vptr / 0x80_0000_0000;
    assert (vptr - vptr % PAGE_SIZE) / 0x80_0000_0000 == q;
    assert vptr / 0x8000_0000_0000 == q / 256;
    assert q % 512 < 256 <==> q / 256 % 2 == 0;
  }

  lemma MapsNothing(w: View, first: int, physical: int, flags: int)
    ensures MapsTo(w, w, first, 0, physical, flags)
  {
  }

  lemma MapsSame(w: View, x: View, y: View, first: int, n: int, physical: int, flags: int)
    requires MapsTo(w, x, first, n, physical, flags)
    ensures SameLeaves(x, y) ==> MapsTo(w, y, first, n, physical, flags)
  {
  }

  lemma MapsOneMore(w: View, x: View, y: View, first: int, n: int, physical: int, flags: int)
    requires MapsTo(w, x, first, n, physical, flags) && n >= 0
    requires forall u :: Leaf(y, u) == if u == first + n then physical + n * PAGE_SIZE + flags else Leaf(x, u)
    ensures MapsTo(w, y, first, n + 1, physical, flags)
  {
  }

  // Mapped pages have page tables.
  lemma MappedHasTables(w: View, x: View, first: int, n: int, physical: int, flags: int)
    requires MapsTo(w, x, first, n, physical, flags) && 0 <= physical && flags > 0
    ensures forall v :: first <= v < first + n ==> LeafSlot(v) in x.tab
  {
    forall v | first <= v < first + n ensures LeafSlot(v) in x.tab {
      assert Leaf(x, v) == physical + (v - first) * PAGE_SIZE + flags;
    }
  }

  lemma AllMapped(w: View, x: View, first: int, n: int)
    requires Extends(w, x, first, first + n) && TreeOk(x, NO_SLOT) && ROOT in w.tab && 0 <= first
    requires forall v :: first <= v < first + n ==> LeafSlot(v) in x.tab
    ensures |x.tab| == |w.tab| + |Missing(w, first, first + n)|
  {
    hide TreeOk, OnPath, Missing, Evolves;
    AllFound(w, x, first, first + n);
  }

  lemma NotAllMapped(w: View, x: View, first: int, n: int, v: int)
    requires Extends(w, x, first, first + n) && TreeOk(x, NO_SLOT) && ROOT in w.tab
    requires 0 <= first <= v < first + n <= VIRTUAL_PAGES && LeafSlot(v) !in x.tab
    ensures |x.tab| < |w.tab| + |Missing(w, first, first + n)|
  {
    hide TreeOk, OnPath, Missing, Evolves;
    NotAllFound(w, x, first, first + n, v);
  }

  // A page that is not free can be freed.
  lemma PageIsDisjoint(pages: Pages, s: seq<Range>, p: int)
    requires ListShape(pages, s) && 0 <= p < MEMORY_LIMIT && p % PAGE_SIZE == 0 && p !in PagesOf(s)
    ensures Disjoint(s, Range(p, PAGE_SIZE))
  {
    var r := Range(p, PAGE_SIZE);
    forall a | r.Contains(a) ensures !Covers(s, a) {
      assert a - a % PAGE_SIZE == p;
      if Covers(s, a) {
        CoversItsPage(s, a);
      }
    }
    DisjointFromBytes(s, r);
  }

  lemma UnmappedRoot(w: View, x: View, lo: int, hi: int, freed: bool)
    requires Unmapping.Unmapped(w, x, ROOT, lo, hi, freed) && ROOT in w.tab
    ensures TreeOk(x, if freed then ROOT else NO_SLOT) && (ROOT in x.tab <==> !freed)
    ensures freed ==> w.tab[ROOT] in x.free
    ensures !freed ==> x.tab[ROOT] == w.tab[ROOT]
  {
  }

  // Freeing such a page adds exactly that page.
  lemma OnePageFreed(pages: Pages, s: seq<Range>, p: int)
    requires ListShape(pages, s) && 0 <= p < MEMORY_LIMIT && p % PAGE_SIZE == 0 && p in pages && p !in PagesOf(s)
    ensures RoundUpPage(PAGE_SIZE) == PAGE_SIZE && Disjoint(s, Range(p, PAGE_SIZE))
    ensures forall q :: p <= q < p + PAGE_SIZE && q % PAGE_SIZE == 0 ==> q == p
    ensures PagesOf(PutBackwardFirst(s, Range(p, PAGE_SIZE))) == PagesOf(s) + {p}
  {
    hide Covers, Separated, Aligned, PutBackwardFirst, Disjoint;
    PageIsDisjoint(pages, s, p);
    PutKeepsShape(pages, s, Range(p, PAGE_SIZE));
  }

  // The child that the index-th page below n belongs to, and its place there.
  lemma ChildOfIndex(n: Slot, index: int)
    requires 2 <= n.level <= 4 && 0 <= index < Size(n.level)
    ensures Size(n.level - 1) > 0
    ensures var i := index / Size(n.level - 1);
            && 0 <= i < ENTRIES && Lo(Child(n, i)) + index % Size(n.level - 1) == Lo(n) + index
            && index / Size(n.level - 1) % ENTRIES == i
            && Covering(Child(n, i), Lo(n) + index) && Covering(n, Lo(n) + index)
  {
    ChildSpan(n, index / Size(n.level - 1));
    if n.level == 2 {
    } else if n.level == 3 {
    } else {
    }
  }

  // A store to a table leaves the free list alone.
  lemma StoreToTable(w: View, link: Word, nodes: seq<Range>, n: Slot, i: int, v: Word, dangling: Slot)
    requires TreeOk(w, dangling) && n in w.tab && w.free == PagesOf(nodes) && FreeListOk(w.pages, link, nodes)
    requires w.tab[n] in w.pages && 0 <= i < |w.pages[w.tab[n]]|
    ensures FreeListOk(Store(w.pages, w.tab[n], i, v), link, nodes)
  {
    TablesExist(w, dangling);
    FreeListUntouched(w.pages, Store(w.pages, w.tab[n], i, v), link, nodes);
  }

  // A call for a child leaves its parent's place and page alone.
  lemma UnmappedKeepsParent(x: View, y: View, n: Slot, i: int, lo: int, hi: int, freed: bool)
    requires TreeOk(x, NO_SLOT) && n in x.tab && 2 <= n.level <= 4 && 0 <= i < ENTRIES
    requires Unmapping.Unmapped(x, y, Child(n, i), lo, hi, freed)
    ensures n in y.tab && y.tab[n] == x.tab[n] && x.tab[n] in y.pages && x.tab[n] in x.pages
    ensures y.pages[x.tab[n]] == x.pages[x.tab[n]]
    ensures |x.pages[x.tab[n]]| == ENTRIES
    ensures MemoryOk(x.pages) ==> x.tab[n] in y.pages && |y.pages[x.tab[n]]| == ENTRIES
  {
    hide TreeOk, Leaf, Unmapping.LeafMid, Unmapping.PathKept, Unmapping.NoWholeBlock, OnPath, Evolves;
    TablesExist(x, NO_SLOT);
    assert !Under(n, Child(n, i));
  }

  lemma ChildIs(n: Slot, i: int, next: int)
    requires 2 <= n.level <= 4 && 0 <= next < Size(n.level) && Covering(Child(n, i), Lo(n) + next)
    ensures 0 <= i < ENTRIES && 0 <= next % Size(n.level - 1) < Size(n.level - 1)
    ensures Lo(Child(n, i)) + next % Size(n.level - 1) == Lo(n) + next
  {
    ChildSpan(n, i);
    if n.level == 2 {
    } else if n.level == 3 {
    } else {
    }
  }

  lemma NotUnderSibling(n: Slot, j: int, i: int)
    requires 2 <= n.level <= 4 && j < i
    ensures !Under(Child(n, j), Child(n, i))
  {
    ChildrenApart(n, j, i);
    BlockBounds(Child(n, j));
  }

  lemma SmallIndex(level: int, i: int)
    requires 0 <= level <= 4 && 0 <= i < Size(level)
    ensures i % Size(level) == i
  {
  }

  lemma MidwayTree(w: View, x: View, n: Slot, lo: int, cur: int, hi: int, bound: int)
    requires Unmapping.Midway(w, x, n, lo, cur, hi, bound)
    ensures n in x.tab && TreeOk(x, NO_SLOT)
  {
  }

  // The page tables of the pages still to be unmapped have not been touched.
  lemma PathStillThere(w: View, x: View, n: Slot, lo: int, cur: int, hi: int, bound: int)
    requires Unmapping.Midway(w, x, n, lo, cur, hi, bound) && bound <= cur
    requires forall v :: lo <= v < hi ==> LeafSlot(v) in w.tab
    ensures forall v :: lo <= v < hi && cur <= v ==> LeafSlot(v) in x.tab
  {
  }

  lemma FreePagesExist(pages: Pages, link: Word, s: seq<Range>)
    requires FreeListOk(pages, link, s)
    ensures MemoryOk(pages)
  {
  }

  // vmm_unmap's outcomes.
  datatype UnmapResult = Done | DoubleFree

  lemma DigitsOf(v: int, d4: int, d3: int, d2: int, d1: int)
    requires 0 <= d4 < 512 && 0 <= d3 < 512 && 0 <= d2 < 512 && 0 <= d1 < 512
    requires v == ((d4 * 512 + d3) * 512 + d2) * 512 + d1
    ensures v / Size(3) % 512 == d4 && v / Size(2) % 512 == d3 && v / Size(1) % 512 == d2 && v / Size(0) % 512 == d1
  {
    assert v / 0x800_0000 == d4;
    assert v / 0x4_0000 == d4 * 512 + d3;
    assert v / 512 == (d4 * 512 + d3) * 512 + d2;
  }

  lemma OffsetIrrelevant(address: Word)
    ensures var virtual := address - address % PAGE_SIZE;
            && Index(address, 0x80_0000_0000) == Index(virtual, 0x80_0000_0000)
            && Index(address, 0x4000_0000) == Index(virtual, 0x4000_0000)
            && Index(address, 0x20_0000) == Index(virtual, 0x20_0000)
            && Index(address, PAGE_SIZE) == Index(virtual, PAGE_SIZE)
  {
    var virtual := address - address % PAGE_SIZE;
    Shift(virtual, PAGE_SIZE);
    Shift(virtual, 0x20_0000);
    Shift(virtual, 0x4000_0000);
    Shift(address, PAGE_SIZE);
    Shift(address, 0x20_0000);
    Shift(address, 0x4000_0000);
    assert address / PAGE_SIZE == virtual / PAGE_SIZE;
  }

  lemma IndicesOfPage(vptr: Word)
    ensures var v := FirstPage(vptr);
            && Index(vptr, 0x80_0000_0000) == v / Size(3) % 512
            && Index(vptr, 0x4000_0000) == v / Size(2) % 512
            && Index(vptr, 0x20_0000) == v / Size(1) % 512
            && Index(vptr, PAGE_SIZE) == v / Size(0) % 512
  {
    hide Index, FirstPage, Size;
    var virtual := vptr - vptr % PAGE_SIZE;
    Digits(vptr);
    OffsetIrrelevant(vptr);
    DigitsOf(FirstPage(vptr), Index(virtual, 0x80_0000_0000), Index(virtual, 0x4000_0000),
             Index(virtual, 0x20_0000), Index(virtual, PAGE_SIZE));
  }

  lemma RootOf(vptr: Word)
    ensures 0 <= FirstPage(vptr) && Slot(4, FirstPage(vptr) / Size(4)) == ROOT
  {
  }

  // A count of 0 stands for no page, or for a whole table.
  lemma NothingCounted(w: View, n: Slot, index: int, pageCount: int)
    requires TreeOk(w, NO_SLOT) && n in w.tab && 2 <= n.level <= 4
    requires 0 <= index < Size(n.level) && 0 <= pageCount && index + pageCount <= Size(n.level)
    requires pageCount % Size(n.level) == 0
    ensures Unmapping.Unmapped(w, w, n, Lo(n) + index, Lo(n) + index + pageCount, false)
  {
    hide Unmapping.Unmapped, TreeOk;
    if pageCount == 0 {
      Unmapping.NothingToUnmap(w, n, Lo(n) + index);
    } else {
      WholeCount(n.level, index, pageCount);
      Unmapping.WholeTableSkipped(w, n);
    }
  }

  lemma WholeCount(level: int, index: int, pageCount: int)
    requires 2 <= level <= 4 && 0 <= index && 0 < pageCount && index + pageCount <= Size(level)
    ensures pageCount % Size(level) == if pageCount == Size(level) then 0 else pageCount
  {
    if pageCount < Size(level) {
      SmallIndex(level, pageCount);
    }
  }

  // What hanging a table into the tree keeps and adds.
  lemma TableHung(w: View, x: View, n: Slot, i: int, frame: int, v: int)
    requires TreeOk(w, NO_SLOT) && TableAdded(w, x, n, i, frame) && OnPath(Child(n, i), v, v + 1)
    requires x.pages.Keys == w.pages.Keys
    requires forall p :: p in w.pages && p !in w.free && p != w.tab[n] ==> x.pages[p] == w.pages[p]
    ensures TreeOk(x, NO_SLOT) && SameLeaves(w, x) && Extends(w, x, v, v + 1)
  {
    hide TreeOk, Leaf, OnPath;
    AddTable(w, x, n, i, frame);
    AddedFrames(w, x, n, i, frame);
    assert w.tab[n] in w.tab.Values;
  }

  class AddressSpace {
    const pmm: Pmm.PhysicalAllocator
    const pat: bool
    var pagingContext: int
    ghost var tab: Tables
    ghost var lost: set<int>

    // The kernel context: a zeroed PML4.
    constructor (pmm: Pmm.PhysicalAllocator, pml4: int, pat: bool)
      requires pmm.Valid() && pml4 in pmm.memory.pages && pml4 !in PagesOf(pmm.nodes)
      requires pmm.memory.pages[pml4] == ZeroPage()
      ensures this.pmm == pmm && this.pat == pat && Valid()
      ensures tab == map[ROOT := pml4] && lost == {}
      ensures forall v :: Leaf(Now(), v) == 0
    {
      this.pmm := pmm;
      this.pat := pat;
      pagingContext := pml4;
      tab := map[ROOT := pml4];
      lost := {};
    }

    ghost function Now(): View
      reads this, pmm, pmm.memory
    {
      View(pmm.memory.pages, tab, PagesOf(pmm.nodes), lost)
    }

    ghost predicate Valid()
      reads this, pmm, pmm.memory
    {
      && pmm.Valid()
      && ROOT in tab && tab[ROOT] == pagingContext
      && TreeOk(Now(), NO_SLOT)
    }

    // pmm_alloc(C_MM_PAGE_SIZE). A frame at address 0 cannot be told from
    // failure, and is lost.
    method AllocFrame() returns (frame: Word)
      requires Valid()
      modifies this`lost, pmm, pmm.memory
      ensures pmm.Valid()
      ensures pmm.memory.pages.Keys == old(pmm.memory.pages).Keys
      ensures forall p :: p in pmm.memory.pages && p !in PagesOf(old(pmm.nodes)) ==>
                pmm.memory.pages[p] == old(pmm.memory.pages)[p]
      ensures frame != 0 ==>
                && frame % PAGE_SIZE == 0 && frame < MEMORY_LIMIT
                && frame in pmm.memory.pages && frame in PagesOf(old(pmm.nodes))
                && PagesOf(pmm.nodes) == PagesOf(old(pmm.nodes)) - {frame} && lost == old(lost)
      ensures frame == 0 ==>
                && PagesOf(pmm.nodes) <= PagesOf(old(pmm.nodes))
                && lost == old(lost) + (PagesOf(old(pmm.nodes)) - PagesOf(pmm.nodes))
      ensures frame != 0 <==> Supply(old(pmm.nodes)) > 0
      ensures frame != 0 ==> Supply(pmm.nodes) == Supply(old(pmm.nodes)) - 1
      ensures frame == 0 ==> Supply(old(pmm.nodes)) == 0
    {
      hide Supply;
      ghost var s := pmm.nodes;
      ghost var pages := pmm.memory.pages;
      frame := pmm.Alloc(PAGE_SIZE);
      OnePage(pages, s);
      SupplyShrinks(pages, s);
      lost := if frame == 0 then lost + (PagesOf(s) - PagesOf(pmm.nodes)) else lost;
    }

    // Zero a fresh frame and name it in an entry.
    method HangTable(parent: int, i: int, frame: Word, ghost w: View, ghost n: Slot, ghost v: int)
      requires OnPath(Child(n, i), v, v + 1)
      requires TreeOk(w, NO_SLOT) && w.tab == tab && w.lost == lost && pmm.Valid()
      requires ROOT in tab && tab[ROOT] == pagingContext
      requires n in tab && tab[n] == parent && 2 <= n.level && 0 <= i < ENTRIES && Child(n, i) !in tab
      requires frame % PAGE_SIZE == 0 && frame < MEMORY_LIMIT && frame in w.free
               && PagesOf(pmm.nodes) == w.free - {frame}
      requires pmm.memory.pages.Keys == w.pages.Keys && frame in w.pages
      requires forall p :: p in w.pages && p !in w.free ==> pmm.memory.pages[p] == w.pages[p]
      modifies this`tab, pmm.memory
      ensures Valid() && tab == w.tab[Child(n, i) := frame]
      ensures SameLeaves(w, Now()) && Extends(w, Now(), v, v + 1)
      ensures NamesTable(Now(), n, i)
    {
      hide TreeOk, FreeListOk, Leaf, OnPath, Covers, Extends, SameLeaves;
      TablesExist(w, NO_SLOT);
      FreePagesExist(pmm.memory.pages, pmm.freeList, pmm.nodes);
      ghost var taken := pmm.memory.pages;
      pmm.memory.Zero(frame);
      OrIsAdd(frame, UPPER_FLAGS);
      pmm.memory.Write(parent, i, Or(frame, UPPER_FLAGS));
      tab := tab[Child(n, i) := frame];
      FreeListUntouched(taken, pmm.memory.pages, pmm.freeList, pmm.nodes);
      assert parent in w.tab.Values;
      TableHung(w, Now(), n, i, frame, v);
      EntryNamesTable(Now(), n, i);
    }

    // One of the three blocks of vmm_map that make sure a table exists; v is a
    // page below it.
    method EnsureTable(parent: int, i: int, ghost n: Slot, ghost v: int) returns (table: Pointer)
      requires Valid() && n in tab && tab[n] == parent && 2 <= n.level && 0 <= i < ENTRIES
      requires OnPath(Child(n, i), v, v + 1)
      modifies this`tab, this`lost, pmm, pmm.memory
      ensures Valid()
      ensures table.To? ==> Child(n, i) in tab && tab[Child(n, i)] == table.address && lost == old(lost)
      ensures Extends(old(Now()), Now(), v, v + 1) && SameLeaves(old(Now()), Now())
      ensures table.To? ==> |tab| + Supply(pmm.nodes) == old(|tab| + Supply(pmm.nodes))
      ensures table.Null? <==> Supply(old(pmm.nodes)) == 0 && Child(n, i) !in old(tab)
      ensures table.Null? ==> tab == old(tab)
      ensures old(lost) <= lost
    {
      hide TreeOk, FreeListOk, Leaf, Extends, SameLeaves, SlotOk, Supply;
      ghost var w := Now();
      ExtendsItself(w, v, v + 1);
      LeavesSame(w);
      UpperEntry(w, n, i, NO_SLOT);
      var entry := pmm.memory.pages[parent][i];
      if Present(entry) {
        FrameOfEntry(tab[Child(n, i)], UPPER_FLAGS);
        table := To(FrameOf(entry));
      } else {
        NotPresent(w, n, i);
        var frame := AllocFrame();
        if frame == 0 {
          table := Null;
          FrameLost(w, Now(), v, v + 1);
        } else {
          HangTable(parent, i, frame, w, n, v);
          table := To(frame);
        }
      }
    }

    ghost predicate Cached(p: Pointer, s: Slot)
      reads this
    {
      p.To? ==> s in tab && tab[s] == p.address
    }

    // The tables from the PML4 down to the page table of page v, whose base-512
    // digits are the four indices. A pointer cached from the page before is used
    // as it is.
    method Descend(i4: int, i3: int, i2: int, pdpt: Pointer, pd: Pointer, pt: Pointer, ghost v: int)
      returns (pdpt': Pointer, pd': Pointer, pt': Pointer)
      requires Valid() && 0 <= i4 < ENTRIES && 0 <= i3 < ENTRIES && 0 <= i2 < ENTRIES
      requires v / 512 == (i4 * 512 + i3) * 512 + i2
      requires Cached(pdpt, Slot(3, i4)) && Cached(pd, Slot(2, i4 * 512 + i3)) && Cached(pt, LeafSlot(v))
      requires (pt.To? ==> pd.To?) && (pd.To? ==> pdpt.To?)
      modifies this`tab, this`lost, pmm, pmm.memory
      ensures Valid()
      ensures Cached(pdpt', Slot(3, i4)) && Cached(pd', Slot(2, i4 * 512 + i3)) && Cached(pt', LeafSlot(v))
      ensures (pt'.To? ==> pd'.To? && lost == old(lost)) && (pd'.To? ==> pdpt'.To?)
      ensures Extends(old(Now()), Now(), v, v + 1) && SameLeaves(old(Now()), Now())
      ensures pt'.To? ==> |tab| + Supply(pmm.nodes) == old(|tab| + Supply(pmm.nodes))
      ensures pt'.Null? ==> |tab| == old(|tab| + Supply(pmm.nodes)) && LeafSlot(v) !in tab
      ensures old(lost) <= lost
    {
      hide TreeOk, Leaf, FreeListOk, Frames, Supply;
      PathCovers(i4, i3, i2, v);
      pdpt', pd', pt' := pdpt, pd, pt;
      ghost var w := Now();
      if pdpt'.Null? {
        pdpt' := EnsureTable(pagingContext, i4, ROOT, v);
      }
      ghost var x := Now();
      if pd'.Null? && pdpt'.To? {
        pd' := EnsureTable(pdpt'.address, i3, Slot(3, i4), v);
        ExtendsFurther(w, x, Now(), v, v + 1, v, v + 1);
      }
      ghost var y := Now();
      if pt'.Null? && pd'.To? {
        pt' := EnsureTable(pd'.address, i2, Slot(2, i4 * 512 + i3), v);
        ExtendsFurther(w, y, Now(), v, v + 1, v, v + 1);
      }
      if pt'.Null? {
        ghost var absent := if pdpt'.Null? then Slot(3, i4)
                            else if pd'.Null? then Slot(2, i4 * 512 + i3) else LeafSlot(v);
        NoTableBelow(Now(), absent, v);
      }
    }

    // The leaf entry of page v.
    method WriteLeaf(pt: int, i1: int, entry: Word, ghost v: int)
      requires Valid() && LeafSlot(v) in tab && tab[LeafSlot(v)] == pt && i1 == v % 512 && LeafEntry(entry)
      modifies pmm.memory
      ensures Valid()
      ensures forall u :: Leaf(Now(), u) == if u == v then entry else Leaf(old(Now()), u)
      ensures Extends(old(Now()), Now(), v, v + 1)
    {
      ghost var w := Now();
      TablesExist(w, NO_SLOT);
      pmm.memory.Write(pt, i1, entry);
      FreeListUntouched(w.pages, pmm.memory.pages, pmm.freeList, pmm.nodes);
      SetLeaf(w, Now(), LeafSlot(v), i1, entry);
      assert pt in w.tab.Values;
    }

    // One turn of vmm_map's loop.
    method MapPage(i4: int, i3: int, i2: int, i1: int, pdpt: Pointer, pd: Pointer, pt: Pointer, entry: Word,
                   ghost v: int)
      returns (pdpt': Pointer, pd': Pointer, pt': Pointer)
      requires Valid() && 0 <= i4 < ENTRIES && 0 <= i3 < ENTRIES && 0 <= i2 < ENTRIES && 0 <= i1 < ENTRIES
      requires v == ((i4 * 512 + i3) * 512 + i2) * 512 + i1 && LeafEntry(entry)
      requires Cached(pdpt, Slot(3, i4)) && Cached(pd, Slot(2, i4 * 512 + i3)) && Cached(pt, LeafSlot(v))
      requires (pt.To? ==> pd.To?) && (pd.To? ==> pdpt.To?)
      modifies this`tab, this`lost, pmm, pmm.memory
      ensures Valid()
      ensures Cached(pdpt', Slot(3, i4)) && Cached(pd', Slot(2, i4 * 512 + i3)) && Cached(pt', LeafSlot(v))
      ensures (pt'.To? ==> pd'.To? && lost == old(lost)) && (pd'.To? ==> pdpt'.To?)
      ensures pt'.To? ==> |tab| + Supply(pmm.nodes) == old(|tab| + Supply(pmm.nodes))
      ensures pt'.Null? ==> |tab| == old(|tab| + Supply(pmm.nodes)) && LeafSlot(v) !in tab
      ensures pt'.Null? ==> SameLeaves(old(Now()), Now())
      ensures old(lost) <= lost
      ensures pt'.To? ==> forall u :: Leaf(Now(), u) == if u == v then entry else Leaf(old(Now()), u)
      ensures Extends(old(Now()), Now(), v, v + 1)
    {
      hide TreeOk, Leaf, FreeListOk, Frames, Supply;
      ghost var w := Now();
      pdpt', pd', pt' := Descend(i4, i3, i2, pdpt, pd, pt, v);
      if pt'.To? {
        ghost var x := Now();
        WriteLeaf(pt'.address, i1, entry, v);
        ExtendsFurther(w, x, Now(), v, v + 1, v, v + 1);
      }
    }

    // The carry of vmm_map's loop: the indices of the next page, without the
    // pointers to tables it does not share with the last one.
    method NextPage(i4: int, i3: int, i2: int, i1: int, pdpt: Pointer, pd: Pointer, pt: Pointer, ghost v: int)
      returns (j4: int, j3: int, j2: int, j1: int, pdpt': Pointer, pd': Pointer, pt': Pointer)
      requires 0 <= i4 && 0 <= i3 < 512 && 0 <= i2 < 512 && 0 <= i1 < 512
      requires v == ((i4 * 512 + i3) * 512 + i2) * 512 + i1
      requires Cached(pdpt, Slot(3, i4)) && Cached(pd, Slot(2, i4 * 512 + i3))
      requires Cached(pt, Slot(1, (i4 * 512 + i3) * 512 + i2))
      requires (pt.To? ==> pd.To?) && (pd.To? ==> pdpt.To?)
      ensures 0 <= j4 && 0 <= j3 < 512 && 0 <= j2 < 512 && 0 <= j1 < 512
      ensures v + 1 == ((j4 * 512 + j3) * 512 + j2) * 512 + j1
      ensures Cached(pdpt', Slot(3, j4)) && Cached(pd', Slot(2, j4 * 512 + j3))
      ensures Cached(pt', Slot(1, (j4 * 512 + j3) * 512 + j2))
      ensures (pt'.To? ==> pd'.To?) && (pd'.To? ==> pdpt'.To?)
    {
      j4, j3, j2, j1, pdpt', pd', pt' := i4, i3, i2, i1 + 1, pdpt, pd, pt;
      if j1 == 512 {
        j2, j1, pt' := j2 + 1, 0, Null;
        if j2 == 512 {
          j3, j2, pd' := j3 + 1, 0, Null;
          if j3 == 512 {
            j4, j3, pdpt' := j4 + 1, 0, Null;
          }
        }
      }
    }

    // vmm_map's loop: n pages from the one with the given indices, done of which
    // are mapped when it ends.
    method MapPages(p4: int, p3: int, p2: int, p1: int, physical: int, ptFlags: int, n: int, ghost first: int)
      returns (done: int)
      requires Valid() && 0 <= n && first + n <= VIRTUAL_PAGES && first == ((p4 * 512 + p3) * 512 + p2) * 512 + p1
      requires 0 <= p4 && 0 <= p3 < 512 && 0 <= p2 < 512 && 0 <= p1 < 512
      requires 0 <= physical && physical % PAGE_SIZE == 0 && physical + n * PAGE_SIZE <= PHYSICAL_LIMIT
      requires 0 <= ptFlags < 256 && ptFlags % 2 == 1
      modifies this`tab, this`lost, pmm, pmm.memory
      ensures Valid() && 0 <= done <= n
      ensures MapsTo(old(Now()), Now(), first, done, physical, ptFlags) && Extends(old(Now()), Now(), first, first + n)
      ensures done == n <==> |Missing(old(Now()), first, first + n)| <= Supply(old(pmm.nodes))
      ensures done == n ==> lost == old(lost) && |tab| + Supply(pmm.nodes) == old(|tab| + Supply(pmm.nodes))
      ensures done < n ==> old(lost) <= lost && |tab| == old(|tab| + Supply(pmm.nodes))
    {
      hide TreeOk, Leaf, FreeListOk, Extends, MapsTo, LeafEntry, PagesOf, SameLeaves, Size, Supply, Missing, Or;
      var pdpt, pd, pt := Null, Null, Null;
      var i4, i3, i2, i1 := p4, p3, p2, p1;
      var offset, remaining := 0, n;
      done := 0;
      ghost var w := Now();
      MapsNothing(w, first, physical, ptFlags);
      ExtendsItself(w, first, first + n);
      assert Cached(pdpt, Slot(3, i4)) && Cached(pd, Slot(2, i4 * 512 + i3))
             && Cached(pt, Slot(1, (i4 * 512 + i3) * 512 + i2));
      hide Cached;
      while remaining != 0
        invariant 0 <= done <= n && remaining == n - done && offset == done * PAGE_SIZE
        invariant ((i4 * 512 + i3) * 512 + i2) * 512 + i1 == first + done
        invariant 0 <= i4 && 0 <= i3 < 512 && 0 <= i2 < 512 && 0 <= i1 < 512
        invariant Valid() && lost == w.lost
        invariant Cached(pdpt, Slot(3, i4)) && Cached(pd, Slot(2, i4 * 512 + i3))
        invariant Cached(pt, Slot(1, (i4 * 512 + i3) * 512 + i2))
        invariant (pt.To? ==> pd.To?) && (pd.To? ==> pdpt.To?)
        invariant MapsTo(w, Now(), first, done, physical, ptFlags)
        invariant Extends(w, Now(), first, first + n)
        invariant |tab| + Supply(pmm.nodes) == |w.tab| + Supply(old(pmm.nodes))
        decreases remaining
      {
        ghost var v, x := first + done, Now();
        EntryFits(physical, done, n, ptFlags);
        OrIsAdd(physical + offset, ptFlags);
        var entry := Or(physical + offset, ptFlags);
        pdpt, pd, pt := MapPage(i4, i3, i2, i1, pdpt, pd, pt, entry, v);
        ExtendsFurther(w, x, Now(), first, first + n, v, v + 1);
        MapsSame(w, x, Now(), first, done, physical, ptFlags);
        if pt.Null? {
          NotAllMapped(w, Now(), first, n, v);
          return;
        }
        MapsOneMore(w, x, Now(), first, done, physical, ptFlags);
        done := done + 1;
        offset := offset + PAGE_SIZE;
        remaining := remaining - 1;
        i4, i3, i2, i1, pdpt, pd, pt := NextPage(i4, i3, i2, i1, pdpt, pd, pt, v);
      }
      MappedHasTables(w, Now(), first, n, physical, ptFlags);
      AllMapped(w, Now(), first, n);
      SupplyIsNat(pmm.memory.pages, pmm.freeList, pmm.nodes);
    }

    // vmm_map
    method Map(vptr: Word, pptr: Word, size: Word, flags: int) returns (r: MapResult)
      requires Valid()
      requires FirstPage(vptr) + AlignRange(pptr, size).1 / PAGE_SIZE <= VIRTUAL_PAGES
      requires AlignRange(pptr, size).0 + AlignRange(pptr, size).1 <= PHYSICAL_LIMIT
      modifies this`tab, this`lost, pmm, pmm.memory
      ensures Valid()
      ensures r.Invalid? <==> vptr % PAGE_SIZE != pptr % PAGE_SIZE
      ensures r.Invalid? ==> Now() == old(Now())
      ensures !r.Invalid? ==>
                var first, n := FirstPage(vptr), AlignRange(pptr, size).1 / PAGE_SIZE;
                && MapsTo(old(Now()), Now(), first, if r.Mapped? then n else r.done, AlignRange(pptr, size).0,
                          LeafFlags(pat, flags, Index(AlignRange(vptr, size).0, 0x80_0000_0000) < 256))
                && Extends(old(Now()), Now(), first, first + n)
      ensures !r.Invalid? ==>
                var n := if r.Mapped? then AlignRange(pptr, size).1 / PAGE_SIZE else r.done;
                PagesLookLike(Now(), FirstPage(vptr), n, pptr - pptr % PAGE_SIZE, pat, flags,
                              !Bit(vptr, 0x8000_0000_0000))
      ensures TablesNamed(Now())
      ensures r.Stuck? ==> 0 <= r.done < AlignRange(pptr, size).1 / PAGE_SIZE
      ensures r.Stuck? ==> |tab| == old(|tab| + Supply(pmm.nodes)) && old(lost) <= lost
      ensures r.Mapped? ==> lost == old(lost)
      ensures !r.Invalid? ==>
                var first, n := FirstPage(vptr), AlignRange(pptr, size).1 / PAGE_SIZE;
                r.Mapped? <==> |Missing(old(Now()), first, first + n)| <= Supply(old(pmm.nodes))
      ensures r.Mapped? ==> |tab| + Supply(pmm.nodes) == old(|tab| + Supply(pmm.nodes))
    {
      hide TreeOk, Leaf, FreeListOk, Extends, MapsTo, LeafFlags, Index, FirstPage, PagesOf, Supply, Missing, AlignRange,
           PagesLookLike, TablesNamed, Bit;
      AllNamed(Now());
      if vptr % PAGE_SIZE != pptr % PAGE_SIZE {
        return Invalid;
      }
      var (virtual, _) := AlignRange(vptr, size);
      var (physical, bytes) := AlignRange(pptr, size);
      WholeRange(vptr, size);
      WholeRange(pptr, size);
      Digits(vptr);
      LowerHalf(vptr);
      var i4, i3, i2, i1 := Index(virtual, 0x80_0000_0000), Index(virtual, 0x4000_0000),
                            Index(virtual, 0x20_0000), Index(virtual, PAGE_SIZE);
      var ptFlags := LeafFlags(pat, flags, i4 < 256);
      LeafFlagsFit(pat, flags, i4 < 256);
      ghost var w, first := Now(), FirstPage(vptr);
      var n := bytes / PAGE_SIZE;
      var done := MapPages(i4, i3, i2, i1, physical, ptFlags, n, first);
      AllNamed(Now());
      MappedPages(w, Now(), first, done, n, physical, pat, flags, i4 < 256);
      return if done == n then Mapped else Stuck(done);
    }

    // ------------------------------------------------------------------ unmapping

    // pmm_free on a table, and what goes with it.
    method FreeTable(table: int, ghost n: Slot)
      requires pmm.Valid() && TreeOk(Now(), NO_SLOT) && n in tab && tab[n] == table
      modifies this`tab, this`lost, pmm, pmm.memory
      ensures pmm.Valid() && Unmapping.TableDropped(old(Now()), Now(), n)
    {
      hide TreeOk, Leaf, FreeListOk, PagesOf, Under;
      TablesExist(Now(), NO_SLOT);
      ghost var gone := Unmapping.FramesBelow(Now(), n);
      FreeFrame(table);
      lost := lost + gone;
      tab := map s | s in tab && !Under(s, n) :: tab[s];
    }

    // pmm_free(frame, C_MM_PAGE_SIZE)
    method FreeFrame(frame: int)
      requires pmm.Valid() && 0 <= frame < MEMORY_LIMIT && frame % PAGE_SIZE == 0
      requires frame in pmm.memory.pages && frame !in PagesOf(pmm.nodes)
      modifies pmm, pmm.memory
      ensures pmm.Valid() && PagesOf(pmm.nodes) == PagesOf(old(pmm.nodes)) + {frame}
      ensures pmm.memory.pages.Keys == old(pmm.memory.pages).Keys
      ensures forall p :: p in pmm.memory.pages && p != frame && p !in PagesOf(old(pmm.nodes)) ==>
                pmm.memory.pages[p] == old(pmm.memory.pages)[p]
    {
      hide Chain, Covers, Separated, Aligned, PutBackwardFirst, Disjoint, PagesOf;
      OnePageFreed(pmm.memory.pages, pmm.nodes, frame);
      pmm.Free(frame, PAGE_SIZE);
    }

    // The two scans of vmm_unmapRecursive: nothing present up to entry first, nor
    // from entry last.
    method ScanEmpty(table: int, first: int, last: int) returns (empty: bool)
      requires table in pmm.memory.pages && |pmm.memory.pages[table]| == ENTRIES && 0 <= first < ENTRIES && 0 <= last
      ensures empty <==> forall j :: 0 <= j < ENTRIES && (j <= first || last <= j) ==>
                !Present(pmm.memory.pages[table][j])
    {
      var i := 0;
      while i <= first
        invariant 0 <= i <= first + 1
        invariant forall j :: 0 <= j < i ==> !Present(pmm.memory.pages[table][j])
      {
        if Present(pmm.memory.pages[table][i]) {
          return false;
        }
        i := i + 1;
      }
      i := last;
      while i < ENTRIES
        invariant last <= i && (last <= ENTRIES ==> i <= ENTRIES)
        invariant forall j :: last <= j < i && j < ENTRIES ==> !Present(pmm.memory.pages[table][j])
      {
        if Present(pmm.memory.pages[table][i]) {
          return false;
        }
        i := i + 1;
      }
      return true;
    }

    // Level 1 of vmm_unmapRecursive: count entries of a page table are cleared.
    method ClearEntries(table: int, index: int, count: int, ghost n: Slot)
      requires pmm.Valid() && TreeOk(Now(), NO_SLOT) && n in tab && n.level == 1 && tab[n] == table
      requires 0 <= index && 0 <= count && index + count <= ENTRIES
      modifies pmm.memory
      ensures pmm.Valid() && TreeOk(Now(), NO_SLOT)
      ensures Evolves(old(Now()), Now()) && Unmapping.Elsewhere(old(Now()), Now(), n)
      ensures forall v ::
                Leaf(Now(), v) == if Lo(n) + index <= v < Lo(n) + index + count then 0 else Leaf(old(Now()), v)
    {
      ghost var w := Now();
      TablesExist(w, NO_SLOT);
      assert table in w.tab.Values;
      var i := 0;
      while i < count
        invariant 0 <= i <= count
        invariant pmm.Valid() && TreeOk(Now(), NO_SLOT)
        invariant Evolves(w, Now()) && Unmapping.Elsewhere(w, Now(), n)
        invariant forall v :: Leaf(Now(), v) == if Lo(n) + index <= v < Lo(n) + index + i then 0 else Leaf(w, v)
      {
        ClearEntry(table, index + i, n);
        i := i + 1;
      }
    }

    method ClearEntry(table: int, i: int, ghost n: Slot)
      requires pmm.Valid() && TreeOk(Now(), NO_SLOT) && n in tab && n.level == 1 && tab[n] == table && 0 <= i < ENTRIES
      modifies pmm.memory
      ensures pmm.Valid() && TreeOk(Now(), NO_SLOT)
      ensures Evolves(old(Now()), Now()) && Unmapping.Elsewhere(old(Now()), Now(), n)
      ensures forall v :: Leaf(Now(), v) == if v == Lo(n) + i then 0 else Leaf(old(Now()), v)
    {
      ghost var w := Now();
      TablesExist(w, NO_SLOT);
      pmm.memory.Write(table, i, 0);
      FreeListUntouched(w.pages, pmm.memory.pages, pmm.freeList, pmm.nodes);
      SetLeaf(w, Now(), n, i, 0);
      assert table in w.tab.Values;
    }

    // The pages of lo to hi below n have their page tables.
    ghost predicate TablesThere(lo: int, hi: int)
      reads this
    {
      forall v :: lo <= v < hi ==> LeafSlot(v) in tab
    }

    // One turn of vmm_unmapRecursive's loop: child i of n, for its pages from cur
    // to next of the whole call's lo to hi.
    method UnmapChild(table: int, i: int, nextIndex: int, nextCount: int, level: int,
                      ghost n: Slot, ghost w: View, ghost lo: int, ghost cur: int, ghost hi: int) returns (freed: bool)
      requires pmm.Valid() && n.level == level && 2 <= level <= 4 && 0 <= i < ENTRIES
      requires lo <= cur < cur + nextCount <= hi && Covering(Child(n, i), cur)
      requires Unmapping.Midway(w, Now(), n, lo, cur, hi, Lo(Child(n, i))) && tab[n] == table
      requires cur == lo || cur == Lo(Child(n, i))
      requires 0 <= nextIndex && cur == Lo(Child(n, i)) + nextIndex
      requires cur + nextCount == if hi < Hi(Child(n, i)) then hi else Hi(Child(n, i))
      requires TablesThere(cur, cur + nextCount)
      modifies this`tab, this`lost, pmm, pmm.memory
      ensures pmm.Valid()
      ensures n in tab && tab[n] == table
      ensures Unmapping.Midway(w, Now(), n, lo, cur + nextCount, hi, Lo(Child(n, i + 1)))
      ensures Child(n, i) in tab <==> !freed
      ensures forall s :: s in old(tab) && s !in tab ==> Under(s, Child(n, i))
      decreases level, 0
    {
      hide TreeOk, Leaf, FreeListOk, Evolves, PagesOf, Size, Lo, FrameOf;
      hide Unmapping.LeafMid, Unmapping.Shrinks, Unmapping.Elsewhere, Unmapping.Midway;
      ghost var x := Now();
      ghost var c := Child(n, i);
      MidwayTree(w, x, n, lo, cur, hi, Lo(c));
      ChildSpan(n, i);
      SmallIndex(level - 1, nextIndex);
      LeafUnder(cur, c);
      ChildInTree(x, LeafSlot(cur), n, i, NO_SLOT);
      UpperEntry(x, n, i, NO_SLOT);
      FrameOfEntry(tab[c], UPPER_FLAGS);
      var child := FrameOf(pmm.memory.pages[table][i]);
      freed := UnmapRecursive(child, nextIndex, nextCount, level - 1, c);
      ghost var y := Now();
      UnmappedKeepsParent(x, y, n, i, cur, cur + nextCount, freed);
      if freed {
        StoreToTable(y, pmm.freeList, pmm.nodes, n, i, 0, c);
        pmm.memory.Write(table, i, 0);
      }
      Unmapping.ChildDone(w, x, y, Now(), n, i, lo, cur, cur + nextCount, hi, freed);
    }

    // vmm_unmapRecursive, by level: removes count pages from the index-th page
    // below the table on, and reports whether it gave the table back. (Its test
    // for 512 pages comes after the mask that turns 512 into 0 and never holds.)
    method UnmapRecursive(table: int, pageIndex: int, pageCount: int, level: int, ghost n: Slot) returns (freed: bool)
      requires pmm.Valid() && TreeOk(Now(), NO_SLOT) && n in tab && tab[n] == table
      requires n.level == level && 1 <= level <= 4 && 0 <= pageIndex && 0 <= pageCount
      requires level == 1 ==> pageCount > 0
      requires pageIndex % Size(level) + pageCount <= Size(level)
      requires TablesThere(Lo(n) + pageIndex % Size(level), Lo(n) + pageIndex % Size(level) + pageCount)
      modifies this`tab, this`lost, pmm, pmm.memory
      ensures pmm.Valid()
      ensures Unmapping.Unmapped(old(Now()), Now(), n, Lo(n) + pageIndex % Size(level),
                                 Lo(n) + pageIndex % Size(level) + pageCount, freed)
      decreases level, 3
    {
      hide TreeOk, Leaf, FreeListOk, Evolves, PagesOf, Unmapping.Unmapped;
      var index, count := pageIndex % Size(level), pageCount % Size(level);
      if level == 1 {
        freed := UnmapLeafTable(table, index, count, pageCount, n);
      } else {
        freed := UnmapUpperTable(table, index, count, pageCount, level, n);
      }
    }

    method UnmapLeafTable(table: int, index: int, count: int, ghost pageCount: int, ghost n: Slot) returns (freed: bool)
      requires pmm.Valid() && TreeOk(Now(), NO_SLOT) && n in tab && tab[n] == table && n.level == 1
      requires 0 <= index < ENTRIES && 0 < pageCount && index + pageCount <= ENTRIES && count == pageCount % ENTRIES
      modifies this`tab, this`lost, pmm, pmm.memory
      ensures pmm.Valid()
      ensures Unmapping.Unmapped(old(Now()), Now(), n, Lo(n) + index, Lo(n) + index + pageCount, freed)
    {
      hide TreeOk, Leaf, FreeListOk, Evolves, PagesOf;
      ghost var w, lo, hi := Now(), Lo(n) + index, Lo(n) + index + pageCount;
      ClearEntries(table, index, count, n);
      ghost var x := Now();
      assert Unmapping.Cleared(w, x, n, lo, hi);
      Unmapping.ClearedMidway(w, x, n, lo, hi);
      TablesExist(x, NO_SLOT);
      var empty := ScanEmpty(table, index, index);
      if empty {
        assert Unmapping.EmptyAround(x, n, ENTRIES, ENTRIES);
        FreeTable(table, n);
        Unmapping.LeafTableFreed(w, x, Now(), n, lo, hi);
        return true;
      }
      Unmapping.TableKept(w, x, n, lo, hi, hi);
      return false;
    }

    method UnmapUpperTable(table: int, index: int, count: int, ghost pageCount: int, level: int, ghost n: Slot)
      returns (freed: bool)
      requires pmm.Valid() && TreeOk(Now(), NO_SLOT) && n in tab && tab[n] == table && n.level == level
               && 2 <= level <= 4
      requires 0 <= index < Size(level) && 0 <= pageCount && index + pageCount <= Size(level)
               && count == pageCount % Size(level)
      requires TablesThere(Lo(n) + index, Lo(n) + index + pageCount)
      modifies this`tab, this`lost, pmm, pmm.memory
      ensures pmm.Valid()
      ensures Unmapping.Unmapped(old(Now()), Now(), n, Lo(n) + index, Lo(n) + index + pageCount, freed)
      decreases level, 2
    {
      hide TreeOk, Leaf, FreeListOk, Evolves, PagesOf, Unmapping.LeafMid, Unmapping.Shrinks, Unmapping.Elsewhere,
           Unmapping.Unmapped, Unmapping.Midway, Unmapping.HasPresent, Under, OnPath, Unmapping.WholeBlock, Size, Lo,
           Hi, Covering, Child;
      ghost var w, lo, hi := Now(), Lo(n) + index, Lo(n) + index + count;
      if count == 0 {
        NothingCounted(w, n, index, pageCount);
        return false;
      }
      WholeCount(level, index, pageCount);
      ChildOfIndex(n, index);
      var first := index / Size(level - 1) % ENTRIES;
      var last, modified, bound := UnmapChildren(table, index, count, level, n);
      ghost var x := Now();
      if modified {
        MidwayTree(w, x, n, lo, hi, hi, bound);
        TablesExist(x, NO_SLOT);
        var empty := ScanEmpty(table, first, last);
        if empty {
          FreeTable(table, n);
          Unmapping.TableFreed(w, x, Now(), n, lo, hi, first, last, bound);
          return true;
        }
      }
      Unmapping.TableKept(w, x, n, lo, hi, bound);
      return false;
    }

    // The loop of vmm_unmapRecursive over the children of a table.
    method UnmapChildren(table: int, index: int, count: int, level: int, ghost n: Slot)
      returns (last: int, modified: bool, ghost bound: int)
      requires pmm.Valid() && TreeOk(Now(), NO_SLOT) && n in tab && tab[n] == table && n.level == level
               && 2 <= level <= 4
      requires 0 <= index && 0 < count && index + count <= Size(level)
      requires TablesThere(Lo(n) + index, Lo(n) + index + count)
      modifies this`tab, this`lost, pmm, pmm.memory
      ensures pmm.Valid() && n in tab && tab[n] == table
      ensures Unmapping.Midway(old(Now()), Now(), n, Lo(n) + index, Lo(n) + index + count, Lo(n) + index + count, bound)
      ensures index / Size(level - 1) <= last < ENTRIES && Covering(Child(n, last), Lo(n) + index + count - 1)
      ensures !modified ==> Unmapping.HasPresent(Now(), n)
      decreases level, 1
    {
      hide TreeOk, Leaf, FreeListOk, Evolves, PagesOf, Size, Lo, Unmapping.Midway, Unmapping.HasPresent;
      ghost var w, lo, hi := Now(), Lo(n) + index, Lo(n) + index + count;
      ChildOfIndex(n, index);
      var i, next, remaining := index / Size(level - 1), index, count;
      modified := false;
      ghost var first, cur := i, lo;
      Unmapping.Untouched(w, n, lo, lo, hi, Lo(Child(n, i)));
      while remaining > 0
        invariant 0 <= remaining <= count && next == index + count - remaining && cur == Lo(n) + next
        invariant first <= i
        invariant remaining > 0 ==> Covering(Child(n, i), cur) && (cur == lo || cur == Lo(Child(n, i)))
        invariant i > first ==> i - 1 < ENTRIES && Covering(Child(n, i - 1), cur - 1)
        invariant i == first ==> remaining == count
        invariant pmm.Valid() && n in tab && tab[n] == table
        invariant Unmapping.Midway(w, Now(), n, lo, cur, hi, Lo(Child(n, i)))
        invariant !modified && i > first ==> Child(n, first) in tab
        decreases remaining
      {
        ChildIs(n, i, next);
        ChildSpan(n, i);
        SizesPositive(Child(n, i + 1));
        var nextIndex := next % Size(level - 1);
        var nextCount := if Size(level - 1) - nextIndex < remaining then Size(level - 1) - nextIndex else remaining;
        PathStillThere(w, Now(), n, lo, cur, hi, Lo(Child(n, i)));
        var freed := UnmapChild(table, i, nextIndex, nextCount, level, n, w, lo, cur, hi);
        if freed {
          modified := true;
        } else if i > first {
          NotUnderSibling(n, first, i);
        }
        next := next + nextCount;
        remaining := remaining - nextCount;
        i := i + 1;
        cur := cur + nextCount;
      }
      last := i - 1;
      bound := Lo(Child(n, i));
      MidwayTree(w, Now(), n, lo, cur, hi, bound);
      if !modified {
        Unmapping.ChildStays(Now(), n, first);
      }
    }

    // vmm_unmap. When its walk has given the PML4 back, it frees the PML4 again:
    // the method stops before that second pmm_free, whose argument is already
    // free (see DoubleFreeBreaksList).
    method Unmap(ptr: Word, size: Word) returns (r: UnmapResult)
      requires Valid()
      requires FirstPage(ptr) + AlignRange(ptr, size).1 / PAGE_SIZE <= VIRTUAL_PAGES
      requires TablesThere(FirstPage(ptr), FirstPage(ptr) + AlignRange(ptr, size).1 / PAGE_SIZE)
      modifies this`tab, this`lost, pmm, pmm.memory
      ensures pmm.Valid() && (r.Done? ==> Valid())
      ensures Unmapping.Unmapped(old(Now()), Now(), ROOT, FirstPage(ptr),
                                 FirstPage(ptr) + AlignRange(ptr, size).1 / PAGE_SIZE, r.DoubleFree?)
      ensures r.DoubleFree? ==> pagingContext in PagesOf(pmm.nodes)
      ensures var first, n := FirstPage(ptr), AlignRange(ptr, size).1 / PAGE_SIZE;
              Unmapping.NoEmptyTables(old(Now())) && n > 0 && Unmapping.NoWholeBlock(first, first + n) ==>
                (r.DoubleFree? <==> forall v :: Leaf(old(Now()), v) != 0 ==> first <= v < first + n)
    {
      hide TreeOk, Leaf, FreeListOk, Evolves, PagesOf, Unmapping.NoEmptyTables, Unmapping.NoWholeBlock,
           Unmapping.Unmapped;
      ghost var w := Now();
      var (start, bytes) := AlignRange(ptr, size);
      RoundUpIsLeast((size + ptr % PAGE_SIZE) % WORD_LIMIT);
      assert start / PAGE_SIZE == ptr / PAGE_SIZE;
      var freed := UnmapRecursive(pagingContext, start / PAGE_SIZE, bytes / PAGE_SIZE, 4, ROOT);
      ghost var first, n := FirstPage(ptr), AlignRange(ptr, size).1 / PAGE_SIZE;
      UnmappedRoot(w, Now(), first, first + n, freed);
      if Unmapping.NoEmptyTables(w) && n > 0 && Unmapping.NoWholeBlock(first, first + n) {
        Unmapping.RootGoesExactly(w, Now(), first, first + n, freed);
      }
      if freed {
        return DoubleFree;
      }
      return Done;
    }

    // vmm_getPhysicalAddress2
    method GetPhysicalAddress(vptr: Word) returns (address: int)
      requires Valid()
      ensures var leaf := Leaf(Now(), FirstPage(vptr)); address == if leaf == 0 then 0 else FrameOf(leaf)
    {
      hide Index, FirstPage, TreeOk, FreeListOk, Leaf;
      ghost var v := FirstPage(vptr);
      RootOf(vptr);
      TranslateFindsLeaf(Now(), 4, v);
      Digits(vptr);
      OffsetIrrelevant(vptr);
      IndicesOfPage(vptr);
      var pages := pmm.memory.pages;
      var pml4Entry := pages[pagingContext][Index(vptr, 0x80_0000_0000)];
      if !Present(pml4Entry) {
        return 0;
      }
      assert Walkable(pages, FrameOf(pml4Entry), 3, v);
      var pdptEntry := pages[FrameOf(pml4Entry)][Index(vptr, 0x4000_0000)];
      if !Present(pdptEntry) {
        return 0;
      }
      if LargePage(pdptEntry) {
        return FrameOf(pdptEntry) / 0x4000_0000 * 0x4000_0000;
      }
      assert Walkable(pages, FrameOf(pdptEntry), 2, v);
      var pdEntry := pages[FrameOf(pdptEntry)][Index(vptr, 0x20_0000)];
      if !Present(pdEntry) {
        return 0;
      }
      if LargePage(pdEntry) {
        return FrameOf(pdEntry) / 0x20_0000 * 0x20_0000;
      }
      assert Walkable(pages, FrameOf(pdEntry), 1, v);
      var ptEntry := pages[FrameOf(pdEntry)][Index(vptr, PAGE_SIZE)];
      if !Present(ptEntry) {
        return 0;
      }
      return FrameOf(ptEntry);
    }
  }
}
