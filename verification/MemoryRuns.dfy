// Whole runs of mapping, unmapping, allocating and freeing on one physical
// memory: who owns which page frame.
module MemoryRuns {
  import opened Words
  import opened Ranges
  import opened PhysicalMemory
  import opened PageTables
  import opened FrameSupply
  import opened Slots
  import opened Unmapping
  import RoundTrip
  import S = AddressSpace

  // A memory with one tree and the frames that pmm_alloc's callers hold.
  datatype System = System(view: View, clients: set<int>)

  ghost predicate SystemOk(s: System) {
    && TreeOk(s.view, NO_SLOT) && ROOT in s.view.tab && NoEmptyTables(s.view)
    && Frames(s.view) !! s.clients && s.view.lost == {}
  }

  ghost function Everything(s: System): set<int> {
    Frames(s.view) + s.clients
  }

  // What AddressSpace.Map promises of a call that succeeds.
  ghost predicate MapStep(s: System, t: System) {
    && t.clients == s.clients
    && t.view.lost == s.view.lost
    && TreeOk(t.view, NO_SLOT)
    && exists first, n, physical, flags :: MappedTo(s.view, t.view, first, n, physical, flags)
  }

  ghost predicate MappedTo(w: View, x: View, first: int, n: int, physical: int, flags: int) {
    && S.MapsTo(w, x, first, n, physical, flags) && Extends(w, x, first, first + n)
    && 0 <= physical && 0 < flags
  }

  // What AddressSpace.Unmap promises for a range without whole page tables that
  // leaves the PML4 in use.
  ghost predicate UnmapStep(s: System, t: System) {
    && t.clients == s.clients
    && exists lo, hi :: NoWholeBlock(lo, hi) && Unmapped(s.view, t.view, ROOT, lo, hi, false)
  }

  // What PhysicalAllocator.Alloc promises of a call for n bytes.
  ghost predicate AllocStep(s: System, t: System) {
    exists nodes: seq<Range>, n: int :: Allocated(s, t, nodes, n)
  }

  ghost predicate Allocated(s: System, t: System, nodes: seq<Range>, n: int) {
    && ListShape(s.view.pages, nodes) && s.view.free == PagesOf(nodes)
    && n > 0 && n % PAGE_SIZE == 0
    && t.view == s.view.(pages := t.view.pages, free := PagesOf(Take(nodes, n)))
    && t.clients == (if Fits(nodes, n) then s.clients + PagesIn(TakenAt(nodes, n), n) else s.clients)
    && OnlyFreeWritten(s.view, t.view, {})
  }

  // What PhysicalAllocator.Free promises of a call for a block its caller holds.
  ghost predicate FreeStep(s: System, t: System) {
    exists nodes: seq<Range>, r: Range :: Freed(s, t, nodes, r)
  }

  ghost predicate Freed(s: System, t: System, nodes: seq<Range>, r: Range) {
    && ListShape(s.view.pages, nodes) && s.view.free == PagesOf(nodes)
    && r.size > 0 && r.ptr % PAGE_SIZE == 0 && r.size % PAGE_SIZE == 0 && 0 <= r.ptr && r.End() <= MEMORY_LIMIT
    && PagesIn(r.ptr, r.size) <= s.clients
    && t.view == s.view.(pages := t.view.pages, free := PagesOf(PutBackwardFirst(nodes, r)))
    && t.clients == s.clients - PagesIn(r.ptr, r.size)
    && OnlyFreeWritten(s.view, t.view, {r.ptr})
  }

  ghost predicate Next(s: System, t: System) {
    MapStep(s, t) || UnmapStep(s, t) || AllocStep(s, t) || FreeStep(s, t)
  }

  // ---------------------------------------------------------------- single steps

  lemma MapKeeps(s: System, t: System)
    requires SystemOk(s) && MapStep(s, t)
    ensures SystemOk(t) && Everything(t) == Everything(s) && Undisturbed(s, t)
  {
    var first, n, physical, flags :| MappedTo(s.view, t.view, first, n, physical, flags);
    MapLeavesNoneEmpty(s.view, t.view, first, n, physical, flags);
  }

  lemma MapLeavesNoneEmpty(w: View, x: View, first: int, n: int, physical: int, flags: int)
    requires TreeOk(w, NO_SLOT) && TreeOk(x, NO_SLOT) && NoEmptyTables(w) && MappedTo(w, x, first, n, physical, flags)
    ensures NoEmptyTables(x)
  {
    hide TreeOk, HasPresent, Leaf, Evolves;
    forall s | s in x.tab && s != ROOT ensures HasPresent(x, s) {
      AllUnderRoot(x, s, NO_SLOT);
      var v;
      if s in w.tab {
        v := TableHasLeaf(w, s);
      } else {
        v := if Lo(s) < first then first else Lo(s);
        SizesPositive(s);
      }
      assert Leaf(x, v) != 0 by {
        MappedLeaf(w, x, first, n, physical, flags, v);
      }
      LeafKeepsTable(x, s, v);
    }
  }

  lemma MappedLeaf(w: View, x: View, first: int, n: int, physical: int, flags: int, v: int)
    requires S.MapsTo(w, x, first, n, physical, flags) && 0 <= physical && 0 < flags
    ensures first <= v < first + n || Leaf(w, v) != 0 ==> Leaf(x, v) != 0
  {
    hide Leaf;
    assert Leaf(x, v) == if first <= v < first + n then physical + (v - first) * PAGE_SIZE + flags else Leaf(w, v);
  }

  // Tables that are not written to keep their present entries.
  lemma TablesStayUsed(s: System, t: System)
    requires SystemOk(s) && t.view.tab == s.view.tab
    requires forall p :: p in s.view.tab.Values && p in s.view.pages ==>
               p in t.view.pages && t.view.pages[p] == s.view.pages[p]
    ensures NoEmptyTables(t.view)
  {
    hide TreeOk;
    TablesExist(s.view, NO_SLOT);
    forall u | u in t.view.tab && u != ROOT ensures HasPresent(t.view, u) {
      assert HasPresent(s.view, u) && s.view.tab[u] in s.view.tab.Values;
    }
  }

  lemma UnmapKeeps(s: System, t: System)
    requires SystemOk(s) && UnmapStep(s, t)
    ensures SystemOk(t) && Everything(t) == Everything(s) && Undisturbed(s, t)
  {
    var lo, hi :| NoWholeBlock(lo, hi) && Unmapped(s.view, t.view, ROOT, lo, hi, false);
    UnmapLeavesNoneEmpty(s.view, t.view, lo, hi);
  }

  lemma AllocKeeps(s: System, t: System)
    requires SystemOk(s) && AllocStep(s, t)
    ensures SystemOk(t) && Everything(t) == Everything(s) && Undisturbed(s, t)
  {
    var nodes: seq<Range>, n: int :| Allocated(s, t, nodes, n);
    AllocatedKeeps(s, t, nodes, n);
  }

  lemma AllocatedKeeps(s: System, t: System, nodes: seq<Range>, n: int)
    requires SystemOk(s) && Allocated(s, t, nodes, n)
    ensures SystemOk(t) && Everything(t) == Everything(s) && Undisturbed(s, t)
    ensures !Fits(nodes, n) ==> t.view.free == s.view.free
    ensures Fits(nodes, n) ==> PagesIn(TakenAt(nodes, n), n) <= s.view.free
  {
    hide TreeOk, PagesOf, PagesIn, ListShape, Take, TakenAt, Fits;
    if Fits(nodes, n) {
      BlockCount(s.view.pages, nodes, n);
    } else {
      NothingTaken(s.view.pages, nodes, n);
    }
    TablesExist(s.view, NO_SLOT);
    FramesMove(s.view, t.view, {});
    TablesStayUsed(s, t);
    forall p | p in s.view.tab.Values ensures p !in s.view.free {
      var u :| u in s.view.tab && s.view.tab[u] == p;
    }
  }

  lemma NothingTaken(pages: Pages, nodes: seq<Range>, n: int)
    requires ListShape(pages, nodes) && n > 0
    ensures !Fits(nodes, n) ==> Take(nodes, n) == nodes
  {
    TakeRemovesOneBlock(nodes, n);
  }

  lemma FreeKeeps(s: System, t: System)
    requires SystemOk(s) && FreeStep(s, t)
    ensures SystemOk(t) && Everything(t) == Everything(s) && Undisturbed(s, t)
  {
    hide TreeOk;
    var nodes: seq<Range>, r: Range :| Freed(s, t, nodes, r);
    ClientsDisjoint(nodes, r, s.clients);
    PutsAdd(nodes, r);
    forall p ensures p in t.view.free <==> p in s.view.free || p in PagesIn(r.ptr, r.size) {
    }
    TablesExist(s.view, NO_SLOT);
    forall u | u in s.view.tab ensures s.view.tab[u] !in s.clients {
      assert s.view.tab[u] in s.view.tab.Values;
    }
    assert r.ptr in PagesIn(r.ptr, r.size);
    FramesMove(s.view, t.view, {r.ptr});
    TablesStayUsed(s, t);
  }

  lemma ClientsDisjoint(nodes: seq<Range>, r: Range, clients: set<int>)
    requires Separated(nodes) && Aligned(nodes, PAGE_SIZE) && PagesOf(nodes) !! clients
             && PagesIn(r.ptr, r.size) <= clients
    requires r.size > 0 && r.ptr % PAGE_SIZE == 0 && r.size % PAGE_SIZE == 0 && 0 <= r.ptr && r.End() <= MEMORY_LIMIT
    ensures Disjoint(nodes, r)
  {
    forall a | r.Contains(a) ensures !Covers(nodes, a) {
      var p := a - a % PAGE_SIZE;
      assert r.ptr <= p;
      assert p in PagesIn(r.ptr, r.size);
      assert p !in PagesOf(nodes);
      if Covers(nodes, a) {
        CoversItsPage(nodes, a);
      }
    }
    DisjointFromBytes(nodes, r);
  }

  // --------------------------------------------------------------- whole runs

  // Frames that clients keep keep their contents.
  ghost predicate Undisturbed(s: System, t: System) {
    forall p :: p in s.clients && p in t.clients && p in s.view.pages ==>
      p in t.view.pages && t.view.pages[p] == s.view.pages[p]
  }

  ghost predicate IsRun(run: seq<System>) {
    run != [] && forall i :: 0 < i < |run| ==> Next(run[i - 1], run[i])
  }

  // After any sequence of successful calls: the tables still form one tree, each
  // non-root table named by exactly one entry; no table frame is free or held by
  // a client; and free, table and client frames together are the initial set.
  lemma {:induction false} RunConserves(run: seq<System>)
    requires IsRun(run) && SystemOk(run[0])
    ensures var t := run[|run| - 1];
            && SystemOk(t)
            && t.view.free + t.view.tab.Values + t.clients == Everything(run[0])
            && t.view.free !! t.view.tab.Values && t.clients !! t.view.free && t.clients !! t.view.tab.Values
    decreases |run|
  {
    hide TreeOk, Next, Everything;
    var t := run[|run| - 1];
    if |run| > 1 {
      var before := run[..|run| - 1];
      assert IsRun(before);
      RunConserves(before);
      var s := before[|before| - 1];
      assert Next(run[|run| - 2], run[|run| - 1]);
      OwnersApart(s);
      StepConserves(s, t);
    }
    OwnersApart(t);
  }

  lemma OwnersApart(t: System)
    requires SystemOk(t)
    ensures Everything(t) == t.view.free + t.view.tab.Values + t.clients
    ensures t.view.free !! t.view.tab.Values && t.clients !! t.view.free && t.clients !! t.view.tab.Values
  {
    hide TreeOk;
    TablesExist(t.view, NO_SLOT);
    forall p | p in t.view.tab.Values ensures p !in t.view.free {
      var u :| u in t.view.tab && t.view.tab[u] == p;
    }
  }

  lemma StepConserves(s: System, t: System)
    requires SystemOk(s) && Next(s, t)
    ensures SystemOk(t) && Everything(t) == Everything(s) && Undisturbed(s, t)
  {
    if MapStep(s, t) {
      MapKeeps(s, t);
    } else if UnmapStep(s, t) {
      UnmapKeeps(s, t);
    } else if AllocStep(s, t) {
      AllocKeeps(s, t);
    } else {
      FreeKeeps(s, t);
    }
  }

  // ------------------------------------------------------------- the real calls

  // What the kernel's parts ask of one address space and its allocator. Free
  // names a block that Alloc gave out; its size is the one asked for.
  datatype Call =
    | Map(vptr: Word, pptr: Word, size: Word, flags: int)
    | Unmap(ptr: Word, size: Word)
    | Alloc(size: Word)
    | Free(ptr: Word)

  // Skipped: the caller may not make the call. Failed: pmm_alloc returns NULL.
  // The last two are the ends of vmm_map without a table frame and of vmm_unmap
  // when the tree gets empty.
  datatype Outcome = Skipped | Failed | Performed | NeverReturns | FreesTwice

  // vmm_getPhysicalAddress finds the page.
  ghost predicate Translates(w: View, v: int) {
    Leaf(w, v) != 0 && FrameOf(Leaf(w, v)) != 0
  }

  // The calls that callers may make; held are the blocks they have.
  ghost predicate Admissible(w: View, held: map<Word, Word>, call: Call) {
    match call
    case Map(vptr, pptr, size, flags) =>
      && vptr % PAGE_SIZE == pptr % PAGE_SIZE
      && S.FirstPage(vptr) + AlignRange(pptr, size).1 / PAGE_SIZE <= VIRTUAL_PAGES
      && AlignRange(pptr, size).0 + AlignRange(pptr, size).1 <= PHYSICAL_LIMIT
    case Unmap(ptr, size) =>
      var first, n := S.FirstPage(ptr), AlignRange(ptr, size).1 / PAGE_SIZE;
      && first + n <= VIRTUAL_PAGES && NoWholeBlock(first, first + n)
      && forall v :: first <= v < first + n ==> Translates(w, v)
    case Alloc(size) => RoundUpPage(size) > 0
    case Free(ptr) => ptr in held
  }

  // What callers may do, for example: ask for any size that can be rounded up to
  // pages, free any block they hold, map any page, and unmap any page that
  // translates.
  lemma CallersMayCall(w: View, held: map<Word, Word>, vptr: Word, pptr: Word, flags: int)
    requires vptr % 4096 == 0 && pptr % 4096 == 0 && pptr < 0x10_0000_0000_0000
    ensures forall size :: Admissible(w, held, Alloc(size)) <==> 0 < size <= 0xffff_ffff_ffff_f000
    ensures forall ptr :: ptr in held <==> Admissible(w, held, Free(ptr))
    ensures Admissible(w, held, Map(vptr, pptr, 4096, flags))
    ensures Translates(w, vptr / 4096 % 0x10_0000_0000) <==> Admissible(w, held, Unmap(vptr, 4096))
  {
    hide Translates;
    forall size: Word ensures RoundUpPage(size) > 0 <==> 0 < size <= WORD_LIMIT - PAGE_SIZE {
      RoundUpIsLeast(size);
    }
    assert AlignRange(vptr, 4096) == (vptr, 4096) && AlignRange(pptr, 4096) == (pptr, 4096);
    var first := S.FirstPage(vptr);
    RoundTrip.WholeBlockTest(first, first + 1);
  }

  // The free frames are not enough for the tables the range lacks.
  ghost predicate TooFew(w: View, nodes: seq<Range>, vptr: Word, pptr: Word, size: Word) {
    var first, n := S.FirstPage(vptr), AlignRange(pptr, size).1 / PAGE_SIZE;
    |Missing(w, first, first + n)| > Supply(nodes)
  }

  // Every mapped page is in the range.
  ghost predicate LeavesNothing(w: View, ptr: Word, size: Word) {
    var first, n := S.FirstPage(ptr), AlignRange(ptr, size).1 / PAGE_SIZE;
    n > 0 && forall v :: Leaf(w, v) != 0 ==> first <= v < first + n
  }

  lemma NothingGoes(w: View, x: View, first: int, freed: bool)
    requires ROOT in w.tab && Unmapped(w, x, ROOT, first, first, freed)
    ensures !freed
  {
  }

  // The blocks are whole pages, apart from each other, and clients' pages.
  ghost predicate HeldOk(s: System, held: map<Word, Word>) {
    && (forall b :: b in held ==> BlockOk(s, b, held[b]))
    && (forall b, c :: b in held && c in held && b < c ==> b + held[b] <= c)
    && s.clients <= s.view.pages.Keys
  }

  ghost predicate BlockOk(s: System, b: int, n: int) {
    && n > 0 && n % PAGE_SIZE == 0 && 0 < b && b % PAGE_SIZE == 0 && b + n <= MEMORY_LIMIT
    && PagesIn(b, n) <= s.clients
  }

  // The step a call takes.
  ghost predicate StepOf(call: Call, s: System, t: System, held: map<Word, Word>, after: map<Word, Word>) {
    match call
    case Map(_, _, _, _) => MapStep(s, t) && after == held
    case Unmap(_, _) => UnmapStep(s, t) && after == held
    case Alloc(size) =>
      AllocStep(s, t) && exists ptr: Word :: ptr !in held && after == held[ptr := RoundUpPage(size)] &&
                                             t.clients == s.clients + PagesIn(ptr, RoundUpPage(size))
    case Free(ptr) =>
      FreeStep(s, t) && ptr in held && after == held - {ptr} && t.clients == s.clients - PagesIn(ptr, held[ptr])
  }

  // Whole-page blocks without a common page do not overlap.
  lemma BlocksOrdered(a: int, n: int, b: int, m: int)
    requires a % PAGE_SIZE == 0 && b % PAGE_SIZE == 0 && n > 0 && m > 0 && n % PAGE_SIZE == 0 && m % PAGE_SIZE == 0
    requires PagesIn(a, n) !! PagesIn(b, m)
    ensures a != b && (a < b ==> a + n <= b) && (b < a ==> b + m <= a)
  {
    assert b in PagesIn(b, m) && a in PagesIn(a, n);
    assert b !in PagesIn(a, n) && a !in PagesIn(b, m);
  }

  lemma PagesApart(a: int, n: int, b: int, m: int)
    requires a + n <= b || b + m <= a
    ensures PagesIn(a, n) !! PagesIn(b, m)
  {
  }

  lemma BlockGiven(s: System, t: System, held: map<Word, Word>, ptr: Word, n: Word)
    requires HeldOk(s, held) && n > 0 && n % PAGE_SIZE == 0 && 0 < ptr && ptr % PAGE_SIZE == 0
             && ptr + n <= MEMORY_LIMIT
    requires PagesIn(ptr, n) !! s.clients && PagesIn(ptr, n) <= s.view.pages.Keys
    requires t.clients == s.clients + PagesIn(ptr, n) && t.view.pages.Keys == s.view.pages.Keys
    ensures ptr !in held && HeldOk(t, held[ptr := n])
  {
    hide PagesIn;
    forall b | b in held ensures b != ptr && (b < ptr ==> b + held[b] <= ptr) && (ptr < b ==> ptr + n <= b) {
      assert BlockOk(s, b, held[b]);
      BlocksOrdered(b, held[b], ptr, n);
    }
    var after := held[ptr := n];
    forall b | b in after ensures BlockOk(t, b, after[b]) {
      assert b in held ==> BlockOk(s, b, held[b]);
    }
  }

  lemma BlockReturned(s: System, t: System, held: map<Word, Word>, ptr: Word)
    requires HeldOk(s, held) && ptr in held
    requires t.clients == s.clients - PagesIn(ptr, held[ptr]) && t.view.pages.Keys == s.view.pages.Keys
    ensures HeldOk(t, held - {ptr})
  {
    hide PagesIn;
    forall b | b in held - {ptr} ensures BlockOk(t, b, held[b]) {
      assert BlockOk(s, b, held[b]) && BlockOk(s, ptr, held[ptr]);
      PagesApart(b, held[b], ptr, held[ptr]);
    }
  }

  lemma HeldStill(s: System, t: System, held: map<Word, Word>)
    requires HeldOk(s, held) && t.clients >= s.clients && t.clients <= t.view.pages.Keys
    ensures HeldOk(t, held)
  {
    forall b | b in held ensures BlockOk(t, b, held[b]) {
      assert BlockOk(s, b, held[b]);
    }
  }

  // The i-th page of a range.
  lemma PageAt(ptr: Word, size: Word, i: int)
    requires S.FirstPage(ptr) + AlignRange(ptr, size).1 / PAGE_SIZE <= VIRTUAL_PAGES
    requires 0 <= i < AlignRange(ptr, size).1 / PAGE_SIZE
    ensures AlignRange(ptr, size).0 + i * PAGE_SIZE < WORD_LIMIT
    ensures S.FirstPage(AlignRange(ptr, size).0 + i * PAGE_SIZE) == S.FirstPage(ptr) + i
  {
    var start := AlignRange(ptr, size).0;
    assert start / PAGE_SIZE == ptr / PAGE_SIZE && start == ptr / PAGE_SIZE * PAGE_SIZE;
    var page := ptr / PAGE_SIZE;
    assert page == page / VIRTUAL_PAGES * VIRTUAL_PAGES + S.FirstPage(ptr);
    assert page / VIRTUAL_PAGES < 0x1_0000;
    assert (start + i * PAGE_SIZE) / PAGE_SIZE == page + i;
  }

  // Whether every page of a range can be translated.
  method AllTranslate(space: S.AddressSpace, ptr: Word, size: Word) returns (all: bool)
    requires space.Valid()
    requires S.FirstPage(ptr) + AlignRange(ptr, size).1 / PAGE_SIZE <= VIRTUAL_PAGES
    ensures all <==> forall v :: S.FirstPage(ptr) <= v < S.FirstPage(ptr) + AlignRange(ptr, size).1 / PAGE_SIZE ==>
                       Translates(space.Now(), v)
  {
    hide TreeOk, FreeListOk, Leaf, S.FirstPage, AlignRange;
    var (start, bytes) := AlignRange(ptr, size);
    var i := 0;
    while i < bytes / PAGE_SIZE
      invariant 0 <= i && forall v :: S.FirstPage(ptr) <= v < S.FirstPage(ptr) + i ==> Translates(space.Now(), v)
    {
      PageAt(ptr, size, i);
      var frame := space.GetPhysicalAddress(start + i * PAGE_SIZE);
      if frame == 0 {
        assert !Translates(space.Now(), S.FirstPage(ptr) + i);
        return false;
      }
      i := i + 1;
    }
    all := true;
  }

  method MapCall(space: S.AddressSpace, vptr: Word, pptr: Word, size: Word, flags: int, ghost s: System)
    returns (o: Outcome)
    requires space.Valid() && s.view == space.Now() && SystemOk(s)
    modifies space`tab, space`lost, space.pmm, space.pmm.memory
    ensures o.Skipped? || o.Performed? || o.NeverReturns?
    ensures o.Skipped? <==> !Admissible(s.view, map[], Map(vptr, pptr, size, flags))
    ensures o.Skipped? ==> space.Now() == s.view
    ensures o.Performed? ==> MapStep(s, System(space.Now(), s.clients))
    ensures !o.Skipped? ==> (o.NeverReturns? <==> TooFew(s.view, old(space.pmm.nodes), vptr, pptr, size))
    ensures space.Valid() && Frames(space.Now()) == Frames(s.view)
  {
    hide TreeOk, FreeListOk, S.MapsTo, Missing, Supply, Leaf, LeafFlags, Extends, NoEmptyTables, S.Index;
    if vptr % PAGE_SIZE != pptr % PAGE_SIZE || S.FirstPage(vptr) + AlignRange(pptr, size).1 / PAGE_SIZE > VIRTUAL_PAGES
       || AlignRange(pptr, size).0 + AlignRange(pptr, size).1 > PHYSICAL_LIMIT {
      return Skipped;
    }
    ghost var first, n := S.FirstPage(vptr), AlignRange(pptr, size).1 / PAGE_SIZE;
    var r := space.Map(vptr, pptr, size, flags);
    ghost var leaf := LeafFlags(space.pat, flags, S.Index(AlignRange(vptr, size).0, 0x80_0000_0000) < 256);
    LeafFlagsFit(space.pat, flags, S.Index(AlignRange(vptr, size).0, 0x80_0000_0000) < 256);
    assert r.Mapped? ==> MappedTo(s.view, space.Now(), first, n, AlignRange(pptr, size).0, leaf);
    FramesStay(s.view, space.Now(), first, first + n);
    o := if r.Mapped? then Performed else NeverReturns;
  }

  method UnmapCall(space: S.AddressSpace, ptr: Word, size: Word, ghost s: System) returns (o: Outcome)
    requires space.Valid() && s.view == space.Now() && SystemOk(s)
    modifies space`tab, space`lost, space.pmm, space.pmm.memory
    ensures o.Skipped? || o.Performed? || o.FreesTwice?
    ensures o.Skipped? <==> !Admissible(s.view, map[], Unmap(ptr, size))
    ensures o.Skipped? ==> space.Now() == s.view
    ensures o.Performed? ==> UnmapStep(s, System(space.Now(), s.clients))
    ensures !o.Skipped? ==> (o.FreesTwice? <==> LeavesNothing(s.view, ptr, size))
    ensures !o.FreesTwice? ==> space.Valid()
    ensures Frames(space.Now()) == Frames(s.view)
  {
    hide TreeOk, FreeListOk, NoWholeBlock, NoEmptyTables, S.FirstPage, AlignRange, LeafMid, PathKept, Elsewhere, OnPath;
    var first, n := S.FirstPage(ptr), AlignRange(ptr, size).1 / PAGE_SIZE;
    RoundTrip.WholeBlockTest(first, first + n);
    if first + n > VIRTUAL_PAGES || first + n >= (first + 511) / 512 * 512 + 512 {
      return Skipped;
    }
    var all := AllTranslate(space, ptr, size);
    if !all {
      return Skipped;
    }
    forall v | first <= v < first + n ensures LeafSlot(v) in space.tab {
      assert Translates(space.Now(), v);
    }
    var r := space.Unmap(ptr, size);
    if n == 0 {
      NothingGoes(s.view, space.Now(), first, r.DoubleFree?);
    }
    o := if r.Done? then Performed else FreesTwice;
  }

  method AllocCall(space: S.AddressSpace, size: Word, held: map<Word, Word>, ghost s: System)
    returns (o: Outcome, after: map<Word, Word>, ghost clients: set<int>)
    requires space.Valid() && s.view == space.Now() && SystemOk(s) && HeldOk(s, held)
    modifies space.pmm, space.pmm.memory
    ensures o.Skipped? || o.Performed? || o.Failed?
    ensures o.Skipped? <==> RoundUpPage(size) == 0
    ensures o.Skipped? ==> System(space.Now(), clients) == s && after == held
    ensures o.Performed? ==> StepOf(Alloc(size), s, System(space.Now(), clients), held, after)
    ensures o.Failed? ==> after == held && AllocStep(s, System(space.Now(), clients))
    ensures o.Failed? && 0 !in s.view.free ==> space.Now().free == s.view.free && clients == s.clients
    ensures space.Valid() && HeldOk(System(space.Now(), clients), after)
  {
    hide TreeOk, Chain, MemoryOk, PagesOf, Fits, Take, TakenAt, ListShape;
    after, clients := held, s.clients;
    if RoundUpPage(size) == 0 {
      return Skipped, after, clients;
    }
    ghost var nodes, n := space.pmm.nodes, RoundUpPage(size);
    RoundUpIsLeast(size);
    var ptr := space.pmm.Alloc(size);
    clients := if Fits(nodes, n) then s.clients + PagesIn(TakenAt(nodes, n), n) else s.clients;
    ghost var t := System(space.Now(), clients);
    AllocatedKeeps(s, t, nodes, n);
    AllocatedFrom(s, t, nodes, n);
    if ptr == 0 {
      HeldStill(s, t, held);
      return Failed, after, clients;
    }
    BlockGiven(s, t, held, ptr, n);
    after := held[ptr := RoundUpPage(size)];
    o := Performed;
  }

  lemma AllocatedFrom(s: System, t: System, nodes: seq<Range>, n: int)
    requires SystemOk(s) && Allocated(s, t, nodes, n)
    ensures 0 !in s.view.free && Fits(nodes, n) ==> TakenAt(nodes, n) != 0
    ensures t.view.pages.Keys == s.view.pages.Keys
    ensures s.clients <= s.view.pages.Keys ==> t.clients <= t.view.pages.Keys
    ensures Fits(nodes, n) ==>
              var ptr := TakenAt(nodes, n);
              && ptr % PAGE_SIZE == 0 && 0 <= ptr && ptr + n <= MEMORY_LIMIT
              && PagesIn(ptr, n) !! s.clients && PagesIn(ptr, n) <= s.view.pages.Keys
  {
    hide TreeOk, PagesOf, Take, TakenAt, Fits;
    if Fits(nodes, n) {
      BlockCount(s.view.pages, nodes, n);
      assert TakenAt(nodes, n) in PagesIn(TakenAt(nodes, n), n);
      assert PagesIn(TakenAt(nodes, n), n) <= s.view.free <= Frames(s.view);
    }
  }

  method FreeCall(space: S.AddressSpace, ptr: Word, held: map<Word, Word>, ghost s: System)
    returns (o: Outcome, after: map<Word, Word>, ghost clients: set<int>)
    requires space.Valid() && s.view == space.Now() && SystemOk(s) && HeldOk(s, held)
    modifies space.pmm, space.pmm.memory
    ensures o.Skipped? || o.Performed?
    ensures o.Skipped? <==> ptr !in held
    ensures o.Skipped? ==> System(space.Now(), clients) == s && after == held
    ensures o.Performed? ==> StepOf(Free(ptr), s, System(space.Now(), clients), held, after)
    ensures space.Valid() && HeldOk(System(space.Now(), clients), after)
  {
    hide TreeOk, Chain, MemoryOk, PagesOf, ListShape, PutBackwardFirst, PagesIn;
    after, clients := held, s.clients;
    if ptr !in held {
      return Skipped, after, clients;
    }
    ghost var nodes, r := space.pmm.nodes, Range(ptr, held[ptr]);
    assert BlockOk(s, ptr, held[ptr]);
    BlockMayGo(s, nodes, r);
    space.pmm.Free(ptr, held[ptr]);
    after := held - {ptr};
    clients := s.clients - PagesIn(ptr, held[ptr]);
    ghost var t := System(space.Now(), clients);
    assert Freed(s, t, nodes, r);
    FreeKeeps(s, t);
    BlockReturned(s, t, held, ptr);
    o := Performed;
  }

  lemma BlockMayGo(s: System, nodes: seq<Range>, r: Range)
    requires SystemOk(s) && BlockOk(s, r.ptr, r.size) && s.clients <= s.view.pages.Keys
    requires ListShape(s.view.pages, nodes) && s.view.free == PagesOf(nodes) && r.size < WORD_LIMIT
    ensures RoundUpPage(r.size) == r.size && Disjoint(nodes, r)
    ensures forall p :: r.ptr <= p < r.End() && p % PAGE_SIZE == 0 ==> p in s.view.pages
  {
    ClientsDisjoint(nodes, r, s.clients);
    forall p | r.ptr <= p < r.End() && p % PAGE_SIZE == 0 ensures p in s.view.pages {
      assert p in PagesIn(r.ptr, r.size);
    }
  }

  // One call, on the real address space: skipped exactly when its caller may not
  // make it; otherwise it takes the step of its kind, or is one of the two calls
  // that do not return. Whatever happens, no page frame is made or forgotten.
  method Perform(space: S.AddressSpace, call: Call, held: map<Word, Word>, ghost s: System)
    returns (o: Outcome, after: map<Word, Word>, ghost t: System)
    requires space.Valid() && s.view == space.Now() && SystemOk(s) && HeldOk(s, held)
    modifies space`tab, space`lost, space.pmm, space.pmm.memory
    ensures t.view == space.Now() && Everything(t) == Everything(s)
    ensures o.Skipped? <==> !Admissible(s.view, held, call)
    ensures o.Skipped? ==> t == s && after == held
    ensures o.Performed? ==> StepOf(call, s, t, held, after)
    ensures o.Failed? ==> call.Alloc? && after == held && AllocStep(s, t)
    ensures o.Failed? && 0 !in s.view.free ==> t.clients == s.clients
    ensures o.NeverReturns? <==> Admissible(s.view, held, call) && call.Map? &&
                                 TooFew(s.view, old(space.pmm.nodes), call.vptr, call.pptr, call.size)
    ensures o.FreesTwice? <==>
              Admissible(s.view, held, call) && call.Unmap? && LeavesNothing(s.view, call.ptr, call.size)
    ensures Runs(o) ==> space.Valid() && SystemOk(t) && HeldOk(t, after)
  {
    hide TreeOk, FreeListOk, Frames, Translates, MapStep, UnmapStep, AllocStep, FreeStep, NoEmptyTables, TooFew,
         LeavesNothing;
    after := held;
    ghost var clients := s.clients;
    match call {
      case Map(vptr, pptr, size, flags) => o := MapCall(space, vptr, pptr, size, flags, s);
      case Unmap(ptr, size) => o := UnmapCall(space, ptr, size, s);
      case Alloc(size) => o, after, clients := AllocCall(space, size, held, s);
      case Free(ptr) => o, after, clients := FreeCall(space, ptr, held, s);
    }
    t := System(space.Now(), clients);
    if o.Performed? || o.Failed? {
      StepConserves(s, t);
      if call.Map? || call.Unmap? {
        PagesStay(s, t);
        HeldStill(s, t, held);
      }
    }
  }

  predicate Runs(o: Outcome) {
    o.Skipped? || o.Failed? || o.Performed?
  }

  lemma PagesStay(s: System, t: System)
    requires MapStep(s, t) || UnmapStep(s, t)
    ensures t.clients == s.clients && t.view.pages.Keys == s.view.pages.Keys
  {
  }

  // Any sequence of calls: it is a run, so it keeps the tree, the clients' frames
  // and the free ones apart, and all of them together the initial set.
  method Run(space: S.AddressSpace, calls: seq<Call>)
    returns (done: nat, last: Outcome, held: map<Word, Word>, ghost run: seq<System>)
    requires space.Valid() && space.lost == {} && NoEmptyTables(space.Now())
    modifies space`tab, space`lost, space.pmm, space.pmm.memory
    ensures done <= |calls| && (done < |calls| <==> !Runs(last))
    ensures IsRun(run) && run[0] == System(old(space.Now()), {})
    ensures var t := run[|run| - 1];
            Runs(last) ==> space.Valid() && t.view == space.Now() && SystemOk(t) && HeldOk(t, held) &&
                           space.Now().free + space.tab.Values + t.clients == Frames(old(space.Now()))
  {
    hide TreeOk, FreeListOk, Frames, SystemOk, HeldOk, AllocStep, MapStep, UnmapStep, FreeStep, Admissible;
    ghost var s := System(space.Now(), {});
    StartsOk(s);
    done, last, held, run := 0, Performed, map[], [s];
    while done < |calls| && Runs(last)
      invariant done <= |calls| && (done < |calls| || Runs(last))
      invariant IsRun(run) && run[0] == System(old(space.Now()), {})
      invariant Runs(last) ==> run[|run| - 1] == s
      invariant Runs(last) ==> space.Valid() && s.view == space.Now() && SystemOk(s) && HeldOk(s, held)
      decreases |calls| - done, Runs(last)
    {
      var after;
      ghost var t;
      last, after, t := Perform(space, calls[done], held, s);
      if Runs(last) {
        if !last.Skipped? {
          StepIsNext(calls[done], s, t, held, after, last);
          run := run + [t];
        }
        done, held, s := done + 1, after, t;
      }
    }
    RunConserves(run);
  }

  lemma StartsOk(s: System)
    requires TreeOk(s.view, NO_SLOT) && ROOT in s.view.tab && NoEmptyTables(s.view) && s.clients == {}
             && s.view.lost == {}
    ensures SystemOk(s) && HeldOk(s, map[]) && Everything(s) == Frames(s.view)
  {
  }

  lemma StepIsNext(call: Call, s: System, t: System, held: map<Word, Word>, after: map<Word, Word>, o: Outcome)
    requires if o.Failed? then AllocStep(s, t) else StepOf(call, s, t, held, after)
    ensures Next(s, t)
  {
  }
}
