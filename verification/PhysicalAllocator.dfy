// The physical page allocator (kernel/src/arch/amd64/mm/pmm.c).
module PhysicalAllocator {
  import opened Words
  import opened Ranges
  import opened PhysicalMemory

  // ------------------------------------------------------- the boot memory map

  datatype MapEntry = MapEntry(free: bool, base: Word, size: Word) {
    function End(): int {
      base + size
    }
  }

  // What the firmware map promises: its free entries are in address order, do
  // not overlap and lie in memory.
  ghost predicate MapOk(entries: seq<MapEntry>, lo: int) {
    entries != [] ==>
      && (entries[0].free ==> lo <= entries[0].base && entries[0].End() <= MEMORY_LIMIT)
      && MapOk(entries[1..], if entries[0].free then entries[0].End() else lo)
  }

  // The number of usable bytes pmm_init finds in an entry. The start offset is
  // computed the wrong way round, so it wraps unless the base is aligned.
  function UsableSize(e: MapEntry): Word {
    var start := RoundUpPage(e.base);
    var startOffset := (e.base - start) % WORD_LIMIT;
    if !e.free || e.size < startOffset then 0
    else RoundDownPage((e.size - (start - e.base)) % WORD_LIMIT)
  }

  function InitialNodes(entries: seq<MapEntry>): seq<Range> {
    if entries == [] then []
    else if UsableSize(entries[0]) == 0 then InitialNodes(entries[1..])
    else Cons(Range(RoundUpPage(entries[0].base), UsableSize(entries[0])), InitialNodes(entries[1..]))
  }

  // Page p lies wholly inside a free entry.
  ghost predicate WholeFreePage(entries: seq<MapEntry>, p: int) {
    entries != [] &&
    ( || (entries[0].free && entries[0].base <= p && p + PAGE_SIZE <= entries[0].End())
      || WholeFreePage(entries[1..], p))
  }

  // No free entry with an unaligned base contains a whole page.
  ghost predicate BasesAligned(entries: seq<MapEntry>) {
    entries != [] ==>
      && (entries[0].free && RoundUpPage(entries[0].base) + PAGE_SIZE <= entries[0].End()
          ==> entries[0].base % PAGE_SIZE == 0)
      && BasesAligned(entries[1..])
  }

  lemma UsableSizeMeaning(e: MapEntry)
    requires e.free && e.End() <= MEMORY_LIMIT
    ensures e.base % PAGE_SIZE == 0 ==> UsableSize(e) == RoundDownPage(e.size) && RoundUpPage(e.base) == e.base
    ensures e.base % PAGE_SIZE != 0 ==> UsableSize(e) == 0
    ensures UsableSize(e) % PAGE_SIZE == 0
  {
    RoundUpIsLeast(e.base);
    if e.base % PAGE_SIZE != 0 {
      var start := RoundUpPage(e.base);
      assert (e.base - start) % WORD_LIMIT == e.base - start + WORD_LIMIT;
    }
  }

  lemma AlignedStep(p: int, q: int)
    requires p % PAGE_SIZE == 0 && q % PAGE_SIZE == 0 && p < q
    ensures p + PAGE_SIZE <= q
  {
  }

  // The whole pages of one entry, when its base is aligned.
  lemma EntryPage(e: MapEntry, p: int)
    requires e.free && e.End() <= MEMORY_LIMIT && p % PAGE_SIZE == 0 && e.base % PAGE_SIZE == 0
    ensures e.base <= p < e.base + UsableSize(e) <==> e.base <= p && p + PAGE_SIZE <= e.End()
  {
    UsableSizeMeaning(e);
    if p < e.base + UsableSize(e) {
      AlignedStep(p, e.base + UsableSize(e));
    }
    if p + PAGE_SIZE <= e.End() && p >= e.base + UsableSize(e) {
      assert false;
    }
  }

  lemma {:induction false} InitialNodesShape(entries: seq<MapEntry>, lo: int)
    requires MapOk(entries, lo)
    ensures Separated(InitialNodes(entries)) && Aligned(InitialNodes(entries), PAGE_SIZE)
    ensures InitialNodes(entries) != [] ==> lo <= InitialNodes(entries)[0].ptr
    ensures forall a :: Covers(InitialNodes(entries), a) ==> lo <= a < MEMORY_LIMIT
  {
    if entries != [] {
      var e := entries[0];
      InitialNodesShape(entries[1..], if e.free then e.End() else lo);
      if e.free {
        UsableSizeMeaning(e);
        RoundUpIsLeast(e.base);
      }
    }
  }

  lemma {:induction false} InitialNodesPages(entries: seq<MapEntry>, lo: int, p: int)
    requires MapOk(entries, lo) && p % PAGE_SIZE == 0
    ensures Covers(InitialNodes(entries), p) ==> WholeFreePage(entries, p)
    ensures WholeFreePage(entries, p) ==> lo <= p
    ensures BasesAligned(entries) && WholeFreePage(entries, p) ==> Covers(InitialNodes(entries), p)
  {
    if entries != [] {
      var e := entries[0];
      InitialNodesPages(entries[1..], if e.free then e.End() else lo, p);
      if e.free {
        UsableSizeMeaning(e);
        RoundUpIsLeast(e.base);
        if e.base % PAGE_SIZE == 0 {
          EntryPage(e, p);
        } else if e.base <= p {
          AlignedNext(e.base, p);
        }
      }
    }
  }

  lemma AlignedNext(base: Word, p: int)
    requires p % PAGE_SIZE == 0 && base <= p && base < MEMORY_LIMIT
    ensures RoundUpPage(base) <= p
  {
    if RoundUpPage(base) > p {
      RoundUpIsLeast(base);
      AlignedStep(p, RoundUpPage(base));
    }
  }

  // A page that only an unaligned entry holds is lost.
  lemma {:induction false} UnalignedEntryIsSkipped(entries: seq<MapEntry>, lo: int) returns (p: int)
    requires MapOk(entries, lo) && !BasesAligned(entries)
    ensures p % PAGE_SIZE == 0 && WholeFreePage(entries, p) && !Covers(InitialNodes(entries), p)
  {
    var e := entries[0];
    var rest := if e.free then e.End() else lo;
    InitialNodesShape(entries[1..], rest);
    if e.free {
      UsableSizeMeaning(e);
      RoundUpIsLeast(e.base);
    }
    if BasesAligned(entries[1..]) {
      p := RoundUpPage(e.base);
    } else {
      p := UnalignedEntryIsSkipped(entries[1..], rest);
      InitialNodesPages(entries[1..], rest, p);
    }
  }

  // pmm_init collects every whole free page exactly when no free entry that
  // holds one starts in the middle of a page.
  lemma InitCollectsWholePages(entries: seq<MapEntry>)
    requires MapOk(entries, 0)
    ensures (forall p :: p % PAGE_SIZE == 0 ==> (Covers(InitialNodes(entries), p) <==> WholeFreePage(entries, p)))
       <==> BasesAligned(entries)
  {
    if BasesAligned(entries) {
      forall p | p % PAGE_SIZE == 0 ensures Covers(InitialNodes(entries), p) <==> WholeFreePage(entries, p) {
        InitialNodesPages(entries, 0, p);
      }
    } else {
      var p := UnalignedEntryIsSkipped(entries, 0);
    }
  }

  lemma {:induction false} MapSuffix(entries: seq<MapEntry>, lo: int, i: nat) returns (from: int)
    requires MapOk(entries, lo) && i < |entries|
    ensures MapOk(entries[i..], from)
    ensures entries[i].free ==> entries[i].End() <= MEMORY_LIMIT
    ensures forall p :: WholeFreePage(entries[i..], p) ==> WholeFreePage(entries, p)
  {
    if i == 0 {
      from := lo;
      assert entries[0..] == entries;
    } else {
      from := MapSuffix(entries[1..], if entries[0].free then entries[0].End() else lo, i - 1);
      assert entries[1..][i - 1..] == entries[i..];
    }
  }

  lemma FirstNodePage(entries: seq<MapEntry>, lo: int)
    requires MapOk(entries, lo) && entries != [] && UsableSize(entries[0]) != 0
    ensures var start := RoundUpPage(entries[0].base);
            start % PAGE_SIZE == 0 && WholeFreePage(entries, start) && Covers(InitialNodes(entries), start)
  {
    var start := RoundUpPage(entries[0].base);
    RoundUpIsLeast(entries[0].base);
    assert Covers(InitialNodes(entries), start);
    InitialNodesPages(entries, lo, start);
  }

  // --------------------------------------------------------- misuse and limits

  ghost predicate NeverTakenAtZero(s: seq<Range>) {
    forall n :: n > 0 && Fits(s, n) ==> TakenAt(s, n) != 0
  }

  // pmm_alloc returns 0 for failure, and hands out the page at address 0 like any
  // other: 0 means that nothing was taken, whatever the size, exactly when page 0
  // is not free.
  lemma NullMeansFailure(s: seq<Range>)
    requires Separated(s) && forall a :: Covers(s, a) ==> 0 <= a
    ensures NeverTakenAtZero(s) <==> !Covers(s, 0)
  {
    forall n | n > 0 && Fits(s, n) ensures !Covers(s, 0) ==> TakenAt(s, n) != 0 {
      TakeRemovesOneBlock(s, n);
      var block := Range(TakenAt(s, n), n);
      assert block.Contains(block.ptr);
    }
    if Covers(s, 0) {
      BytesAbove(s);
      assert s[0].Contains(s[0].ptr) && Covers(s, s[0].ptr);
      assert Fits(s, s[0].size) && TakenAt(s, s[0].size) == 0;
    }
  }

  // Freeing what is free already leaves no well-formed list.
  lemma {:induction false} DoubleFreeBreaksList(s: seq<Range>, r: Range)
    requires Separated(s) && r.size > 0 && Covers(s, r.ptr)
    ensures !Separated(PutBackwardFirst(s, r))
  {
    BytesAbove(s);
    BytesAbove(s[1..]);
    if !Follows(s, r) && !(Follows(s[1..], r) && s[0].End() == r.ptr) {
      if s[0].Contains(r.ptr) {
        assert |s| > 1 ==> s[1] == s[1..][0];
        assert PutBackwardFirst(s[1..], r)[0].ptr == r.ptr;
      } else {
        DoubleFreeBreaksList(s[1..], r);
      }
    }
  }

  // ------------------------------------------------------------- the allocator

  class Memory {
    var pages: Pages

    constructor (pages: Pages)
      ensures this.pages == pages
    {
      this.pages := pages;
    }

    // One aligned 64-bit store.
    method Write(p: int, i: nat, v: Word)
      requires p in pages && i < |pages[p]|
      modifies this
      ensures pages == Store(old(pages), p, i, v)
    {
      pages := Store(pages, p, i, v);
    }

    // memset(page, 0, C_MM_PAGE_SIZE)
    method Zero(p: int)
      requires p in pages
      modifies this
      ensures pages == old(pages)[p := ZeroPage()]
    {
      pages := pages[p := ZeroPage()];
    }
  }

  class PhysicalAllocator {
    const memory: Memory
    var freeList: Word        // s_freeMemoryEntryList
    ghost var nodes: seq<Range>

    ghost predicate Valid()
      reads this, memory
    {
      FreeListOk(memory.pages, freeList, nodes)
    }

    constructor (memory: Memory)
      requires MemoryOk(memory.pages)
      ensures Valid() && this.memory == memory && nodes == []
    {
      this.memory := memory;
      freeList := 0;
      nodes := [];
    }

    // One usable entry of pmm_init becomes the new head of the list.
    method AddEntry(start: Word, size: Word)
      requires MemoryOk(memory.pages) && start in memory.pages
      requires Chain(memory.pages, freeList, nodes)
      requires Separated(Cons(Range(start, size), nodes))
      modifies this, memory
      ensures nodes == Cons(Range(start, size), old(nodes))
      ensures MemoryOk(memory.pages) && memory.pages.Keys == old(memory.pages).Keys
      ensures Chain(memory.pages, freeList, nodes)
      ensures forall p :: p in memory.pages && p != start ==> memory.pages[p] == old(memory.pages)[p]
    {
      SeparatedPairs(Cons(Range(start, size), nodes));
      ghost var before, link := memory.pages, freeList;
      ChainHeaders(before, link, nodes);
      memory.Write(start, 1, start);
      memory.Write(start, 2, size);
      memory.Write(start, 0, freeList);
      forall k | 0 <= k < |nodes| ensures nodes[k].ptr != start {
        assert Cons(Range(start, size), nodes)[k + 1] == nodes[k];
      }
      ChainFrame(before, memory.pages, link, nodes);
      freeList := Linear(start);
      nodes := Cons(Range(start, size), nodes);
    }

    // pmm_init
    method Init(entries: seq<MapEntry>)
      requires MemoryOk(memory.pages) && MapOk(entries, 0)
      requires forall p :: p % PAGE_SIZE == 0 && WholeFreePage(entries, p) ==> p in memory.pages
      modifies this, memory
      ensures Valid() && nodes == InitialNodes(entries)
      ensures nodes != [] ==> freeList == nodes[0].ptr + 0xffff_8000_0000_0000
      ensures memory.pages.Keys == old(memory.pages).Keys
      ensures forall p :: p in memory.pages && p !in PagesOf(nodes) ==> memory.pages[p] == old(memory.pages)[p]
    {
      freeList := 0;
      nodes := [];
      ghost var before := memory.pages;
      var index := |entries| - 1;
      while index >= 0
        invariant -1 <= index < |entries|
        invariant nodes == InitialNodes(entries[index + 1..])
        invariant MemoryOk(memory.pages) && memory.pages.Keys == before.Keys
        invariant Chain(memory.pages, freeList, nodes)
        invariant forall p :: p in before && !Covers(nodes, p) ==> memory.pages[p] == before[p]
      {
        ghost var tail := entries[index..];
        ghost var lo := MapSuffix(entries, 0, index);
        assert tail[1..] == entries[index + 1..] && tail[0] == entries[index];
        InitialNodesShape(tail, lo);
        var size := UsableSize(entries[index]);
        if size != 0 {
          var start := RoundUpPage(entries[index].base);
          FirstNodePage(tail, lo);
          AddEntry(start, size);
        }
        index := index - 1;
      }
      assert entries[0..] == entries;
      InitialNodesShape(entries, 0);
      forall p | p in PagesOf(nodes) ensures p in memory.pages {
        InitialNodesPages(entries, 0, p);
      }
    }

    // The search loop of pmm_alloc.
    method FindFit(n: Word) returns (previous: Word, node: Word, ghost i: nat)
      requires Valid()
      ensures i <= |nodes| && forall k :: 0 <= k < i ==> nodes[k].size < n
      ensures previous == if i == 0 then 0 else Linear(nodes[i - 1].ptr)
      ensures node == if i == |nodes| then 0 else Linear(nodes[i].ptr)
      ensures i < |nodes| ==> nodes[i].size >= n
      ensures node == 0 <==> i == |nodes|
    {
      ghost var s := nodes;
      previous, node := 0, freeList;
      var found := false;
      i := 0;
      HeadersAreFree(memory.pages, freeList, s);
      assert s[0..] == s;
      while !found && node != 0
        invariant i <= |s|
        invariant Chain(memory.pages, node, s[i..])
        invariant forall k :: 0 <= k < i ==> s[k].size < n
        invariant previous == if i == 0 then 0 else Linear(s[i - 1].ptr)
        invariant found ==> i < |s| && s[i].size >= n
        decreases |s| - i, !found
      {
        assert s[i..][0] == s[i] && s[i..][1..] == s[i + 1..];
        if memory.pages[node - HHDM][2] >= n {
          found := true;
        } else {
          previous := node;
          node := memory.pages[node - HHDM][0];
          i := i + 1;
        }
      }
      assert i < |s| ==> s[i..][0] == s[i];
    }

    // What pmm_alloc does with the node it found: unlink or shrink it.
    method CutBlock(previous: Word, node: Word, n: Word, ghost i: nat) returns (ptr: Word)
      requires Valid() && n % PAGE_SIZE == 0
      requires i < |nodes| && nodes[i].size >= n && forall k :: 0 <= k < i ==> nodes[k].size < n
      requires previous == if i == 0 then 0 else Linear(nodes[i - 1].ptr)
      requires node == Linear(nodes[i].ptr)
      modifies this, memory
      ensures Valid()
      ensures nodes == Take(old(nodes), n) && Fits(old(nodes), n) && ptr == TakenAt(old(nodes), n)
      ensures memory.pages.Keys == old(memory.pages).Keys
      ensures forall p :: p in memory.pages && p !in PagesOf(old(nodes)) ==> memory.pages[p] == old(memory.pages)[p]
    {
      ghost var s, before, link := nodes, memory.pages, freeList;
      HeadersAreFree(before, link, s);
      EndsInMemory(before, link, s);
      SeparatedPairs(s);
      CutKeepsChain(before, link, s, n, i);
      var at := node - HHDM;
      var nodeSize := memory.pages[at][2];
      ptr := memory.pages[at][1] + nodeSize - n;
      if nodeSize == n {
        if previous == 0 {
          freeList := memory.pages[at][0];
        } else {
          memory.Write(previous - HHDM, 0, memory.pages[at][0]);
        }
      } else {
        memory.Write(at, 2, nodeSize - n);
      }
      nodes := Take(s, n);
      TakeKeepsShape(before, s, n);
    }

    // pmm_alloc
    method Alloc(size: Word) returns (ptr: Word)
      requires Valid()
      modifies this, memory
      ensures Valid()
      ensures nodes == Take(old(nodes), RoundUpPage(size))
      ensures ptr == if Fits(old(nodes), RoundUpPage(size)) then TakenAt(old(nodes), RoundUpPage(size)) else 0
      ensures memory.pages.Keys == old(memory.pages).Keys
      ensures forall p :: p in memory.pages && p !in PagesOf(old(nodes)) ==> memory.pages[p] == old(memory.pages)[p]
    {
      var n := RoundUpPage(size);
      RoundUpIsLeast(size);
      var previous, node, i := FindFit(n);
      ptr := 0;
      if node != 0 {
        ptr := CutBlock(previous, node, n, i);
      } else {
        TakePasses(nodes, n, |nodes|);
        assert nodes[|nodes|..] == [] && nodes[..|nodes|] == nodes;
      }
    }

    // pmm_tryMergeNodes
    method TryMerge(node: int, next: int)
      requires MemoryOk(memory.pages) && node in memory.pages && next in memory.pages
      modifies memory
      ensures memory.pages == Merged(old(memory.pages), node, next)
    {
      if (memory.pages[node][1] + memory.pages[node][2]) % WORD_LIMIT == memory.pages[next][1] {
        memory.Write(node, 0, memory.pages[next][0]);
        memory.Write(node, 2, (memory.pages[node][2] + memory.pages[next][2]) % WORD_LIMIT);
      }
    }

    // The search loop of pmm_free.
    method FindPlace(ptr: Word) returns (previous: Word, next: Word, ghost k: nat)
      requires MemoryOk(memory.pages) && Chain(memory.pages, freeList, nodes)
      ensures Place(nodes, ptr, k)
      ensures previous == if k == 0 then 0 else Linear(nodes[k - 1].ptr)
      ensures next == if k == |nodes| then 0 else Linear(nodes[k].ptr)
      ensures k > 0 ==> HeaderAt(memory.pages, nodes[k - 1])
      ensures next == if k == 0 then freeList else memory.pages[nodes[k - 1].ptr][0]
    {
      ghost var s := nodes;
      previous, next := 0, freeList;
      k := 0;
      ChainHeaders(memory.pages, freeList, s);
      assert s[0..] == s;
      while next != 0 && memory.pages[next - HHDM][1] < ptr
        invariant k <= |s|
        invariant Chain(memory.pages, next, s[k..])
        invariant forall i :: 0 <= i < k ==> s[i].ptr < ptr
        invariant previous == if k == 0 then 0 else Linear(s[k - 1].ptr)
        invariant next == if k == 0 then freeList else memory.pages[s[k - 1].ptr][0]
        decreases |s| - k
      {
        assert s[k..][0] == s[k] && s[k..][1..] == s[k + 1..];
        previous := next;
        next := memory.pages[next - HHDM][0];
        k := k + 1;
      }
      assert k < |s| ==> s[k..][0] == s[k];
    }

    // pmm_free links the new header in between its neighbours.
    method LinkIn(ptr: Word, previous: Word, next: Word, ghost r: Range, ghost k: nat)
      requires MemoryOk(memory.pages) && Chain(memory.pages, freeList, nodes)
      requires HeaderAt(memory.pages, r) && r.ptr == ptr && Between(nodes, r, k)
      requires previous == if k == 0 then 0 else Linear(nodes[k - 1].ptr)
      requires k > 0 ==> HeaderAt(memory.pages, nodes[k - 1])
      requires next == if k == 0 then freeList else memory.pages[nodes[k - 1].ptr][0]
      modifies this, memory
      ensures MemoryOk(memory.pages) && memory.pages.Keys == old(memory.pages).Keys
      ensures nodes == old(nodes) && Chain(memory.pages, freeList, Linked(nodes, r, k))
      ensures forall p :: p in memory.pages && p != ptr && (k > 0 ==> p != nodes[k - 1].ptr) ==>
                memory.pages[p] == old(memory.pages)[p]
    {
      ghost var before, link := memory.pages, freeList;
      ChainHeaders(before, link, nodes);
      forall i | 0 <= i < |nodes| ensures nodes[i].ptr != ptr {
        assert i < k || k <= i;
      }
      memory.Write(ptr, 0, next);
      ChainFrame(before, memory.pages, link, nodes);
      LinkKeepsChain(memory.pages, link, nodes, r, k);
      if previous == 0 {
        freeList := Linear(ptr);
      } else {
        memory.Write(previous - HHDM, 0, Linear(ptr));
      }
    }

    // pmm_free tries the previous neighbour, then the next one.
    method MergeNeighbours(ptr: Word, previous: Word, next: Word, ghost r: Range, ghost k: nat)
      requires MemoryOk(memory.pages) && Between(nodes, r, k) && r.ptr == ptr
      requires Chain(memory.pages, freeList, Linked(nodes, r, k))
      requires previous == if k == 0 then 0 else Linear(nodes[k - 1].ptr)
      requires next == if k == |nodes| then 0 else Linear(nodes[k].ptr)
      modifies this`nodes, memory
      ensures MemoryOk(memory.pages) && memory.pages.Keys == old(memory.pages).Keys
      ensures nodes == PutBackwardFirst(old(nodes), r) && Chain(memory.pages, freeList, nodes)
      ensures forall p :: p in memory.pages && p != ptr && (k > 0 ==> p != old(nodes)[k - 1].ptr) ==>
                memory.pages[p] == old(memory.pages)[p]
    {
      hide Chain, Linked, PutBackwardFirst;
      if k > 0 && nodes[k - 1].End() == ptr {
        SwallowKeepsChain(memory.pages, freeList, nodes, r, k);
      } else {
        JoinNextKeepsChain(memory.pages, freeList, nodes, r, k);
      }
      if previous != 0 {
        TryMerge(previous - HHDM, ptr);
      }
      if next != 0 {
        TryMerge(ptr, next - HHDM);
      }
      nodes := PutBackwardFirst(nodes, r);
    }

    // pmm_free's insertion, once the header's address and size are written.
    method InsertNode(ptr: Word, ghost r: Range)
      requires MemoryOk(memory.pages) && Chain(memory.pages, freeList, nodes)
      requires HeaderAt(memory.pages, r) && r.ptr == ptr
      requires forall k :: Place(nodes, r.ptr, k) ==> Between(nodes, r, k)
      modifies this, memory
      ensures MemoryOk(memory.pages) && memory.pages.Keys == old(memory.pages).Keys
      ensures nodes == PutBackwardFirst(old(nodes), r) && Chain(memory.pages, freeList, nodes)
      ensures forall p ::
                p in memory.pages && p != ptr && (forall i :: 0 <= i < |old(nodes)| ==> p != old(nodes)[i].ptr)
                ==> memory.pages[p] == old(memory.pages)[p]
    {
      var previous, next, k := FindPlace(ptr);
      LinkIn(ptr, previous, next, r, k);
      MergeNeighbours(ptr, previous, next, r, k);
    }

    // pmm_free
    method Free(ptr: Word, size: Word)
      requires Valid()
      requires ptr % PAGE_SIZE == 0 && RoundUpPage(size) > 0 && ptr + RoundUpPage(size) <= MEMORY_LIMIT
      requires Disjoint(nodes, Range(ptr, RoundUpPage(size)))
      requires forall p :: ptr <= p < ptr + RoundUpPage(size) && p % PAGE_SIZE == 0 ==> p in memory.pages
      modifies this, memory
      ensures Valid()
      ensures nodes == PutBackwardFirst(old(nodes), Range(ptr, RoundUpPage(size)))
      ensures memory.pages.Keys == old(memory.pages).Keys
      ensures forall p :: p in memory.pages && p != ptr && p !in PagesOf(old(nodes)) ==>
                memory.pages[p] == old(memory.pages)[p]
    {
      var n := RoundUpPage(size);
      RoundUpIsLeast(size);
      ghost var s, r := nodes, Range(ptr, n);
      ghost var start, link := memory.pages, freeList;
      HeadersAreFree(start, link, s);
      BetweenFrom(start, link, s, r);
      memory.Write(ptr, 1, ptr);
      memory.Write(ptr, 2, n);
      ChainFrame(start, memory.pages, link, s);
      InsertNode(ptr, r);
      PutKeepsShape(start, s, r);
    }
  }
}
