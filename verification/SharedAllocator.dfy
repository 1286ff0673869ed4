// The page allocator shared by any number of CPUs: every instruction of the
// spinlock and every load or store of pmm_alloc and pmm_free that touches shared
// memory is a step of its own, and the CPUs' steps interleave freely.
module SharedAllocator {
  import opened Words
  import opened Ranges
  import opened PhysicalMemory
  import opened Spinlock

  datatype Pc =
    | Idle
    | WritePtr | WriteSize                  // pmm_free, before it takes the lock
    | Acquire(spin: Spin)
    | Head | Walk | Advance                 // both search loops
    | Cut                                   // pmm_alloc: unlink or shrink
    | WriteNext | LinkIn                    // pmm_free: insert
    | MergePrevious | GrowPrevious | MergeNext | GrowNext
    | Release

  // A CPU's program counter and locals. position and before are auxiliary: the
  // index of node in the list and the list before the insertion.
  datatype Cpu = Cpu(pc: Pc, freeing: bool, n: Word, ptr: Word, previous: Word, node: Word,
                     position: nat, before: seq<Range>)

  datatype Block = Block(cpu: nat, size: int)

  // lock, freeList and pages are the real shared state. list is what the free
  // list means, held the allocations that clients own (by address), holder the
  // last CPU to take the lock.
  datatype Shared = Shared(lock: Word, freeList: Word, pages: Pages,
                           list: seq<Range>, held: map<int, Block>, holder: nat)

  datatype State = State(m: Shared, cpus: map<nat, Cpu>)

  datatype Action =
    | Run                                   // the CPU's next step
    | CallAlloc(size: Word)                 // an idle CPU calls pmm_alloc
    | CallFree(at: Word)                    // an idle CPU calls pmm_free on its block at `at`
    | Scribble(page: int, index: nat, value: Word)  // an idle CPU writes to memory it holds

  predicate InSection(pc: Pc) {
    !pc.Idle? && !pc.WritePtr? && !pc.WriteSize? && !pc.Acquire?
  }

  function Load(pages: Pages, pointer: int, i: nat): Word {
    var p := pointer - HHDM;
    if p in pages && i < |pages[p]| then pages[p][i] else 0
  }

  function Put(pages: Pages, pointer: int, i: nat, v: Word): Pages {
    var p := pointer - HHDM;
    if p in pages && i < |pages[p]| then Store(pages, p, i, v) else pages
  }

  function Fresh(freeing: bool, n: Word, ptr: Word, pc: Pc): Cpu {
    Cpu(pc, freeing, n, ptr, 0, 0, 0, [])
  }

  predicate Holds(m: Shared, c: nat, page: int) {
    exists p :: p in m.held && m.held[p].cpu == c && p <= page < p + m.held[p].size
  }

  // ---------------------------------------------------------------------- steps

  ghost function Step(s: State, c: nat, a: Action): State {
    if c !in s.cpus then s
    else match a
      case CallAlloc(size) =>
        if s.cpus[c].pc.Idle? then Move(s, c, Fresh(false, RoundUpPage(size), 0, Acquire(Test)), s.m) else s
      case CallFree(at) =>
        if s.cpus[c].pc.Idle? && at in s.m.held && s.m.held[at].cpu == c && 0 <= s.m.held[at].size < WORD_LIMIT
        then Move(s, c, Fresh(true, s.m.held[at].size, at, WritePtr), s.m) else s
      case Scribble(page, index, value) =>
        if s.cpus[c].pc.Idle? && Holds(s.m, c, page) && page in s.m.pages && index < |s.m.pages[page]|
        then Move(s, c, s.cpus[c], s.m.(pages := Store(s.m.pages, page, index, value))) else s
      case Run => Execute(s, c, s.cpus[c])
  }

  function Move(s: State, c: nat, u: Cpu, m: Shared): State {
    State(m, s.cpus[c := u])
  }

  function Execute(s: State, c: nat, u: Cpu): State {
    var m := s.m;
    match u.pc
    case Idle => s
    case WritePtr => Move(s, c, u.(pc := WriteSize), m.(pages := Put(m.pages, Linear(u.ptr), 1, u.ptr)))
    case WriteSize => Move(s, c, u.(pc := Acquire(Test)), m.(pages := Put(m.pages, Linear(u.ptr), 2, u.n)))
    case Acquire(spin) =>
      var next := SpinPc(m.lock, spin);
      if next.Acquired? then Move(s, c, u.(pc := Head), m.(lock := SpinLock(m.lock, spin), holder := c))
      else Move(s, c, u.(pc := Acquire(next)), m.(lock := SpinLock(m.lock, spin)))
    case Head => Move(s, c, u.(pc := Walk, previous := 0, node := m.freeList, position := 0), m)
    case Walk => Move(s, c, u.(pc := WalkNext(m.pages, u)), m)
    case Advance =>
      Move(s, c, u.(pc := Walk, previous := u.node, node := Load(m.pages, u.node, 0), position := u.position + 1), m)
    case Cut => Move(s, c, u.(pc := Release, ptr := CutAt(m, u)), AfterCut(m, c, u))
    case WriteNext => Move(s, c, u.(pc := LinkIn), m.(pages := Put(m.pages, Linear(u.ptr), 0, u.node)))
    case LinkIn => Move(s, c, u.(pc := MergePrevious, before := m.list), AfterLinkIn(m, u))
    case MergePrevious =>
      if u.previous != 0 && Touches(m.pages, u.previous, Linear(u.ptr))
      then Move(s, c, u.(pc := GrowPrevious), m.(pages := Put(m.pages, u.previous, 0, Load(m.pages, Linear(u.ptr), 0))))
      else Move(s, c, u.(pc := MergeNext), m)
    case GrowPrevious =>
      Move(s, c, u.(pc := MergeNext), m.(pages := Grown(m.pages, u.previous, Linear(u.ptr))))
    case MergeNext =>
      if u.node != 0 && Touches(m.pages, Linear(u.ptr), u.node)
      then Move(s, c, u.(pc := GrowNext), m.(pages := Put(m.pages, Linear(u.ptr), 0, Load(m.pages, u.node, 0))))
      else Move(s, c, u.(pc := Release), m)
    case GrowNext =>
      Move(s, c, u.(pc := Release), m.(pages := Grown(m.pages, Linear(u.ptr), u.node)))
    case Release => Move(s, c, u.(pc := Idle), m.(lock := 0))
  }

  predicate Touches(pages: Pages, node: int, next: int) {
    (Load(pages, node, 1) + Load(pages, node, 2)) % WORD_LIMIT == Load(pages, next, 1)
  }

  function Grown(pages: Pages, node: int, next: int): Pages {
    Put(pages, node, 2, (Load(pages, node, 2) + Load(pages, next, 2)) % WORD_LIMIT)
  }

  // Where the loop tests of pmm_alloc and pmm_free lead.
  function WalkNext(pages: Pages, u: Cpu): Pc {
    if u.freeing then
      if u.node != 0 && Load(pages, u.node, 1) < u.ptr then Advance else WriteNext
    else if u.node == 0 then Release
    else if Load(pages, u.node, 2) >= u.n then Cut
    else Advance
  }

  function CutAt(m: Shared, u: Cpu): Word {
    (Load(m.pages, u.node, 1) + Load(m.pages, u.node, 2) - u.n) % WORD_LIMIT
  }

  // pmm_alloc's one store; from here on the block belongs to the caller.
  function CutPages(m: Shared, u: Cpu): Pages {
    var size := Load(m.pages, u.node, 2);
    if size != u.n then Put(m.pages, u.node, 2, (size - u.n) % WORD_LIMIT)
    else if u.previous == 0 then m.pages
    else Put(m.pages, u.previous, 0, Load(m.pages, u.node, 0))
  }

  function CutHead(m: Shared, u: Cpu): Word {
    if Load(m.pages, u.node, 2) == u.n && u.previous == 0 then Load(m.pages, u.node, 0) else m.freeList
  }

  function AfterCut(m: Shared, c: nat, u: Cpu): Shared {
    m.(pages := CutPages(m, u), freeList := CutHead(m, u), list := Take(m.list, u.n),
       held := if u.n > 0 then m.held[CutAt(m, u) := Block(c, u.n)] else m.held)
  }

  // pmm_free's store that puts the block on the list; from here on it is free.
  function LinkPages(m: Shared, u: Cpu): Pages {
    if u.previous == 0 then m.pages else Put(m.pages, u.previous, 0, Linear(u.ptr) % WORD_LIMIT)
  }

  function LinkHead(m: Shared, u: Cpu): Word {
    if u.previous == 0 then Linear(u.ptr) % WORD_LIMIT else m.freeList
  }

  function AfterLinkIn(m: Shared, u: Cpu): Shared {
    m.(pages := LinkPages(m, u), freeList := LinkHead(m, u),
       list := PutBackwardFirst(m.list, Range(u.ptr, u.n)), held := m.held - {u.ptr})
  }

  // ----------------------------------------------------------------- invariant

  // The blocks clients hold: whole existing pages, pairwise disjoint, none free.
  ghost predicate HeldOk(m: Shared) {
    && (forall p :: p in m.held ==>
          && 0 <= p && p % PAGE_SIZE == 0 && m.held[p].size > 0 && m.held[p].size % PAGE_SIZE == 0
          && p + m.held[p].size <= MEMORY_LIMIT)
    && (forall p, q :: p in m.held && p <= q < p + m.held[p].size && q % PAGE_SIZE == 0 ==> q in m.pages)
    && (forall p, q :: p in m.held && q in m.held && p < q ==> p + m.held[p].size <= q)
    && (forall p, a :: p in m.held && p <= a < p + m.held[p].size ==> !Covers(m.list, a))
  }

  ghost predicate HeldCovers(held: map<int, Block>, a: int) {
    exists p :: p in held && p <= a < p + held[p].size
  }

  // Free bytes and held bytes together are always the same set.
  ghost predicate Conserved(m: Shared, all: iset<int>) {
    forall a :: a in all <==> Covers(m.list, a) || HeldCovers(m.held, a)
  }

  // Only the CPU that took the lock last is between acquire and release.
  ghost predicate LockOk(s: State) {
    && (s.m.lock == 0 || s.m.lock == 1)
    && (forall c :: c in s.cpus && InSection(s.cpus[c].pc) ==> s.m.lock == 1 && c == s.m.holder)
    && (s.m.lock == 1 ==> s.m.holder in s.cpus && InSection(s.cpus[s.m.holder].pc))
    && (s.m.lock == 0 ==> Chain(s.m.pages, s.m.freeList, s.m.list))
  }

  ghost predicate Cursor(s: seq<Range>, u: Cpu) {
    && u.position <= |s|
    && u.previous == (if u.position == 0 then 0 else Linear(s[u.position - 1].ptr))
    && u.node == (if u.position == |s| then 0 else Linear(s[u.position].ptr))
  }

  ghost predicate Passed(s: seq<Range>, u: Cpu, upTo: int) {
    upTo <= |s| && forall i :: 0 <= i < upTo ==> if u.freeing then s[i].ptr < u.ptr else s[i].size < u.n
  }

  // The caller still owns the block being freed.
  ghost predicate OwnsArgument(m: Shared, c: nat, u: Cpu) {
    u.ptr in m.held && m.held[u.ptr] == Block(c, u.n)
  }

  // What holds of the call's arguments until the list is changed.
  ghost predicate Prepared(m: Shared, c: nat, u: Cpu) {
    && u.n % PAGE_SIZE == 0
    && (u.freeing ==> OwnsArgument(m, c, u) && HeaderAt(m.pages, Range(u.ptr, u.n)))
    && (!u.freeing ==> u.ptr == 0)
  }

  ghost predicate Searching(m: Shared, c: nat, u: Cpu) {
    && Prepared(m, c, u)
    && Chain(m.pages, m.freeList, m.list)
    && Cursor(m.list, u)
  }

  // Between linking the block in and releasing the lock, list already has the
  // block and the merges are still to be made in memory.
  ghost predicate Merging(m: Shared, u: Cpu) {
    var r := Range(u.ptr, u.n);
    && u.freeing
    && Between(u.before, r, u.position)
    && Cursor(u.before, u)
    && m.list == PutBackwardFirst(u.before, r)
    && HeaderAt(m.pages, r)
    && (forall i :: 0 <= i < |u.before| ==> u.before[i].ptr in PagesOf(m.list))
    && u.ptr in PagesOf(m.list)
  }

  predicate Swallowed(u: Cpu) {
    0 < u.position <= |u.before| && u.before[u.position - 1].End() == u.ptr
  }

  ghost predicate WriteSizeOk(m: Shared, c: nat, u: Cpu) {
    u.freeing && u.n % PAGE_SIZE == 0 && OwnsArgument(m, c, u) && Load(m.pages, Linear(u.ptr), 1) == u.ptr
  }

  ghost predicate AdvanceOk(m: Shared, c: nat, u: Cpu) {
    Searching(m, c, u) && u.position < |m.list| && Passed(m.list, u, u.position + 1)
  }

  ghost predicate CutOk(m: Shared, c: nat, u: Cpu) {
    && !u.freeing && Searching(m, c, u) && Passed(m.list, u, u.position)
    && u.position < |m.list| && m.list[u.position].size >= u.n
  }

  ghost predicate InsertOk(m: Shared, c: nat, u: Cpu) {
    u.freeing && Searching(m, c, u) && Place(m.list, u.ptr, u.position)
  }

  ghost predicate MergePreviousOk(m: Shared, u: Cpu) {
    Merging(m, u) && Chain(m.pages, m.freeList, Linked(u.before, Range(u.ptr, u.n), u.position))
  }

  ghost predicate GrowPreviousOk(m: Shared, u: Cpu) {
    Merging(m, u) && Swallowed(u) && Chain(m.pages, m.freeList, u.before)
  }

  ghost predicate MergeNextOk(m: Shared, u: Cpu) {
    if Swallowed(u) then Merging(m, u) && Chain(m.pages, m.freeList, m.list) else MergePreviousOk(m, u)
  }

  ghost predicate GrowNextOk(m: Shared, u: Cpu) {
    && Merging(m, u)
    && if Swallowed(u) then Chain(m.pages, m.freeList, m.list) else JoiningNext(m, u)
  }

  ghost predicate JoiningNext(m: Shared, u: Cpu) {
    var r := Range(u.ptr, u.n);
    && u.position < |u.before| && r.End() == u.before[u.position].ptr
    && HeaderAt(m.pages, u.before[u.position])
    && Chain(m.pages, m.freeList, WithoutNext(u.before, r, u.position))
  }

  ghost predicate CpuOk(m: Shared, c: nat, u: Cpu) {
    match u.pc
    case Idle => true
    case WritePtr => u.freeing && u.n % PAGE_SIZE == 0 && OwnsArgument(m, c, u)
    case WriteSize => WriteSizeOk(m, c, u)
    case Acquire(spin) => !spin.Acquired? && Prepared(m, c, u)
    case Head => Prepared(m, c, u) && Chain(m.pages, m.freeList, m.list)
    case Walk => Searching(m, c, u) && Passed(m.list, u, u.position)
    case Advance => AdvanceOk(m, c, u)
    case Cut => CutOk(m, c, u)
    case WriteNext => InsertOk(m, c, u)
    case LinkIn => InsertOk(m, c, u) && Load(m.pages, Linear(u.ptr), 0) == u.node
    case MergePrevious => MergePreviousOk(m, u)
    case GrowPrevious => GrowPreviousOk(m, u)
    case MergeNext => MergeNextOk(m, u)
    case GrowNext => GrowNextOk(m, u)
    case Release => Chain(m.pages, m.freeList, m.list)
  }

  ghost predicate SharedOk(m: Shared, all: iset<int>) {
    && MemoryOk(m.pages)
    && ListShape(m.pages, m.list)
    && HeldOk(m)
    && Conserved(m, all)
  }

  ghost predicate Inv(s: State, all: iset<int>) {
    && SharedOk(s.m, all)
    && LockOk(s)
    && (forall c :: c in s.cpus ==> CpuOk(s.m, c, s.cpus[c]))
  }

  // -------------------------------------------------- steps that keep the list

  lemma ListHeadersCovered(pages: Pages, s: seq<Range>)
    requires ListShape(pages, s)
    ensures forall i :: 0 <= i < |s| ==> s[i].ptr in PagesOf(s)
  {
    SeparatedPairs(s);
    forall i | 0 <= i < |s| ensures s[i].ptr in PagesOf(s) {
      CoversAt(s, i);
      AlignedAt(s, PAGE_SIZE, i);
      assert s[i].Contains(s[i].ptr);
    }
  }

  ghost predicate SameFreePages(m: Shared, t: Shared) {
    && t.list == m.list && t.freeList == m.freeList
    && t.pages.Keys == m.pages.Keys
    && (forall p :: p in PagesOf(m.list) && p in m.pages ==> t.pages[p] == m.pages[p])
  }

  lemma ChainSurvives(m: Shared, t: Shared, l: seq<Range>)
    requires SameFreePages(m, t) && Chain(m.pages, m.freeList, l)
    requires forall i :: 0 <= i < |l| ==> l[i].ptr in PagesOf(m.list)
    ensures Chain(t.pages, t.freeList, l)
  {
    ChainHeaders(m.pages, m.freeList, l);
    ChainFrame(m.pages, t.pages, m.freeList, l);
  }

  lemma LinkedSurvives(m: Shared, t: Shared, l: seq<Range>, r: Range, k: nat)
    requires SameFreePages(m, t) && k <= |l| && Chain(m.pages, m.freeList, Linked(l, r, k))
    requires r.ptr in PagesOf(m.list) && forall i :: 0 <= i < |l| ==> l[i].ptr in PagesOf(m.list)
    ensures Chain(t.pages, t.freeList, Linked(l, r, k))
  {
    var l' := Linked(l, r, k);
    assert forall i :: 0 <= i < |l'| ==> l'[i] == if i < k then l[i] else if i == k then r else l[i - 1];
    ChainSurvives(m, t, l');
  }

  lemma WithoutNextSurvives(m: Shared, t: Shared, l: seq<Range>, r: Range, k: nat)
    requires SameFreePages(m, t) && k < |l| && Chain(m.pages, m.freeList, WithoutNext(l, r, k))
    requires r.ptr in PagesOf(m.list) && forall i :: 0 <= i < |l| ==> l[i].ptr in PagesOf(m.list)
    ensures Chain(t.pages, t.freeList, WithoutNext(l, r, k))
  {
    var l' := WithoutNext(l, r, k);
    assert forall i :: 0 <= i < |l'| ==> l'[i] == if i == k then r else l[i];
    ChainSurvives(m, t, l');
  }

  lemma MergingFrame(m: Shared, t: Shared, d: nat, u: Cpu)
    requires u.pc.MergePrevious? || u.pc.GrowPrevious? || u.pc.MergeNext? || u.pc.GrowNext?
    requires CpuOk(m, d, u) && SameFreePages(m, t)
    requires forall i :: 0 <= i < |m.list| ==> m.list[i].ptr in PagesOf(m.list)
    ensures CpuOk(t, d, u)
  {
    var r := Range(u.ptr, u.n);
    if u.pc.GrowPrevious? {
      ChainSurvives(m, t, u.before);
    } else if u.pc.MergePrevious? || !Swallowed(u) {
      if u.pc.GrowNext? {
        WithoutNextSurvives(m, t, u.before, r, u.position);
      } else {
        LinkedSurvives(m, t, u.before, r, u.position);
      }
    } else {
      ChainSurvives(m, t, m.list);
    }
  }

  // The facts about another CPU survive when the stores stay clear of it.
  lemma OtherCpuKeeps(m: Shared, t: Shared, d: nat, u: Cpu)
    requires ListShape(m.pages, m.list) && CpuOk(m, d, u)
    requires InSection(u.pc) ==> SameFreePages(m, t)
    requires forall p :: p in m.held && m.held[p].cpu == d ==>
               p in t.held && t.held[p] == m.held[p] && p in m.pages && p in t.pages && t.pages[p] == m.pages[p]
    ensures CpuOk(t, d, u)
  {
    if InSection(u.pc) {
      ListHeadersCovered(m.pages, m.list);
      if u.pc.MergePrevious? || u.pc.GrowPrevious? || u.pc.MergeNext? || u.pc.GrowNext? {
        MergingFrame(m, t, d, u);
      } else {
        ChainSurvives(m, t, m.list);
      }
    }
  }

  // What a step must establish: about the shared state, about the CPU that
  // moves, and about the memory of the others.
  lemma Assemble(s: State, c: nat, u: Cpu, t: Shared, all: iset<int>)
    requires Inv(s, all) && c in s.cpus
    requires SharedOk(t, all) && LockOk(Move(s, c, u, t)) && CpuOk(t, c, u)
    requires InSection(s.cpus[c].pc) || SameFreePages(s.m, t)
    requires forall p :: p in s.m.held && s.m.held[p].cpu != c ==>
               p in t.held && t.held[p] == s.m.held[p] && p in s.m.pages && p in t.pages && t.pages[p] == s.m.pages[p]
    ensures Inv(Move(s, c, u, t), all)
  {
    forall d | d in s.cpus && d != c ensures CpuOk(t, d, s.cpus[d]) {
      OtherCpuKeeps(s.m, t, d, s.cpus[d]);
    }
  }

  // A step that changes no shared memory.
  lemma QuietStep(s: State, c: nat, u: Cpu, all: iset<int>)
    requires Inv(s, all) && c in s.cpus
    requires InSection(u.pc) == InSection(s.cpus[c].pc)
    requires CpuOk(s.m, c, u)
    ensures Inv(Move(s, c, u, s.m), all)
  {
  }

  lemma HeldPagesExist(m: Shared)
    requires HeldOk(m)
    ensures forall p :: p in m.held ==> p in m.pages
  {
    forall p | p in m.held ensures p in m.pages {
      assert p <= p < p + m.held[p].size;
    }
  }

  // A step whose only store is to page w, which is free or the CPU's own.
  lemma StoreStep(s: State, c: nat, u: Cpu, pages: Pages, w: int, all: iset<int>)
    requires Inv(s, all) && c in s.cpus
    requires MemoryOk(pages) && pages.Keys == s.m.pages.Keys
    requires forall p :: p in pages && p != w ==> pages[p] == s.m.pages[p]
    requires forall p :: p in s.m.held && s.m.held[p].cpu != c ==> p != w
    requires InSection(u.pc) == InSection(s.cpus[c].pc)
    requires !InSection(u.pc) ==> w !in PagesOf(s.m.list)
    requires CpuOk(s.m.(pages := pages), c, u)
    ensures Inv(Move(s, c, u, s.m.(pages := pages)), all)
  {
    var t := s.m.(pages := pages);
    HeldPagesExist(s.m);
    if s.m.lock == 0 {
      ListHeadersCovered(s.m.pages, s.m.list);
      ChainSurvives(s.m, t, s.m.list);
    }
    Assemble(s, c, u, t, all);
  }

  // Pages of a block somebody holds are not free, and nobody else's.
  lemma OwnPage(m: Shared, c: nat, at: int, w: int)
    requires HeldOk(m) && at in m.held && m.held[at].cpu == c && at <= w < at + m.held[at].size
    ensures w !in PagesOf(m.list)
    ensures forall p :: p in m.held && m.held[p].cpu != c ==> p != w
  {
  }

  // Free pages are nobody's.
  lemma FreePage(m: Shared, w: int)
    requires HeldOk(m) && w in PagesOf(m.list)
    ensures w !in m.held
  {
  }

  // ------------------------------------------------------- outside the section

  lemma KeepsWriteHeader(s: State, c: nat, all: iset<int>)
    requires Inv(s, all) && c in s.cpus && (s.cpus[c].pc.WritePtr? || s.cpus[c].pc.WriteSize?)
    ensures Inv(Execute(s, c, s.cpus[c]), all)
  {
    var u := s.cpus[c];
    HeldPagesExist(s.m);
    OwnPage(s.m, c, u.ptr, u.ptr);
    var t := Execute(s, c, s.cpus[c]);
    StoreStep(s, c, t.cpus[c], t.m.pages, u.ptr, all);
  }

  lemma KeepsScribble(s: State, c: nat, page: int, index: nat, value: Word, all: iset<int>)
    requires Inv(s, all) && c in s.cpus
    ensures Inv(Step(s, c, Scribble(page, index, value)), all)
  {
    var t := Step(s, c, Scribble(page, index, value));
    if t != s {
      var p :| p in s.m.held && s.m.held[p].cpu == c && p <= page < p + s.m.held[p].size;
      OwnPage(s.m, c, p, page);
      StoreStep(s, c, s.cpus[c], t.m.pages, page, all);
    }
  }

  lemma KeepsCalls(s: State, c: nat, a: Action, all: iset<int>)
    requires Inv(s, all) && c in s.cpus && (a.CallAlloc? || a.CallFree?)
    ensures Inv(Step(s, c, a), all)
  {
    if s.cpus[c].pc.Idle? {
      if a.CallAlloc? {
        RoundUpIsLeast(a.size);
        QuietStep(s, c, Fresh(false, RoundUpPage(a.size), 0, Acquire(Test)), all);
      } else if a.at in s.m.held && s.m.held[a.at].cpu == c && 0 <= s.m.held[a.at].size < WORD_LIMIT {
        QuietStep(s, c, Fresh(true, s.m.held[a.at].size, a.at, WritePtr), all);
      }
    }
  }

  lemma KeepsAcquire(s: State, c: nat, all: iset<int>)
    requires Inv(s, all) && c in s.cpus && s.cpus[c].pc.Acquire?
    ensures Inv(Execute(s, c, s.cpus[c]), all)
  {
    hide Chain, ListShape, Put, Load, Touches, Grown, CutPages, LinkPages, PutBackwardFirst, Take;
    var u := s.cpus[c];
    var t := Execute(s, c, s.cpus[c]);
    HeldPagesExist(s.m);
    if SpinPc(s.m.lock, u.pc.spin).Acquired? {
      Assemble(s, c, t.cpus[c], t.m, all);
    } else {
      QuietStep(s, c, t.cpus[c], all);
    }
  }

  // -------------------------------------------------------- the search loops

  lemma KeepsSearch(s: State, c: nat, all: iset<int>)
    requires Inv(s, all) && c in s.cpus
    requires s.cpus[c].pc.Head? || s.cpus[c].pc.Walk? || s.cpus[c].pc.Advance?
    ensures Inv(Execute(s, c, s.cpus[c]), all)
  {
    hide Put, Touches, Grown, HeldOk, Conserved, ListShape, CutPages, LinkPages, PutBackwardFirst, Take;
    var u := s.cpus[c];
    var t := Execute(s, c, s.cpus[c]);
    ChainHeaders(s.m.pages, s.m.freeList, s.m.list);
    if u.pc.Advance? {
      ChainSuffix(s.m.pages, s.m.freeList, s.m.list, u.position + 1);
      assert u.position + 1 < |s.m.list| ==> s.m.list[u.position + 1..][0] == s.m.list[u.position + 1];
    }
    QuietStep(s, c, t.cpus[c], all);
  }

  lemma KeepsRelease(s: State, c: nat, all: iset<int>)
    requires Inv(s, all) && c in s.cpus && s.cpus[c].pc.Release?
    ensures Inv(Execute(s, c, s.cpus[c]), all)
  {
    var t := Execute(s, c, s.cpus[c]);
    HeldPagesExist(s.m);
    Assemble(s, c, t.cpus[c], t.m, all);
  }

  // ------------------------------------------------------------ pmm_alloc's cut

  lemma CutLoads(m: Shared, c: nat, u: Cpu)
    requires MemoryOk(m.pages) && ListShape(m.pages, m.list) && CutOk(m, c, u)
    ensures var r := m.list[u.position];
            && HeaderAt(m.pages, r) && u.node == Linear(r.ptr) && r.ptr in PagesOf(m.list)
            && Load(m.pages, u.node, 0) == m.pages[r.ptr][0]
            && Load(m.pages, u.node, 2) == r.size
            && CutAt(m, u) == r.End() - u.n
    ensures DistinctPtrs(m.list)
    ensures if u.position == 0 then u.previous == 0
            else
              && u.previous == Linear(m.list[u.position - 1].ptr) && u.previous != 0
              && HeaderAt(m.pages, m.list[u.position - 1]) && m.list[u.position - 1].ptr in PagesOf(m.list)
  {
    ChainHeaders(m.pages, m.freeList, m.list);
    EndsInMemory(m.pages, m.freeList, m.list);
    SeparatedPairs(m.list);
    ListHeadersCovered(m.pages, m.list);
  }

  // What the store of pmm_alloc does to memory.
  lemma CutStores(m: Shared, c: nat, u: Cpu)
    requires MemoryOk(m.pages) && ListShape(m.pages, m.list) && CutOk(m, c, u)
    ensures Fits(m.list, u.n) && CutAt(m, u) == TakenAt(m.list, u.n)
    ensures MemoryOk(CutPages(m, u)) && CutPages(m, u).Keys == m.pages.Keys
    ensures Chain(CutPages(m, u), CutHead(m, u), Take(m.list, u.n))
    ensures forall p :: p in m.pages && p !in PagesOf(m.list) ==> CutPages(m, u)[p] == m.pages[p]
  {
    CutLoads(m, c, u);
    CutKeepsChain(m.pages, m.freeList, m.list, u.n, u.position);
  }

  lemma CutKeepsShared(m: Shared, c: nat, u: Cpu, all: iset<int>)
    requires SharedOk(m, all) && CutOk(m, c, u)
    ensures SharedOk(AfterCut(m, c, u), all) && (u.n > 0 ==> CutAt(m, u) !in m.held)
  {
    hide Chain, CutPages, CutHead, Take, TakenAt, Fits, Covers, PagesOf, Load;
    CutStores(m, c, u);
    var t := AfterCut(m, c, u);
    TakeKeepsShape(m.pages, m.list, u.n);
    if u.n > 0 {
      var ptr := CutAt(m, u);
      CutBlockFacts(m.pages, m.list, u.n);
      CutConserves(m, t, Block(c, u.n), ptr, all);
    } else {
      TakeNothing(m.list);
    }
  }

  lemma CutBlockFacts(pages: Pages, s: seq<Range>, n: int)
    requires ListShape(pages, s) && n > 0 && n % PAGE_SIZE == 0 && Fits(s, n)
    ensures var ptr := TakenAt(s, n);
            && 0 <= ptr && ptr % PAGE_SIZE == 0 && ptr + n <= MEMORY_LIMIT
            && (forall a :: ptr <= a < ptr + n ==> Covers(s, a))
            && (forall a :: Covers(Take(s, n), a) <==> Covers(s, a) && !(ptr <= a < ptr + n))
  {
    TakeRemovesOneBlock(s, n);
    TakeAligned(s, n);
    var r := Range(TakenAt(s, n), n);
    assert r.Contains(r.ptr) && r.Contains(r.End() - 1);
    forall a | r.ptr <= a < r.ptr + n ensures Covers(s, a) {
      assert r.Contains(a);
    }
  }

  // Moving a block from the list to a client conserves bytes and disjointness.
  lemma CutConserves(m: Shared, t: Shared, b: Block, ptr: int, all: iset<int>)
    requires HeldOk(m) && Conserved(m, all) && t.held == m.held[ptr := b] && t.pages.Keys == m.pages.Keys
    requires b.size > 0 && b.size % PAGE_SIZE == 0 && 0 <= ptr && ptr % PAGE_SIZE == 0 && ptr + b.size <= MEMORY_LIMIT
    requires forall a :: ptr <= a < ptr + b.size ==> Covers(m.list, a)
    requires forall a :: Covers(t.list, a) <==> Covers(m.list, a) && !(ptr <= a < ptr + b.size)
    requires forall p :: p in PagesOf(m.list) ==> p in m.pages
    ensures ptr !in m.held && HeldOk(t) && Conserved(t, all)
  {
    assert ptr !in m.held by {
      assert Covers(m.list, ptr);
    }
    forall p | p in m.held ensures p < ptr ==> p + m.held[p].size <= ptr {
      assert Covers(m.list, ptr);
    }
    forall p | p in m.held ensures ptr < p ==> ptr + b.size <= p {
      assert p <= p < p + m.held[p].size;
      assert !Covers(m.list, p);
    }
    forall q | ptr <= q < ptr + b.size && q % PAGE_SIZE == 0 ensures q in t.pages {
      assert q in PagesOf(m.list);
    }
    forall a ensures HeldCovers(t.held, a) <==> HeldCovers(m.held, a) || ptr <= a < ptr + b.size {
      HeldAdd(m.held, t.held, b, ptr, a);
    }
  }

  lemma HeldAdd(before: map<int, Block>, after: map<int, Block>, b: Block, ptr: int, a: int)
    requires ptr !in before && after == before[ptr := b]
    ensures HeldCovers(after, a) <==> HeldCovers(before, a) || ptr <= a < ptr + b.size
  {
    if HeldCovers(before, a) {
      var p :| p in before && p <= a < p + before[p].size;
      assert p in after && after[p] == before[p];
    }
    if ptr <= a < ptr + b.size {
      assert ptr in after && after[ptr] == b;
    }
  }

  lemma CutSparesOthers(m: Shared, c: nat, u: Cpu, all: iset<int>)
    requires SharedOk(m, all) && CutOk(m, c, u)
    ensures var t := AfterCut(m, c, u);
            forall p :: p in m.held ==>
              p in t.held && t.held[p] == m.held[p] && p in m.pages && p in t.pages && t.pages[p] == m.pages[p]
  {
    hide Chain, CutPages, CutHead, CutAt, Take, TakenAt, Fits, Conserved, ListShape, CutOk;
    CutStores(m, c, u);
    CutKeepsShared(m, c, u, all);
    HeldPagesExist(m);
    forall p | p in m.held ensures p !in PagesOf(m.list) {
      assert p <= p < p + m.held[p].size;
    }
  }

  lemma KeepsCut(s: State, c: nat, all: iset<int>)
    requires Inv(s, all) && c in s.cpus && s.cpus[c].pc.Cut?
    ensures Inv(Execute(s, c, s.cpus[c]), all)
  {
    hide Chain, HeldOk, Conserved, CutPages, CutHead, CutAt, Take, ListShape, Load;
    var u := s.cpus[c];
    CutStores(s.m, c, u);
    CutKeepsShared(s.m, c, u, all);
    CutSparesOthers(s.m, c, u, all);
    Assemble(s, c, u.(pc := Release, ptr := CutAt(s.m, u)), AfterCut(s.m, c, u), all);
  }

  // ------------------------------------------------------- pmm_free's insertion

  lemma KeepsWriteNext(s: State, c: nat, all: iset<int>)
    requires Inv(s, all) && c in s.cpus && s.cpus[c].pc.WriteNext?
    ensures Inv(Execute(s, c, s.cpus[c]), all)
  {
    var u := s.cpus[c];
    var pages := Put(s.m.pages, Linear(u.ptr), 0, u.node);
    OwnPage(s.m, c, u.ptr, u.ptr);
    ListHeadersCovered(s.m.pages, s.m.list);
    ChainSurvives(s.m, s.m.(pages := pages), s.m.list);
    StoreStep(s, c, u.(pc := LinkIn), pages, u.ptr, all);
  }

  lemma ArgumentIsDisjoint(m: Shared, c: nat, u: Cpu)
    requires ListShape(m.pages, m.list) && HeldOk(m) && OwnsArgument(m, c, u)
    ensures var r := Range(u.ptr, u.n);
            && r.size > 0 && 0 <= r.ptr && r.End() <= MEMORY_LIMIT && Disjoint(m.list, r)
            && r.ptr % PAGE_SIZE == 0 && r.size % PAGE_SIZE == 0
            && (forall p :: r.Contains(p) && p % PAGE_SIZE == 0 ==> p in m.pages)
  {
    DisjointFromBytes(m.list, Range(u.ptr, u.n));
  }

  ghost predicate LinkOk(m: Shared, c: nat, u: Cpu) {
    InsertOk(m, c, u) && Load(m.pages, Linear(u.ptr), 0) == u.node
  }

  lemma LinkInPlace(m: Shared, c: nat, u: Cpu)
    requires MemoryOk(m.pages) && ListShape(m.pages, m.list) && HeldOk(m) && LinkOk(m, c, u)
    ensures Between(m.list, Range(u.ptr, u.n), u.position)
    ensures DistinctPtrs(m.list) && forall i :: 0 <= i < |m.list| ==> m.list[i].ptr != u.ptr
    ensures u.position > 0 ==> HeaderAt(m.pages, m.list[u.position - 1]) && u.previous != 0
    ensures m.pages[u.ptr][0] == if u.position == 0 then m.freeList else m.pages[m.list[u.position - 1].ptr][0]
  {
    var r := Range(u.ptr, u.n);
    ArgumentIsDisjoint(m, c, u);
    BetweenFrom(m.pages, m.freeList, m.list, r);
    ChainHeaders(m.pages, m.freeList, m.list);
    ChainSuffix(m.pages, m.freeList, m.list, u.position);
    assert u.position < |m.list| ==> m.list[u.position..][0] == m.list[u.position];
  }

  // What the linking store does to memory.
  lemma LinkInStores(m: Shared, c: nat, u: Cpu)
    requires MemoryOk(m.pages) && ListShape(m.pages, m.list) && HeldOk(m) && LinkOk(m, c, u)
    ensures MemoryOk(LinkPages(m, u)) && LinkPages(m, u).Keys == m.pages.Keys
    ensures Chain(LinkPages(m, u), LinkHead(m, u), Linked(m.list, Range(u.ptr, u.n), u.position))
    ensures HeaderAt(LinkPages(m, u), Range(u.ptr, u.n))
    ensures forall p :: p in m.pages && p !in PagesOf(m.list) ==> LinkPages(m, u)[p] == m.pages[p]
  {
    LinkInPlace(m, c, u);
    ListHeadersCovered(m.pages, m.list);
    LinkInWhich(m, c, u);
    LinkKeepsChain(m.pages, m.freeList, m.list, Range(u.ptr, u.n), u.position);
  }

  lemma LinkInWhich(m: Shared, c: nat, u: Cpu)
    requires LinkOk(m, c, u) && (u.position > 0 ==> HeaderAt(m.pages, m.list[u.position - 1]))
    ensures u.position == 0 ==> LinkPages(m, u) == m.pages && LinkHead(m, u) == Linear(u.ptr)
    ensures u.position > 0 ==>
              LinkPages(m, u) == Store(m.pages, m.list[u.position - 1].ptr, 0, Linear(u.ptr))
              && LinkHead(m, u) == m.freeList
  {
  }

  lemma LinkInKeepsShared(m: Shared, c: nat, u: Cpu, all: iset<int>)
    requires SharedOk(m, all) && LinkOk(m, c, u)
    ensures SharedOk(AfterLinkIn(m, u), all)
    ensures u.ptr in PagesOf(AfterLinkIn(m, u).list)
    ensures forall p :: p in PagesOf(m.list) ==> p in PagesOf(AfterLinkIn(m, u).list)
  {
    var r := Range(u.ptr, u.n);
    LinkInStores(m, c, u);
    ArgumentIsDisjoint(m, c, u);
    PutKeepsShape(m.pages, m.list, r);
    PutsAdd(m.list, r);
    assert r.Contains(u.ptr);
    LinkInConserves(m, AfterLinkIn(m, u), u.ptr, all);
  }

  // Moving a block from a client to the list conserves bytes and disjointness.
  lemma LinkInConserves(m: Shared, t: Shared, ptr: int, all: iset<int>)
    requires HeldOk(m) && Conserved(m, all) && ptr in m.held && t.held == m.held - {ptr}
    requires t.pages.Keys == m.pages.Keys
    requires forall a :: Covers(t.list, a) <==> Covers(m.list, a) || ptr <= a < ptr + m.held[ptr].size
    ensures HeldOk(t) && Conserved(t, all)
  {
    forall p, a | p in t.held && p <= a < p + t.held[p].size ensures !Covers(t.list, a) {
      assert p in m.held && p != ptr;
      assert p < ptr || ptr < p;
    }
    forall a ensures HeldCovers(m.held, a) <==> HeldCovers(t.held, a) || ptr <= a < ptr + m.held[ptr].size {
      HeldDrop(m.held, t.held, ptr, a);
    }
  }

  lemma HeldDrop(before: map<int, Block>, after: map<int, Block>, ptr: int, a: int)
    requires ptr in before && after == before - {ptr}
    ensures HeldCovers(before, a) <==> HeldCovers(after, a) || ptr <= a < ptr + before[ptr].size
  {
    if HeldCovers(before, a) {
      var p :| p in before && p <= a < p + before[p].size;
      assert p != ptr ==> p in after;
    }
  }

  lemma LinkInReady(m: Shared, c: nat, u: Cpu, all: iset<int>)
    requires SharedOk(m, all) && LinkOk(m, c, u)
    ensures MergePreviousOk(AfterLinkIn(m, u), u.(pc := MergePrevious, before := m.list))
  {
    LinkInPlace(m, c, u);
    LinkInStores(m, c, u);
    LinkInKeepsShared(m, c, u, all);
    ListHeadersCovered(m.pages, m.list);
  }

  lemma LinkInSparesOthers(m: Shared, c: nat, u: Cpu)
    requires MemoryOk(m.pages) && ListShape(m.pages, m.list) && HeldOk(m) && LinkOk(m, c, u)
    ensures var t := AfterLinkIn(m, u);
            forall p :: p in m.held && p != u.ptr ==>
              p in t.held && t.held[p] == m.held[p] && p in m.pages && p in t.pages && t.pages[p] == m.pages[p]
  {
    LinkInStores(m, c, u);
    HeldPagesExist(m);
    forall p | p in m.held ensures p !in PagesOf(m.list) {
      assert p <= p < p + m.held[p].size;
    }
  }

  lemma KeepsLinkIn(s: State, c: nat, all: iset<int>)
    requires Inv(s, all) && c in s.cpus && s.cpus[c].pc.LinkIn?
    ensures Inv(Execute(s, c, s.cpus[c]), all)
  {
    hide Chain, HeldOk, Conserved, LinkPages, LinkHead, PutBackwardFirst, Linked, ListShape, Merging;
    var u := s.cpus[c];
    assert LinkOk(s.m, c, u);
    LinkInReady(s.m, c, u, all);
    LinkInKeepsShared(s.m, c, u, all);
    LinkInSparesOthers(s.m, c, u);
    Assemble(s, c, u.(pc := MergePrevious, before := s.m.list), AfterLinkIn(s.m, u), all);
  }

  // ---------------------------------------------------------- pmm_free's merges

  // A store inside the section, to a page that is free.
  lemma StoreInList(s: State, c: nat, u: Cpu, pages: Pages, w: int, all: iset<int>)
    requires Inv(s, all) && c in s.cpus && InSection(u.pc) && InSection(s.cpus[c].pc)
    requires MemoryOk(pages) && pages.Keys == s.m.pages.Keys
    requires forall p :: p in pages && p != w ==> pages[p] == s.m.pages[p]
    requires w in PagesOf(s.m.list)
    requires CpuOk(s.m.(pages := pages), c, u)
    ensures Inv(Move(s, c, u, s.m.(pages := pages)), all)
  {
    FreePage(s.m, w);
    StoreStep(s, c, u, pages, w, all);
  }

  ghost predicate OnePageWritten(before: Pages, after: Pages, w: int) {
    after.Keys == before.Keys && forall p :: p in after && p != w ==> after[p] == before[p]
  }

  // What the merging code reads from the two headers.
  lemma MergeLoads(pages: Pages, a: Range, b: Range)
    requires HeaderAt(pages, a) && HeaderAt(pages, b) && 0 <= a.End() < WORD_LIMIT && 0 <= a.size + b.size < WORD_LIMIT
    ensures Linear(a.ptr) != 0 && Linear(b.ptr) != 0
    ensures Touches(pages, Linear(a.ptr), Linear(b.ptr)) <==> a.End() == b.ptr
    ensures Load(pages, Linear(b.ptr), 0) == pages[b.ptr][0]
    ensures forall v: Word :: Put(pages, Linear(a.ptr), 0, v) == Store(pages, a.ptr, 0, v)
    ensures Grown(pages, Linear(a.ptr), Linear(b.ptr)) == Store(pages, a.ptr, 2, a.size + b.size)
  {
  }

  lemma MergePreviousCase(m: Shared, u: Cpu)
    requires MemoryOk(m.pages) && MergePreviousOk(m, u)
    ensures u.position > 0 ==>
              && HeaderAt(m.pages, u.before[u.position - 1]) && u.previous == Linear(u.before[u.position - 1].ptr)
              && u.before[u.position - 1].ptr in PagesOf(m.list)
    ensures u.previous != 0 && Touches(m.pages, u.previous, Linear(u.ptr)) <==> Swallowed(u)
    ensures !Swallowed(u) ==> MergeNextOk(m, u.(pc := MergeNext))
    ensures Swallowed(u) ==>
              && var pages := Put(m.pages, u.previous, 0, Load(m.pages, Linear(u.ptr), 0));
              && GrowPreviousOk(m.(pages := pages), u.(pc := GrowPrevious))
              && MemoryOk(pages) && OnePageWritten(m.pages, pages, u.before[u.position - 1].ptr)
  {
    var k, r := u.position, Range(u.ptr, u.n);
    LinkedHeaders(m.pages, m.freeList, u.before, r, k);
    if k > 0 {
      MergeLoads(m.pages, u.before[k - 1], r);
      UnlinkNew(m.pages, m.freeList, u.before, r, k);
    }
  }

  lemma KeepsMergePrevious(s: State, c: nat, all: iset<int>)
    requires Inv(s, all) && c in s.cpus && s.cpus[c].pc.MergePrevious?
    ensures Inv(Execute(s, c, s.cpus[c]), all)
  {
    hide Chain, Linked, Put, Load, Touches, Grown, Merging, LockOk;
    var u := s.cpus[c];
    MergePreviousCase(s.m, u);
    if Swallowed(u) {
      var pages := Put(s.m.pages, u.previous, 0, Load(s.m.pages, Linear(u.ptr), 0));
      StoreInList(s, c, u.(pc := GrowPrevious), pages, u.before[u.position - 1].ptr, all);
    } else {
      QuietStep(s, c, u.(pc := MergeNext), all);
    }
  }

  lemma GrowPreviousCase(m: Shared, u: Cpu)
    requires MemoryOk(m.pages) && GrowPreviousOk(m, u)
    ensures HeaderAt(m.pages, u.before[u.position - 1]) && u.before[u.position - 1].ptr in PagesOf(m.list)
    ensures var pages := Grown(m.pages, u.previous, Linear(u.ptr));
            && MemoryOk(pages) && pages.Keys == m.pages.Keys
            && (forall p :: p in pages && p != u.before[u.position - 1].ptr ==> pages[p] == m.pages[p])
            && MergeNextOk(m.(pages := pages), u.(pc := MergeNext))
  {
    var k, r := u.position, Range(u.ptr, u.n);
    GrowOverNew(m.pages, m.freeList, u.before, r, k);
    MergeLoads(m.pages, u.before[k - 1], r);
  }

  lemma KeepsGrowPrevious(s: State, c: nat, all: iset<int>)
    requires Inv(s, all) && c in s.cpus && s.cpus[c].pc.GrowPrevious?
    ensures Inv(Execute(s, c, s.cpus[c]), all)
  {
    hide Chain, Linked, Put, Load, Touches, Grown, LockOk, Covers, Between, Cursor, HeldOk, Conserved;
    var u := s.cpus[c];
    var v := u.(pc := MergeNext);
    var pages := Grown(s.m.pages, u.previous, Linear(u.ptr));
    GrowPreviousCase(s.m, u);
    StoreInList(s, c, v, pages, u.before[u.position - 1].ptr, all);
  }

  // A store to the swallowed block's page leaves the chain alone.
  lemma OffListStore(m: Shared, pages: Pages, u: Cpu)
    requires Merging(m, u) && Swallowed(u) && Chain(m.pages, m.freeList, m.list)
    requires pages.Keys == m.pages.Keys
    requires forall p :: p in m.pages && p != u.ptr ==> pages[p] == m.pages[p]
    ensures Chain(pages, m.freeList, m.list)
  {
    SwallowPtrs(u.before, Range(u.ptr, u.n), u.position);
    ChainHeaders(m.pages, m.freeList, m.list);
    ChainFrame(m.pages, pages, m.freeList, m.list);
  }

  lemma MergeNextCase(m: Shared, u: Cpu)
    requires MemoryOk(m.pages) && MergeNextOk(m, u)
    ensures if u.node != 0 && Touches(m.pages, Linear(u.ptr), u.node)
            then
              && var pages := Put(m.pages, Linear(u.ptr), 0, Load(m.pages, u.node, 0));
              && GrowNextOk(m.(pages := pages), u.(pc := GrowNext))
              && MemoryOk(pages) && OnePageWritten(m.pages, pages, u.ptr)
            else Chain(m.pages, m.freeList, m.list)
    ensures u.ptr in PagesOf(m.list)
  {
    if Swallowed(u) {
      OffListStore(m, Put(m.pages, Linear(u.ptr), 0, Load(m.pages, u.node, 0)), u);
    } else {
      LinkedMergeNext(m, u);
    }
  }

  lemma LinkedMergeNext(m: Shared, u: Cpu)
    requires MemoryOk(m.pages) && MergePreviousOk(m, u) && !Swallowed(u)
    ensures if u.node != 0 && Touches(m.pages, Linear(u.ptr), u.node)
            then
              && var pages := Put(m.pages, Linear(u.ptr), 0, Load(m.pages, u.node, 0));
              && HeaderAt(pages, Range(u.ptr, u.n))
              && JoiningNext(m.(pages := pages), u)
            else Chain(m.pages, m.freeList, m.list)
  {
    var k, r := u.position, Range(u.ptr, u.n);
    LinkedHeaders(m.pages, m.freeList, u.before, r, k);
    if k < |u.before| {
      MergeLoads(m.pages, r, u.before[k]);
      UnlinkNextOfNew(m.pages, m.freeList, u.before, r, k);
    }
    if k == |u.before| || r.End() != u.before[k].ptr {
      NothingToMerge(u.before, r, k);
    }
  }

  lemma KeepsMergeNext(s: State, c: nat, all: iset<int>)
    requires Inv(s, all) && c in s.cpus && s.cpus[c].pc.MergeNext?
    ensures Inv(Execute(s, c, s.cpus[c]), all)
  {
    hide Chain, Linked, Put, Load, Touches, Grown, Merging, LockOk, Covers;
    var u := s.cpus[c];
    MergeNextCase(s.m, u);
    if u.node != 0 && Touches(s.m.pages, Linear(u.ptr), u.node) {
      StoreInList(s, c, u.(pc := GrowNext), Put(s.m.pages, Linear(u.ptr), 0, Load(s.m.pages, u.node, 0)), u.ptr, all);
    } else {
      QuietStep(s, c, u.(pc := Release), all);
    }
  }

  lemma GrowNextCase(m: Shared, u: Cpu)
    requires MemoryOk(m.pages) && GrowNextOk(m, u)
    ensures Chain(Grown(m.pages, Linear(u.ptr), u.node), m.freeList, m.list)
  {
    var k, r := u.position, Range(u.ptr, u.n);
    if Swallowed(u) {
      OffListStore(m, Grown(m.pages, Linear(u.ptr), u.node), u);
    } else {
      MergeLoads(m.pages, r, u.before[k]);
      GrowNew(m.pages, m.freeList, u.before, r, k);
    }
  }

  lemma KeepsGrowNext(s: State, c: nat, all: iset<int>)
    requires Inv(s, all) && c in s.cpus && s.cpus[c].pc.GrowNext?
    ensures Inv(Execute(s, c, s.cpus[c]), all)
  {
    var u := s.cpus[c];
    GrowNextCase(s.m, u);
    StoreInList(s, c, u.(pc := Release), Grown(s.m.pages, Linear(u.ptr), u.node), u.ptr, all);
  }

  // ------------------------------------------------------------- whole runs

  lemma StepKeepsInv(s: State, c: nat, a: Action, all: iset<int>)
    requires Inv(s, all)
    ensures Inv(Step(s, c, a), all)
  {
    if c in s.cpus {
      match a
      case CallAlloc(_) => KeepsCalls(s, c, a, all);
      case CallFree(_) => KeepsCalls(s, c, a, all);
      case Scribble(page, index, value) => KeepsScribble(s, c, page, index, value, all);
      case Run => KeepsExecute(s, c, all);
    }
  }

  lemma KeepsExecute(s: State, c: nat, all: iset<int>)
    requires Inv(s, all) && c in s.cpus
    ensures Inv(Execute(s, c, s.cpus[c]), all)
  {
    match s.cpus[c].pc
    case Idle =>
    case WritePtr => KeepsWriteHeader(s, c, all);
    case WriteSize => KeepsWriteHeader(s, c, all);
    case Acquire(_) => KeepsAcquire(s, c, all);
    case Head => KeepsSearch(s, c, all);
    case Walk => KeepsSearch(s, c, all);
    case Advance => KeepsSearch(s, c, all);
    case Cut => KeepsCut(s, c, all);
    case WriteNext => KeepsWriteNext(s, c, all);
    case LinkIn => KeepsLinkIn(s, c, all);
    case MergePrevious => KeepsMergePrevious(s, c, all);
    case GrowPrevious => KeepsGrowPrevious(s, c, all);
    case MergeNext => KeepsMergeNext(s, c, all);
    case GrowNext => KeepsGrowNext(s, c, all);
    case Release => KeepsRelease(s, c, all);
  }

  // Any CPUs doing anything, in any order.
  ghost function Exec(s: State, run: seq<(nat, Action)>): State
    decreases run
  {
    if run == [] then s else Exec(Step(s, run[0].0, run[0].1), run[1..])
  }

  lemma {:induction false} RunKeepsInv(s: State, run: seq<(nat, Action)>, all: iset<int>)
    requires Inv(s, all)
    ensures Inv(Exec(s, run), all)
    decreases run
  {
    if run != [] {
      StepKeepsInv(s, run[0].0, run[0].1, all);
      RunKeepsInv(Step(s, run[0].0, run[0].1), run[1..], all);
    }
  }

  // The state pmm_init leaves: every CPU idle, nothing handed out.
  ghost predicate Initial(s: State, all: iset<int>) {
    && s.m.lock == 0 && s.m.held == map[]
    && FreeListOk(s.m.pages, s.m.freeList, s.m.list)
    && (forall c :: c in s.cpus ==> s.cpus[c].pc.Idle?)
    && (forall a :: a in all <==> Covers(s.m.list, a))
  }

  // The main result. In every state any interleaving can reach: at most one CPU
  // is in the critical section; whenever the lock is free the list in memory is
  // well formed; all CPUs' allocations are pairwise disjoint and none is free;
  // and free bytes and allocated bytes together are the bytes at the start.
  lemma AllocatorIsSafe(s: State, run: seq<(nat, Action)>, all: iset<int>)
    requires Initial(s, all)
    ensures var t := Exec(s, run);
            && (forall c, d :: c in t.cpus && d in t.cpus && InSection(t.cpus[c].pc) && InSection(t.cpus[d].pc) ==>
                c == d)
            && (t.m.lock == 0 ==> FreeListOk(t.m.pages, t.m.freeList, t.m.list))
            && (forall p, q :: p in t.m.held && q in t.m.held && p < q ==> p + t.m.held[p].size <= q)
            && (forall a :: !(Covers(t.m.list, a) && HeldCovers(t.m.held, a)))
            && (forall a :: a in all <==> Covers(t.m.list, a) || HeldCovers(t.m.held, a))
  {
    RunKeepsInv(s, run, all);
  }

  // A search of pmm_alloc ends without a node, and pmm_alloc will return 0.
  ghost predicate FindsNothing(s: State, c: nat, a: Action) {
    c in s.cpus && a.Run? && s.cpus[c].pc.Walk? && Step(s, c, a).cpus[c].pc.Release?
  }

  // What the list and the clients' blocks mean changes only as one atomic
  // allocator would change them, and only in pmm_alloc's cut and pmm_free's
  // linking store; and when a search ends without a node, no range fits at that
  // moment. So every call, one that returns 0 included, takes effect in one step.
  lemma StepIsAtomic(s: State, c: nat, a: Action, all: iset<int>)
    requires Inv(s, all)
    ensures var t := Step(s, c, a).m;
            || (t.list == s.m.list && t.held == s.m.held)
            || (exists n: Word, ptr: Word :: AtomicAlloc(s.m, t, c, n, ptr))
            || (exists ptr: Word :: AtomicFree(s.m, t, c, ptr))
    ensures FindsNothing(s, c, a) ==> AtomicFailure(s.m, Step(s, c, a).m, s.cpus[c].n) && s.cpus[c].ptr == 0
  {
    hide Chain, Put, Load, LockOk, HeldOk, Conserved, Take, TakenAt, PutBackwardFirst, Touches, Grown, CutPages,
         LinkPages, Covers;
    if c in s.cpus && a.Run? {
      var u := s.cpus[c];
      if u.pc.Cut? {
        CutStores(s.m, c, u);
        assert AtomicAlloc(s.m, Step(s, c, a).m, c, u.n, CutAt(s.m, u));
      } else if u.pc.LinkIn? {
        assert AtomicFree(s.m, Step(s, c, a).m, c, u.ptr);
      } else if FindsNothing(s, c, a) {
        NothingFits(s.m, c, u);
      }
    }
  }

  lemma NothingFits(m: Shared, c: nat, u: Cpu)
    requires Searching(m, c, u) && Passed(m.list, u, u.position) && !u.freeing && u.node == 0
    ensures !Fits(m.list, u.n)
  {
    ChainHeaders(m.pages, m.freeList, m.list);
    TakePasses(m.list, u.n, |m.list|);
  }

  ghost predicate AtomicAlloc(m: Shared, t: Shared, c: nat, n: Word, ptr: Word) {
    && Fits(m.list, n) && ptr == TakenAt(m.list, n) && t.list == Take(m.list, n)
    && t.held == if n > 0 then m.held[ptr := Block(c, n)] else m.held
  }

  // pmm_alloc without a range that is large enough.
  ghost predicate AtomicFailure(m: Shared, t: Shared, n: Word) {
    !Fits(m.list, n) && t.list == m.list && t.held == m.held
  }

  ghost predicate AtomicFree(m: Shared, t: Shared, c: nat, ptr: Word) {
    && ptr in m.held && m.held[ptr].cpu == c
    && t.list == PutBackwardFirst(m.list, Range(ptr, m.held[ptr].size)) && t.held == m.held - {ptr}
  }
}
