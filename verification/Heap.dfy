// malloc and free (kernel/src/stdlib.c) over an in-band range list, refilled
// from the high end of the kernel's virtual address window.
module Heap {
  import opened Words
  import opened Ranges
  import B = BlockSizes
  import L = RangeList
  import R = Refill
  import S = AddressSpace
  import V = PageTables

  // ----------------------------------------------------------------- block sizes

  // A size field in front of the client's bytes, room for a list node, multiples
  // of 8; both additions are the C ones.
  function BlockSize(p: Word): Word {
    var n := (p + 8) % WORD_LIMIT;
    var m := if n < L.NODE_SIZE then L.NODE_SIZE else n;
    if m % 8 != 0 then (m + 8) % WORD_LIMIT - (m + 8) % WORD_LIMIT % 8 else m
  }

  // A block is large enough exactly when the request leaves room for 16 more
  // bytes in a word; seven requests give no block at all, and the last eight
  // give the smallest one.
  lemma BlockSizeIsEnough(p: Word)
    ensures BlockSize(p) % 8 == 0
    ensures BlockSize(p) >= p + 8 <==> p <= WORD_LIMIT - 16
    ensures p <= WORD_LIMIT - 16 ==>
              L.NODE_SIZE <= BlockSize(p) && (BlockSize(p) < p + 16 || BlockSize(p) == L.NODE_SIZE)
    ensures WORD_LIMIT - 16 < p < WORD_LIMIT - 8 <==> BlockSize(p) == 0
    ensures WORD_LIMIT - 8 <= p ==> BlockSize(p) == L.NODE_SIZE
  {
  }

  // -------------------------------------------------------------------- the heap

  // The words of the refilled memory, the pool, the live blocks with their sizes,
  // and the lowest refilled address.
  datatype State = State(words: L.Memory, head: Word, nodes: seq<L.Node>, live: map<int, int>, low: int)

  ghost predicate NodeOk(n: L.Node, low: int) {
    && n.at == n.range.ptr && n.range.ptr % 8 == 0 && n.range.size % 8 == 0
    && L.NODE_SIZE <= n.range.size && low <= n.range.ptr && n.range.End() <= HEAP_END
  }

  // In-band, address-ordered, disjoint, aligned, and roomy enough for the headers.
  ghost predicate Tidy(s: seq<L.Node>, low: int)
    decreases s
  {
    s != [] ==> NodeOk(s[0], low) && Tidy(s[1..], s[0].range.End())
  }

  ghost predicate InLive(live: map<int, int>, a: int) {
    exists b :: b in live && b <= a < b + live[b]
  }

  ghost predicate Pooled(s: State, a: int) {
    Covers(L.RangesOf(s.nodes), a)
  }

  ghost predicate BlockOk(s: State, b: int) {
    && b in s.live && b % 8 == 0 && s.live[b] % 8 == 0 && L.NODE_SIZE <= s.live[b]
    && s.low <= b && b + s.live[b] <= HEAP_END
    && b in s.words && s.words[b] == s.live[b]
  }

  ghost predicate BlocksApart(live: map<int, int>) {
    forall b, c :: b in live && c in live && b < c ==> b + live[b] <= c
  }

  // Every refilled byte is in the pool or in exactly one live block, not in both.
  ghost predicate Partition(s: State) {
    && (forall a :: s.low <= a < HEAP_END <==> Pooled(s, a) || InLive(s.live, a))
    && (forall a :: !(Pooled(s, a) && InLive(s.live, a)))
    && BlocksApart(s.live)
  }

  ghost predicate Backed(s: State) {
    && HEAP_START <= s.low <= HEAP_END && s.low % PAGE_SIZE == 0
    && forall x :: s.low <= x < HEAP_END && x % 8 == 0 ==> x in s.words
  }

  ghost predicate HeapOk(s: State) {
    && L.Chain(s.words, s.head, s.nodes) && Tidy(s.nodes, s.low)
    && Backed(s) && Partition(s)
    && forall b :: b in s.live ==> BlockOk(s, b)
  }

  // What clients hold does not change.
  ghost predicate KeepsData(s: State, t: State) {
    forall b, x :: b in s.live && b in t.live && b <= x < b + s.live[b] && x % 8 == 0 && x in s.words ==>
      x in t.words && t.words[x] == s.words[x]
  }

  // ---------------------------------------------------------------- tidy lists

  lemma {:induction false} TidyAt(s: seq<L.Node>, low: int, k: nat)
    requires Tidy(s, low) && k < |s|
    ensures NodeOk(s[k], low)
    ensures forall a :: s[k].range.Contains(a) ==> Covers(L.RangesOf(s), a)
    decreases s
  {
    if k > 0 {
      TidyAt(s[1..], s[0].range.End(), k - 1);
    }
  }

  lemma {:induction false} TidyPair(s: seq<L.Node>, low: int, i: nat, j: nat)
    requires Tidy(s, low) && i < j < |s|
    ensures s[i].range.End() <= s[j].at
    decreases s
  {
    if i > 0 {
      TidyPair(s[1..], s[0].range.End(), i - 1, j - 1);
    } else {
      TidyAt(s[1..], s[0].range.End(), j - 1);
    }
  }

  lemma TidyApart(s: seq<L.Node>, low: int)
    requires Tidy(s, low)
    ensures L.Apart(s)
  {
    forall i, j | 0 <= i < j < |s| ensures s[i].at + L.NODE_SIZE <= s[j].at {
      TidyPair(s, low, i, j);
      TidyAt(s, low, i);
    }
  }

  lemma {:induction false} TidyShape(s: seq<L.Node>, low: int)
    requires Tidy(s, low)
    ensures L.InBand(s) && Separated(L.RangesOf(s))
    decreases s
  {
    if s != [] {
      TidyShape(s[1..], s[0].range.End());
    }
  }

  lemma {:induction false} TidyFit(s: seq<L.Node>, low: int)
    requires Tidy(s, low) && 0 < low
    ensures L.AllFit(s)
    decreases s
  {
    if s != [] {
      TidyFit(s[1..], s[0].range.End());
    }
  }

  predicate LeavesSliver(s: seq<L.Node>, n: int) {
    s != [] &&
    if s[0].range.size < n then LeavesSliver(s[1..], n)
    else 0 < s[0].range.size - n < L.NODE_SIZE
  }

  lemma {:induction false} WithdrawTidy(s: seq<L.Node>, low: int, n: int)
    requires Tidy(s, low) && n % 8 == 0 && 0 < n && !LeavesSliver(s, n)
    ensures Tidy(L.Withdraw(s, n), low)
    decreases s
  {
    if s != [] {
      if s[0].range.size < n {
        WithdrawTidy(s[1..], s[0].range.End(), n);
      } else {
        TidyFrom(s[1..], s[0].range.End(), low);
        if s[0].range.size > n {
          TidyFrom(s[1..], s[0].range.End(), s[0].range.End() - n);
        }
      }
    }
  }

  lemma TidyFrom(s: seq<L.Node>, low: int, other: int)
    requires Tidy(s, low) && (s != [] ==> other <= s[0].range.ptr)
    ensures Tidy(s, other)
  {
  }

  lemma JoinTidy(n: L.Node, t: seq<L.Node>, low: int)
    requires NodeOk(n, low) && Tidy(t, n.range.End()) && 0 < low
    ensures Tidy(L.Join(n, t), low) && L.Join(n, t)[0].at == n.at
  {
  }

  lemma {:induction false} AddTidy(s: seq<L.Node>, low: int, n: L.Node)
    requires Tidy(s, low) && NodeOk(n, low) && Disjoint(L.RangesOf(s), n.range) && 0 < low
    ensures Tidy(L.Add(s, n), low)
    decreases s
  {
    hide L.Join;
    if L.Follows(s, n) {
      if s != [] {
        TidyFrom(s, low, n.range.End());
      }
      JoinTidy(n, s, low);
    } else if L.Follows(s[1..], n) {
      assert Disjoint(L.RangesOf(s[1..]), n.range);
      if |s| > 1 {
        TidyFrom(s[1..], s[0].range.End(), n.range.End());
      }
      JoinTidy(n, s[1..], s[0].range.End());
      JoinTidy(s[0], L.Join(n, s[1..]), low);
    } else {
      AddTidy(s[1..], s[0].range.End(), n);
    }
  }

  // ------------------------------------------------------------------- the steps

  // malloc_refillPhysicalMemoryPool, once its pages are mapped: a node over the
  // new region is pushed in front of the pool.
  ghost function Refilled(s: seq<L.Node>, low: int, size: int): seq<L.Node> {
    L.Cons(L.Node(low - size, Range(low - size, size)), s)
  }

  ghost predicate RefillStep(s: State, t: State, size: int) {
    && t.live == s.live && t.low == s.low - size && t.nodes == Refilled(s.nodes, s.low, size)
    && L.Chain(t.words, t.head, t.nodes)
    && (forall x :: x in s.words && s.low <= x ==> x in t.words && t.words[x] == s.words[x])
    && (forall x :: t.low <= x < s.low && x % 8 == 0 ==> x in t.words)
  }

  // mm_alloc and the store of the size field.
  ghost predicate TakeStep(s: State, t: State, n: int, b: int) {
    && L.HasRoom(s.nodes, n) && b == L.Result(s.nodes, n)
    && t.nodes == L.Withdraw(s.nodes, n) && t.live == s.live[b := n] && t.low == s.low
    && L.Chain(t.words, t.head, t.nodes)
    && t.words.Keys == s.words.Keys + {b} && t.words[b] == n
    && forall x :: x in s.words && x % 8 == 0 && x != b && !Pooled(s, x) && s.low <= x < HEAP_END ==>
        t.words[x] == s.words[x]
  }

  // free: the block becomes a node of the size malloc stored.
  ghost predicate FreeStep(s: State, t: State, b: int) {
    && b in s.live
    && t.nodes == L.Add(s.nodes, L.Node(b, Range(b, s.live[b]))) && t.live == s.live - {b} && t.low == s.low
    && L.Chain(t.words, t.head, t.nodes)
    && t.words.Keys == s.words.Keys
    && forall x :: x in s.words && x % 8 == 0 && !Pooled(s, x) && !(b <= x < b + s.live[b]) && s.low <= x < HEAP_END ==>
         t.words[x] == s.words[x]
  }

  // A client writes into the part of its block that malloc returned.
  ghost predicate ClientStep(s: State, t: State, b: int) {
    && b in s.live
    && t == s.(words := t.words) && t.words.Keys == s.words.Keys
    && forall x :: x in s.words && !(b + 8 <= x < b + s.live[b]) ==> t.words[x] == s.words[x]
  }

  // ------------------------------------------------------ what the steps keep

  lemma RefilledList(s: State, t: State, size: int)
    requires Tidy(s.nodes, s.low) && RefillStep(s, t, size)
    requires L.NODE_SIZE <= size && size % 8 == 0 && s.low % 8 == 0 && s.low <= HEAP_END
    ensures Tidy(t.nodes, t.low)
    ensures forall a :: Pooled(t, a) <==> Pooled(s, a) || t.low <= a < s.low
  {
    hide L.Chain;
    var n := t.nodes[0];
    assert t.nodes[1..] == s.nodes && n.range.End() == s.low;
    assert L.RangesOf(t.nodes) == Cons(n.range, L.RangesOf(s.nodes));
  }

  lemma RefillKeeps(s: State, t: State, size: int)
    requires HeapOk(s) && RefillStep(s, t, size)
    requires L.NODE_SIZE <= size && size % PAGE_SIZE == 0 && HEAP_START <= s.low - size
    ensures HeapOk(t) && KeepsData(s, t)
  {
    hide L.Chain, Tidy, Pooled, Refilled, Partition, BlockOk, KeepsData;
    RefillAligned(s.low, size);
    RefilledList(s, t, size);
    RefilledPartition(s, t);
    RefilledBlocks(s, t);
  }

  lemma RefillAligned(low: int, size: int)
    requires low % PAGE_SIZE == 0 && size % PAGE_SIZE == 0
    ensures size % 8 == 0 && low % 8 == 0 && (low - size) % PAGE_SIZE == 0
  {
  }

  lemma RefilledBlocks(s: State, t: State)
    requires t.live == s.live && t.low <= s.low && forall b :: b in s.live ==> BlockOk(s, b)
    requires forall x :: x in s.words && s.low <= x ==> x in t.words && t.words[x] == s.words[x]
    ensures (forall b :: b in t.live ==> BlockOk(t, b)) && KeepsData(s, t)
  {
    forall b | b in s.live ensures BlockOk(t, b) && s.low <= b {
      assert BlockOk(s, b);
    }
  }

  lemma RefilledPartition(s: State, t: State)
    requires Partition(s) && t.live == s.live && t.low <= s.low <= HEAP_END
    requires forall a :: Pooled(t, a) <==> Pooled(s, a) || t.low <= a < s.low
    ensures Partition(t)
  {
    hide Pooled, InLive;
    LowBytes(s);
  }

  // Nothing of the heap lies below the refilled memory.
  lemma LowBytes(s: State)
    requires Partition(s)
    ensures forall a :: a < s.low ==> !Pooled(s, a) && !InLive(s.live, a)
  {
  }

  lemma {:induction false} ResultInside(s: seq<L.Node>, low: int, n: int)
    requires Tidy(s, low) && L.HasRoom(s, n) && n % 8 == 0 && 0 < n
    ensures L.Result(s, n) % 8 == 0 && low <= L.Result(s, n) && L.Result(s, n) + n <= HEAP_END
    decreases s
  {
    if s[0].range.size < n {
      ResultInside(s[1..], s[0].range.End(), n);
    }
  }

  // mm_alloc takes exactly the block out of the pool.
  lemma TakenBytes(s: seq<L.Node>, low: int, n: int)
    requires Tidy(s, low) && L.HasRoom(s, n) && 0 < n
    ensures var b := L.Result(s, n);
            && (forall a :: b <= a < b + n ==> Covers(L.RangesOf(s), a))
            && (forall a :: Covers(L.RangesOf(L.Withdraw(s, n)), a) <==> Covers(L.RangesOf(s), a) && !(b <= a < b + n))
  {
    TidyShape(s, low);
    L.TakeInBand(s, n);
    TakeRemovesOneBlock(L.RangesOf(s), n);
    var block := Range(L.Result(s, n), n);
    forall a ensures block.Contains(a) <==> L.Result(s, n) <= a < L.Result(s, n) + n {
    }
  }

  lemma TakenPooled(s: State, t: State, n: int, b: int)
    requires HeapOk(s) && TakeStep(s, t, n, b) && 0 < n
    ensures forall a :: b <= a < b + n ==> Pooled(s, a)
    ensures forall a :: Pooled(t, a) <==> Pooled(s, a) && !(b <= a < b + n)
  {
    TakenBytes(s.nodes, s.low, n);
  }

  lemma LiveGrows(s: State, t: State, n: int, b: int)
    requires Partition(s) && t.live == s.live[b := n] && t.low == s.low && 0 < n
    requires forall c :: c in s.live ==> 0 < s.live[c]
    requires forall a :: b <= a < b + n ==> Pooled(s, a)
    requires forall a :: Pooled(t, a) <==> Pooled(s, a) && !(b <= a < b + n)
    ensures b !in s.live && Partition(t)
  {
    hide Pooled;
    assert Pooled(s, b);
    assert b in s.live ==> InLive(s.live, b);
    forall a ensures InLive(t.live, a) <==> InLive(s.live, a) || b <= a < b + n {
      if InLive(s.live, a) {
        var c :| c in s.live && c <= a < c + s.live[c];
        assert c in t.live && t.live[c] == s.live[c];
      }
      assert b in t.live;
    }
    forall c, d | c in t.live && d in t.live && c < d ensures c + t.live[c] <= d {
      if c == b {
        assert InLive(s.live, d);
      } else if d == b {
        assert Pooled(s, b) && !InLive(s.live, b);
      }
    }
    assert forall a :: t.low <= a < HEAP_END <==> Pooled(t, a) || InLive(t.live, a);
    assert forall a :: !(Pooled(t, a) && InLive(t.live, a));
  }

  lemma TakeKeeps(s: State, t: State, n: int, b: int)
    requires HeapOk(s) && TakeStep(s, t, n, b)
    requires L.NODE_SIZE <= n && n % 8 == 0 && !LeavesSliver(s.nodes, n)
    ensures b !in s.live && HeapOk(t) && KeepsData(s, t)
  {
    hide L.Chain, Pooled, L.Withdraw, L.HasRoom, L.Result, LeavesSliver;
    WithdrawTidy(s.nodes, s.low, n);
    ResultInside(s.nodes, s.low, n);
    TakenPooled(s, t, n, b);
    forall c | c in s.live ensures 0 < s.live[c] {
      assert BlockOk(s, c);
    }
    LiveGrows(s, t, n, b);
    hide Tidy, Partition;
    assert Pooled(s, b);
    forall c, x | c in s.live && c <= x < c + s.live[c] && x % 8 == 0 && x in s.words
      ensures t.words[x] == s.words[x] && x != b
    {
      assert BlockOk(s, c);
      LiveNotFree(s, c, x);
    }
    forall c | c in t.live ensures BlockOk(t, c) {
      assert c != b ==> BlockOk(s, c);
    }
  }

  lemma LiveNotFree(s: State, c: int, x: int)
    requires Partition(s) && c in s.live && c <= x < c + s.live[c]
    ensures !Pooled(s, x) && InLive(s.live, x)
  {
  }

  lemma FreedBytes(s: State, t: State, b: int)
    requires HeapOk(s) && FreeStep(s, t, b)
    ensures Disjoint(L.RangesOf(s.nodes), Range(b, s.live[b])) && NodeOk(L.Node(b, Range(b, s.live[b])), s.low)
    ensures forall a :: Pooled(t, a) <==> Pooled(s, a) || b <= a < b + s.live[b]
  {
    var r := Range(b, s.live[b]);
    assert BlockOk(s, b);
    TidyShape(s.nodes, s.low);
    forall a | r.Contains(a) ensures !Covers(L.RangesOf(s.nodes), a) {
      LiveNotFree(s, b, a);
    }
    DisjointFromBytes(L.RangesOf(s.nodes), r);
    TidyFit(s.nodes, s.low);
    L.AddInBand(s.nodes, L.Node(b, r));
    PutsAdd(L.RangesOf(s.nodes), r);
    forall a ensures r.Contains(a) <==> b <= a < b + s.live[b] {
    }
  }

  lemma LiveShrinks(s: State, t: State, b: int)
    requires Partition(s) && b in s.live && t.live == s.live - {b} && t.low == s.low
    requires forall a :: Pooled(t, a) <==> Pooled(s, a) || b <= a < b + s.live[b]
    ensures Partition(t)
  {
    hide Pooled;
    forall a ensures InLive(s.live, a) <==> InLive(t.live, a) || b <= a < b + s.live[b] {
      if InLive(t.live, a) {
        var c :| c in t.live && c <= a < c + t.live[c];
        assert c in s.live && s.live[c] == t.live[c];
      }
      if InLive(s.live, a) && !(b <= a < b + s.live[b]) {
        var c :| c in s.live && c <= a < c + s.live[c];
        assert c in t.live;
      }
    }
    forall a ensures t.low <= a < HEAP_END <==> Pooled(t, a) || InLive(t.live, a) {
      assert InLive(s.live, a) || !InLive(s.live, a);
    }
    forall a ensures !(Pooled(t, a) && InLive(t.live, a)) {
      assert InLive(s.live, a) || !InLive(s.live, a);
      if b <= a < b + s.live[b] {
        OtherBlocks(s.live, b, a);
      }
    }
  }

  lemma OtherBlocks(live: map<int, int>, b: int, a: int)
    requires BlocksApart(live) && b in live && b <= a < b + live[b]
    ensures !InLive(live - {b}, a)
  {
    forall c | c in live - {b} ensures !(c <= a < c + live[c]) {
      assert c < b || b < c;
    }
  }

  lemma FreedTidy(s: State, t: State, b: int)
    requires HeapOk(s) && FreeStep(s, t, b)
    ensures Tidy(t.nodes, t.low) && forall a :: Pooled(t, a) <==> Pooled(s, a) || b <= a < b + s.live[b]
  {
    hide L.Chain, L.Add, Pooled;
    FreedBytes(s, t, b);
    AddTidy(s.nodes, s.low, L.Node(b, Range(b, s.live[b])));
  }

  lemma FreeKeeps(s: State, t: State, b: int)
    requires HeapOk(s) && FreeStep(s, t, b)
    ensures HeapOk(t) && KeepsData(s, t)
  {
    hide L.Chain, Pooled, L.Add;
    FreedTidy(s, t, b);
    LiveShrinks(s, t, b);
    forall c, x | c in t.live && c <= x < c + s.live[c] && x % 8 == 0 && x in s.words
      ensures t.words[x] == s.words[x]
    {
      assert BlockOk(s, c) && BlockOk(s, b);
      LiveNotFree(s, c, x);
    }
    forall c | c in t.live ensures BlockOk(t, c) {
      assert BlockOk(s, c);
    }
  }

  lemma ClientKeeps(s: State, t: State, b: int)
    requires HeapOk(s) && ClientStep(s, t, b)
    ensures HeapOk(t)
  {
    assert BlockOk(s, b);
    forall k | 0 <= k < |s.nodes| ensures L.SameHeader(s.words, t.words, s.nodes[k]) {
      TidyAt(s.nodes, s.low, k);
      forall x | s.nodes[k].at <= x < s.nodes[k].at + L.NODE_SIZE && x in s.words
        ensures t.words[x] == s.words[x]
      {
        if b + 8 <= x < b + s.live[b] {
          LiveNotFree(s, b, x);
        }
      }
    }
    L.ChainFrame(s.words, t.words, s.head, s.nodes);
    forall a ensures Pooled(t, a) == Pooled(s, a) {
    }
    forall c | c in t.live ensures BlockOk(t, c) {
      assert BlockOk(s, c);
      if b < c {
        assert b + s.live[b] <= c;
      }
    }
  }

  // ----------------------------------------------------------------- slivers

  // Cutting a node down to 8 or 16 bytes puts the size field of the new block on
  // top of that node's header: memory then no longer holds the list mm_alloc
  // left. These are the only remainders that do so.
  lemma {:induction false} SliverBreaksPool(words: L.Memory, link: Word, s: seq<L.Node>, low: int, n: Word)
    requires Tidy(s, low) && HEAP_START <= low && L.HasRoom(s, n) && L.NODE_SIZE <= n && n % 8 == 0
    requires LeavesSliver(s, n) && L.Result(s, n) in words && words[L.Result(s, n)] == n
    ensures !L.Chain(words, link, L.Withdraw(s, n))
    decreases s
  {
    if L.Chain(words, link, L.Withdraw(s, n)) && s[0].range.size < n {
      SliverBreaksPool(words, words[s[0].at], s[1..], s[0].range.End(), n);
    }
  }

  // ---------------------------------------------------------------- whole runs

  datatype Step = Refill(size: int) | Take(n: int, b: int) | Give(b: int) | Client(b: int)

  // A step of a run, with what its caller or the window guarantees.
  ghost predicate Next(s: State, t: State, step: Step) {
    match step
    case Refill(size) =>
      RefillStep(s, t, size) && L.NODE_SIZE <= size && size % PAGE_SIZE == 0 && HEAP_START <= s.low - size
    case Take(n, b) => TakeStep(s, t, n, b) && L.NODE_SIZE <= n && n % 8 == 0 && !LeavesSliver(s.nodes, n)
    case Give(b) => FreeStep(s, t, b)
    case Client(b) => ClientStep(s, t, b)
  }

  ghost predicate IsRun(run: seq<State>, steps: seq<Step>) {
    |run| == |steps| + 1 && forall i :: 0 <= i < |steps| ==> Next(run[i], run[i + 1], steps[i])
  }

  // From an empty heap, whatever is allocated, freed, refilled and written: the
  // pool is in address order, every byte refilled so far is free or in exactly
  // one live block, and each live block still records the size it was given.
  lemma {:induction false} RunKeepsHeap(run: seq<State>, steps: seq<Step>)
    requires IsRun(run, steps) && HeapOk(run[0])
    ensures HeapOk(run[|steps|])
    decreases |steps|
  {
    if steps != [] {
      var k := |steps| - 1;
      RunKeepsHeap(run[..k + 1], steps[..k]);
      var s, t := run[k], run[k + 1];
      match steps[k]
      case Refill(size) => RefillKeeps(s, t, size);
      case Take(n, b) => TakeKeeps(s, t, n, b);
      case Give(b) => FreeKeeps(s, t, b);
      case Client(b) => ClientKeeps(s, t, b);
    }
  }

  // A client's block, from the step that hands it out to the step that takes it
  // back, holds what the client wrote.
  lemma {:induction false} BlockIsKept(run: seq<State>, steps: seq<Step>, b: int, x: int)
    requires IsRun(run, steps) && HeapOk(run[0])
    requires b in run[0].live && b <= x < b + run[0].live[b] && x % 8 == 0
    requires forall i :: 0 <= i < |steps| ==> steps[i] != Give(b) && steps[i] != Client(b)
    ensures var t := run[|steps|];
            b in t.live && t.live[b] == run[0].live[b] && x in run[0].words && x in t.words
              && t.words[x] == run[0].words[x]
    decreases |steps|
  {
    assert BlockOk(run[0], b);
    if steps != [] {
      var k := |steps| - 1;
      BlockIsKept(run[..k + 1], steps[..k], b, x);
      RunKeepsHeap(run[..k + 1], steps[..k]);
      var s, t := run[k], run[k + 1];
      match steps[k]
      case Refill(size) => RefillKeeps(s, t, size);
      case Take(n, c) => TakeKeeps(s, t, n, c);
      case Give(c) => FreeKeeps(s, t, c);
      case Client(c) => ClientSpares(s, t, c, b, x);
    }
  }

  lemma ClientSpares(s: State, t: State, c: int, b: int, x: int)
    requires HeapOk(s) && ClientStep(s, t, c) && b in s.live && b != c && b <= x < b + s.live[b] && x in s.words
    ensures t.words[x] == s.words[x]
  {
    assert BlockOk(s, b) && BlockOk(s, c);
  }

  lemma EmptyHeapOk(s: State)
    requires s == State(map[], 0, [], map[], HEAP_END)
    ensures HeapOk(s)
  {
  }

  lemma OneNode(words: L.Memory, n: L.Node)
    requires n.at < WORD_LIMIT && L.HeaderAt(words, n) && words[n.at] == 0
    ensures L.Chain(words, n.at, [n]) && L.Apart([n])
  {
  }

  // The two stores that cut one entry down leave it the only one.
  lemma OneNodeTaken(n: L.Node, size: int)
    requires 0 <= size
    ensures L.HasRoom([n], size) <==> size <= n.range.size
    ensures size < n.range.size ==>
              && L.Result([n], size) == n.range.End() - size
              && L.Withdraw([n], size) == [L.Node(n.at, Range(n.range.ptr, n.range.size - size))]
    ensures size > n.range.size ==> L.Withdraw([n], size) == [n]
  {
  }

  function Pushed(words: L.Memory, base: Word, size: Word, head: Word, contents: int -> Word): L.Memory
  {
    var mapped := words + map x | base <= x < base + size && x % 8 == 0 :: contents(x);
    mapped[base + 8 := base][base + 16 := size][base := head]
  }

  lemma PushedWords(words: L.Memory, base: Word, size: Word, head: Word, contents: int -> Word)
    requires L.NODE_SIZE <= size
    ensures var t := Pushed(words, base, size, head, contents);
            && base in t && base + 8 in t && base + 16 in t
            && t[base] == head && t[base + 8] == base && t[base + 16] == size
            && (forall x :: x in words && base + size <= x ==> x in t && t[x] == words[x])
            && (forall x :: base <= x < base + size && x % 8 == 0 ==> x in t)
  {
  }

  // A word that is not in the pool is in no node's header.
  lemma PoolClear(s: seq<L.Node>, low: int, x: int)
    requires Tidy(s, low) && x % 8 == 0 && !Covers(L.RangesOf(s), x)
    ensures forall k :: 0 <= k < |s| ==> L.Clear(s[k], x)
  {
    forall k | 0 <= k < |s| ensures L.Clear(s[k], x) {
      TidyAt(s, low, k);
    }
  }

  lemma PoolBounded(s: seq<L.Node>, low: int)
    requires Tidy(s, low) && 0 < low
    ensures forall k :: 0 <= k < |s| ==> L.Fit(s[k])
  {
    forall k | 0 <= k < |s| ensures L.Fit(s[k]) {
      TidyAt(s, low, k);
    }
  }

  // The size field does not touch the headers that are left.
  lemma SizeFieldKeepsChain(words: L.Memory, link: Word, s: seq<L.Node>, low: int, n: Word)
    requires Tidy(s, low) && L.HasRoom(s, n) && n % 8 == 0 && 0 < n && !LeavesSliver(s, n)
    requires L.Chain(words, link, L.Withdraw(s, n))
    ensures L.Chain(words[L.Result(s, n) := n], link, L.Withdraw(s, n))
  {
    hide L.Chain, Tidy, LeavesSliver, L.HasRoom, L.Withdraw, L.Result;
    var b, t := L.Result(s, n), L.Withdraw(s, n);
    WithdrawTidy(s, low, n);
    ResultInside(s, low, n);
    TakenBytes(s, low, n);
    PoolClear(t, low, b);
    forall k | 0 <= k < |t| ensures L.SameHeader(words, words[b := n], t[k]) {
      TidyAt(t, low, k);
    }
    L.ChainFrame(words, words[b := n], link, t);
  }

  lemma RefilledServes(s: State, t: State, n: Word)
    requires RefillStep(s, t, RoundUpPage(n)) && n <= RoundUpPage(n)
    ensures L.HasRoom(t.nodes, n) && t.live == s.live
    ensures t.nodes == Refilled(s.nodes, s.low, RoundUpPage(n))
  {
  }

  // A region that is longer or shorter than the reservation breaks the heap: it
  // reaches into what was refilled before, or leaves a gap below it.
  lemma OnlyExactRefill(s: State, t: State, total: int)
    requires HeapOk(s) && t.live == s.live && total > 0 && t.low < s.low
    requires t.nodes == L.Cons(L.Node(t.low, Range(t.low, total)), s.nodes)
    ensures HeapOk(t) ==> t.low + total == s.low
  {
    if HeapOk(t) && t.low + total != s.low {
      var border := if t.low + total < s.low then t.low + total else s.low;
      hide L.Chain, Tidy, InLive, BlockOk;
      PushedBytes(s, t, total);
      BorderByte(s, t, total, border);
      assert false;
    }
  }

  lemma PushedBytes(s: State, t: State, total: int)
    requires Tidy(s.nodes, s.low) && t.nodes == L.Cons(L.Node(t.low, Range(t.low, total)), s.nodes)
    ensures forall a :: Pooled(t, a) <==> Pooled(s, a) || t.low <= a < t.low + total
    ensures Tidy(t.nodes, t.low) ==> t.low + total <= HEAP_END && forall a :: Pooled(s, a) ==> t.low + total <= a
  {
    var n := t.nodes[0];
    assert t.nodes[1..] == s.nodes;
    assert L.RangesOf(t.nodes) == Cons(n.range, L.RangesOf(s.nodes));
    if Tidy(t.nodes, t.low) {
      TidyBytes(s.nodes, t.low + total);
    }
  }

  lemma {:induction false} TidyBytes(s: seq<L.Node>, low: int)
    requires Tidy(s, low)
    ensures forall a :: Covers(L.RangesOf(s), a) ==> low <= a
    decreases s
  {
    if s != [] {
      TidyBytes(s[1..], s[0].range.End());
    }
  }

  // The first byte that is covered twice or not at all.
  lemma BorderByte(s: State, t: State, total: int, a: int)
    requires Partition(s) && Partition(t) && t.live == s.live && total > 0 && s.low <= HEAP_END
    requires forall c :: Pooled(t, c) <==> Pooled(s, c) || t.low <= c < t.low + total
    requires t.low + total <= HEAP_END && forall c :: Pooled(s, c) ==> t.low + total <= c
    requires t.low < s.low && a == if t.low + total < s.low then t.low + total else s.low
    ensures t.low + total == s.low
  {
    hide Partition, Pooled, InLive;
    if t.low + total != s.low {
      EachByteOnce(t, a);
      if s.low <= a {
        EachByteOnce(s, a);
      } else {
        LowBytes(s);
      }
    }
  }

  lemma EachByteOnce(s: State, a: int)
    requires Partition(s) && s.low <= a < HEAP_END
    ensures Pooled(s, a) <==> !InLive(s.live, a)
  {
    assert Pooled(s, a) || InLive(s.live, a);
  }

  lemma BrokenPool(s: State)
    requires !L.Chain(s.words, s.head, s.nodes)
    ensures !HeapOk(s)
  {
  }

  // A live block's header, before and after free turns it into a node.
  lemma BlockHeader(s: State, b: int)
    requires HeapOk(s) && b in s.live
    ensures BlockOk(s, b) && b + 8 in s.words && b + 16 in s.words && 0 < b
    ensures L.Chain(s.words[b + 8 := b][b + 16 := s.live[b]], s.head, s.nodes)
    ensures forall i :: 0 <= i < |s.nodes| ==>
              && s.nodes[i].at == s.nodes[i].range.ptr
              && (s.nodes[i].at + L.NODE_SIZE <= b || b + L.NODE_SIZE <= s.nodes[i].at)
  {
    assert BlockOk(s, b);
    var after := s.words[b + 8 := b][b + 16 := s.live[b]];
    forall i | 0 <= i < |s.nodes|
      ensures s.nodes[i].at + L.NODE_SIZE <= b || b + L.NODE_SIZE <= s.nodes[i].at
      ensures s.nodes[i].at == s.nodes[i].range.ptr && L.SameHeader(s.words, after, s.nodes[i])
    {
      TidyAt(s.nodes, s.low, i);
      LiveNotFree(s, b, b);
      LiveNotFree(s, b, b + 8);
      LiveNotFree(s, b, b + 16);
    }
    L.ChainFrame(s.words, after, s.head, s.nodes);
  }

  lemma RefillChain(s: State, words: L.Memory, base: Word, size: Word)
    requires HeapOk(s) && base == s.low - size && L.NODE_SIZE <= size && 0 < base
    requires base in words && base + 8 in words && base + 16 in words
    requires words[base] == s.head && words[base + 8] == base && words[base + 16] == size
    requires forall x :: x in s.words && s.low <= x ==> x in words && words[x] == s.words[x]
    ensures L.Chain(words, base, Refilled(s.nodes, s.low, size))
  {
    forall k | 0 <= k < |s.nodes| ensures L.SameHeader(s.words, words, s.nodes[k]) {
      TidyAt(s.nodes, s.low, k);
    }
    L.ChainFrame(s.words, words, s.head, s.nodes);
  }

  // ------------------------------------------------------------------ the methods

  // How malloc_refillPhysicalMemoryPool goes. NoWindow: the reservation does not
  // fit. Short: the loop ended, or never ends, with too little mapped. Hung:
  // vmm_map does not return.
  datatype Refilling = NoWindow | Grown(total: int) | Short(end: B.End) | Hung

  // Unfinished: the refill did not add exactly what it reserved.
  datatype MallocResult = Block(ptr: Word) | Null | Unfinished(refill: Refilling)

  // The number of the first page that is reserved below low.
  function ReservedPage(low: int, n: Word): int {
    (low - RoundUpPage(n)) / PAGE_SIZE % V.VIRTUAL_PAGES
  }

  lemma ReservedAt(base: Word, low: int, n: Word)
    requires base == low - RoundUpPage(n) && low % PAGE_SIZE == 0 && RoundUpPage(n) % PAGE_SIZE == 0
    ensures S.FirstPage(base) == ReservedPage(low, n) && base % PAGE_SIZE == 0
  {
  }

  // What mm_alloc finds in the pool, after a refill when nothing fits.
  ghost function Stock(s: State, n: Word): seq<L.Node> {
    if L.HasRoom(s.nodes, n) then s.nodes else Refilled(s.nodes, s.low, RoundUpPage(n))
  }

  // A new block of n bytes, cut from the stock.
  ghost predicate HandsOut(s: State, t: State, n: Word, b: int) {
    && b !in s.live && t.live == s.live[b := n] && KeepsData(s, t)
    && L.HasRoom(Stock(s, n), n) && b == L.Result(Stock(s, n), n) && t.nodes == L.Withdraw(Stock(s, n), n)
  }

  // The loop's blocks can only add up to the reservation.
  ghost predicate AddsUp(n: Word) {
    RoundUpPage(n) > 0 && B.Splits(RoundUpPage(n), RoundUpPage(n))
  }

  // For a power of two of pages, and page 0 not free, the refill goes through
  // exactly when the free frames are enough for the pages and the tables they lack.
  ghost predicate Decided(w: V.View, low: int, n: Word, served: bool) {
    R.Decided(w, ReservedPage(low, n), RoundUpPage(n), served)
  }

  lemma BackedFacts(s: State)
    requires HeapOk(s)
    ensures HEAP_START <= s.low <= HEAP_END && s.low % PAGE_SIZE == 0
  {
  }

  // Total bytes from the first page on are mapped, each page to a frame of its own
  // that was free and now is neither free nor a table.
  ghost predicate FramesBehind(w: V.View, x: V.View, first: int, frames: seq<int>, total: int) {
    R.Standing(w, x, first, frames) && 0 <= total < WORD_LIMIT && |frames| == RoundUpPage(total) / PAGE_SIZE
  }

  // A refill that falls short: the loop has ended, as far as it got, with less
  // than was asked for, and unless page 0 was free it has only run out of memory
  // when no frame was left.
  ghost predicate FallsShort(w: V.View, x: V.View, first: int, frames: seq<int>, n: Word, end: B.End) {
    && (end.Exhausted? || end.Refused? || end.Zero?) && 0 <= end.total < n
    && (exists outcomes :: end == B.Loop(RoundUpPage(n), 0, n, outcomes))
    && FramesBehind(w, x, first, frames, end.total)
    && (!end.Refused? && 0 !in w.free ==> x.free == {})
  }

  // The two ways not to finish.
  ghost predicate Unserved(w: V.View, x: V.View, first: int, frames: seq<int>, n: Word, refill: Refilling) {
    match refill
    case Short(end) => FallsShort(w, x, first, frames, n, end)
    case Hung => R.StuckAt(w, x, first, frames)
    case _ => false
  }

  lemma {:induction false} ShortEnds(block: int, total: int, size: int, outcomes: seq<bool>)
    ensures var end := B.Loop(block, total, size, outcomes);
            end.Exhausted? || end.Refused? || end.Zero? ==> end.total < size
    decreases |outcomes|
  {
    if outcomes != [] {
      ShortEnds(block, total + block, size, outcomes[1..]);
      ShortEnds(block / 2, total, size, outcomes[1..]);
    }
  }

  lemma FilledEnough(goal: int, size: int, outcomes: seq<bool>)
    ensures B.Loop(goal, 0, size, outcomes).Filled? ==> B.Loop(goal, 0, size, outcomes).total >= size
  {
    LoopFills(goal, 0, size, outcomes);
  }

  lemma {:induction false} LoopFills(block: int, total: int, size: int, outcomes: seq<bool>)
    ensures B.Loop(block, total, size, outcomes).Filled? ==> B.Loop(block, total, size, outcomes).total >= size
    decreases |outcomes|
  {
    if outcomes != [] {
      LoopFills(block, total + block, size, outcomes[1..]);
      LoopFills(block / 2, total, size, outcomes[1..]);
    }
  }

  // With a power of two of pages, what is mapped is what is reserved.
  lemma OnlyExactDecides(low: int, n: Word, w: V.View, refill: Refilling)
    requires 0 < n <= WORD_LIMIT - PAGE_SIZE
    requires Decided(w, low, n, refill.Grown?) && (refill.Grown? && AddsUp(n) ==> refill.total == RoundUpPage(n))
    ensures Decided(w, low, n, refill.Grown? && refill.total == RoundUpPage(n))
  {
    RoundUpIsLeast(n);
    if B.PowerOfTwo(RoundUpPage(n) / PAGE_SIZE) {
      B.PowersSplit(RoundUpPage(n));
    }
  }

  lemma PushedIsRefill(s: State, t: State, base: Word, size: Word)
    requires L.NODE_SIZE <= size && 0 < base && t.low == base && t.head == base && t.live == s.live
    requires base in t.words && base + 8 in t.words && base + 16 in t.words
    requires t.words[base] == s.head && t.words[base + 8] == base && t.words[base + 16] == size
    requires forall x :: x in s.words && base + size <= x ==> x in t.words && t.words[x] == s.words[x]
    requires forall x :: base <= x < base + size && x % 8 == 0 ==> x in t.words
    requires t.nodes == L.Cons(L.Node(base, Range(base, size)), s.nodes)
    ensures HeapOk(s) && base + size == s.low ==> RefillStep(s, t, size)
  {
    hide L.Chain, Tidy, Partition, BlockOk;
    if HeapOk(s) && base + size == s.low {
      RefillChain(s, t.words, base, size);
    }
  }

  // The block is cut from the pool m, which is the old one or the refilled one.
  lemma HandedOut(s: State, m: State, t: State, n: Word, b: int)
    requires HeapOk(m) && TakeStep(m, t, n, b) && L.NODE_SIZE <= n && n % 8 == 0 && !LeavesSliver(m.nodes, n)
    requires m.nodes == Stock(s, n) && m.live == s.live && KeepsData(s, m)
    ensures HeapOk(t) && HandsOut(s, t, n, b)
  {
    hide HeapOk, Stock, LeavesSliver, L.Withdraw, L.Result, L.Chain;
    TakeKeeps(m, t, n, b);
  }

  lemma EnoughRounded(n: Word)
    requires n <= WORD_LIMIT - PAGE_SIZE
    ensures n <= RoundUpPage(n)
  {
    RoundUpIsLeast(n);
  }

  lemma KeepsAll(s: State)
    ensures KeepsData(s, s)
  {
  }

  lemma BlockAddress(s: State, n: Word, b: int)
    requires HeapOk(s) && L.HasRoom(s.nodes, n) && n % 8 == 0 && 0 < n && b == L.Result(s.nodes, n)
    ensures 0 < b && b + 8 < WORD_LIMIT
  {
    ResultInside(s.nodes, s.low, n);
  }

  class Heap {
    const pool: L.RangeList      // s_mallocFreePhysicalMemoryPool, and the words of the refilled memory
    const window: L.RangeList    // the kernel context's map: free virtual addresses
    ghost var live: map<int, int>
    ghost var low: int

    ghost function Now(): State
      reads this, pool
    {
      State(pool.words, pool.head, pool.nodes, live, low)
    }

    // The one entry of the window is stored elsewhere, in a page of the entry pool.
    ghost predicate WindowEndsAt(end: int)
      reads window
    {
      && |window.nodes| == 1 && window.Valid()
      && window.nodes[0].range == Range(HEAP_START, end - HEAP_START) && HEAP_START < end <= HEAP_END
    }

    ghost predicate Valid()
      reads this, pool, window
    {
      pool != window && HeapOk(Now()) && WindowEndsAt(low)
    }

    constructor (entry: Word)
      requires 0 < entry && entry + L.NODE_SIZE <= HEAP_START
      ensures Valid() && fresh(pool) && fresh(window) && live == map[] && low == HEAP_END && pool.nodes == []
      ensures window.nodes == [L.Node(entry, Range(0xffff_ff80_0000_0000, 0x7f_8000_0000))]
    {
      pool := new L.RangeList(map[]);
      window := new L.RangeList(map[entry := 0, entry + 8 := HEAP_START, entry + 16 := HEAP_END - HEAP_START]);
      live := map[];
      low := HEAP_END;
      new;
      window.head := entry;
      window.nodes := [L.Node(entry, Range(HEAP_START, HEAP_END - HEAP_START))];
      EmptyHeapOk(Now());
      OneNode(window.words, window.nodes[0]);
    }

    // vmm_alloc
    method Reserve(size: Word) returns (base: Word)
      requires 0 < size != low - HEAP_START && WindowEndsAt(low)
      modifies window
      ensures base == if size < low - HEAP_START then low - size else 0
      ensures WindowEndsAt(if base == 0 then low else base)
    {
      OneNodeTaken(window.nodes[0], size);
      assert window.nodes == [window.nodes[0]];
      base := window.Alloc(size);
    }

    // The header stores in front of the mapped region; contents gives the words
    // that the new page frames hold.
    method Push(base: Word, size: Word, contents: int -> Word)
      requires L.NODE_SIZE <= size && HEAP_START <= base < HEAP_END
      modifies this, pool
      ensures low == base && live == old(live) && pool.nodes == L.Cons(L.Node(base, Range(base, size)), old(pool.nodes))
      ensures HeapOk(old(Now())) && base + size == old(low) ==> RefillStep(old(Now()), Now(), size)
    {
      hide HeapOk, RefillStep, Pushed;
      ghost var s := Now();
      pool.words := Pushed(pool.words, base, size, pool.head, contents);
      PushedWords(s.words, base, size, s.head, contents);
      pool.head := base;
      low := base;
      pool.nodes := L.Cons(L.Node(base, Range(base, size)), pool.nodes);
      PushedIsRefill(s, Now(), base, size);
    }

    // malloc_refillPhysicalMemoryPool, up to the rollback of a refill that falls
    // short, for a request that does not use the window up exactly.
    method Refill(n: Word, space: S.AddressSpace, contents: int -> Word) returns (r: Refilling, ghost frames: seq<int>)
      requires Valid() && L.NODE_SIZE <= n <= WORD_LIMIT - PAGE_SIZE && RoundUpPage(n) != low - HEAP_START
      requires space.Valid()
      modifies this, pool, window, space`tab, space`lost, space.pmm, space.pmm.memory
      ensures space.Valid() && (!r.Grown? ==> Now() == old(Now()))
      ensures r.NoWindow? <==> RoundUpPage(n) > old(low) - HEAP_START
      ensures r.NoWindow? ==> Valid() && space.Now() == old(space.Now())
      ensures r.Grown? ==> FramesBehind(old(space.Now()), space.Now(), ReservedPage(old(low), n), frames, r.total)
      ensures r.Grown? ==> (Valid() <==> r.total == RoundUpPage(n))
      ensures r.Grown? && Valid() ==> RefillStep(old(Now()), Now(), RoundUpPage(n)) && KeepsData(old(Now()), Now())
      ensures r.Grown? && AddsUp(n) ==> r.total == RoundUpPage(n)
      ensures r.Short? || r.Hung? ==>
                Unserved(old(space.Now()), space.Now(), ReservedPage(old(low), n), frames, n, r)
      ensures !r.NoWindow? ==> Decided(old(space.Now()), old(low), n, r.Grown?)
    {
      hide HeapOk, L.Chain, L.Apart, RefillStep, RoundUpPage, R.Standing, R.Decided, B.Splits, KeepsData, V.TreeOk;
      ghost var s := Now();
      frames := [];
      var size := RoundUpPage(n);
      RoundUpIsLeast(n);
      BackedFacts(s);
      var base := Reserve(size);
      if base == 0 {
        return NoWindow, frames;
      }
      ReservedAt(base, s.low, n);
      var filling;
      ghost var outcomes;
      filling, frames, outcomes := R.Fill(space, base, n);
      if filling.Hangs? {
        return Hung, frames;
      }
      if !filling.end.Filled? {
        ShortEnds(size, 0, n, outcomes);
        return Short(filling.end), frames;
      }
      var total: Word := filling.end.total;
      FilledEnough(size, n, outcomes);
      Push(base, total, contents);
      if total == size {
        RefillKeeps(s, Now(), size);
      } else {
        OnlyExactRefill(s, Now(), total);
      }
      r := Grown(total);
    }

    // mm_alloc on the pool and, when it finds a block, the store of its size field.
    method Claim(n: Word) returns (b: Word)
      requires HeapOk(Now()) && L.NODE_SIZE <= n && n % 8 == 0
      modifies pool, this`live
      ensures b == 0 <==> !L.HasRoom(old(pool.nodes), n)
      ensures b == 0 ==> Now() == old(Now())
      ensures b != 0 ==> pool.nodes == L.Withdraw(old(pool.nodes), n) && b == L.Result(old(pool.nodes), n)
      ensures b != 0 ==> live == old(live)[b := n] && b + n <= HEAP_END
      ensures b != 0 && !LeavesSliver(old(pool.nodes), n) ==> TakeStep(old(Now()), Now(), n, b)
      ensures b != 0 && LeavesSliver(old(pool.nodes), n) ==> !L.Chain(pool.words, pool.head, pool.nodes)
    {
      hide L.Chain, Tidy, LeavesSliver, L.HasRoom, L.Withdraw, L.Result, Partition, L.Apart;
      ghost var s := Now();
      TidyApart(s.nodes, s.low);
      PoolBounded(s.nodes, s.low);
      b := pool.Alloc(n);
      if L.HasRoom(s.nodes, n) {
        ResultInside(s.nodes, s.low, n);
        forall x | x in s.words && x % 8 == 0 && !Pooled(s, x) ensures pool.words[x] == s.words[x] {
          PoolClear(s.nodes, s.low, x);
        }
        if !LeavesSliver(s.nodes, n) {
          SizeFieldKeepsChain(pool.words, pool.head, s.nodes, s.low, n);
        } else {
          SliverBreaksPool(pool.words[b := n], pool.head, s.nodes, s.low, n);
        }
      }
      if b != 0 {
        pool.words := pool.words[b := n];
        live := live[b := n];
      }
    }

    // malloc. It returns NULL, and nothing has changed, exactly when nothing fits
    // and the window has no room for a refill. A block is cut from the stock, and
    // the heap stays well formed exactly when the node keeps 0 or at least 24
    // bytes; the pages of a refill are backed by frames of their own. For a power
    // of two of pages, and page 0 not free, malloc is served exactly when the free
    // frames are enough for the pages and the tables they lack.
    method Malloc(p: Word, space: S.AddressSpace, contents: int -> Word)
      returns (r: MallocResult, ghost frames: seq<int>)
      requires Valid() && L.NODE_SIZE <= BlockSize(p) <= WORD_LIMIT - PAGE_SIZE
      requires L.HasRoom(pool.nodes, BlockSize(p)) || RoundUpPage(BlockSize(p)) != low - HEAP_START
      requires space.Valid()
      modifies this, pool, window, space`tab, space`lost, space.pmm, space.pmm.memory
      ensures space.Valid()
      ensures L.HasRoom(old(pool.nodes), BlockSize(p)) ==> r.Block? && space.Now() == old(space.Now())
      ensures r.Null? <==>
                !L.HasRoom(old(pool.nodes), BlockSize(p)) && RoundUpPage(BlockSize(p)) > old(low) - HEAP_START
      ensures r.Null? ==> Valid() && Now() == old(Now()) && space.Now() == old(space.Now())
      ensures r.Block? ==> (Valid() <==> !LeavesSliver(Stock(old(Now()), BlockSize(p)), BlockSize(p)))
      ensures r.Block? && Valid() ==> HandsOut(old(Now()), Now(), BlockSize(p), r.ptr - 8)
      ensures r.Block? && !L.HasRoom(old(pool.nodes), BlockSize(p)) ==>
                FramesBehind(old(space.Now()), space.Now(), ReservedPage(old(low), BlockSize(p)), frames,
                  RoundUpPage(BlockSize(p)))
      ensures r.Unfinished? && AddsUp(BlockSize(p)) ==> !r.refill.Grown?
      ensures r.Unfinished? ==>
                if r.refill.Grown? then r.refill.total != RoundUpPage(BlockSize(p))
                else Unserved(old(space.Now()), space.Now(), ReservedPage(old(low), BlockSize(p)), frames, BlockSize(p),
                              r.refill)
      ensures !L.HasRoom(old(pool.nodes), BlockSize(p)) && !r.Null? ==>
                Decided(old(space.Now()), old(low), BlockSize(p), r.Block?)
    {
      hide HeapOk, L.Chain, LeavesSliver, L.Withdraw, L.Result, TakeStep, RefillStep, BlockSize, RoundUpPage,
           Refilled, L.HasRoom, R.Standing, Decided, AddsUp, KeepsData, FramesBehind, ReservedPage, HandsOut,
           WindowEndsAt, V.TreeOk, L.Apart;
      ghost var s := Now();
      var n := BlockSize(p);
      BlockSizeIsEnough(p);
      EnoughRounded(n);
      frames := [];
      KeepsAll(s);
      var b := Claim(n);
      ghost var m := s;
      if b == 0 {
        var refill;
        refill, frames := Refill(n, space, contents);
        if refill.NoWindow? {
          return Null, frames;
        }
        OnlyExactDecides(s.low, n, old(space.Now()), refill);
        if !refill.Grown? || refill.total != RoundUpPage(n) {
          return Unfinished(refill), frames;
        }
        m := Now();
        RefilledServes(s, m, n);
        b := Claim(n);
      }
      BlockAddress(m, n, b);
      r := Block(b + 8);
      if !LeavesSliver(m.nodes, n) {
        HandedOut(s, m, Now(), n, b);
      } else {
        BrokenPool(Now());
      }
    }

    // free. The block's size field becomes the size of its node.
    method Free(ptr: Word)
      requires Valid() && (ptr == 0 || ptr - 8 in live)
      modifies this, pool
      ensures Valid() && KeepsData(old(Now()), Now())
      ensures ptr == 0 ==> Now() == old(Now())
      ensures ptr != 0 ==>
                && live == old(live) - {ptr - 8}
                && pool.nodes == L.Add(old(pool.nodes), L.Node(ptr - 8, Range(ptr - 8, old(live)[ptr - 8])))
    {
      if ptr == 0 {
        return;
      }
      hide HeapOk, L.Chain, L.Add, FreeStep;
      ghost var s := Now();
      Release(ptr - 8);
      FreeKeeps(s, Now(), ptr - 8);
    }

    method Release(b: Word)
      requires HeapOk(Now()) && b in live
      modifies this`live, pool
      ensures FreeStep(old(Now()), Now(), b)
      ensures pool.nodes == L.Add(old(pool.nodes), L.Node(b, Range(b, old(live)[b]))) && live == old(live) - {b}
    {
      hide L.Chain, Tidy, L.Add, Partition, L.Apart;
      ghost var s, n := Now(), L.Node(b, Range(b, live[b]));
      BlockHeader(s, b);
      TidyApart(s.nodes, s.low);
      PoolBounded(s.nodes, s.low);
      pool.words := pool.words[b + 8 := b];
      pool.words := pool.words[b + 16 := pool.words[b]];
      pool.AddNode(b, n);
      live := live - {b};
      forall x | x in s.words && x % 8 == 0 && !Pooled(s, x) && !(b <= x < b + s.live[b])
        ensures pool.words[x] == s.words[x]
      {
        PoolClear(s.nodes, s.low, x);
      }
    }

    // A client's store into its own block.
    method Write(ptr: Word, x: Word, value: Word)
      requires Valid() && ptr - 8 in live && ptr <= x < ptr - 8 + live[ptr - 8] && x in pool.words
      modifies pool
      ensures Valid() && pool.words == old(pool.words)[x := value] && live == old(live)
    {
      ghost var s := Now();
      pool.words := pool.words[x := value];
      ClientKeeps(s, Now(), ptr - 8);
    }
  }
}
