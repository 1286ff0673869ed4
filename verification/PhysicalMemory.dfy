// Physical memory as pages of 512 words, and the list that the page allocator
// keeps inside the free pages themselves: word 0 of a free range's first page
// links to the next range, words 1 and 2 hold the range's address and size
// (struct ts_memoryRange_listNode).
module PhysicalMemory {
  import opened Words
  import opened Ranges

  const WORDS_PER_PAGE: int := 512
  // The direct map starts here and ends with the address space.
  const HHDM: int := 0xffff_8000_0000_0000
  const MEMORY_LIMIT: int := 0x8000_0000_0000

  type Pages = map<int, seq<Word>>

  ghost predicate MemoryOk(pages: Pages) {
    forall p :: p in pages ==> 0 <= p < MEMORY_LIMIT && p % PAGE_SIZE == 0 && |pages[p]| == WORDS_PER_PAGE
  }

  // pmm_physicalToLinear; the null pointer is 0.
  function Linear(p: int): int {
    p + HHDM
  }

  function Store(pages: Pages, p: int, i: nat, v: Word): (r: Pages)
    requires p in pages && i < |pages[p]|
    ensures MemoryOk(pages) ==> MemoryOk(r)
  {
    var page: seq<Word> := pages[p][i := v];
    pages[p := page]
  }

  function ZeroPage(): seq<Word> {
    seq(WORDS_PER_PAGE, _ => 0)
  }

  ghost predicate HeaderAt(pages: Pages, r: Range) {
    && 0 <= r.ptr < MEMORY_LIMIT
    && r.ptr in pages
    && |pages[r.ptr]| == WORDS_PER_PAGE
    && pages[r.ptr][1] == r.ptr
    && pages[r.ptr][2] == r.size
  }

  // Following the links from link meets exactly the ranges of s.
  ghost predicate Chain(pages: Pages, link: Word, s: seq<Range>)
    decreases s
  {
    if s == [] then link == 0
    else
      && HeaderAt(pages, s[0])
      && link == Linear(s[0].ptr)
      && Chain(pages, pages[s[0].ptr][0], s[1..])
  }

  ghost function PagesOf(s: seq<Range>): set<int> {
    set p: int | 0 <= p < MEMORY_LIMIT && p % PAGE_SIZE == 0 && Covers(s, p)
  }

  // Sorted, disjoint, page-aligned, non-empty ranges of existing pages.
  ghost predicate ListShape(pages: Pages, s: seq<Range>) {
    && Separated(s)
    && Aligned(s, PAGE_SIZE)
    && (forall a :: Covers(s, a) ==> 0 <= a < MEMORY_LIMIT)
    && (forall p :: p in PagesOf(s) ==> p in pages)
  }

  // A well-formed free list: such ranges, each with its header at its own start.
  ghost predicate FreeListOk(pages: Pages, link: Word, s: seq<Range>) {
    && MemoryOk(pages)
    && Chain(pages, link, s)
    && ListShape(pages, s)
  }

  // ------------------------------------------------------------- chain lemmas

  lemma {:induction false} ChainFrame(before: Pages, after: Pages, link: Word, s: seq<Range>)
    requires Chain(before, link, s)
    requires forall k :: 0 <= k < |s| ==> s[k].ptr in after && s[k].ptr in before && after[s[k].ptr] == before[s[k].ptr]
    ensures Chain(after, link, s)
    decreases s
  {
    if s != [] {
      assert s[0].ptr in after;
      forall k | 0 <= k < |s[1..]|
        ensures s[1..][k].ptr in after && s[1..][k].ptr in before && after[s[1..][k].ptr] == before[s[1..][k].ptr]
      {
        assert s[1..][k] == s[k + 1];
      }
      ChainFrame(before, after, before[s[0].ptr][0], s[1..]);
    }
  }

  // Everything before position j stays; from there on the chain is u.
  lemma {:induction false} ChainReplaceTail(before: Pages, after: Pages, link: Word, s: seq<Range>, j: nat,
                                            u: seq<Range>)
    requires Chain(before, link, s) && j <= |s|
    requires forall k :: 0 <= k < j ==> s[k].ptr in after && s[k].ptr in before && after[s[k].ptr] == before[s[k].ptr]
    requires j == 0 ==> Chain(after, link, u)
    requires j > 0 ==>
               && s[j - 1].ptr in before && |before[s[j - 1].ptr]| == WORDS_PER_PAGE
               && Chain(after, before[s[j - 1].ptr][0], u)
    ensures Chain(after, link, s[..j] + u)
    decreases s
  {
    if j == 0 {
      assert s[..j] + u == u;
    } else {
      assert s[0].ptr in after;
      forall k | 0 <= k < j - 1
        ensures s[1..][k].ptr in after && s[1..][k].ptr in before && after[s[1..][k].ptr] == before[s[1..][k].ptr]
      {
        assert s[1..][k] == s[k + 1];
      }
      assert j > 1 ==> s[1..][j - 2] == s[j - 1];
      ChainReplaceTail(before, after, before[s[0].ptr][0], s[1..], j - 1, u);
      var t := s[..j] + u;
      assert t[0] == s[0] && t[1..] == s[1..][..j - 1] + u;
    }
  }

  // The link into position i of a chain, and the chain from there.
  lemma {:induction false} ChainSuffix(pages: Pages, link: Word, s: seq<Range>, i: nat)
    requires Chain(pages, link, s) && i <= |s|
    ensures i > 0 ==> HeaderAt(pages, s[i - 1])
    ensures Chain(pages, if i == 0 then link else pages[s[i - 1].ptr][0], s[i..])
    decreases s
  {
    if i > 0 {
      ChainSuffix(pages, pages[s[0].ptr][0], s[1..], i - 1);
      assert s[1..][i - 1..] == s[i..];
    } else {
      assert s[0..] == s;
    }
  }

  lemma {:induction false} SeparatedPairs(s: seq<Range>)
    requires Separated(s)
    ensures forall i :: 0 <= i < |s| ==> s[i].size > 0
    ensures forall i, j :: 0 <= i < j < |s| ==> s[i].End() <= s[j].ptr
  {
    if s != [] {
      SeparatedPairs(s[1..]);
      forall i, j | 0 <= i < j < |s| ensures s[i].End() <= s[j].ptr {
        assert s[j] == s[1..][j - 1];
        if i > 0 {
          assert s[i] == s[1..][i - 1];
        } else if j > 1 {
          assert s[1] == s[1..][0];
        }
      }
      forall i | 0 <= i < |s| ensures s[i].size > 0 {
        assert i > 0 ==> s[i] == s[1..][i - 1];
      }
    }
  }

  lemma {:induction false} CoversAt(s: seq<Range>, i: nat)
    requires i < |s|
    ensures forall a :: s[i].Contains(a) ==> Covers(s, a)
  {
    if i > 0 {
      CoversAt(s[1..], i - 1);
      assert s[1..][i - 1] == s[i];
    }
  }

  lemma {:induction false} AlignedAt(s: seq<Range>, unit: int, i: nat)
    requires unit > 0 && Aligned(s, unit) && i < |s|
    ensures s[i].ptr % unit == 0 && s[i].size % unit == 0
  {
    if i > 0 {
      AlignedAt(s[1..], unit, i - 1);
      assert s[1..][i - 1] == s[i];
    }
  }

  // The header page of each range of a well-formed list is one of its free pages.
  lemma HeadersAreFree(pages: Pages, link: Word, s: seq<Range>)
    requires FreeListOk(pages, link, s)
    ensures forall i :: 0 <= i < |s| ==> s[i].ptr in PagesOf(s) && HeaderAt(pages, s[i])
  {
    SeparatedPairs(s);
    forall i | 0 <= i < |s| ensures s[i].ptr in PagesOf(s) && HeaderAt(pages, s[i]) {
      CoversAt(s, i);
      AlignedAt(s, PAGE_SIZE, i);
      ChainSuffix(pages, link, s, i + 1);
      assert s[i].Contains(s[i].ptr);
    }
  }

  // Stores to pages that are not free leave the list alone.
  lemma FreeListUntouched(before: Pages, after: Pages, link: Word, s: seq<Range>)
    requires FreeListOk(before, link, s) && MemoryOk(after) && after.Keys == before.Keys
    requires forall p :: p in PagesOf(s) && p in before ==> after[p] == before[p]
    ensures FreeListOk(after, link, s)
  {
    HeadersAreFree(before, link, s);
    ChainFrame(before, after, link, s);
  }

  // ------------------------------------- the operations by position in the list

  lemma ConsPrefix(s: seq<Range>, i: nat, u: seq<Range>)
    requires 0 < i <= |s|
    ensures Cons(s[0], s[1..][..i - 1] + u) == s[..i] + u
    ensures s[1..][i - 1..] == s[i..]
  {
    assert s[..i] == [s[0]] + s[1..][..i - 1];
  }

  // Ranges too small for n are passed over.
  lemma {:induction false} TakePasses(s: seq<Range>, n: int, i: nat)
    requires i <= |s| && forall k :: 0 <= k < i ==> s[k].size < n
    ensures Take(s, n) == s[..i] + Take(s[i..], n)
    ensures Fits(s, n) <==> Fits(s[i..], n)
    ensures Fits(s, n) ==> TakenAt(s, n) == TakenAt(s[i..], n)
  {
    if i == 0 {
      assert s[0..] == s;
    } else {
      forall k | 0 <= k < i - 1 ensures s[1..][k].size < n {
        assert s[1..][k] == s[k + 1];
      }
      TakePasses(s[1..], n, i - 1);
      ConsPrefix(s, i, Take(s[i..], n));
    }
  }

  // Ranges below r that are not the last one below it are passed over.
  lemma {:induction false} PutsPass(s: seq<Range>, r: Range, j: nat)
    requires j < |s| && forall i :: 0 <= i <= j ==> s[i].ptr < r.ptr
    ensures PutBackwardFirst(s, r) == s[..j] + PutBackwardFirst(s[j..], r)
    ensures PutForwardFirst(s, r) == s[..j] + PutForwardFirst(s[j..], r)
  {
    if j == 0 {
      assert s[0..] == s;
    } else {
      forall i | 0 <= i <= j - 1 ensures s[1..][i].ptr < r.ptr {
        assert s[1..][i] == s[i + 1];
      }
      PutsPass(s[1..], r, j - 1);
      ConsPrefix(s, j, PutBackwardFirst(s[j..], r));
      ConsPrefix(s, j, PutForwardFirst(s[j..], r));
      assert s[1] == s[1..][0];
    }
  }

  // ------------------------------------------------------- stores to the chain

  ghost predicate DistinctPtrs(s: seq<Range>) {
    forall i, j :: 0 <= i < j < |s| ==> s[i].ptr != s[j].ptr
  }

  // pmm_tryMergeNodes on the headers at node and next.
  function Merged(pages: Pages, node: int, next: int): Pages
    requires MemoryOk(pages) && node in pages && next in pages
  {
    if (pages[node][1] + pages[node][2]) % WORD_LIMIT == pages[next][1] then
      var unlinked := Store(pages, node, 0, pages[next][0]);
      Store(unlinked, node, 2, (unlinked[node][2] + unlinked[next][2]) % WORD_LIMIT)
    else pages
  }

  // The word that holds the link to position i.
  function RelinkAt(pages: Pages, s: seq<Range>, i: nat, v: Word): Pages
    requires 0 < i <= |s| && s[i - 1].ptr in pages && |pages[s[i - 1].ptr]| == WORDS_PER_PAGE
  {
    Store(pages, s[i - 1].ptr, 0, v)
  }

  // Redirecting the link into position i, to a chain that avoids the rest.
  lemma RelinkKeepsChain(before: Pages, link: Word, s: seq<Range>, i: nat, v: Word, u: seq<Range>)
    requires Chain(before, link, s) && 0 < i <= |s| && DistinctPtrs(s)
    requires HeaderAt(before, s[i - 1])
    requires Chain(before, v, u) && forall k :: 0 <= k < |u| ==> u[k].ptr != s[i - 1].ptr
    ensures Chain(RelinkAt(before, s, i, v), link, s[..i] + u)
  {
    var after := RelinkAt(before, s, i, v);
    ChainHeaders(before, link, s);
    ChainHeaders(before, v, u);
    ChainFrame(before, after, v, u);
    var node := Cons(s[i - 1], u);
    assert Chain(after, Linear(s[i - 1].ptr), node);
    ChainSuffix(before, link, s, i - 1);
    assert s[i - 1..][0] == s[i - 1];
    ChainReplaceTail(before, after, link, s, i - 1, node);
    assert s[..i - 1] + node == s[..i] + u;
  }

  // Changing the size of the range at position i.
  lemma ResizeKeepsChain(before: Pages, link: Word, s: seq<Range>, i: nat, size: Word)
    requires Chain(before, link, s) && i < |s| && DistinctPtrs(s)
    requires HeaderAt(before, s[i])
    ensures Chain(Store(before, s[i].ptr, 2, size), link, s[..i] + Cons(Range(s[i].ptr, size), s[i + 1..]))
  {
    var after := Store(before, s[i].ptr, 2, size);
    var r := Range(s[i].ptr, size);
    ChainHeaders(before, link, s);
    ChainSuffix(before, link, s, i);
    ChainSuffix(before, link, s, i + 1);
    assert s[i..][0] == s[i];
    ChainFrame(before, after, before[s[i].ptr][0], s[i + 1..]);
    assert Chain(after, Linear(r.ptr), Cons(r, s[i + 1..]));
    ChainReplaceTail(before, after, link, s, i, Cons(r, s[i + 1..]));
  }

  lemma {:induction false} ChainHeaders(pages: Pages, link: Word, s: seq<Range>)
    requires Chain(pages, link, s)
    ensures forall k :: 0 <= k < |s| ==> HeaderAt(pages, s[k])
    decreases s
  {
    if s != [] {
      ChainHeaders(pages, pages[s[0].ptr][0], s[1..]);
      forall k | 0 <= k < |s| ensures HeaderAt(pages, s[k]) {
        assert k > 0 ==> s[k] == s[1..][k - 1];
      }
    }
  }

  lemma UnlinkNextKeepsChain(before: Pages, link: Word, s: seq<Range>, j: nat)
    requires MemoryOk(before) && Chain(before, link, s) && j + 1 < |s| && DistinctPtrs(s)
    requires HeaderAt(before, s[j]) && HeaderAt(before, s[j + 1])
    ensures Chain(RelinkAt(before, s, j + 1, before[s[j + 1].ptr][0]), link, s[..j + 1] + s[j + 2..])
    ensures DistinctPtrs(s[..j + 1] + s[j + 2..])
  {
    ChainSuffix(before, link, s, j + 2);
    RelinkKeepsChain(before, link, s, j + 1, before[s[j + 1].ptr][0], s[j + 2..]);
    var t := s[..j + 1] + s[j + 2..];
    assert forall k :: 0 <= k < |t| ==> t[k] == if k <= j then s[k] else s[k + 1];
  }

  // The chain once pmm_free has linked the header r in at position k.
  lemma LinkKeepsChain(before: Pages, link: Word, s: seq<Range>, r: Range, k: nat)
    requires Chain(before, link, s) && k <= |s| && DistinctPtrs(s)
    requires HeaderAt(before, r) && forall i :: 0 <= i < |s| ==> s[i].ptr != r.ptr
    requires k > 0 ==> HeaderAt(before, s[k - 1])
    requires before[r.ptr][0] == if k == 0 then link else before[s[k - 1].ptr][0]
    ensures k == 0 ==> Chain(before, Linear(r.ptr), s[..k] + Cons(r, s[k..]))
    ensures k > 0 ==> Chain(RelinkAt(before, s, k, Linear(r.ptr)), link, s[..k] + Cons(r, s[k..]))
  {
    ChainSuffix(before, link, s, k);
    var u := Cons(r, s[k..]);
    assert Chain(before, Linear(r.ptr), u);
    if k == 0 {
      assert s[..k] + u == u;
    } else {
      RelinkKeepsChain(before, link, s, k, Linear(r.ptr), u);
    }
  }

  // r belongs between positions k - 1 and k of s.
  ghost predicate Between(s: seq<Range>, r: Range, k: nat) {
    && k <= |s|
    && (forall i :: 0 <= i < |s| ==> 0 <= s[i].ptr && s[i].size > 0 && s[i].End() <= MEMORY_LIMIT)
    && (forall i, j :: 0 <= i < j < |s| ==> s[i].End() <= s[j].ptr)
    && 0 <= r.ptr && r.size > 0 && r.End() <= MEMORY_LIMIT
    && (forall i :: 0 <= i < k ==> s[i].End() <= r.ptr)
    && (forall i :: k <= i < |s| ==> r.End() <= s[i].ptr)
  }

  // Where pmm_free's search for p stops.
  ghost predicate Place(s: seq<Range>, p: int, k: int) {
    && 0 <= k <= |s|
    && (forall i :: 0 <= i < k ==> s[i].ptr < p)
    && (k < |s| ==> s[k].ptr >= p)
  }

  lemma {:induction false} DisjointPairs(s: seq<Range>, r: Range)
    requires Disjoint(s, r)
    ensures forall i :: 0 <= i < |s| ==> s[i].End() <= r.ptr || r.End() <= s[i].ptr
  {
    if s != [] {
      DisjointPairs(s[1..], r);
      forall i | 0 <= i < |s| ensures s[i].End() <= r.ptr || r.End() <= s[i].ptr {
        assert i > 0 ==> s[i] == s[1..][i - 1];
      }
    }
  }

  lemma EndsInMemory(pages: Pages, link: Word, s: seq<Range>)
    requires FreeListOk(pages, link, s)
    ensures forall i :: 0 <= i < |s| ==> 0 <= s[i].ptr && s[i].End() <= MEMORY_LIMIT
  {
    SeparatedPairs(s);
    forall i | 0 <= i < |s| ensures 0 <= s[i].ptr && s[i].End() <= MEMORY_LIMIT {
      CoversAt(s, i);
      assert s[i].Contains(s[i].ptr) && s[i].Contains(s[i].End() - 1);
    }
  }

  // A range disjoint from a well-formed list has its place between two nodes.
  lemma BetweenFrom(pages: Pages, link: Word, s: seq<Range>, r: Range)
    requires FreeListOk(pages, link, s) && Disjoint(s, r)
    requires 0 <= r.ptr && r.size > 0 && r.End() <= MEMORY_LIMIT
    ensures forall i :: 0 <= i < |s| ==> s[i].ptr != r.ptr
    ensures forall k :: Place(s, r.ptr, k) ==> Between(s, r, k)
  {
    SeparatedPairs(s);
    DisjointPairs(s, r);
    EndsInMemory(pages, link, s);
  }

  function Linked(s: seq<Range>, r: Range, k: nat): seq<Range>
    requires k <= |s|
  {
    s[..k] + Cons(r, s[k..])
  }

  lemma LinkedParts(s: seq<Range>, r: Range, k: nat)
    requires k <= |s|
    ensures |Linked(s, r, k)| == |s| + 1 && Linked(s, r, k)[k] == r
    ensures forall i :: 0 <= i < k ==> Linked(s, r, k)[i] == s[i]
    ensures forall i :: k < i <= |s| ==> Linked(s, r, k)[i] == s[i - 1]
    ensures Linked(s, r, k)[..k] == s[..k] && Linked(s, r, k)[k + 1..] == s[k..]
  {
  }

  lemma LinkedAt(s: seq<Range>, r: Range, k: nat, i: nat)
    requires k <= |s| && i <= |s|
    ensures Linked(s, r, k)[i] == if i < k then s[i] else if i == k then r else s[i - 1]
  {
  }

  lemma LinkedIndices(s: seq<Range>, r: Range, k: nat)
    requires Between(s, r, k)
    ensures DistinctPtrs(Linked(s, r, k))
  {
    forall i, j | 0 <= i < j < |Linked(s, r, k)| ensures Linked(s, r, k)[i].ptr != Linked(s, r, k)[j].ptr {
      LinkedAt(s, r, k, i);
      LinkedAt(s, r, k, j);
    }
  }

  lemma PutByPosition(s: seq<Range>, r: Range, k: nat)
    requires k <= |s| && forall i :: 0 <= i < k ==> s[i].ptr < r.ptr
    requires k < |s| ==> s[k].ptr >= r.ptr
    ensures PutBackwardFirst(s, r) ==
            if k > 0 && s[k - 1].End() == r.ptr then s[..k - 1] + Join(s[k - 1], Cons(r, s[k..]))
            else s[..k] + Join(r, s[k..])
  {
    if k > 0 {
      PutsPass(s, r, k - 1);
      PutHead(s[k - 1..], r, s[k - 1], s[k..]);
      PrefixCons(s, k, Join(r, s[k..]));
    } else {
      assert s[0..] == s;
      assert s[..0] + Join(r, s) == Join(r, s);
    }
  }

  lemma PutHead(u: seq<Range>, r: Range, h: Range, t: seq<Range>)
    requires u == Cons(h, t) && h.ptr < r.ptr && Follows(t, r)
    ensures PutBackwardFirst(u, r) == if h.End() == r.ptr then Join(h, Cons(r, t)) else Cons(h, Join(r, t))
  {
  }

  lemma PrefixCons(s: seq<Range>, k: nat, u: seq<Range>)
    requires 0 < k <= |s|
    ensures s[..k - 1] + Cons(s[k - 1], u) == s[..k] + u
  {
  }

  // The list after a swallow has the node addresses it had before.
  lemma SwallowPtrs(s: seq<Range>, r: Range, k: nat)
    requires Between(s, r, k) && k > 0 && s[k - 1].End() == r.ptr
    ensures var u := PutBackwardFirst(s, r);
            |u| == |s| && forall i :: 0 <= i < |u| ==> u[i].ptr == s[i].ptr
  {
    SwallowedList(s, r, k);
    PtrsOfReplaced(s, k, Range(s[k - 1].ptr, s[k - 1].size + r.size));
  }

  lemma PtrsOfReplaced(s: seq<Range>, k: nat, m: Range)
    requires 0 < k <= |s| && m.ptr == s[k - 1].ptr
    ensures var u := s[..k - 1] + Cons(m, s[k..]);
            |u| == |s| && forall i :: 0 <= i < |u| ==> u[i].ptr == s[i].ptr
  {
  }

  lemma LinkedHeaders(before: Pages, link: Word, s: seq<Range>, r: Range, k: nat)
    requires MemoryOk(before) && Between(s, r, k) && Chain(before, link, Linked(s, r, k))
    ensures HeaderAt(before, r)
    ensures k > 0 ==> HeaderAt(before, s[k - 1])
    ensures k < |s| ==> HeaderAt(before, s[k])
  {
    var t := Linked(s, r, k);
    LinkedParts(s, r, k);
    ChainHeaders(before, link, t);
    assert HeaderAt(before, t[k]);
    assert k > 0 ==> HeaderAt(before, t[k - 1]);
    assert k < |s| ==> HeaderAt(before, t[k + 1]);
  }

  // The four stores with which pmm_free merges, one at a time. First: the
  // previous node drops the link to r.
  lemma UnlinkNew(before: Pages, link: Word, s: seq<Range>, r: Range, k: nat)
    requires MemoryOk(before) && Between(s, r, k) && Chain(before, link, Linked(s, r, k)) && k > 0
    ensures HeaderAt(before, r) && HeaderAt(before, s[k - 1])
    ensures Chain(Store(before, s[k - 1].ptr, 0, before[r.ptr][0]), link, s)
  {
    var t := Linked(s, r, k);
    LinkedIndices(s, r, k);
    LinkedHeaders(before, link, s, r, k);
    LinkedParts(s, r, k);
    assert t[..k] + t[k + 1..] == s;
    UnlinkNextKeepsChain(before, link, t, k - 1);
  }

  // Second: the previous node grows over r.
  lemma GrowOverNew(before: Pages, link: Word, s: seq<Range>, r: Range, k: nat)
    requires Between(s, r, k) && Chain(before, link, s) && k > 0 && s[k - 1].End() == r.ptr
    ensures HeaderAt(before, s[k - 1])
    ensures Chain(Store(before, s[k - 1].ptr, 2, s[k - 1].size + r.size), link, PutBackwardFirst(s, r))
  {
    ChainHeaders(before, link, s);
    ResizeKeepsChain(before, link, s, k - 1, s[k - 1].size + r.size);
    SwallowedList(s, r, k);
  }

  lemma SwallowedList(s: seq<Range>, r: Range, k: nat)
    requires Place(s, r.ptr, k) && k > 0 && s[k - 1].End() == r.ptr
    ensures PutBackwardFirst(s, r) == s[..k - 1] + Cons(Range(s[k - 1].ptr, s[k - 1].size + r.size), s[k..])
  {
    PutByPosition(s, r, k);
  }

  function WithoutNext(s: seq<Range>, r: Range, k: nat): seq<Range>
    requires k < |s|
  {
    s[..k] + Cons(r, s[k + 1..])
  }

  lemma WithoutNextParts(s: seq<Range>, r: Range, k: nat)
    requires k < |s|
    ensures var t := WithoutNext(s, r, k);
            |t| == |s| && t[k] == r && t[..k] == s[..k] && t[k + 1..] == s[k + 1..]
    ensures forall i :: 0 <= i < |s| && i != k ==> WithoutNext(s, r, k)[i] == s[i]
    ensures s[k..] == Cons(s[k], s[k + 1..])
  {
  }

  lemma LinkedDropNext(s: seq<Range>, r: Range, k: nat)
    requires k < |s|
    ensures var t := Linked(s, r, k); t[..k + 1] + t[k + 2..] == WithoutNext(s, r, k) && t[k + 1] == s[k] && t[k] == r
  {
    var t := Linked(s, r, k);
    assert t[..k + 1] == s[..k] + [r];
    assert t[k + 2..] == s[k + 1..];
  }

  // Third: r drops the link to the next node.
  lemma UnlinkNextOfNew(before: Pages, link: Word, s: seq<Range>, r: Range, k: nat)
    requires MemoryOk(before) && Between(s, r, k) && Chain(before, link, Linked(s, r, k)) && k < |s|
    ensures HeaderAt(before, r) && HeaderAt(before, s[k])
    ensures Chain(Store(before, r.ptr, 0, before[s[k].ptr][0]), link, WithoutNext(s, r, k))
  {
    var t := Linked(s, r, k);
    LinkedIndices(s, r, k);
    LinkedHeaders(before, link, s, r, k);
    LinkedDropNext(s, r, k);
    UnlinkNextKeepsChain(before, link, t, k);
  }

  lemma WithoutNextDistinct(s: seq<Range>, r: Range, k: nat)
    requires Between(s, r, k) && k < |s|
    ensures DistinctPtrs(WithoutNext(s, r, k))
  {
    WithoutNextParts(s, r, k);
    var t := WithoutNext(s, r, k);
    forall i, j | 0 <= i < j < |t| ensures t[i].ptr != t[j].ptr {
      assert i != k ==> t[i] == s[i];
      assert j != k ==> t[j] == s[j];
    }
  }

  lemma GrownList(s: seq<Range>, r: Range, k: nat)
    requires Place(s, r.ptr, k) && k < |s| && r.End() == s[k].ptr && (k == 0 || s[k - 1].End() != r.ptr)
    ensures PutBackwardFirst(s, r) == s[..k] + Cons(Range(r.ptr, r.size + s[k].size), s[k + 1..])
  {
    PutByPosition(s, r, k);
    TailParts(s, k);
  }

  lemma TailParts(s: seq<Range>, k: nat)
    requires k < |s|
    ensures s[k..][0] == s[k] && s[k..][1..] == s[k + 1..]
  {
  }

  // Fourth: r grows over the next node.
  lemma GrowNew(before: Pages, link: Word, s: seq<Range>, r: Range, k: nat)
    requires Between(s, r, k) && k < |s| && Chain(before, link, WithoutNext(s, r, k))
    requires HeaderAt(before, r) && r.End() == s[k].ptr && (k == 0 || s[k - 1].End() != r.ptr)
    ensures Chain(Store(before, r.ptr, 2, r.size + s[k].size), link, PutBackwardFirst(s, r))
  {
    var t := WithoutNext(s, r, k);
    WithoutNextParts(s, r, k);
    WithoutNextDistinct(s, r, k);
    ResizeKeepsChain(before, link, t, k, r.size + s[k].size);
    GrownList(s, r, k);
  }

  lemma NothingToMerge(s: seq<Range>, r: Range, k: nat)
    requires Between(s, r, k)
    requires k == 0 || s[k - 1].End() != r.ptr
    requires k == |s| || r.End() != s[k].ptr
    ensures PutBackwardFirst(s, r) == Linked(s, r, k)
  {
    PutByPosition(s, r, k);
  }

  lemma MergedApart(pages: Pages, a: Range, b: Range)
    requires MemoryOk(pages) && HeaderAt(pages, a) && HeaderAt(pages, b) && 0 <= a.End() < WORD_LIMIT
    requires a.End() != b.ptr
    ensures Merged(pages, a.ptr, b.ptr) == pages
  {
    hide Store;
    var end: int := pages[a.ptr][1] + pages[a.ptr][2];
    NoWrap(end);
    assert end % WORD_LIMIT != pages[b.ptr][1];
  }

  lemma NoWrap(x: int)
    requires 0 <= x < WORD_LIMIT
    ensures x % WORD_LIMIT == x
  {
  }

  lemma MergedTouching(pages: Pages, a: Range, b: Range)
    requires MemoryOk(pages) && HeaderAt(pages, a) && HeaderAt(pages, b) && 0 <= a.End() < WORD_LIMIT
    requires a.End() == b.ptr && a.ptr != b.ptr && 0 <= a.size + b.size < WORD_LIMIT
    ensures Merged(pages, a.ptr, b.ptr) == Store(Store(pages, a.ptr, 0, pages[b.ptr][0]), a.ptr, 2, a.size + b.size)
  {
    NoWrap(a.End());
    NoWrap(a.size + b.size);
  }

  // pmm_free's first merge swallows r: its second merge then only writes to r's
  // own page, which is no longer on the list.
  lemma SwallowKeepsChain(before: Pages, link: Word, s: seq<Range>, r: Range, k: nat)
    requires MemoryOk(before) && Between(s, r, k) && Chain(before, link, Linked(s, r, k))
    requires k > 0 && s[k - 1].End() == r.ptr
    ensures s[k - 1].ptr in before && r.ptr in before && (k < |s| ==> s[k].ptr in before)
    ensures var first := Merged(before, s[k - 1].ptr, r.ptr);
            Chain(if k < |s| then Merged(first, r.ptr, s[k].ptr) else first, link, PutBackwardFirst(s, r))
  {
    LinkedHeaders(before, link, s, r, k);
    UnlinkNew(before, link, s, r, k);
    GrowOverNew(Store(before, s[k - 1].ptr, 0, before[r.ptr][0]), link, s, r, k);
    MergedTouching(before, s[k - 1], r);
    if k < |s| {
      OffListMerge(Merged(before, s[k - 1].ptr, r.ptr), link, s, r, k);
    }
  }

  lemma OffListMerge(before: Pages, link: Word, s: seq<Range>, r: Range, k: nat)
    requires MemoryOk(before) && Between(s, r, k) && Chain(before, link, PutBackwardFirst(s, r))
    requires 0 < k < |s| && s[k - 1].End() == r.ptr && r.ptr in before && s[k].ptr in before
    ensures Chain(Merged(before, r.ptr, s[k].ptr), link, PutBackwardFirst(s, r))
  {
    var u := PutBackwardFirst(s, r);
    SwallowPtrs(s, r, k);
    ChainHeaders(before, link, u);
    ChainFrame(before, Merged(before, r.ptr, s[k].ptr), link, u);
  }

  lemma JoinNextKeepsChain(before: Pages, link: Word, s: seq<Range>, r: Range, k: nat)
    requires MemoryOk(before) && Between(s, r, k) && Chain(before, link, Linked(s, r, k))
    requires k == 0 || s[k - 1].End() != r.ptr
    ensures r.ptr in before && (k < |s| ==> s[k].ptr in before) && (k > 0 ==> s[k - 1].ptr in before)
    ensures k > 0 ==> Merged(before, s[k - 1].ptr, r.ptr) == before
    ensures Chain(if k < |s| then Merged(before, r.ptr, s[k].ptr) else before, link, PutBackwardFirst(s, r))
  {
    LinkedHeaders(before, link, s, r, k);
    if k > 0 {
      MergedApart(before, s[k - 1], r);
    }
    if k < |s| && r.End() == s[k].ptr {
      UnlinkNextOfNew(before, link, s, r, k);
      GrowNew(Store(before, r.ptr, 0, before[s[k].ptr][0]), link, s, r, k);
      MergedTouching(before, r, s[k]);
    } else {
      NothingToMerge(s, r, k);
      if k < |s| {
        MergedApart(before, r, s[k]);
      }
    }
  }

  // pmm_alloc's stores turn the chain of s into the chain of Take(s, n).
  lemma CutKeepsChain(before: Pages, link: Word, s: seq<Range>, n: Word, i: nat)
    requires Chain(before, link, s) && i < |s| && DistinctPtrs(s) && MemoryOk(before)
    requires s[i].size >= n && forall k :: 0 <= k < i ==> s[k].size < n
    ensures HeaderAt(before, s[i]) && (i > 0 ==> HeaderAt(before, s[i - 1]))
    ensures Fits(s, n) && TakenAt(s, n) == s[i].End() - n
    ensures s[i].size == n && i == 0 ==> Chain(before, before[s[i].ptr][0], Take(s, n))
    ensures s[i].size == n && i > 0 ==> Chain(RelinkAt(before, s, i, before[s[i].ptr][0]), link, Take(s, n))
    ensures s[i].size > n ==> Chain(Store(before, s[i].ptr, 2, s[i].size - n), link, Take(s, n))
  {
    ChainHeaders(before, link, s);
    TakePasses(s, n, i);
    assert s[i..][0] == s[i] && s[i..][1..] == s[i + 1..];
    if s[i].size > n {
      ResizeKeepsChain(before, link, s, i, s[i].size - n);
    } else if i == 0 {
      assert s[..0] + s[1..] == s[1..];
    } else {
      UnlinkNextKeepsChain(before, link, s, i - 1);
    }
  }

  // ----------------------------------------------------- what the steps preserve

  // Taking pages keeps the list's shape and removes exactly the block's pages.
  lemma TakeKeepsShape(pages: Pages, s: seq<Range>, n: int)
    requires ListShape(pages, s) && n >= 0 && n % PAGE_SIZE == 0
    ensures ListShape(pages, Take(s, n))
    ensures n > 0 && Fits(s, n) ==>
              forall p :: p in PagesOf(Take(s, n)) <==>
                          p in PagesOf(s) && !(TakenAt(s, n) <= p < TakenAt(s, n) + n)
  {
    if n > 0 {
      TakeRemovesOneBlock(s, n);
      TakeAligned(s, n);
    } else {
      TakeNothing(s);
    }
  }

  lemma {:induction false} TakeAligned(s: seq<Range>, n: int)
    requires Aligned(s, PAGE_SIZE) && n % PAGE_SIZE == 0
    ensures Aligned(Take(s, n), PAGE_SIZE)
    ensures Fits(s, n) ==> TakenAt(s, n) % PAGE_SIZE == 0
  {
    if s != [] {
      TakeAligned(s[1..], n);
    }
  }

  lemma TakeNothing(s: seq<Range>)
    requires Separated(s)
    ensures Take(s, 0) == s
  {
    if s != [] {
      assert s == Cons(s[0], s[1..]);
    }
  }

  lemma {:induction false} PutAligned(s: seq<Range>, r: Range)
    requires Aligned(s, PAGE_SIZE) && r.ptr % PAGE_SIZE == 0 && r.size % PAGE_SIZE == 0
    ensures Aligned(PutBackwardFirst(s, r), PAGE_SIZE)
  {
    if !Follows(s, r) {
      PutAligned(s[1..], r);
    }
  }

  // Putting pages back keeps the list's shape and adds exactly those pages.
  lemma PutKeepsShape(pages: Pages, s: seq<Range>, r: Range)
    requires ListShape(pages, s) && r.size > 0 && Disjoint(s, r)
    requires r.ptr % PAGE_SIZE == 0 && r.size % PAGE_SIZE == 0 && 0 <= r.ptr && r.End() <= MEMORY_LIMIT
    requires forall p :: r.Contains(p) && p % PAGE_SIZE == 0 ==> p in pages
    ensures ListShape(pages, PutBackwardFirst(s, r))
    ensures forall p ::
              p in PagesOf(PutBackwardFirst(s, r)) <==> p in PagesOf(s) || (r.Contains(p) && p % PAGE_SIZE == 0)
  {
    PutsAdd(s, r);
    PutAligned(s, r);
  }

  lemma {:induction false} CoversItsPage(s: seq<Range>, a: int)
    requires Aligned(s, PAGE_SIZE) && Covers(s, a)
    ensures Covers(s, a - a % PAGE_SIZE)
  {
    if !s[0].Contains(a) {
      CoversItsPage(s[1..], a);
    }
  }
}
