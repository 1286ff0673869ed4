// The generic range list (kernel/src/arch/amd64/mm/mm.c): list nodes at
// addresses of their own, each describing a free range. malloc keeps every node
// inside the range it describes; the virtual address map keeps them elsewhere.
module RangeList {
  import opened Words
  import opened Ranges

  // struct ts_memoryRange_listNode: next at `at`, address at at + 8, size at at + 16.
  const NODE_SIZE: int := 24

  type Memory = map<int, Word>

  datatype Node = Node(at: int, range: Range)

  ghost predicate HeaderAt(words: Memory, n: Node) {
    && 0 < n.at && n.at + 8 in words && n.at + 16 in words && n.at in words
    && words[n.at + 8] == n.range.ptr
    && words[n.at + 16] == n.range.size
  }

  // Following the links from link meets exactly the nodes of s.
  ghost predicate Chain(words: Memory, link: Word, s: seq<Node>)
    decreases s
  {
    if s == [] then link == 0
    else HeaderAt(words, s[0]) && link == s[0].at && Chain(words, words[s[0].at], s[1..])
  }

  // The headers do not overlap.
  ghost predicate Apart(s: seq<Node>) {
    forall i, j :: 0 <= i < j < |s| ==> s[i].at + NODE_SIZE <= s[j].at || s[j].at + NODE_SIZE <= s[i].at
  }

  ghost predicate Clear(n: Node, x: int) {
    x + 8 <= n.at || n.at + NODE_SIZE <= x
  }

  // The words of n's header are the same in both memories.
  ghost predicate SameHeader(before: Memory, after: Memory, n: Node) {
    forall x :: n.at <= x < n.at + NODE_SIZE && x in before ==> x in after && after[x] == before[x]
  }

  function Cons(n: Node, t: seq<Node>): (s: seq<Node>)
    ensures s != [] && s[0] == n && s[1..] == t
  {
    [n] + t
  }

  // ------------------------------------------------------------------- mm_alloc

  predicate HasRoom(s: seq<Node>, n: int) {
    s != [] && (s[0].range.size >= n || HasRoom(s[1..], n))
  }

  // The address mm_alloc returns: of the range's end when it splits a range, of
  // the node when it uses a range up.
  function Result(s: seq<Node>, n: int): int
    requires HasRoom(s, n)
  {
    if s[0].range.size < n then Result(s[1..], n)
    else if s[0].range.size == n then s[0].at
    else s[0].range.End() - n
  }

  function Withdraw(s: seq<Node>, n: int): seq<Node> {
    if s == [] then s
    else if s[0].range.size < n then Cons(s[0], Withdraw(s[1..], n))
    else if s[0].range.size == n then s[1..]
    else Cons(Node(s[0].at, Range(s[0].range.ptr, s[0].range.size - n)), s[1..])
  }

  // ------------------------------------------------------------ mm_addNodeToMap

  // mm_getEntryEndAddress, with C's wrap-around.
  function EndAddress(n: Node): Word {
    n.range.End() % WORD_LIMIT
  }

  // mm_tryMergeNodes: n swallows the next node when its range ends where that
  // node is stored.
  function Join(n: Node, t: seq<Node>): seq<Node> {
    if t != [] && EndAddress(n) == t[0].at
    then Cons(Node(n.at, Range(n.range.ptr, (n.range.size + t[0].range.size) % WORD_LIMIT)), t[1..])
    else Cons(n, t)
  }

  predicate Follows(s: seq<Node>, n: Node) {
    s == [] || s[0].range.ptr >= n.range.ptr
  }

  function Add(s: seq<Node>, n: Node): seq<Node> {
    if Follows(s, n) then Join(n, s)
    else if Follows(s[1..], n) then Join(s[0], Join(n, s[1..]))
    else Cons(s[0], Add(s[1..], n))
  }

  // ------------------------------------------------------- nodes in their ranges

  function RangesOf(s: seq<Node>): seq<Range> {
    if s == [] then [] else Ranges.Cons(s[0].range, RangesOf(s[1..]))
  }

  ghost predicate InBand(s: seq<Node>) {
    s != [] ==> s[0].at == s[0].range.ptr && InBand(s[1..])
  }

  // When every node is stored where its range starts, mm_alloc and
  // mm_addNodeToMap are the abstract allocation and insertion, and keep it so.
  lemma {:induction false} TakeInBand(s: seq<Node>, n: int)
    requires InBand(s)
    ensures InBand(Withdraw(s, n)) && RangesOf(Withdraw(s, n)) == Ranges.Take(RangesOf(s), n)
    ensures HasRoom(s, n) <==> Ranges.Fits(RangesOf(s), n)
    ensures HasRoom(s, n) ==> Result(s, n) == Ranges.TakenAt(RangesOf(s), n)
  {
    if s != [] {
      TakeInBand(s[1..], n);
    }
  }

  // Ranges inside the address space.
  ghost predicate Fit(n: Node) {
    0 < n.range.ptr && 0 < n.range.size && n.range.End() <= WORD_LIMIT
  }

  ghost predicate AllFit(s: seq<Node>) {
    s != [] ==> Fit(s[0]) && AllFit(s[1..])
  }

  lemma {:induction false} AddInBand(s: seq<Node>, n: Node)
    requires InBand(s) && n.at == n.range.ptr && Fit(n) && AllFit(s)
    ensures AllFit(Add(s, n))
    ensures InBand(Add(s, n)) && RangesOf(Add(s, n)) == Ranges.PutForwardFirst(RangesOf(s), n.range)
  {
    if s != [] {
      AddInBand(s[1..], n);
      JoinInBand(n, s[1..]);
      JoinInBand(s[0], Join(n, s[1..]));
    }
    JoinInBand(n, s);
  }

  lemma JoinInBand(n: Node, t: seq<Node>)
    requires InBand(t) && n.at == n.range.ptr && Fit(n) && AllFit(t)
    ensures AllFit(Join(n, t)) && Join(n, t)[0].at == n.at && Fit(Join(n, t)[0])
    ensures InBand(Join(n, t)) && RangesOf(Join(n, t)) == Ranges.Join(n.range, RangesOf(t))
  {
  }

  // In general mm_alloc returns memory of the range it takes from exactly when it
  // splits, or when the node it uses up is stored where its range starts.
  lemma {:induction false} ResultIsTaken(s: seq<Node>, n: int)
    requires HasRoom(s, n)
    ensures Ranges.Fits(RangesOf(s), n)
    ensures Result(s, n) == Ranges.TakenAt(RangesOf(s), n) <==> !UsesUpOutOfBand(s, n)
  {
    if s[0].range.size < n {
      ResultIsTaken(s[1..], n);
    }
  }

  predicate UsesUpOutOfBand(s: seq<Node>, n: int) {
    s != [] &&
    if s[0].range.size < n then UsesUpOutOfBand(s[1..], n)
    else s[0].range.size == n && s[0].at != s[0].range.ptr
  }

  // When no range ends where a node is stored, as when the nodes lie outside the
  // ranges, nothing is ever joined: every freed range stays a node of its own.
  lemma {:induction false} NeverJoins(s: seq<Node>, n: Node)
    requires forall m :: m in s ==> EndAddress(n) != m.at && EndAddress(m) != n.at
    requires forall l, m :: l in s && m in s ==> EndAddress(l) != m.at
    ensures multiset(Add(s, n)) == multiset(s) + multiset{n}
    ensures Add(s, n) != [] && (Add(s, n)[0] == n || (s != [] && Add(s, n)[0] == s[0]))
    decreases s
  {
    if s != [] {
      assert s == [s[0]] + s[1..];
      assert s[0] in s && forall m :: m in s[1..] ==> m in s;
      if |s| > 1 {
        assert s[1..][0] in s;
      }
      if !Follows(s, n) && !Follows(s[1..], n) {
        NeverJoins(s[1..], n);
      }
    }
  }

  // --------------------------------------------------------------- chain lemmas

  lemma {:induction false} ChainFrame(before: Memory, after: Memory, link: Word, s: seq<Node>)
    requires Chain(before, link, s)
    requires forall k :: 0 <= k < |s| ==> SameHeader(before, after, s[k])
    ensures Chain(after, link, s)
    decreases s
  {
    if s != [] {
      assert SameHeader(before, after, s[0]);
      forall k | 0 <= k < |s[1..]| ensures SameHeader(before, after, s[1..][k]) {
        assert s[1..][k] == s[k + 1];
      }
      ChainFrame(before, after, before[s[0].at], s[1..]);
    }
  }

  lemma {:induction false} ChainHeaders(words: Memory, link: Word, s: seq<Node>)
    requires Chain(words, link, s)
    ensures forall k :: 0 <= k < |s| ==> HeaderAt(words, s[k])
    decreases s
  {
    if s != [] {
      ChainHeaders(words, words[s[0].at], s[1..]);
      forall k | 0 <= k < |s| ensures HeaderAt(words, s[k]) {
        assert k > 0 ==> s[k] == s[1..][k - 1];
      }
    }
  }

  lemma {:induction false} ChainSuffix(words: Memory, link: Word, s: seq<Node>, i: nat)
    requires Chain(words, link, s) && i <= |s|
    ensures i > 0 ==> HeaderAt(words, s[i - 1])
    ensures Chain(words, if i == 0 then link else words[s[i - 1].at], s[i..])
    decreases s
  {
    if i > 0 {
      ChainSuffix(words, words[s[0].at], s[1..], i - 1);
      assert s[1..][i - 1..] == s[i..];
    } else {
      assert s[0..] == s;
    }
  }

  // Everything before position j stays; from there on the chain is u.
  lemma {:induction false} ChainReplaceTail(before: Memory, after: Memory, link: Word, s: seq<Node>, j: nat,
                                            u: seq<Node>)
    requires Chain(before, link, s) && j <= |s|
    requires forall k :: 0 <= k < j ==> SameHeader(before, after, s[k])
    requires j == 0 ==> Chain(after, link, u)
    requires j > 0 ==> s[j - 1].at in before && Chain(after, before[s[j - 1].at], u)
    ensures Chain(after, link, s[..j] + u)
    decreases s
  {
    if j == 0 {
      assert s[..j] + u == u;
    } else {
      assert SameHeader(before, after, s[0]);
      forall k | 0 <= k < j - 1 ensures SameHeader(before, after, s[1..][k]) {
        assert s[1..][k] == s[k + 1];
      }
      assert j > 1 ==> s[1..][j - 2] == s[j - 1];
      ChainReplaceTail(before, after, before[s[0].at], s[1..], j - 1, u);
      var t := s[..j] + u;
      assert t[0] == s[0] && t[1..] == s[1..][..j - 1] + u;
    }
  }

  // A memory holds at most one list at a link.
  lemma {:induction false} ChainIsUnique(words: Memory, link: Word, s: seq<Node>, t: seq<Node>)
    requires Chain(words, link, s) && Chain(words, link, t)
    ensures s == t
    decreases s
  {
    if s != [] {
      ChainIsUnique(words, words[s[0].at], s[1..], t[1..]);
      assert s == Cons(s[0], s[1..]) && t == Cons(t[0], t[1..]);
    }
  }

  // Redirecting the link into position i to a chain that avoids the node before.
  lemma RelinkKeepsChain(before: Memory, link: Word, s: seq<Node>, i: nat, v: Word, u: seq<Node>)
    requires Chain(before, link, s) && 0 < i <= |s| && Apart(s) && s[i - 1].at in before
    requires Chain(before, v, u) && forall k :: 0 <= k < |u| ==> Clear(u[k], s[i - 1].at)
    ensures Chain(before[s[i - 1].at := v], link, s[..i] + u)
  {
    var after := before[s[i - 1].at := v];
    ChainFrame(before, after, v, u);
    var tail := Cons(s[i - 1], u);
    ChainSuffix(before, link, s, i - 1);
    assert s[i - 1..][0] == s[i - 1];
    assert Chain(after, s[i - 1].at, tail);
    ChainReplaceTail(before, after, link, s, i - 1, tail);
    assert s[..i - 1] + tail == s[..i] + u;
  }

  // Changing the size of the range at position i.
  lemma ResizeKeepsChain(before: Memory, link: Word, s: seq<Node>, i: nat, size: Word)
    requires Chain(before, link, s) && i < |s| && Apart(s)
    ensures Chain(before[s[i].at + 16 := size], link,
                  s[..i] + Cons(Node(s[i].at, Range(s[i].range.ptr, size)), s[i + 1..]))
  {
    var after := before[s[i].at + 16 := size];
    var n := Node(s[i].at, Range(s[i].range.ptr, size));
    ChainSuffix(before, link, s, i);
    ChainSuffix(before, link, s, i + 1);
    assert s[i..][0] == s[i];
    ChainFrame(before, after, before[s[i].at], s[i + 1..]);
    assert Chain(after, n.at, Cons(n, s[i + 1..]));
    ChainReplaceTail(before, after, link, s, i, Cons(n, s[i + 1..]));
  }

  function Without(s: seq<Node>, i: nat): seq<Node>
    requires i < |s|
  {
    s[..i] + s[i + 1..]
  }

  lemma WithoutAt(s: seq<Node>, i: nat, k: nat)
    requires i < |s| && k < |s| - 1
    ensures Without(s, i)[k] == if k < i then s[k] else s[k + 1]
  {
  }

  lemma ApartWithout(s: seq<Node>, i: nat)
    requires Apart(s) && i < |s|
    ensures Apart(Without(s, i))
  {
    forall j, k | 0 <= j < k < |s| - 1
      ensures var t := Without(s, i); t[j].at + NODE_SIZE <= t[k].at || t[k].at + NODE_SIZE <= t[j].at
    {
      WithoutAt(s, i, j);
      WithoutAt(s, i, k);
    }
  }

  // The node before position i drops the link to it.
  lemma UnlinkKeepsChain(before: Memory, link: Word, s: seq<Node>, i: nat)
    requires Chain(before, link, s) && 0 < i < |s| && Apart(s)
    ensures s[i].at in before && s[i - 1].at in before
    ensures Chain(before[s[i - 1].at := before[s[i].at]], link, Without(s, i))
  {
    ChainSuffix(before, link, s, i);
    ChainSuffix(before, link, s, i + 1);
    assert s[i..][0] == s[i];
    RelinkKeepsChain(before, link, s, i, before[s[i].at], s[i + 1..]);
  }

  // Taking by position: nodes that are too small are passed over.
  lemma {:induction false} TakePasses(s: seq<Node>, n: int, i: nat)
    requires i <= |s| && forall k :: 0 <= k < i ==> s[k].range.size < n
    ensures Withdraw(s, n) == s[..i] + Withdraw(s[i..], n)
    ensures HasRoom(s, n) <==> HasRoom(s[i..], n)
    ensures HasRoom(s, n) ==> Result(s, n) == Result(s[i..], n)
  {
    if i == 0 {
      assert s[0..] == s;
    } else {
      forall k | 0 <= k < i - 1 ensures s[1..][k].range.size < n {
        assert s[1..][k] == s[k + 1];
      }
      TakePasses(s[1..], n, i - 1);
      ConsPrefix(s, i, Withdraw(s[i..], n));
    }
  }

  lemma NothingFits(s: seq<Node>, n: int)
    requires forall k :: 0 <= k < |s| ==> s[k].range.size < n
    ensures Withdraw(s, n) == s && !HasRoom(s, n)
  {
    TakePasses(s, n, |s|);
    assert s[|s|..] == [] && s[..|s|] == s;
  }

  lemma ConsPrefix(s: seq<Node>, i: nat, u: seq<Node>)
    requires 0 < i <= |s|
    ensures Cons(s[0], s[1..][..i - 1] + u) == s[..i] + u
    ensures s[1..][i - 1..] == s[i..]
  {
    assert s[..i] == [s[0]] + s[1..][..i - 1];
  }

  // Nodes below n that are not the last such node are passed over.
  lemma {:induction false} AddPasses(s: seq<Node>, n: Node, j: nat)
    requires j < |s| && forall i :: 0 <= i <= j ==> s[i].range.ptr < n.range.ptr
    ensures Add(s, n) == s[..j] + Add(s[j..], n)
  {
    if j == 0 {
      assert s[0..] == s;
    } else {
      forall i | 0 <= i <= j - 1 ensures s[1..][i].range.ptr < n.range.ptr {
        assert s[1..][i] == s[i + 1];
      }
      AddPasses(s[1..], n, j - 1);
      ConsPrefix(s, j, Add(s[j..], n));
      assert s[1] == s[1..][0];
    }
  }

  // What the store of mm_alloc leaves.
  lemma CutKeepsChain(before: Memory, link: Word, s: seq<Node>, n: Word, i: nat)
    requires Chain(before, link, s) && i < |s| && Apart(s)
    requires s[i].range.size >= n && forall k :: 0 <= k < i ==> s[k].range.size < n
    ensures HeaderAt(before, s[i]) && (i > 0 ==> HeaderAt(before, s[i - 1]))
    ensures HasRoom(s, n) && Result(s, n) == if s[i].range.size == n then s[i].at else s[i].range.End() - n
    ensures s[i].range.size == n ==> Withdraw(s, n) == Without(s, i)
    ensures s[i].range.size == n && i == 0 ==> Chain(before, before[s[0].at], Withdraw(s, n))
    ensures s[i].range.size == n && i > 0 ==> Chain(before[s[i - 1].at := before[s[i].at]], link, Withdraw(s, n))
    ensures s[i].range.size > n ==>
              && Withdraw(s, n) == s[..i] + Cons(Node(s[i].at, Range(s[i].range.ptr, s[i].range.size - n)), s[i + 1..])
              && Chain(before[s[i].at + 16 := s[i].range.size - n], link, Withdraw(s, n))
  {
    ChainHeaders(before, link, s);
    TakePasses(s, n, i);
    assert s[i..][0] == s[i] && s[i..][1..] == s[i + 1..];
    if s[i].range.size > n {
      ResizeKeepsChain(before, link, s, i, s[i].range.size - n);
    } else if i == 0 {
      assert s[..0] + s[1..] == s[1..];
    } else {
      UnlinkKeepsChain(before, link, s, i);
    }
  }

  lemma TakeApart(s: seq<Node>, n: int, i: nat)
    requires Apart(s) && i < |s|
    requires Withdraw(s, n) == Without(s, i) ||
             exists r :: Withdraw(s, n) == s[..i] + Cons(Node(s[i].at, r), s[i + 1..])
    ensures Apart(Withdraw(s, n))
  {
    if Withdraw(s, n) == Without(s, i) {
      ApartWithout(s, i);
    } else {
      var r :| Withdraw(s, n) == s[..i] + Cons(Node(s[i].at, r), s[i + 1..]);
      SameAddresses(s, i, r);
      ApartSame(s, s[..i] + Cons(Node(s[i].at, r), s[i + 1..]));
    }
  }

  lemma SameAddresses(s: seq<Node>, i: nat, r: Range)
    requires i < |s|
    ensures var t := s[..i] + Cons(Node(s[i].at, r), s[i + 1..]);
            |t| == |s| && forall k :: 0 <= k < |s| ==> t[k].at == s[k].at
  {
  }

  // mm_tryMergeNodes at position j.
  function MergedAt(s: seq<Node>, j: nat): seq<Node>
    requires j < |s|
  {
    s[..j] + Join(s[j], s[j + 1..])
  }

  predicate Touching(s: seq<Node>, j: nat) {
    j + 1 < |s| && EndAddress(s[j]) == s[j + 1].at
  }

  lemma MergedHeads(before: Memory, link: Word, s: seq<Node>, j: nat)
    requires Chain(before, link, s) && j + 1 < |s|
    ensures HeaderAt(before, s[j]) && HeaderAt(before, s[j + 1])
  {
    ChainHeaders(before, link, s);
  }

  lemma MergeKeepsChain(before: Memory, link: Word, s: seq<Node>, j: nat, size: Word)
    requires Chain(before, link, s) && Apart(s) && Touching(s, j)
    requires size == (s[j].range.size + s[j + 1].range.size) % WORD_LIMIT
    ensures s[j].at in before && s[j + 1].at in before && s[j].at + 16 != s[j + 1].at
    ensures Chain(before[s[j].at + 16 := size][s[j].at := before[s[j + 1].at]], link, MergedAt(s, j))
    ensures Apart(MergedAt(s, j))
  {
    hide Chain, Apart;
    MergedHeads(before, link, s, j);
    var m := Node(s[j].at, Range(s[j].range.ptr, size));
    var t := s[..j] + Cons(m, s[j + 1..]);
    SameAddresses(s, j, m.range);
    ApartSame(s, t);
    ResizeKeepsChain(before, link, s, j, size);
    TailAt(s, j, m);
    UnlinkKeepsChain(before[s[j].at + 16 := size], link, t, j + 1);
    ApartWithout(t, j + 1);
  }

  lemma Neighbours(s: seq<Node>, j: nat)
    requires Apart(s) && j + 1 < |s|
    ensures s[j].at + 16 != s[j + 1].at
  {
  }

  // What mm_tryMergeNodes reads, and the list its two stores leave.
  lemma MergeStores(before: Memory, link: Word, l: seq<Node>, j: nat)
    requires Chain(before, link, l) && Apart(l) && j < |l|
    ensures var node := l[j].at;
            && node in before && node + 8 in before && node + 16 in before
            && var next: int := before[node];
               && (next == 0 ==> MergedAt(l, j) == l)
               && (next != 0 ==>
                     && next in before && next + 16 in before && next != node + 16
                     && var size: Word := (before[node + 16] + before[next + 16]) % WORD_LIMIT;
                        if (before[node + 8] + before[node + 16]) % WORD_LIMIT == next
                        then Chain(before[node + 16 := size][node := before[next]], link, MergedAt(l, j))
                        else MergedAt(l, j) == l)
    ensures Apart(MergedAt(l, j))
  {
    hide Apart, MergedAt;
    ChainSuffix(before, link, l, j + 1);
    assert j + 1 < |l| ==> l[j + 1..][0] == l[j + 1];
    if j + 1 < |l| {
      Neighbours(l, j);
    }
    if Touching(l, j) {
      MergeKeepsChain(before, link, l, j, (l[j].range.size + l[j + 1].range.size) % WORD_LIMIT);
    } else {
      NoMerge(l, j);
    }
  }

  lemma ApartSame(s: seq<Node>, t: seq<Node>)
    requires Apart(s) && |t| == |s| && forall k :: 0 <= k < |s| ==> t[k].at == s[k].at
    ensures Apart(t)
  {
  }

  lemma TailAt(s: seq<Node>, j: nat, m: Node)
    requires j + 1 < |s|
    ensures var t := s[..j] + Cons(m, s[j + 1..]);
            t[j] == m && t[j + 1] == s[j + 1] && Without(t, j + 1) == s[..j] + Cons(m, s[j + 2..])
    ensures s[j + 1..][0] == s[j + 1] && s[j + 1..][1..] == s[j + 2..]
  {
    var t := s[..j] + Cons(m, s[j + 1..]);
    assert t[..j + 1] == s[..j] + [m];
    assert t[j + 2..] == s[j + 2..];
  }

  lemma NoMerge(s: seq<Node>, j: nat)
    requires j < |s| && !Touching(s, j)
    ensures MergedAt(s, j) == s
  {
    assert s == s[..j] + Cons(s[j], s[j + 1..]);
    assert j + 1 < |s| ==> s[j + 1..][0] == s[j + 1];
  }

  // --------------------------------------------------------------- the new node

  function Linked(s: seq<Node>, n: Node, k: nat): seq<Node>
    requires k <= |s|
  {
    s[..k] + Cons(n, s[k..])
  }

  lemma LinkedAt(s: seq<Node>, n: Node, k: nat, i: nat)
    requires k <= |s| && i <= |s|
    ensures Linked(s, n, k)[i] == if i < k then s[i] else if i == k then n else s[i - 1]
  {
  }

  lemma LinkedApart(s: seq<Node>, n: Node, k: nat)
    requires k <= |s| && Apart(s)
    requires forall i :: 0 <= i < |s| ==> s[i].at + NODE_SIZE <= n.at || n.at + NODE_SIZE <= s[i].at
    ensures Apart(Linked(s, n, k))
  {
    forall i, j | 0 <= i < j <= |s|
      ensures var t := Linked(s, n, k); t[i].at + NODE_SIZE <= t[j].at || t[j].at + NODE_SIZE <= t[i].at
    {
      LinkedAt(s, n, k, i);
      LinkedAt(s, n, k, j);
    }
  }

  lemma HeadersDiffer(s: seq<Node>, n: Node, k: nat)
    requires k <= |s| && Apart(Linked(s, n, k))
    ensures forall i :: 0 <= i < |s| ==> s[i].at + NODE_SIZE <= n.at || n.at + NODE_SIZE <= s[i].at
  {
    forall i | 0 <= i < |s| ensures s[i].at + NODE_SIZE <= n.at || n.at + NODE_SIZE <= s[i].at {
      LinkedAt(s, n, k, if i < k then i else i + 1);
      LinkedAt(s, n, k, k);
    }
  }

  lemma NewLinkKeepsChain(before: Memory, link: Word, s: seq<Node>, n: Node, k: nat, v: Word)
    requires Chain(before, link, s)
    requires forall i :: 0 <= i < |s| ==> s[i].at + NODE_SIZE <= n.at || n.at + NODE_SIZE <= s[i].at
    ensures Chain(before[n.at := v], link, s)
  {
    ChainFrame(before, before[n.at := v], link, s);
  }

  lemma LinkKeepsChain(before: Memory, link: Word, s: seq<Node>, n: Node, k: nat)
    requires Chain(before, link, s) && k <= |s| && Apart(Linked(s, n, k)) && HeaderAt(before, n) && n.at < WORD_LIMIT
    requires k > 0 ==> s[k - 1].at in before
    requires before[n.at] == if k == 0 then link else before[s[k - 1].at]
    ensures k == 0 ==> Chain(before, n.at, Linked(s, n, k))
    ensures k > 0 ==> Chain(before[s[k - 1].at := n.at], link, Linked(s, n, k))
  {
    ChainSuffix(before, link, s, k);
    var u := Cons(n, s[k..]);
    assert Chain(before, n.at, u);
    if k == 0 {
      assert s[..k] + u == u;
    } else {
      forall i | 0 <= i < |s| - k ensures Clear(s[k..][i], s[k - 1].at) {
        LinkedAt(s, n, k, k - 1);
        LinkedAt(s, n, k, k + 1 + i);
      }
      LinkedAt(s, n, k, k - 1);
      LinkedAt(s, n, k, k);
      PrefixApart(s, n, k);
      RelinkKeepsChain(before, link, s, k, n.at, u);
    }
  }

  lemma PrefixApart(s: seq<Node>, n: Node, k: nat)
    requires k <= |s| && Apart(Linked(s, n, k))
    ensures Apart(s)
  {
    forall i, j | 0 <= i < j < |s| ensures s[i].at + NODE_SIZE <= s[j].at || s[j].at + NODE_SIZE <= s[i].at {
      LinkedAt(s, n, k, if i < k then i else i + 1);
      LinkedAt(s, n, k, if j < k then j else j + 1);
    }
  }

  // Both merges, next first, give the insertion.
  lemma MergesAdd(s: seq<Node>, n: Node, k: nat)
    requires k <= |s| && forall i :: 0 <= i < k ==> s[i].range.ptr < n.range.ptr
    requires k < |s| ==> s[k].range.ptr >= n.range.ptr
    ensures var first := MergedAt(Linked(s, n, k), k);
            && k < |first| && (k > 0 ==> first[k - 1] == s[k - 1])
            && Add(s, n) == if k == 0 then first else MergedAt(first, k - 1)
  {
    LinkedAt(s, n, k, k);
    var t := Linked(s, n, k);
    assert t[..k] == s[..k] && t[k + 1..] == s[k..];
    var u := Join(n, s[k..]);
    if k == 0 {
      assert s[0..] == s && s[..0] + u == u;
    } else {
      AddPasses(s, n, k - 1);
      var v := s[k - 1..];
      assert v[0] == s[k - 1] && v[1..] == s[k..];
      SplitAt(s, k, u);
    }
  }

  lemma SplitAt(s: seq<Node>, k: nat, u: seq<Node>)
    requires 0 < k <= |s|
    ensures var t := s[..k] + u; t[..k - 1] == s[..k - 1] && t[k - 1] == s[k - 1] && t[k..] == u
  {
  }

  // ------------------------------------------------------------------ the methods

  class RangeList {
    var words: Memory
    var head: Word             // *p_map
    ghost var nodes: seq<Node>

    ghost predicate Valid()
      reads this
    {
      Chain(words, head, nodes) && Apart(nodes)
    }

    constructor (words: Memory)
      ensures Valid() && this.words == words && nodes == []
    {
      this.words := words;
      head := 0;
      nodes := [];
    }

    ghost predicate Bounded()
      reads this
    {
      forall i :: 0 <= i < |nodes| ==> Fit(nodes[i])
    }

    // What mm_alloc does with the node it found: unlink or shrink it.
    method Cut(previous: Word, node: Word, size: Word, ghost i: nat) returns (r: Word)
      requires Valid() && Bounded() && 0 < size
      requires i < |nodes| && node == nodes[i].at && previous == if i == 0 then 0 else nodes[i - 1].at
      requires nodes[i].range.size >= size && forall k :: 0 <= k < i ==> nodes[k].range.size < size
      modifies this
      ensures Valid() && nodes == Withdraw(old(nodes), size)
      ensures HasRoom(old(nodes), size) && r == Result(old(nodes), size)
      ensures words.Keys == old(words).Keys
      ensures forall x :: x in words && (forall i :: 0 <= i < |old(nodes)| ==> Clear(old(nodes)[i], x)) ==>
                words[x] == old(words)[x]
    {
      hide Chain, Apart, HasRoom, Result, Withdraw, Without;
      ghost var s := nodes;
      CutKeepsChain(words, head, s, size, i);
      AtHead(words, head, s, i);
      TakeApart(s, size, i);
      var nodeSize := words[node + 16];
      if nodeSize == size {
        if node == head {
          head := words[node];
        } else {
          words := words[previous := words[node]];
        }
        r := node;
      } else {
        r := words[node + 8] + nodeSize - size;
        words := words[node + 16 := nodeSize - size];
      }
      nodes := Withdraw(s, size);
    }

    // mm_alloc
    method Alloc(size: Word) returns (r: Word)
      requires Valid() && Bounded() && 0 < size
      modifies this
      ensures Valid() && nodes == Withdraw(old(nodes), size)
      ensures r == if HasRoom(old(nodes), size) then Result(old(nodes), size) else 0
      ensures !HasRoom(old(nodes), size) ==> words == old(words) && head == old(head) && nodes == old(nodes)
      ensures words.Keys == old(words).Keys
      ensures forall x :: x in words && (forall i :: 0 <= i < |old(nodes)| ==> Clear(old(nodes)[i], x)) ==>
                words[x] == old(words)[x]
    {
      hide Apart, HasRoom, Result, Withdraw;
      ghost var s, before, link := nodes, words, head;
      var previous: Word, node: Word := 0, head;
      ghost var i := 0;
      ChainHeaders(words, head, s);
      assert s[0..] == s;
      while node != 0
        invariant 0 <= i <= |s| && words == before && head == link && nodes == s
        invariant Chain(words, node, s[i..])
        invariant forall k :: 0 <= k < i ==> s[k].range.size < size
        invariant previous == if i == 0 then 0 else s[i - 1].at
        decreases |s| - i
      {
        assert s[i..][0] == s[i] && s[i..][1..] == s[i + 1..];
        if words[node + 16] < size {
          previous := node;
          node := words[node];
          i := i + 1;
        } else {
          r := Cut(previous, node, size, i);
          return r;
        }
      }
      assert s[i..] == [];
      NothingFits(s, size);
      return 0;
    }

    // mm_tryMergeNodes, with nothing to give the node to (p_freeNode == NULL).
    method TryMerge(node: Word, ghost l: seq<Node>, ghost j: nat)
      requires Chain(words, head, l) && Apart(l) && j < |l| && l[j].at == node
      modifies this`words
      ensures Chain(words, head, MergedAt(l, j)) && Apart(MergedAt(l, j))
      ensures words.Keys == old(words).Keys
      ensures forall x :: x in words && Clear(l[j], x) ==> words[x] == old(words)[x]
    {
      hide Chain, Apart, MergedAt, Touching;
      MergeStores(words, head, l, j);
      var next: int := words[node];
      if next == 0 {
        return;
      }
      if (words[node + 8] + words[node + 16]) % WORD_LIMIT == next {
        words := words[node + 16 := (words[node + 16] + words[next + 16]) % WORD_LIMIT];
        words := words[node := words[next]];
      }
    }

    // The search loop of mm_addNodeToMap.
    method FindPlace(ptr: Word) returns (previous: Word, node: Word, ghost k: nat)
      requires Valid()
      ensures k <= |nodes| && forall i :: 0 <= i < k ==> nodes[i].range.ptr < ptr
      ensures k < |nodes| ==> nodes[k].range.ptr >= ptr
      ensures previous == if k == 0 then 0 else nodes[k - 1].at
      ensures k > 0 ==> previous != 0 && HeaderAt(words, nodes[k - 1])
      ensures node == if k == 0 then head else words[nodes[k - 1].at]
    {
      ghost var s := nodes;
      previous, node := 0, head;
      k := 0;
      ChainHeaders(words, head, s);
      assert s[0..] == s;
      while node != 0 && words[node + 8] < ptr
        invariant k <= |s|
        invariant Chain(words, node, s[k..])
        invariant forall i :: 0 <= i < k ==> s[i].range.ptr < ptr
        invariant previous == if k == 0 then 0 else s[k - 1].at
        invariant node == if k == 0 then head else words[s[k - 1].at]
        decreases |s| - k
      {
        assert s[k..][0] == s[k] && s[k..][1..] == s[k + 1..];
        previous := node;
        node := words[node];
        k := k + 1;
      }
      assert k < |s| ==> s[k..][0] == s[k];
    }

    // mm_addNodeToMap links the node in.
    method LinkIn(node: Word, previous: Word, next: Word, ghost n: Node, ghost k: nat)
      requires Valid() && k <= |nodes| && Apart(Linked(nodes, n, k)) && HeaderAt(words, n) && n.at == node
      requires previous == if k == 0 then 0 else nodes[k - 1].at
      requires k > 0 ==> previous != 0 && HeaderAt(words, nodes[k - 1])
      requires next == if k == 0 then head else words[nodes[k - 1].at]
      modifies this`words, this`head
      ensures Chain(words, head, Linked(nodes, n, k)) && words.Keys == old(words).Keys
      ensures forall x :: x in words && Clear(n, x) && (k > 0 ==> Clear(nodes[k - 1], x)) ==> words[x] == old(words)[x]
    {
      hide Chain, Apart, Linked;
      HeadersDiffer(nodes, n, k);
      NewLinkKeepsChain(words, head, nodes, n, k, next);
      words := words[node := next];
      LinkKeepsChain(words, head, nodes, n, k);
      if previous == 0 {
        head := node;
      } else {
        words := words[previous := node];
      }
    }

    // mm_addNodeToMap. The node's address and size are already written.
    method AddNode(node: Word, ghost n: Node)
      requires Valid() && HeaderAt(words, n) && n.at == node
      requires forall i :: 0 <= i < |nodes| ==> nodes[i].at + NODE_SIZE <= n.at || n.at + NODE_SIZE <= nodes[i].at
      modifies this
      ensures Valid() && nodes == Add(old(nodes), n)
      ensures words.Keys == old(words).Keys
      ensures forall x ::
                x in words && Clear(n, x) && (forall i :: 0 <= i < |old(nodes)| ==> Clear(old(nodes)[i], x)) ==>
                  words[x] == old(words)[x]
    {
      hide Chain, Apart, Linked, MergedAt, Touching, Add;
      ghost var s := nodes;
      var previous, next, k := FindPlace(words[node + 8]);
      LinkedApart(s, n, k);
      LinkIn(node, previous, next, n, k);
      BothMerges(s, n, k);
      TryMerge(node, Linked(s, n, k), k);
      if previous != 0 {
        TryMerge(previous, MergedAt(Linked(s, n, k), k), k - 1);
      }
      nodes := Add(s, n);
    }
  }

  // The merges of mm_addNodeToMap give the insertion.
  lemma BothMerges(s: seq<Node>, n: Node, k: nat)
    requires k <= |s|
    requires forall i :: 0 <= i < k ==> s[i].range.ptr < n.range.ptr
    requires k < |s| ==> s[k].range.ptr >= n.range.ptr
    ensures var l := Linked(s, n, k);
            && k < |l| && l[k] == n
            && var first := MergedAt(l, k);
               && (k == 0 ==> first == Add(s, n))
               && (k > 0 ==> k < |first| && first[k - 1] == s[k - 1] && Add(s, n) == MergedAt(first, k - 1))
  {
    LinkedAt(s, n, k, k);
    MergesAdd(s, n, k);
  }

  // Only the first node is stored at the head's address.
  lemma AtHead(words: Memory, link: Word, s: seq<Node>, i: nat)
    requires Chain(words, link, s) && Apart(s) && i < |s|
    ensures s[i].at == link <==> i == 0
  {
  }
}
