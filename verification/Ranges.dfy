// What the kernel's two free lists mean: address-ordered sequences of disjoint
// ranges, first-fit allocation from the tail of a range, and ordered insertion
// with merging in the two orders the kernel uses.
module Ranges {

  datatype Range = Range(ptr: int, size: int) {
    function End(): int {
      ptr + size
    }

    predicate Contains(a: int) {
      ptr <= a < ptr + size
    }
  }

  // Non-empty, address-ordered, pairwise disjoint.
  ghost predicate Separated(s: seq<Range>) {
    s != [] ==>
      && s[0].size > 0
      && (|s| > 1 ==> s[0].End() <= s[1].ptr)
      && Separated(s[1..])
  }

  // Moreover, no two neighbours touch.
  ghost predicate Coalesced(s: seq<Range>) {
    s != [] ==>
      && s[0].size > 0
      && (|s| > 1 ==> s[0].End() < s[1].ptr)
      && Coalesced(s[1..])
  }

  ghost predicate Covers(s: seq<Range>, a: int) {
    s != [] && (s[0].Contains(a) || Covers(s[1..], a))
  }

  ghost predicate Disjoint(s: seq<Range>, r: Range) {
    s != [] ==> (s[0].End() <= r.ptr || r.End() <= s[0].ptr) && Disjoint(s[1..], r)
  }

  ghost predicate Aligned(s: seq<Range>, unit: int)
    requires unit > 0
  {
    s != [] ==> s[0].ptr % unit == 0 && s[0].size % unit == 0 && Aligned(s[1..], unit)
  }

  function Cons(r: Range, t: seq<Range>): (s: seq<Range>)
    ensures s != [] && s[0] == r && s[1..] == t
  {
    [r] + t
  }

  // ---------------------------------------------------------------- allocation

  // Whether some range is large enough for n.
  predicate Fits(s: seq<Range>, n: int) {
    s != [] && (s[0].size >= n || Fits(s[1..], n))
  }

  // The block is cut from the high end of the range.
  function TakenAt(s: seq<Range>, n: int): int
    requires Fits(s, n)
  {
    if s[0].size >= n then s[0].End() - n else TakenAt(s[1..], n)
  }

  function Take(s: seq<Range>, n: int): seq<Range> {
    if s == [] then s
    else if s[0].size < n then Cons(s[0], Take(s[1..], n))
    else if s[0].size == n then s[1..]
    else Cons(Range(s[0].ptr, s[0].size - n), s[1..])
  }

  // Taking n bytes removes exactly one block of n covered bytes and keeps the
  // list's shape.
  lemma {:induction false} TakeRemovesOneBlock(s: seq<Range>, n: int)
    requires Separated(s) && n > 0
    ensures Separated(Take(s, n))
    ensures s != [] && Take(s, n) != [] ==> s[0].ptr <= Take(s, n)[0].ptr
    ensures Fits(s, n) ==>
              var block := Range(TakenAt(s, n), n);
              && (forall a :: block.Contains(a) ==> Covers(s, a))
              && (forall a :: Covers(Take(s, n), a) <==> Covers(s, a) && !block.Contains(a))
    ensures !Fits(s, n) ==> Take(s, n) == s
  {
    if s != [] {
      BytesAbove(s[1..]);
      if s[0].size < n {
        TakeRemovesOneBlock(s[1..], n);
        if Fits(s, n) {
          var block := Range(TakenAt(s, n), n);
          forall a ensures Covers(Take(s, n), a) <==> Covers(s, a) && !block.Contains(a) {
            assert block.Contains(a) ==> Covers(s[1..], a);
          }
        }
      }
    }
  }

  lemma {:induction false} BytesAbove(s: seq<Range>)
    requires Separated(s)
    ensures forall a :: Covers(s, a) ==> s[0].ptr <= a
  {
    if s != [] {
      BytesAbove(s[1..]);
    }
  }

  lemma {:induction false} DisjointFromBytes(s: seq<Range>, r: Range)
    requires Separated(s) && r.size > 0 && forall a :: r.Contains(a) ==> !Covers(s, a)
    ensures Disjoint(s, r)
  {
    if s != [] {
      DisjointFromBytes(s[1..], r);
      if s[0].ptr < r.End() && r.ptr < s[0].End() {
        assert r.Contains(if s[0].ptr < r.ptr then r.ptr else s[0].ptr);
      }
    }
  }

  // ----------------------------------------------------------------- insertion

  // r in front of t, joined with its first range when they touch.
  function Join(r: Range, t: seq<Range>): seq<Range> {
    if t != [] && r.End() == t[0].ptr then Cons(Range(r.ptr, r.size + t[0].size), t[1..]) else Cons(r, t)
  }

  predicate Follows(s: seq<Range>, r: Range) {
    s == [] || s[0].ptr >= r.ptr
  }

  // pmm_free: the previous range first; the next one only when the previous one
  // did not swallow the new range.
  function PutBackwardFirst(s: seq<Range>, r: Range): seq<Range> {
    if Follows(s, r) then Join(r, s)
    else if Follows(s[1..], r) && s[0].End() == r.ptr then Cons(Range(s[0].ptr, s[0].size + r.size), s[1..])
    else Cons(s[0], PutBackwardFirst(s[1..], r))
  }

  // mm_addNodeToMap: the next range first, then the previous one.
  function PutForwardFirst(s: seq<Range>, r: Range): seq<Range> {
    if Follows(s, r) then Join(r, s)
    else if Follows(s[1..], r) then Join(s[0], Join(r, s[1..]))
    else Cons(s[0], PutForwardFirst(s[1..], r))
  }

  predicate TouchesBoth(s: seq<Range>, r: Range) {
    !Follows(s, r) &&
    if Follows(s[1..], r) then s[0].End() == r.ptr && |s| > 1 && r.End() == s[1].ptr
    else TouchesBoth(s[1..], r)
  }

  lemma JoinAdds(r: Range, t: seq<Range>)
    requires Separated(t) && r.size > 0 && (t != [] ==> r.End() <= t[0].ptr)
    ensures Separated(Join(r, t)) && Join(r, t)[0].ptr == r.ptr
    ensures Coalesced(t) ==> Coalesced(Join(r, t))
    ensures forall a :: Covers(Join(r, t), a) <==> r.Contains(a) || Covers(t, a)
  {
  }

  // Both insertions add exactly the new range and keep the list's shape.
  lemma {:induction false} PutsAdd(s: seq<Range>, r: Range)
    requires Separated(s) && r.size > 0 && Disjoint(s, r)
    ensures Separated(PutBackwardFirst(s, r)) && Separated(PutForwardFirst(s, r))
    ensures PutBackwardFirst(s, r) != [] && PutBackwardFirst(s, r)[0].ptr == if Follows(s, r) then r.ptr else s[0].ptr
    ensures PutForwardFirst(s, r) != [] && PutForwardFirst(s, r)[0].ptr == if Follows(s, r) then r.ptr else s[0].ptr
    ensures forall a :: Covers(PutBackwardFirst(s, r), a) <==> Covers(s, a) || r.Contains(a)
    ensures forall a :: Covers(PutForwardFirst(s, r), a) <==> Covers(s, a) || r.Contains(a)
  {
    if Follows(s, r) {
      JoinAdds(r, s);
    } else {
      if Follows(s[1..], r) {
        JoinAdds(r, s[1..]);
        JoinAdds(s[0], Join(r, s[1..]));
      }
      PutsAdd(s[1..], r);
    }
  }

  // --------------------------------------------------------------- normal form

  // The first range reaches exactly as far as the coverage is unbroken.
  lemma {:induction false} FirstRangeIsMaximal(s: seq<Range>)
    requires Coalesced(s) && s != []
    ensures Separated(s)
    ensures forall a :: Covers(s, a) ==> s[0].ptr <= a
    ensures forall a :: s[0].ptr <= a < s[0].End() ==> Covers(s, a)
    ensures forall a :: Covers(s[1..], a) ==> s[0].End() < a
    ensures !Covers(s, s[0].End())
  {
    if |s| > 1 {
      FirstRangeIsMaximal(s[1..]);
    }
  }

  lemma CoversItsStart(s: seq<Range>)
    requires Coalesced(s)
    ensures s != [] ==> Covers(s, s[0].ptr)
  {
  }

  // A set of bytes has one fully coalesced list.
  lemma {:induction false} NormalFormIsUnique(s: seq<Range>, t: seq<Range>)
    requires Coalesced(s) && Coalesced(t)
    requires forall a :: Covers(s, a) <==> Covers(t, a)
    ensures s == t
  {
    CoversItsStart(s);
    CoversItsStart(t);
    if s != [] {
      FirstRangeIsMaximal(s);
      FirstRangeIsMaximal(t);
      assert s[0].ptr == t[0].ptr;
      assert s[0].End() == t[0].End();
      forall a ensures Covers(s[1..], a) <==> Covers(t[1..], a) {
        assert Covers(s, a) <==> Covers(t, a);
      }
      NormalFormIsUnique(s[1..], t[1..]);
      assert s == [s[0]] + s[1..] && t == [t[0]] + t[1..];
    }
  }

  // Merge every touching pair.
  function Normalise(s: seq<Range>): seq<Range> {
    if s == [] then [] else Join(s[0], Normalise(s[1..]))
  }

  lemma CoalescedIsSeparated(s: seq<Range>)
    requires Coalesced(s)
    ensures Separated(s)
  {
  }

  lemma {:induction false} NormaliseKeepsBytes(s: seq<Range>)
    requires Separated(s)
    ensures Coalesced(Normalise(s))
    ensures s != [] ==> Normalise(s) != [] && Normalise(s)[0].ptr == s[0].ptr
    ensures forall a :: Covers(Normalise(s), a) <==> Covers(s, a)
  {
    if s != [] {
      NormaliseKeepsBytes(s[1..]);
      CoalescedIsSeparated(Normalise(s[1..]));
      JoinAdds(s[0], Normalise(s[1..]));
    }
  }

  // From a coalesced list, mm_addNodeToMap leaves a coalesced list, one node
  // shorter than pmm_free's exactly when both neighbours touch.
  lemma {:induction false} ForwardFirstCoalesces(s: seq<Range>, r: Range)
    requires Coalesced(s) && Separated(s) && r.size > 0 && Disjoint(s, r)
    ensures Coalesced(PutForwardFirst(s, r))
    ensures |PutBackwardFirst(s, r)| == |PutForwardFirst(s, r)| + if TouchesBoth(s, r) then 1 else 0
  {
    PutsAdd(s, r);
    if Follows(s, r) {
      JoinAdds(r, s);
    } else {
      PutsAdd(s[1..], r);
      if Follows(s[1..], r) {
        JoinAdds(r, s[1..]);
        JoinAdds(s[0], Join(r, s[1..]));
      } else {
        ForwardFirstCoalesces(s[1..], r);
      }
    }
  }

  // The two insertions are one abstract operation: from a coalesced list,
  // mm_addNodeToMap gives the normal form of what pmm_free gives, and pmm_free
  // misses at most one merge - exactly when both neighbours touch.
  lemma InsertionsAgree(s: seq<Range>, r: Range)
    requires Coalesced(s) && r.size > 0 && Disjoint(s, r)
    ensures Normalise(PutBackwardFirst(s, r)) == PutForwardFirst(s, r)
    ensures |PutBackwardFirst(s, r)| == |PutForwardFirst(s, r)| + if TouchesBoth(s, r) then 1 else 0
  {
    CoalescedIsSeparated(s);
    PutsAdd(s, r);
    ForwardFirstCoalesces(s, r);
    NormaliseKeepsBytes(PutBackwardFirst(s, r));
    NormalFormIsUnique(Normalise(PutBackwardFirst(s, r)), PutForwardFirst(s, r));
  }

  // Whether the first fit is an exact one that touches a neighbour; the list is
  // preceded by a range that ends at previousEnd.
  predicate UsesUpTouching(s: seq<Range>, n: int, previousEnd: int) {
    s != [] &&
    if s[0].size < n then UsesUpTouching(s[1..], n, s[0].End())
    else s[0].size == n && (previousEnd == s[0].ptr || (|s| > 1 && s[0].End() == s[1].ptr))
  }

  // Freeing an allocation at once restores the list node for node exactly when
  // the allocation split a node, or used up one that touched no neighbour.
  lemma PutAfterTake(s: seq<Range>, n: int)
    requires Separated(s) && n > 0 && Fits(s, n)
    ensures PutBackwardFirst(Take(s, n), Range(TakenAt(s, n), n)) == s <==> !UsesUpTouching(s, n, s[0].ptr - 1)
  {
    var r := Range(TakenAt(s, n), n);
    if s[0].size < n {
      PutAfterTakeBehind(s[0], s[1..], n);
      assert Take(s, n) == Cons(s[0], Take(s[1..], n));
      assert s == Cons(s[0], s[1..]);
    } else if s[0].size == n {
      assert s[0] == r && Take(s, n) == s[1..];
      assert s == Cons(s[0], s[1..]);
      if |s| > 1 && s[0].End() == s[1].ptr {
        assert PutBackwardFirst(s[1..], r)[0].size != n;
      }
    } else {
      PutBackIntoRest(s, n);
    }
  }

  lemma PutBackIntoRest(s: seq<Range>, n: int)
    requires Separated(s) && n > 0 && s != [] && s[0].size > n
    ensures PutBackwardFirst(Take(s, n), Range(TakenAt(s, n), n)) == s
  {
    var r := Range(TakenAt(s, n), n);
    var t := Take(s, n);
    assert t[1..] == s[1..];
    assert Follows(t[1..], r) && t[0].End() == r.ptr;
    assert s == Cons(s[0], s[1..]);
  }

  lemma {:induction false} PutAfterTakeBehind(h: Range, u: seq<Range>, n: int)
    requires Separated(Cons(h, u)) && n > 0 && Fits(u, n)
    ensures PutBackwardFirst(Cons(h, Take(u, n)), Range(TakenAt(u, n), n)) == Cons(h, u)
       <==> !UsesUpTouching(u, n, h.End())
    decreases u
  {
    var r := Range(TakenAt(u, n), n);
    var t := Cons(h, Take(u, n));
    var back := PutBackwardFirst(Take(u, n), r);
    if u[0].size < n {
      TakeRemovesOneBlock(u[1..], n);
      BytesAbove(u[1..]);
      assert r.Contains(r.ptr);
      PutAfterTakeBehind(u[0], u[1..], n);
      assert u == Cons(u[0], u[1..]);
      assert PutBackwardFirst(t, r) == Cons(h, back);
    } else if u[0].size == n {
      assert u[0] == r && u == Cons(r, u[1..]);
      if h.End() == r.ptr {
        assert PutBackwardFirst(t, r)[0].size != h.size;
      } else {
        assert PutBackwardFirst(t, r) == Cons(h, Join(r, u[1..]));
      }
    } else {
      PutBackIntoRest(u, n);
      assert PutBackwardFirst(t, r) == Cons(h, back);
    }
  }
}
