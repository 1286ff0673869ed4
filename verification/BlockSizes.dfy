// The block sizes of malloc_refillPhysicalMemoryPool (kernel/src/stdlib.c): when
// its loop can end, and when what it has mapped at the end is what was asked for.
module BlockSizes {
  import opened Words

  // ------------------------------------------------------------- halved sizes

  predicate PowerOfTwo(n: int) {
    n == 1 || (n > 0 && n % 2 == 0 && PowerOfTwo(n / 2))
  }

  // The block size after k allocations in a row have failed.
  function AfterFailures(block: int, k: nat): int
    decreases k
  {
    if k == 0 then block else AfterFailures(block / 2, k - 1)
  }

  // The loop gives up only when an allocation of exactly one page fails.
  ghost predicate GivesUp(block: int) {
    exists k: nat :: AfterFailures(block, k) == PAGE_SIZE
  }

  // The leading thirteen bits of a large page count, or all bits of a small one,
  // are a 1 followed by zeros.
  predicate LeadingBit(pages: int) {
    if pages < 2 * PAGE_SIZE then PowerOfTwo(pages) else LeadingBit(pages / 2)
  }

  lemma {:induction false} FailuresDivide(block: int, k: nat)
    requires block >= 0
    ensures AfterFailures(block, k) == block / Pow2(k)
  {
    if k > 0 {
      FailuresDivide(block / 2, k - 1);
      DivideTwice(block, Pow2(k - 1));
    }
  }

  // Halving a block of the given number of pages k times gives one page.
  ghost predicate OnePageAfter(pages: int, k: nat) {
    Pow2(k) <= pages && (pages - Pow2(k)) * PAGE_SIZE < Pow2(k)
  }

  lemma OnePageLeft(pages: int, k: nat)
    requires pages > 0
    ensures AfterFailures(pages * PAGE_SIZE, k) == PAGE_SIZE <==> OnePageAfter(pages, k)
  {
    FailuresDivide(pages * PAGE_SIZE, k);
    var a, p := pages * PAGE_SIZE, Pow2(k);
    if OnePageAfter(pages, k) {
      Quotient(a, p, PAGE_SIZE, a - p * PAGE_SIZE);
    }
  }

  lemma {:induction false} PowersAre(n: int)
    requires PowerOfTwo(n)
    ensures exists k: nat :: Pow2(k) == n
  {
    if n == 1 {
      assert Pow2(0) == n;
    } else {
      PowersAre(n / 2);
      var k: nat :| Pow2(k) == n / 2;
      assert Pow2(k + 1) == n;
    }
  }

  lemma TwelfthPower()
    ensures Pow2(12) == PAGE_SIZE && Pow2(13) == 2 * PAGE_SIZE
  {
    assert Pow2(3) == 8 && Pow2(6) == 64 && Pow2(9) == 512;
  }

  lemma {:induction false} PowersOrdered(j: nat, k: nat)
    requires j <= k
    ensures Pow2(j) <= Pow2(k)
  {
    if j < k {
      PowersOrdered(j, k - 1);
    }
  }

  lemma {:induction false} PowersOfTwo(k: nat)
    ensures PowerOfTwo(Pow2(k))
  {
    if k > 0 {
      PowersOfTwo(k - 1);
    }
  }

  lemma {:induction false} WholePages(k: nat)
    requires k >= 12
    ensures Pow2(k) % PAGE_SIZE == 0
  {
    if k == 12 {
      TwelfthPower();
    } else {
      WholePages(k - 1);
    }
  }

  lemma BelowOnePage(k: nat)
    requires k < 12
    ensures Pow2(k) < PAGE_SIZE
  {
    TwelfthPower();
    PowersOrdered(k + 1, 12);
  }

  // Halving a large block once more does not change whether one page is reached.
  lemma HalvedOnce(pages: int, k: nat)
    requires pages >= 2 * PAGE_SIZE
    ensures OnePageAfter(pages, k) ==> k > 12
    ensures k > 12 ==> (OnePageAfter(pages, k) <==> OnePageAfter(pages / 2, k - 1))
  {
    TwelfthPower();
    if k <= 12 {
      PowersOrdered(k, 12);
    } else {
      WholePages(k - 1);
      var p := Pow2(k - 1) / PAGE_SIZE;
      assert Pow2(k) == 2 * p * PAGE_SIZE && Pow2(k - 1) == p * PAGE_SIZE;
    }
  }

  // With no memory left the loop ever gives up exactly for requests whose page
  // count starts with a 1 and twelve zeros, or is a power of two: any other
  // block size is halved past one page, down to 0 and for ever.
  lemma {:induction false} GivesUpExactly(pages: int)
    requires pages > 0
    ensures GivesUp(pages * PAGE_SIZE) <==> LeadingBit(pages)
    decreases pages
  {
    forall k: nat ensures AfterFailures(pages * PAGE_SIZE, k) == PAGE_SIZE <==> OnePageAfter(pages, k) {
      OnePageLeft(pages, k);
    }
    assert GivesUp(pages * PAGE_SIZE) <==> exists k: nat :: OnePageAfter(pages, k);
    if pages < 2 * PAGE_SIZE {
      SmallRequest(pages);
    } else {
      forall k: nat ensures AfterFailures(pages / 2 * PAGE_SIZE, k) == PAGE_SIZE <==> OnePageAfter(pages / 2, k) {
        OnePageLeft(pages / 2, k);
      }
      GivesUpExactly(pages / 2);
      if k: nat :| OnePageAfter(pages, k) {
        HalvedOnce(pages, k);
        assert OnePageAfter(pages / 2, k - 1);
      }
      if k: nat :| OnePageAfter(pages / 2, k) {
        AtLeastTwelve(pages / 2, k);
        HalvedOnce(pages, k + 1);
      }
    }
  }

  lemma AtLeastTwelve(pages: int, k: nat)
    requires pages >= PAGE_SIZE && OnePageAfter(pages, k)
    ensures k >= 12
  {
    if k < 12 {
      BelowOnePage(k);
    }
  }

  lemma SmallRequest(pages: int)
    requires 0 < pages < 2 * PAGE_SIZE
    ensures (exists k: nat :: OnePageAfter(pages, k)) <==> PowerOfTwo(pages)
  {
    TwelfthPower();
    if k: nat :| OnePageAfter(pages, k) {
      if k > 12 {
        PowersOrdered(13, k);
      } else {
        PowersOrdered(k, 12);
      }
      PowersOfTwo(k);
    }
    if PowerOfTwo(pages) {
      PowersAre(pages);
      var k: nat :| Pow2(k) == pages;
      assert OnePageAfter(pages, k);
    }
  }

  // ------------------------------------------------------------------- the loop

  // How the loop ends, with the bytes it counts as mapped. Refused: vmm_map did
  // not take the offset. Zero: the size has been halved to 0. Open: not yet.
  datatype End = Filled(total: int) | Exhausted(total: int) | Refused(total: int) | Zero(total: int)
               | Open(block: int, total: int)

  // The loop's arithmetic; outcomes says which allocations succeed.
  function Loop(block: int, total: int, size: int, outcomes: seq<bool>): End
    decreases |outcomes|
  {
    if total >= size then Filled(total)
    else if block == 0 then Zero(total)
    else if outcomes == [] then Open(block, total)
    else if outcomes[0] then
      if total % PAGE_SIZE != 0 then Refused(total) else Loop(block, total + block, size, outcomes[1..])
    else if block == PAGE_SIZE then Exhausted(total)
    else Loop(block / 2, total, size, outcomes[1..])
  }

  function Prepend(b: bool, outcomes: seq<bool>): (r: seq<bool>)
    ensures r != [] && r[0] == b && r[1..] == outcomes
  {
    [b] + outcomes
  }

  // Every whole-page size that halving reaches divides the whole-page size before
  // it; last is that size, block the current one.
  predicate Splits(last: int, block: int)
    requires last > 0 && block >= 0
    decreases block
  {
    if block == 0 then true
    else if block % PAGE_SIZE == 0 then last % block == 0 && (block == PAGE_SIZE || Splits(block, block / 2))
    else Splits(last, block / 2)
  }

  predicate Divides(b: int, x: int)
    requires b > 0
  {
    x % b == 0
  }

  // Blocks of a size that divides both leave room for one more.
  lemma NextFits(total: int, size: int, block: int)
    requires 0 <= total < size && block > 0 && Divides(block, total) && Divides(block, size)
    ensures total + block <= size && Divides(block, total + block)
  {
    var i, j := total / block, size / block;
    assert total == block * i && size == block * j;
    assert size - total == block * (j - i);
    assert j != i;
    LeastMultiple(block, j - i);
    assert total + block == block * (i + 1);
    Remainder(total + block, block, i + 1);
  }

  lemma Halved(block: int, x: int)
    requires block > 1 && block % 2 == 0 && Divides(block, x) && x >= 0
    ensures Divides(block / 2, x)
  {
    var b := block / 2;
    assert x == b * (2 * (x / block));
    Remainder(x, b, 2 * (x / block));
  }

  lemma Remainder(x: int, b: int, q: int)
    requires b > 0 && x == b * q && x >= 0
    ensures x % b == 0
  {
    Quotient(x, b, q, 0);
  }

  lemma HalvedPages(block: int)
    requires block != PAGE_SIZE && block > 0 && block % PAGE_SIZE == 0 && PowerOfTwo(block / PAGE_SIZE)
    ensures block / 2 % PAGE_SIZE == 0 && PowerOfTwo(block / 2 / PAGE_SIZE) && 0 < block / 2 < block && block % 2 == 0
  {
    hide PowerOfTwo;
    var n := block / PAGE_SIZE;
    assert block == n * PAGE_SIZE && n != 1;
    PowerHalves(n);
    assert n == n / 2 * 2;
    assert block / 2 == n / 2 * PAGE_SIZE;
  }

  lemma PowerHalves(n: int)
    requires PowerOfTwo(n) && n != 1
    ensures n % 2 == 0 && n > 0 && PowerOfTwo(n / 2)
  {
  }

  lemma HalvedBlock(block: int, total: int, goal: int)
    requires block != PAGE_SIZE && block > 0 && block % PAGE_SIZE == 0 && PowerOfTwo(block / PAGE_SIZE)
    requires 0 <= total && Divides(block, total) && 0 <= goal && Divides(block, goal)
    ensures block / 2 % PAGE_SIZE == 0 && PowerOfTwo(block / 2 / PAGE_SIZE) && 0 < block / 2 < block
    ensures Divides(block / 2, total) && Divides(block / 2, goal)
  {
    hide Divides, PowerOfTwo;
    HalvedPages(block);
    Halved(block, total);
    Halved(block, goal);
  }

  lemma StartsWhole(goal: int)
    requires goal > 0
    ensures Divides(goal, 0) && Divides(goal, goal)
  {
  }

  // The sizes at the top of the loop: whole blocks are mapped and missing.
  ghost predicate Whole(block: int, total: int, goal: int) {
    && 0 < block <= goal && block % PAGE_SIZE == 0 && PowerOfTwo(block / PAGE_SIZE)
    && 0 <= total <= goal && Divides(block, total) && Divides(block, goal) && total % PAGE_SIZE == 0
  }

  lemma WholeAtFirst(goal: int)
    requires goal > 0 && goal % PAGE_SIZE == 0 && PowerOfTwo(goal / PAGE_SIZE)
    ensures Whole(goal, 0, goal)
  {
    StartsWhole(goal);
  }

  lemma WholeParts(block: int, total: int, goal: int)
    requires Whole(block, total, goal)
    ensures block > 0 && block % PAGE_SIZE == 0 && total % PAGE_SIZE == 0
  {
  }

  lemma PagesAdd(a: int, b: int)
    requires a % PAGE_SIZE == 0 && b % PAGE_SIZE == 0
    ensures (a + b) % PAGE_SIZE == 0
  {
  }

  lemma WholeMore(block: int, total: int, goal: int)
    requires Whole(block, total, goal) && total < goal
    ensures total + block <= goal && Whole(block, total + block, goal)
  {
    hide PowerOfTwo, Divides;
    NextFits(total, goal, block);
    PagesAdd(total, block);
  }

  lemma WholeHalved(block: int, total: int, goal: int)
    requires Whole(block, total, goal) && block != PAGE_SIZE
    ensures 0 < block / 2 < block && Whole(block / 2, total, goal)
  {
    hide PowerOfTwo, Divides;
    HalvedBlock(block, total, goal);
  }

  lemma WholeEnds(block: int, total: int, goal: int, size: int)
    requires Whole(block, total, goal) && goal % PAGE_SIZE == 0 && goal < size + PAGE_SIZE && size <= total
    ensures total == goal
  {
  }

  // Once a block that is no whole page has been added, nothing fills the request.
  lemma {:induction false} BrokenNeverFills(block: int, total: int, size: int, outcomes: seq<bool>)
    requires block >= 0 && total % PAGE_SIZE != 0 && total < size
    ensures !Loop(block, total, size, outcomes).Filled?
    decreases |outcomes|
  {
    if block != 0 && outcomes != [] && !outcomes[0] && block != PAGE_SIZE {
      BrokenNeverFills(block / 2, total, size, outcomes[1..]);
    }
  }

  // What holds at the top of the loop while only whole pages have been added.
  ghost predicate OnTrack(last: int, block: int, total: int, goal: int, size: int) {
    && last > 0 && last % PAGE_SIZE == 0 && 0 <= block && Splits(last, block)
    && (block == last || (2 * block <= last && last >= 2 * PAGE_SIZE))
    && 0 <= total <= goal && Divides(last, total) && Divides(last, goal)
    && goal % PAGE_SIZE == 0 && size <= goal < size + PAGE_SIZE
  }

  lemma DividesTrans(a: int, b: int, x: int)
    requires a > 0 && b > 0 && x >= 0 && b % a == 0 && Divides(b, x)
    ensures Divides(a, x)
  {
    var i, j := b / a, x / b;
    assert b == a * i && x == b * j;
    assert x == a * (i * j);
    Remainder(x, a, i * j);
  }

  lemma WholePagesOf(last: int, x: int)
    requires last > 0 && last % PAGE_SIZE == 0 && Divides(last, x) && x >= 0
    ensures x % PAGE_SIZE == 0
  {
    DividesTrans(PAGE_SIZE, last, x);
  }

  // A whole-page block is the new last one.
  lemma TrackAligned(last: int, block: int, total: int, goal: int, size: int)
    requires OnTrack(last, block, total, goal, size) && block > 0 && block % PAGE_SIZE == 0
    ensures OnTrack(block, block, total, goal, size)
  {
    hide Divides;
    if block != last {
      DividesTrans(block, last, total);
      DividesTrans(block, last, goal);
    }
    Itself(block);
  }

  lemma Itself(block: int)
    requires block > 0
    ensures block % block == 0
  {
  }

  lemma TrackMore(block: int, total: int, goal: int, size: int)
    requires OnTrack(block, block, total, goal, size) && total < size
    ensures OnTrack(block, block, total + block, goal, size)
  {
    hide Divides, Splits;
    NextFits(total, goal, block);
  }

  lemma TrackHalved(last: int, block: int, total: int, goal: int, size: int)
    requires OnTrack(last, block, total, goal, size) && block > 0 && block != PAGE_SIZE
    ensures OnTrack(if block % PAGE_SIZE == 0 then block else last, block / 2, total, goal, size)
  {
    hide Divides;
    if block % PAGE_SIZE == 0 {
      TrackAligned(last, block, total, goal, size);
    }
  }

  // A block that is no whole page leaves the request unfilled.
  lemma TrackBroken(last: int, block: int, total: int, goal: int, size: int)
    requires OnTrack(last, block, total, goal, size) && block % PAGE_SIZE != 0 && total < size
    ensures total % PAGE_SIZE == 0 && (total + block) % PAGE_SIZE != 0 && total + block < size
  {
    hide Divides, Splits;
    WholePagesOf(last, total);
    NextFits(total, goal, last);
  }

  lemma TrackEnds(last: int, block: int, total: int, goal: int, size: int)
    requires OnTrack(last, block, total, goal, size) && total >= size
    ensures total == goal
  {
    hide Divides, Splits;
    WholePagesOf(last, total);
  }

  lemma {:induction false} TrackFills(last: int, block: int, total: int, goal: int, size: int, outcomes: seq<bool>)
    requires OnTrack(last, block, total, goal, size) && 0 <= block
    ensures Loop(block, total, size, outcomes).Filled? ==> Loop(block, total, size, outcomes).total == goal
    decreases |outcomes|
  {
    hide OnTrack;
    if total >= size {
      TrackEnds(last, block, total, goal, size);
    } else if 0 < block && outcomes != [] {
      if !outcomes[0] {
        if block != PAGE_SIZE {
          TrackHalved(last, block, total, goal, size);
          TrackFills(if block % PAGE_SIZE == 0 then block else last, block / 2, total, goal, size, outcomes[1..]);
        }
      } else if block % PAGE_SIZE == 0 {
        TrackAligned(last, block, total, goal, size);
        TrackMore(block, total, goal, size);
        TrackFills(block, block, total + block, goal, size, outcomes[1..]);
      } else {
        TrackBroken(last, block, total, goal, size);
        BrokenNeverFills(block, total + block, size, outcomes[1..]);
      }
    }
  }

  lemma TrackStarts(goal: int, size: int)
    requires 0 < goal && goal % PAGE_SIZE == 0 && size <= goal < size + PAGE_SIZE && Splits(goal, goal)
    ensures OnTrack(goal, goal, 0, goal, size)
  {
    StartsWhole(goal);
  }

  // c successful allocations of one whole-page size.
  function Successes(c: nat, rest: seq<bool>): seq<bool> {
    if c == 0 then rest else Prepend(true, Successes(c - 1, rest))
  }

  lemma {:induction false} SuccessesAdd(block: int, total: int, size: int, c: nat, rest: seq<bool>)
    requires block > 0 && block % PAGE_SIZE == 0 && 0 <= total && total % PAGE_SIZE == 0
    requires c > 0 ==> total + (c - 1) * block < size
    ensures Loop(block, total, size, Successes(c, rest)) == Loop(block, total + c * block, size, rest)
    decreases c
  {
    if c > 0 {
      PagesAdd(total, block);
      assert total + block + (c - 2) * block == total + (c - 1) * block;
      assert (c - 1) * block >= 0;
      SuccessesAdd(block, total + block, size, c - 1, rest);
      assert total + block + (c - 1) * block == total + c * block;
    }
  }

  // Where a size does not divide the one before it, the loop can end with another
  // number of bytes: all but one block of the last size, then only blocks of the
  // new one.
  lemma {:induction false} BadSplit(last: int, block: int, goal: int, size: int) returns (outcomes: seq<bool>)
    requires 0 < last && 0 <= block <= last && last % PAGE_SIZE == 0 && last <= goal
    requires goal % PAGE_SIZE == 0 && size <= goal < size + PAGE_SIZE && !Splits(last, block)
    ensures var e := Loop(block, goal - last, size, outcomes); e.Filled? && e.total != goal
    decreases block
  {
    hide Splits, Loop;
    NextSplit(last, block);
    if block % PAGE_SIZE != 0 {
      var rest := BadSplit(last, block / 2, goal, size);
      outcomes := Prepend(false, rest);
      FailureTurn(block, goal - last, size, rest);
    } else if last % block != 0 {
      outcomes := OnlyBlocks(last, block, goal, size);
    } else {
      var rest := BadSplit(block, block / 2, goal, size);
      outcomes := AllButOne(last, block, goal, size, rest);
    }
  }

  lemma NextSplit(last: int, block: int)
    requires 0 < last && 0 <= block && !Splits(last, block)
    ensures block > 0
    ensures block % PAGE_SIZE != 0 ==> !Splits(last, block / 2)
    ensures block % PAGE_SIZE == 0 && last % block == 0 ==> block != PAGE_SIZE && !Splits(block, block / 2)
  {
  }

  lemma FailureTurn(block: int, total: int, size: int, rest: seq<bool>)
    requires block > 0 && block != PAGE_SIZE && total < size
    ensures Loop(block, total, size, Prepend(false, rest)) == Loop(block / 2, total, size, rest)
  {
  }

  lemma AllButOne(last: int, block: int, goal: int, size: int, rest: seq<bool>) returns (outcomes: seq<bool>)
    requires 0 < block <= last && last % PAGE_SIZE == 0 && block % PAGE_SIZE == 0 && last % block == 0 && last <= goal
    requires goal % PAGE_SIZE == 0 && size <= goal < size + PAGE_SIZE && block != PAGE_SIZE
    ensures Loop(block, goal - last, size, outcomes) == Loop(block / 2, goal - block, size, rest)
  {
    var c := last / block - 1;
    assert last == block * (last / block);
    assert c * block == last - block;
    outcomes := Successes(c, Prepend(false, rest));
    assert (c - 1) * block == last - block - block;
    SuccessesAdd(block, goal - last, size, c, Prepend(false, rest));
  }

  lemma OnlyBlocks(last: int, block: int, goal: int, size: int) returns (outcomes: seq<bool>)
    requires 0 < block <= last && last % PAGE_SIZE == 0 && block % PAGE_SIZE == 0 && last % block != 0 && last <= goal
    requires goal % PAGE_SIZE == 0 && size <= goal < size + PAGE_SIZE
    ensures var e := Loop(block, goal - last, size, outcomes); e.Filled? && e.total != goal
  {
    var c := last / block + 1;
    assert last == block * (last / block) + last % block;
    assert (c - 1) * block == last - last % block;
    outcomes := Successes(c, []);
    PagesApart(last, block);
    SuccessesAdd(block, goal - last, size, c, []);
    assert c * block == last - last % block + block;
  }

  lemma PagesApart(last: int, block: int)
    requires 0 < block && last >= 0 && last % PAGE_SIZE == 0 && block % PAGE_SIZE == 0 && last % block != 0
    ensures last % block >= PAGE_SIZE
  {
    var i, j := last / PAGE_SIZE, block / PAGE_SIZE;
    var q := last / block;
    assert last == block * q + last % block;
    assert last % block == PAGE_SIZE * (i - j * q);
    if i - j * q != 0 {
      LeastMultiple(PAGE_SIZE, i - j * q);
    }
  }

  // Whatever mix of blocks the allocator gives, a loop that fills the request has
  // mapped exactly the rounded request - if and only if every whole-page size
  // that halving reaches divides the one before it.
  lemma FillsExactly(goal: int, size: int)
    requires 0 < goal && goal % PAGE_SIZE == 0 && size <= goal < size + PAGE_SIZE
    ensures (forall outcomes :: Loop(goal, 0, size, outcomes).Filled? ==> Loop(goal, 0, size, outcomes).total == goal)
       <==> Splits(goal, goal)
  {
    if Splits(goal, goal) {
      TrackStarts(goal, size);
      forall outcomes | Loop(goal, 0, size, outcomes).Filled? ensures Loop(goal, 0, size, outcomes).total == goal {
        TrackFills(goal, goal, 0, goal, size, outcomes);
      }
    } else {
      StartsWhole(goal);
      var outcomes := BadSplit(goal, goal, goal, size);
      assert Loop(goal, 0, size, outcomes).Filled?;
    }
  }

  lemma {:induction false} PowersSplit(block: int)
    requires block > 0 && block % PAGE_SIZE == 0 && PowerOfTwo(block / PAGE_SIZE)
    ensures Splits(block, block)
    decreases block
  {
    Itself(block);
    if block != PAGE_SIZE {
      HalvedPages(block);
      PowersSplit(block / 2);
      HalfDivides(block);
    }
  }

  lemma HalfDivides(block: int)
    requires block > 0 && block % 2 == 0
    ensures block % (block / 2) == 0
  {
    Remainder(block, block / 2, 2);
  }

  // Every request below 8192 pages (32 MiB) is filled exactly.
  lemma SmallRequestsSplit(goal: int)
    requires 0 < goal < 2 * PAGE_SIZE * PAGE_SIZE && goal % PAGE_SIZE == 0
    ensures Splits(goal, goal)
  {
    Itself(goal);
    if goal != PAGE_SIZE {
      SmallSplits(goal, 1);
    }
  }

  // The i-th half of a small whole-page size is a whole-page size only when the
  // halves before it are.
  lemma {:induction false} SmallSplits(last: int, i: nat)
    requires 0 < last < 2 * PAGE_SIZE * PAGE_SIZE && last % PAGE_SIZE == 0 && last != PAGE_SIZE
    requires i >= 1 && (i >= 2 ==> last / 2 % PAGE_SIZE != 0)
    ensures Splits(last, last / Pow2(i))
    decreases last, last / Pow2(i)
  {
    hide Pow2;
    var block := last / Pow2(i);
    Halves(last, i);
    FirstHalf(last);
    if block > 0 {
      if block % PAGE_SIZE == 0 {
        WholeHalf(last, i);
        if block != PAGE_SIZE {
          SmallSplits(block, 1);
          FirstHalf(block);
        }
      } else {
        SmallSplits(last, i + 1);
      }
    }
  }

  lemma FirstHalf(last: int)
    ensures last / Pow2(1) == last / 2
    ensures last > 0 && last % 2 == 0 ==> last % (last / 2) == 0
  {
    assert Pow2(1) == 2;
    if last > 0 && last % 2 == 0 {
      HalfDivides(last);
    }
  }

  lemma Halves(last: int, i: nat)
    requires last > 0
    ensures last / Pow2(i) / 2 == last / Pow2(i + 1)
    ensures last / Pow2(i) > 0 ==> last / Pow2(i + 1) < last / Pow2(i)
  {
    var a, p := last / Pow2(i), Pow2(i);
    assert last == p * a + last % p;
    assert last == 2 * p * (a / 2) + (p * (a % 2) + last % p);
    assert p * (a % 2) + last % p < 2 * p;
    Quotient(last, 2 * p, a / 2, p * (a % 2) + last % p);
  }

  lemma WholeHalf(last: int, i: nat)
    requires 0 < last < 2 * PAGE_SIZE * PAGE_SIZE && last % PAGE_SIZE == 0 && i >= 1
    requires last / Pow2(i) > 0 && last / Pow2(i) % PAGE_SIZE == 0
    ensures last / 2 % PAGE_SIZE == 0 && (i == 1 ==> last == 2 * (last / 2))
  {
    hide Pow2;
    var block := last / Pow2(i);
    BlockPages(block);
    AtMostTwelve(last, i);
    ExactHalves(last, i);
    TwicePower(i);
    HalfIsWhole(last, Pow2(i - 1), block / PAGE_SIZE);
  }

  lemma TwicePower(i: nat)
    requires i >= 1
    ensures Pow2(i) == 2 * Pow2(i - 1) && Pow2(i - 1) > 0
  {
  }

  lemma HalfIsWhole(last: int, h: int, pages: int)
    requires h > 0 && pages > 0 && last == 2 * h * (PAGE_SIZE * pages)
    ensures last / 2 % PAGE_SIZE == 0 && last == 2 * (last / 2)
  {
    var q := h * pages;
    assert last == 2 * (PAGE_SIZE * q);
    Remainder(PAGE_SIZE * q, PAGE_SIZE, q);
  }

  lemma AtMostTwelve(last: int, i: nat)
    requires 0 < last < 2 * PAGE_SIZE * PAGE_SIZE && last / Pow2(i) >= PAGE_SIZE
    ensures i <= 12
  {
    var p := Pow2(i);
    assert last == p * (last / p) + last % p;
    assert p * (last / p - PAGE_SIZE) >= 0;
    assert p * PAGE_SIZE <= last;
    TwelfthPower();
    if i >= 13 {
      PowersOrdered(13, i);
    }
  }

  lemma BlockPages(block: int)
    requires block > 0 && block % PAGE_SIZE == 0
    ensures block >= PAGE_SIZE && block == PAGE_SIZE * (block / PAGE_SIZE)
  {
  }

  // Up to twelve halvings of whole pages lose nothing.
  lemma ExactHalves(last: int, i: nat)
    requires last >= 0 && last % PAGE_SIZE == 0 && i <= 12
    ensures last % Pow2(i) == 0 && last == Pow2(i) * (last / Pow2(i))
  {
    TwelfthPower();
    PowersMultiply(i, 12 - i);
    var q := last / PAGE_SIZE;
    assert last == Pow2(i) * (Pow2(12 - i) * q);
    Quotient(last, Pow2(i), Pow2(12 - i) * q, 0);
  }

  lemma {:induction false} PowersMultiply(i: nat, j: nat)
    ensures Pow2(i) * Pow2(j) == Pow2(i + j)
  {
    if i > 0 {
      PowersMultiply(i - 1, j);
    }
  }

  // A request of 24577 pages is not: halved thirteen times it is three pages, and
  // 8193 blocks of three pages are two pages too many.
  lemma LargeRequestOverfills()
    ensures !Splits(24577 * PAGE_SIZE, 24577 * PAGE_SIZE)
    ensures exists outcomes ::
              var end := Loop(24577 * PAGE_SIZE, 0, 24577 * PAGE_SIZE, outcomes);
              end.Filled? && end.total != 24577 * PAGE_SIZE
  {
    hide Splits, Loop;
    var goal := 24577 * PAGE_SIZE;
    WholeStep(goal, goal);
    BrokenHalf(goal, 24577 * 2048);
    BrokenHalf(goal, 24577 * 1024);
    BrokenHalf(goal, 24577 * 512);
    BrokenHalf(goal, 24577 * 256);
    BrokenHalf(goal, 24577 * 128);
    BrokenHalf(goal, 24577 * 64);
    BrokenHalf(goal, 24577 * 32);
    BrokenHalf(goal, 24577 * 16);
    BrokenHalf(goal, 24577 * 8);
    BrokenHalf(goal, 24577 * 4);
    BrokenHalf(goal, 24577 * 2);
    BrokenHalf(goal, 24577 * 1);
    WholeStep(goal, 3 * PAGE_SIZE);
    FillsExactly(goal, goal);
  }

  lemma BrokenHalf(last: int, block: int)
    requires last > 0 && block > 0 && block % PAGE_SIZE != 0
    ensures Splits(last, block) <==> Splits(last, block / 2)
  {
  }

  lemma WholeStep(last: int, block: int)
    requires last > 0 && block > 0 && block % PAGE_SIZE == 0
    ensures Splits(last, block) ==> last % block == 0
    ensures Splits(last, block) && block != PAGE_SIZE ==> Splits(block, block / 2)
  {
  }

  // --------------------------------------------------------- how far it can get

  // The size is an exact part of the request, and so is what has been added, or
  // it is at most its 8192nd part.
  ghost predicate Bounded(block: int, total: int, goal: int) {
    && 0 <= block && 0 <= total && 0 < goal && goal % PAGE_SIZE == 0
    && ((block > 0 && Divides(block, total) && exists k: nat :: block * Pow2(k) == goal) || 8192 * block <= goal)
  }

  lemma BoundedAtFirst(goal: int)
    requires 0 < goal && goal % PAGE_SIZE == 0
    ensures Bounded(goal, 0, goal)
  {
    assert goal * Pow2(0) == goal;
    StartsWhole(goal);
  }

  // One more block goes past the request by less than its 8192nd part.
  lemma BoundedMore(block: int, total: int, goal: int)
    requires Bounded(block, total, goal) && total < goal && block > 0
    ensures total + block <= goal + goal / 8192 && Bounded(block, total + block, goal)
  {
    if 8192 * block > goal {
      hide Divides;
      var k: nat :| block * Pow2(k) == goal;
      Remainder(goal, block, Pow2(k));
      DividesIs(block, goal);
      NextFits(total, goal, block);
    }
  }

  lemma DividesIs(b: int, x: int)
    requires b > 0 && x % b == 0
    ensures Divides(b, x)
  {
  }

  lemma BoundedHalved(block: int, total: int, goal: int)
    requires Bounded(block, total, goal)
    ensures Bounded(block / 2, total, goal)
  {
    if 8192 * block > goal {
      hide Divides;
      var k: nat :| block * Pow2(k) == goal;
      if block % 2 == 0 {
        assert block / 2 * Pow2(k + 1) == goal;
        Halved(block, total);
      } else {
        OddHalf(block, k, goal);
      }
    }
  }

  lemma OddHalf(block: int, k: nat, goal: int)
    requires block > 0 && block % 2 == 1 && block * Pow2(k) == goal && goal % PAGE_SIZE == 0
    ensures 8192 * (block / 2) <= goal
  {
    TwelfthPower();
    if k < 12 {
      EvenPart(block, k, goal);
    } else {
      PowersOrdered(12, k);
      assert block * (Pow2(k) - PAGE_SIZE) >= 0;
    }
  }

  lemma EvenPart(block: int, k: nat, goal: int)
    requires block > 0 && block * Pow2(k) == goal && goal % PAGE_SIZE == 0 && k < 12
    ensures block % 2 == 0
  {
    TwelfthPower();
    PowersMultiply(k, 12 - k);
    var q, h := goal / PAGE_SIZE, Pow2(11 - k);
    assert Pow2(12 - k) == 2 * h;
    assert goal == Pow2(k) * (2 * (h * q));
    Quotient(goal, Pow2(k), 2 * (h * q), 0);
    Quotient(goal, Pow2(k), block, 0);
  }
}
