// 64-bit words, their bits, and page rounding (kernel/src/arch/amd64/mm/mm.c).
module Words {

  datatype Option<T> = None | Some(value: T)

  const WORD_LIMIT: int := 0x1_0000_0000_0000_0000
  const PAGE_SIZE: int := 4096

  // A size_t, uintptr_t or uint64_t.
  type Word = x: int | 0 <= x < 0x1_0000_0000_0000_0000

  // ----------------------------------------------------------------------- bits

  function Pow2(k: nat): (p: int)
    ensures p > 0
  {
    if k == 0 then 1 else 2 * Pow2(k - 1)
  }

  // The C operator |, bit by bit.
  function Or(a: nat, b: nat): nat
    decreases a + b
  {
    if a == 0 && b == 0 then 0
    else (if a % 2 == 1 || b % 2 == 1 then 1 else 0) + 2 * Or(a / 2, b / 2)
  }

  lemma {:induction false} OrZero(a: nat)
    ensures Or(a, 0) == a && Or(0, a) == a
    decreases a
  {
    if a > 0 {
      OrZero(a / 2);
    }
  }

  // Bit k of the result is set exactly when it is set in one of the operands.
  lemma {:induction false} OrBits(a: nat, b: nat, k: nat)
    ensures Or(a, b) / Pow2(k) % 2 == 1 <==> a / Pow2(k) % 2 == 1 || b / Pow2(k) % 2 == 1
    decreases k
  {
    if a == 0 && b == 0 {
      assert 0 / Pow2(k) == 0;
    } else if k > 0 {
      OrBits(a / 2, b / 2, k - 1);
      DivideTwice(Or(a, b), Pow2(k - 1));
      DivideTwice(a, Pow2(k - 1));
      DivideTwice(b, Pow2(k - 1));
      assert Or(a, b) / 2 == Or(a / 2, b / 2);
    }
  }

  lemma DivideTwice(a: int, b: int)
    requires a >= 0 && b > 0
    ensures a / 2 / b == a / (2 * b)
  {
    var q := a / 2 / b;
    var r := a / 2 - q * b;
    assert 0 <= r < b;
    assert a == 2 * b * q + (2 * r + a % 2);
    Quotient(a, 2 * b, q, 2 * r + a % 2);
  }

  // Or-ing bits below the k-th into a number that has none there adds them.
  lemma {:induction false} OrAdds(a: nat, b: nat, k: nat)
    requires a % Pow2(k) == 0 && b < Pow2(k)
    ensures Or(a, b) == a + b && Or(b, a) == a + b
    decreases k
  {
    if k == 0 {
      OrZero(a);
    } else {
      EvenMultiple(a, Pow2(k - 1));
      OrAdds(a / 2, b / 2, k - 1);
    }
  }

  lemma EvenMultiple(a: nat, p: nat)
    requires p > 0 && a % (2 * p) == 0
    ensures a % 2 == 0 && a / 2 % p == 0
  {
    var q := a / (2 * p);
    assert a == 2 * (p * q);
    MultipleOf(p, q);
  }

  lemma MultipleOf(p: nat, q: nat)
    requires p > 0
    ensures p * q % p == 0
  {
    Quotient(p * q, p, q, 0);
  }

  lemma Quotient(a: int, b: int, q: int, r: int)
    requires b > 0 && a == b * q + r && 0 <= r < b
    ensures a / b == q && a % b == r
  {
    var d := q - a / b;
    assert a == b * (a / b) + a % b;
    assert b * d == b * q - b * (a / b);
    if d != 0 {
      LeastMultiple(b, d);
    }
  }

  lemma LeastMultiple(b: int, x: int)
    requires b > 0 && x != 0
    ensures b * x >= b || b * x <= -b
  {
    if x > 0 {
      assert b * (x - 1) >= 0;
    } else {
      assert b * (-x - 1) >= 0;
    }
  }

  lemma PowersOf16()
    ensures Pow2(4) == 16 && Pow2(12) == 0x1000 && Pow2(20) == 0x10_0000
  {
    assert Pow2(8) == 256 && Pow2(16) == 0x1_0000;
  }

  // ---------------------------------------------------------------------- pages

  function RoundDownPage(n: Word): (r: Word)
  {
    n - n % PAGE_SIZE
  }

  // The addition is the C one: it wraps, so sizes in the last page of the
  // 64-bit space round up to 0.
  function RoundUpPage(n: Word): (r: Word)
  {
    var down := RoundDownPage(n);
    if down != n then (down + PAGE_SIZE) % WORD_LIMIT else n
  }

  // Rounding up yields the least page multiple that is not below n, exactly
  // when such a multiple fits in a word; otherwise it yields 0.
  lemma RoundUpIsLeast(n: Word)
    ensures RoundUpPage(n) % PAGE_SIZE == 0
    ensures n <= RoundUpPage(n) <==> n <= WORD_LIMIT - PAGE_SIZE
    ensures n <= WORD_LIMIT - PAGE_SIZE ==> RoundUpPage(n) < n + PAGE_SIZE
    ensures n > WORD_LIMIT - PAGE_SIZE ==> RoundUpPage(n) == 0
  {
    var down := RoundDownPage(n);
    assert down % PAGE_SIZE == 0;
    if down != n && n > WORD_LIMIT - PAGE_SIZE {
      assert down == WORD_LIMIT - PAGE_SIZE;
    }
  }

  // mm_alignRange: the page-aligned start and the number of bytes of the whole
  // pages a byte range touches.
  function AlignRange(ptr: Word, size: Word): (r: (Word, Word))
  {
    var offset := ptr % PAGE_SIZE;
    (ptr - offset, RoundUpPage((size + offset) % WORD_LIMIT))
  }

  // The aligned range is the least one of whole pages around the given bytes,
  // unless the sum wraps.
  lemma AlignRangeIsLeast(ptr: Word, size: Word)
    ensures var (start, bytes) := AlignRange(ptr, size);
            && start % PAGE_SIZE == 0 && bytes % PAGE_SIZE == 0
            && start <= ptr < start + PAGE_SIZE
            && (size + ptr % PAGE_SIZE <= WORD_LIMIT - PAGE_SIZE ==>
                  ptr + size <= start + bytes < ptr + size + PAGE_SIZE)
  {
    RoundUpIsLeast((size + ptr % PAGE_SIZE) % WORD_LIMIT);
  }

  // The window vmm_initKernelContext hands to the kernel's virtual address map.
  const HEAP_START: int := 0xffff_ff80_0000_0000
  const HEAP_END: int := 0xffff_ff80_0000_0000 + 0x7f_8000_0000
}
