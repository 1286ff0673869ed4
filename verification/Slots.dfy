// How the positions of a page-table tree lie inside each other.
module Slots {
  import opened PageTables

  lemma ChildSpan(n: Slot, i: int)
    requires 2 <= n.level <= 4
    ensures Size(n.level) == 512 * Size(n.level - 1) && Size(n.level - 1) % 512 == 0
    ensures Lo(Child(n, i)) == Lo(n) + i * Size(n.level - 1)
    ensures Hi(Child(n, i)) == Lo(Child(n, i + 1))
    ensures Parent(Child(n, i)) == n <==> 0 <= i < 512
  {
    if n.level == 2 {
    } else if n.level == 3 {
    } else {
    }
  }

  lemma SizesPositive(s: Slot)
    ensures Size(s.level) > 0 && Lo(s) < Hi(s)
  {
  }

  lemma BlockBounds(s: Slot)
    requires 1 <= s.level <= 4
    ensures Lo(s) % 512 == 0 && Hi(s) % 512 == 0 && Lo(s) + 512 <= Hi(s)
  {
    var k := if s.level == 1 then 1 else if s.level == 2 then 512 else if s.level == 3 then 0x4_0000 else 0x800_0000;
    assert Size(s.level) == k * 512;
    Multiple(s.prefix * k);
    Multiple(s.prefix * k + k);
  }

  lemma Multiple(n: int)
    ensures n * 512 % 512 == 0
  {
  }

  lemma UnderParent(s: Slot)
    requires 1 <= s.level < 4
    ensures Under(s, Parent(s))
  {
    if s.level == 1 {
    } else if s.level == 2 {
    } else {
    }
  }

  lemma UnderSame(s: Slot, n: Slot)
    requires s.level == n.level && 1 <= n.level <= 4 && Under(s, n)
    ensures s == n
  {
    if n.level == 1 {
    } else if n.level == 2 {
    } else if n.level == 3 {
    } else {
    }
  }

  lemma DivBetween(p: int, a: int, b: int)
    requires a * 512 <= p && p + 1 <= b * 512
    ensures a <= p / 512 && p / 512 + 1 <= b
  {
  }

  lemma UnderUp(s: Slot, n: Slot)
    requires 1 <= s.level < n.level <= 4 && Under(s, n)
    ensures Under(Parent(s), n)
  {
    // Sizes in units of the parent of s.
    var m := if n.level - s.level == 1 then 1 else if n.level - s.level == 2 then 512 else 0x4_0000;
    UnderInUnits(s, n, m);
    DivBetween(s.prefix, n.prefix * m, n.prefix * m + m);
    UnitsUnder(Parent(s), n, m);
  }

  lemma UnderInUnits(s: Slot, n: Slot, m: int)
    requires 1 <= s.level < n.level <= 4 && Under(s, n)
    requires m == if n.level - s.level == 1 then 1 else if n.level - s.level == 2 then 512 else 0x4_0000
    ensures n.prefix * m * 512 <= s.prefix && s.prefix + 1 <= (n.prefix * m + m) * 512
  {
    if s.level == 1 {
      if n.level == 2 {
      } else if n.level == 3 {
      } else {
      }
    } else if s.level == 2 {
      if n.level == 3 {
      } else {
      }
    } else {
    }
  }

  lemma UnitsUnder(t: Slot, n: Slot, m: int)
    requires 2 <= t.level <= n.level <= 4
    requires m == if n.level == t.level then 1 else if n.level - t.level == 1 then 512 else 0x4_0000
    requires n.prefix * m <= t.prefix && t.prefix + 1 <= n.prefix * m + m
    ensures Under(t, n)
  {
    if t.level == 2 {
      if n.level == 2 {
      } else if n.level == 3 {
      } else {
      }
    } else if t.level == 3 {
      if n.level == 3 {
      } else {
      }
    } else {
    }
  }

  // A slot strictly below n is below exactly one of n's children.
  lemma UnderChild(s: Slot, n: Slot) returns (j: int)
    requires 1 <= s.level < n.level <= 4 && Under(s, n)
    ensures 0 <= j < 512 && Under(s, Child(n, j))
    decreases n.level - s.level
  {
    if s.level + 1 == n.level {
      UnderUp(s, n);
      UnderSame(Parent(s), n);
      j := s.prefix % 512;
      assert Child(n, j) == s;
    } else {
      UnderUp(s, n);
      j := UnderChild(Parent(s), n);
      UnderParent(s);
    }
  }

  lemma LeafUnder(v: int, n: Slot)
    requires 1 <= n.level <= 4
    ensures Under(LeafSlot(v), n) <==> Covering(n, v)
    ensures Covering(LeafSlot(v), v)
  {
    BlockBounds(n);
  }

  // A table strictly below n hangs from a child of n.
  lemma {:induction false} ChildInTree(w: View, s: Slot, n: Slot, j: int, dangling: Slot)
    requires TreeOk(w, dangling) && s in w.tab && 1 <= s.level < n.level <= 4 && 0 <= j < 512
    requires Under(s, Child(n, j))
    ensures Child(n, j) in w.tab
    decreases n.level - s.level
  {
    assert SlotOk(w, s);
    if s.level + 1 == n.level {
      UnderSame(s, Child(n, j));
    } else {
      UnderUp(s, Child(n, j));
      ChildInTree(w, Parent(s), n, j, dangling);
    }
  }

  // Children do not overlap.
  lemma ChildrenApart(n: Slot, i: int, j: int)
    requires 2 <= n.level <= 4 && i < j
    ensures Hi(Child(n, i)) <= Lo(Child(n, j))
  {
    if n.level == 2 {
    } else if n.level == 3 {
    } else {
    }
  }
}
