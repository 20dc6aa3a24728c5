/** Bitwise operations on unsigned words: the tricks hash.c plays with bucket counts and bitmap.c with masks. */
module Bits {
  import opened Arithmetic

  /** x & y. */
  function And(x: nat, y: nat): nat {
    if x == 0 || y == 0 then 0
    else 2 * And(x / 2, y / 2) + (if x % 2 == 1 && y % 2 == 1 then 1 else 0)
  }

  /** turn_off_least_1bit. */
  function TurnOffLeast1Bit(x: nat): nat
    requires x > 0
  {
    And(x, x - 1)
  }

  predicate PowerOfTwo(x: nat) {
    x == 1 || (x > 0 && x % 2 == 0 && PowerOfTwo(x / 2))
  }

  /** The largest power of two that is at most x. */
  function TopPower(x: nat): (p: nat)
    requires x > 0
    ensures PowerOfTwo(p) && p <= x < 2 * p
  {
    if x == 1 then 1 else 2 * TopPower(x / 2)
  }

  lemma {:induction false} AndSelf(x: nat)
    ensures And(x, x) == x
  {
    if x > 0 {
      AndSelf(x / 2);
    }
  }

  lemma TurnOffHalf(x: nat)
    requires x > 0
    ensures TurnOffLeast1Bit(x) == if x % 2 == 1 then x - 1 else 2 * TurnOffLeast1Bit(x / 2)
  {
    if x == 1 {
    } else if x % 2 == 1 {
      assert (x - 1) / 2 == x / 2;
      AndSelf(x / 2);
    } else {
      assert (x - 1) / 2 == x / 2 - 1;
    }
  }

  /** The test x & (x - 1) == 0 finds exactly the powers of two; on other numbers turning the lowest bit
      off makes progress and keeps the highest. */
  lemma {:induction false} TurnOffMeaning(x: nat)
    requires x > 0
    ensures TurnOffLeast1Bit(x) == 0 <==> PowerOfTwo(x)
    ensures TurnOffLeast1Bit(x) < x
    ensures !PowerOfTwo(x) ==> TurnOffLeast1Bit(x) > 0 && TopPower(TurnOffLeast1Bit(x)) == TopPower(x)
  {
    TurnOffHalf(x);
    if x > 1 && x % 2 == 0 {
      TurnOffMeaning(x / 2);
    }
  }

  lemma {:induction false} PowerIsTop(x: nat)
    requires PowerOfTwo(x)
    ensures TopPower(x) == x
  {
    if x > 1 {
      PowerIsTop(x / 2);
    }
  }

  lemma {:induction false} TopPowerMonotone(x: nat, y: nat)
    requires 0 < x <= y
    ensures TopPower(x) <= TopPower(y)
  {
    if x > 1 {
      TopPowerMonotone(x / 2, y / 2);
    }
  }

  /** Masking with a power of two less one is the remainder. */
  lemma {:induction false} MaskIsRemainder(h: nat, n: nat)
    requires PowerOfTwo(n)
    ensures And(h, n - 1) == h % n && And(h, n - 1) < n
  {
    if n == 1 {
    } else {
      var q := n / 2;
      MaskIsRemainder(h / 2, q);
      assert (n - 1) / 2 == q - 1;
      var r := And(h / 2, q - 1);
      RemainderDouble(h, q, r);
      if h == 0 {
        assert And(0, q - 1) == 0;
      }
    }
  }

  lemma RemainderDouble(h: nat, q: nat, r: nat)
    requires q > 0 && r == (h / 2) % q
    ensures h % (2 * q) == 2 * r + h % 2
  {
    var a := (h / 2) / q;
    assert h / 2 == q * a + r;
    assert h == (2 * q) * a + (2 * r + h % 2);
    assert (a - 1) * (2 * q) == (2 * q) * a - 2 * q;
    DivStep(h, 2 * q, a - 1, 2 * r + h % 2);
  }

  // ----- single bits ------------------------------------------------------------------

  /** x | y. */
  function Or(x: nat, y: nat): nat {
    if x == 0 then y else if y == 0 then x
    else 2 * Or(x / 2, y / 2) + (if x % 2 == 1 || y % 2 == 1 then 1 else 0)
  }

  /** ~x in a word of the given width. */
  function Not(x: nat, width: nat): nat
    decreases width
  {
    if width == 0 then 0 else 2 * Not(x / 2, width - 1) + (1 - x % 2)
  }

  predicate BitOf(x: nat, k: nat)
    decreases k
  {
    if k == 0 then x % 2 == 1 else BitOf(x / 2, k - 1)
  }

  lemma {:induction false} ZeroBits(k: nat)
    ensures !BitOf(0, k)
  {
    if k > 0 {
      ZeroBits(k - 1);
    }
  }

  lemma {:induction false} OrBit(x: nat, y: nat, k: nat)
    ensures BitOf(Or(x, y), k) == (BitOf(x, k) || BitOf(y, k))
    decreases k
  {
    ZeroBits(k);
    if k > 0 && x > 0 && y > 0 {
      OrBit(x / 2, y / 2, k - 1);
      assert Or(x, y) / 2 == Or(x / 2, y / 2);
    }
  }

  lemma {:induction false} AndBit(x: nat, y: nat, k: nat)
    ensures BitOf(And(x, y), k) == (BitOf(x, k) && BitOf(y, k))
    decreases k
  {
    ZeroBits(k);
    if k > 0 && x > 0 && y > 0 {
      AndBit(x / 2, y / 2, k - 1);
      assert And(x, y) / 2 == And(x / 2, y / 2);
    }
  }

  lemma {:induction false} NotBit(x: nat, width: nat, k: nat)
    requires k < width
    ensures BitOf(Not(x, width), k) == !BitOf(x, k)
    decreases k
  {
    if k > 0 {
      NotBit(x / 2, width - 1, k - 1);
      assert Not(x, width) / 2 == Not(x / 2, width - 1);
    }
  }

  /** 1 << k has bit k only. */
  lemma {:induction false} MaskBit(k: nat, j: nat)
    ensures BitOf(Pow2(k), j) == (j == k)
  {
    if j > 0 && k > 0 {
      MaskBit(k - 1, j - 1);
      assert Pow2(k) / 2 == Pow2(k - 1);
    } else if k == 0 && j > 0 {
      ZeroBits(j - 1);
    }
  }

  /** Testing a word against a mask looks at that bit. */
  lemma {:induction false} MaskTests(w: nat, k: nat)
    ensures And(w, Pow2(k)) != 0 <==> BitOf(w, k)
    decreases k
  {
    if w == 0 {
      ZeroBits(k);
    } else if k > 0 {
      MaskTests(w / 2, k - 1);
      assert Pow2(k) / 2 == Pow2(k - 1);
    } else {
      assert And(w / 2, 0) == 0;
    }
  }
}
