/** 64-bit division out of a 64-by-32-bit divide (pintos/lib/arithmetic.c).

    Machine words are integers in range; every wrap-around, shift and truncation of the C code is written
    out. Products and quotients of two unknowns are `Mul` (repeated addition) and `Quot` (repeated
    subtraction), which keeps every proof linear; `MulIsProduct` and `QuotIsFloor` say that they are `*`
    and `/`. */
module Arithmetic {

  // ----- products and quotients ----------------------------------------------

  function Mul(k: nat, b: nat): nat {
    if k == 0 then 0 else b + Mul(k - 1, b)
  }

  function Quot(a: nat, b: nat): nat
    requires b > 0
    decreases a
  {
    if a < b then 0 else 1 + Quot(a - b, b)
  }

  function Rem(a: nat, b: nat): nat
    requires b > 0
    decreases a
  {
    if a < b then a else Rem(a - b, b)
  }

  function Pow2(k: nat): (p: nat)
    ensures p > 0
  {
    if k == 0 then 1 else 2 * Pow2(k - 1)
  }

  lemma {:induction false} MulIsProduct(k: nat, b: nat)
    ensures Mul(k, b) == k * b
  {
    if k > 0 {
      MulIsProduct(k - 1, b);
      assert (k - 1) * b == k * b - b;
    }
  }

  lemma {:induction false} MulAdd(j: nat, k: nat, b: nat)
    ensures Mul(j + k, b) == Mul(j, b) + Mul(k, b)
  {
    if j > 0 {
      MulAdd(j - 1, k, b);
    }
  }

  lemma {:induction false} MulDistributes(k: nat, a: nat, b: nat)
    ensures Mul(k, a + b) == Mul(k, a) + Mul(k, b)
  {
    if k > 0 {
      MulDistributes(k - 1, a, b);
    }
  }

  lemma {:induction false} MulCommutes(j: nat, k: nat)
    ensures Mul(j, k) == Mul(k, j)
  {
    MulIsProduct(j, k);
    MulIsProduct(k, j);
  }

  lemma {:induction false} MulAssociates(i: nat, j: nat, k: nat)
    ensures Mul(i, Mul(j, k)) == Mul(Mul(i, j), k)
  {
    if i > 0 {
      MulAssociates(i - 1, j, k);
      MulAdd(j, Mul(i - 1, j), k);
    }
  }

  lemma MulMonotone(j: nat, k: nat, a: nat, b: nat)
    requires j <= k && a <= b
    ensures Mul(j, a) <= Mul(k, b)
  {
    MulAdd(j, k - j, b);
    MulDistributes(j, a, b - a);
  }

  // Literals go second: a literal first argument would be unfolded all the way.
  lemma {:induction false} MulByLiteral(x: nat, k: nat)
    ensures Mul(x, 1) == x && Mul(x, 2) == 2 * x
    ensures Mul(x, 0x8000_0000) == 0x8000_0000 * x && Mul(x, 0x1_0000_0000) == 0x1_0000_0000 * x
    ensures Mul(x, 0x8000_0000 * k) == 0x8000_0000 * Mul(x, k)
    ensures Mul(x, 0x1_0000_0000 * k) == 0x1_0000_0000 * Mul(x, k)
  {
    if x > 0 {
      MulByLiteral(x - 1, k);
    }
  }

  lemma ScaleLeft(a: nat, d: nat)
    ensures Mul(0x1_0000_0000 * a, d) == 0x1_0000_0000 * Mul(a, d)
  {
    MulCommutes(0x1_0000_0000 * a, d);
    MulByLiteral(d, a);
    MulCommutes(d, a);
  }

  lemma {:induction false} Pow2Add(j: nat, k: nat)
    ensures Pow2(j + k) == Mul(Pow2(j), Pow2(k))
  {
    if j == 0 {
      assert Mul(1, Pow2(k)) == Pow2(k) + Mul(0, Pow2(k));
    } else {
      Pow2Add(j - 1, k);
      MulAdd(Pow2(j - 1), Pow2(j - 1), Pow2(k));
    }
  }

  lemma Pow2Of32()
    ensures Pow2(2) == 4 && Pow2(4) == 16 && Pow2(8) == 0x100 && Pow2(16) == 0x1_0000
    ensures Pow2(32) == 0x1_0000_0000
  {
    assert Pow2(8) == 0x100;
    assert Pow2(16) == 0x1_0000;
    assert Pow2(24) == 0x100_0000;
  }

  /** A floored quotient is the one multiple-count that puts the dividend within one divisor. */
  predicate Floor(a: nat, b: nat, q: nat) { Mul(q, b) <= a < Mul(q, b) + b }

  lemma {:induction false} QuotFloor(a: nat, b: nat)
    requires b > 0
    ensures Floor(a, b, Quot(a, b)) && a == Mul(Quot(a, b), b) + Rem(a, b) && Rem(a, b) < b
    decreases a
  {
    if a >= b {
      QuotFloor(a - b, b);
    }
  }

  lemma FloorUnique(a: nat, b: nat, q: nat)
    requires b > 0 && Floor(a, b, q)
    ensures q == Quot(a, b)
  {
    QuotAtLeast(a, b, q);
    QuotAtMost(a, b, q);
  }

  lemma QuotAtLeast(a: nat, b: nat, q: nat)
    requires b > 0 && Mul(q, b) <= a
    ensures q <= Quot(a, b)
  {
    QuotFloor(a, b);
    if q > Quot(a, b) {
      MulMonotone(Quot(a, b) + 1, q, b, b);
    }
  }

  lemma QuotBelow(a: nat, b: nat, c: nat)
    requires b > 0 && a < Mul(b, c)
    ensures Quot(a, b) < c
  {
    QuotFloor(a, b);
    MulCommutes(b, Quot(a, b));
    if c <= Quot(a, b) {
      MulMonotone(b, b, c, Quot(a, b));
    }
  }

  lemma QuotAtMost(a: nat, b: nat, q: nat)
    requires b > 0 && a < Mul(q, b) + b
    ensures Quot(a, b) <= q
  {
    QuotFloor(a, b);
    MulMonotone(q + 1, if q < Quot(a, b) then Quot(a, b) else q + 1, b, b);
  }

  lemma {:induction false} QuotIsFloor(a: nat, b: nat)
    requires b > 0
    ensures Quot(a, b) == a / b && Rem(a, b) == a % b
    decreases a
  {
    if a >= b {
      QuotIsFloor(a - b, b);
      DivStep(a, b, (a - b) / b, (a - b) % b);
    } else {
      DivStep(a, b, -1, a);
    }
  }

  lemma DivStep(a: int, b: int, q: int, r: int)
    requires b > 0 && a - b == q * b + r && 0 <= r < b
    ensures a / b == q + 1 && a % b == r
  {
    var p := a / b;
    assert a == p * b + a % b;
    var k := p - (q + 1);
    assert k * b == p * b - q * b - b;
    if k >= 1 { ProductSign(k - 1, b); }
    if k <= -1 { ProductSign(-1 - k, b); }
  }

  lemma ProductSign(k: int, b: int)
    requires k >= 0 && b > 0
    ensures k * b >= 0 && (k + 1) * b == k * b + b && (-1 - k) * b == -(k * b) - b
  {
  }

  /** Two divisions in a row are one division by the product. */
  lemma NestedQuot(a: nat, b: nat, c: nat, bc: nat)
    requires b > 0 && c > 0 && bc == Mul(c, b)
    ensures bc > 0 && Quot(Quot(a, b), c) == Quot(a, bc)
  {
    var q1 := Quot(a, b);
    var q2 := Quot(q1, c);
    QuotFloor(a, b);
    QuotFloor(q1, c);
    MulAssociates(q2, c, b);
    MulMonotone(Mul(q2, c), q1, b, b);
    MulMonotone(q1 + 1, Mul(q2, c) + c, b, b);
    MulAdd(Mul(q2, c), c, b);
    FloorUnique(a, bc, q2);
  }

  lemma CancelFactor(a: nat, f: nat, b: nat)
    requires f > 0 && b > 0
    ensures Mul(b, f) > 0 && Quot(Mul(a, f), Mul(b, f)) == Quot(a, b)
  {
    FloorUnique(Mul(a, f), f, a);
    NestedQuot(Mul(a, f), f, b, Mul(b, f));
  }

  // ----- the source's operations ---------------------------------------------

  /** DIVL traps unless the quotient fits in 32 bits; that is its precondition. */
  function Divl(n: nat, d: nat): nat
    requires n < 0x1_0000_0000_0000_0000 && 0 < d < 0x1_0000_0000
    requires Quot(n, d) < 0x1_0000_0000
  {
    Quot(n, d)
  }

  // Unsigned arithmetic wraps.
  function ShiftLeft32(x: nat, k: nat): nat { Mul(x, Pow2(k)) % 0x1_0000_0000 }
  function ShiftLeft64(x: nat, k: nat): nat { Mul(x, Pow2(k)) % 0x1_0000_0000_0000_0000 }
  function ShiftRight(x: nat, k: nat): nat { Quot(x, Pow2(k)) }
  function Times64(x: nat, y: nat): nat { Mul(x, y) % 0x1_0000_0000_0000_0000 }
  function Minus64(x: nat, y: nat): nat { (x - y) % 0x1_0000_0000_0000_0000 }

  /** The number of leading zeros of a 32-bit word, by definition. */
  function LeadingZeros(x: nat): (z: nat)
    requires 0 < x < 0x1_0000_0000
    decreases 0x1_0000_0000 - x
  {
    if x >= 0x8000_0000 then 0 else 1 + LeadingZeros(2 * x)
  }

  lemma Skip2(x: nat)
    requires 0 < x < 0x4000_0000
    ensures LeadingZeros(x) == 2 + LeadingZeros(4 * x)
  {
    assert LeadingZeros(2 * x) == 1 + LeadingZeros(2 * (2 * x));
  }

  lemma Skip4(x: nat)
    requires 0 < x < 0x1000_0000
    ensures LeadingZeros(x) == 4 + LeadingZeros(16 * x)
  {
    Skip2(x);
    Skip2(4 * x);
  }

  lemma Skip8(x: nat)
    requires 0 < x < 0x100_0000
    ensures LeadingZeros(x) == 8 + LeadingZeros(0x100 * x)
  {
    Skip4(x);
    Skip4(16 * x);
  }

  lemma Skip16(x: nat)
    requires 0 < x < 0x1_0000
    ensures LeadingZeros(x) == 16 + LeadingZeros(0x1_0000 * x)
  {
    Skip8(x);
    Skip8(0x100 * x);
  }

  lemma SmallShift(x: nat, k: nat, p: nat)
    requires p == Pow2(k) && x * p < 0x1_0000_0000
    ensures ShiftLeft32(x, k) == p * x
  {
    MulIsProduct(x, p);
  }

  /** Shifting the leading zeros out brings the top bit to position 31. */
  lemma {:induction false} LeadingZerosMeaning(x: nat)
    requires 0 < x < 0x1_0000_0000
    ensures LeadingZeros(x) <= 31
    ensures 0x8000_0000 <= Mul(x, Pow2(LeadingZeros(x))) < 0x1_0000_0000
    ensures x < Pow2(32 - LeadingZeros(x))
    decreases 0x1_0000_0000 - x
  {
    if x >= 0x8000_0000 {
      MulIsProduct(x, Pow2(0));
      Pow2Of32();
    } else {
      LeadingZerosMeaning(2 * x);
      var p := Pow2(LeadingZeros(2 * x));
      MulAdd(x, x, p);
      MulDistributes(x, p, p);
      assert Pow2(0) == 1;
    }
  }

  /** Returns the number of leading zero bits in a non-zero 32-bit word by binary search. */
  method Nlz(word: nat) returns (n: nat)
    requires 0 < word < 0x1_0000_0000
    ensures n == LeadingZeros(word)
  {
    Pow2Of32();
    var x := word;
    n := 0;
    if x <= 0x0000FFFF {
      Skip16(x);
      SmallShift(x, 16, 0x1_0000);
      n := n + 16;
      x := ShiftLeft32(x, 16);
    }
    assert 0x1_0000 <= x < 0x1_0000_0000 && n + LeadingZeros(x) == LeadingZeros(word);
    if x <= 0x00FFFFFF {
      Skip8(x);
      SmallShift(x, 8, 0x100);
      n := n + 8;
      x := ShiftLeft32(x, 8);
    }
    assert 0x100_0000 <= x < 0x1_0000_0000 && n + LeadingZeros(x) == LeadingZeros(word);
    if x <= 0x0FFFFFFF {
      Skip4(x);
      SmallShift(x, 4, 16);
      n := n + 4;
      x := ShiftLeft32(x, 4);
    }
    assert 0x1000_0000 <= x < 0x1_0000_0000 && n + LeadingZeros(x) == LeadingZeros(word);
    if x <= 0x3FFFFFFF {
      Skip2(x);
      SmallShift(x, 2, 4);
      n := n + 2;
      x := ShiftLeft32(x, 2);
    }
    assert 0x4000_0000 <= x < 0x1_0000_0000 && n + LeadingZeros(x) == LeadingZeros(word);
    if x <= 0x7FFFFFFF {
      n := n + 1;
    }
  }

  /** Unsigned 64-bit division. */
  method UDiv64(n: nat, d: nat) returns (q: nat)
    requires n < 0x1_0000_0000_0000_0000 && 0 < d < 0x1_0000_0000_0000_0000
    ensures q == Quot(n, d) == n / d
  {
    QuotIsFloor(n, d);
    if d / 0x1_0000_0000 == 0 {
      var n1 := n / 0x1_0000_0000;
      var n0 := n % 0x1_0000_0000;
      SchoolbookDigit(n, d, n1, n0);
      q := (Divl(0x1_0000_0000 * Rem(n1, d) + n0, d) + 0x1_0000_0000 * Quot(n1, d)) % 0x1_0000_0000_0000_0000;
    } else if n < d {
      q := 0;
    } else {
      var d1 := d / 0x1_0000_0000;
      var s := Nlz(d1);
      EstimateIsQuotientOrOneMore(n, d);
      q := ShiftRight(Divl(n / 2, ShiftLeft64(d, s) / 0x1_0000_0000), 31 - s);
      Correction(n, d, q);
      q := if Minus64(n, Times64(q - 1, d)) < d then q - 1 else q;
    }
  }

  // ----- the narrow case -----------------------------------------------------

  /** With a 32-bit divisor, dividing the high word first leaves a low division that cannot trap, and the
      two partial quotients add up to the true one. */
  lemma SchoolbookDigit(n: nat, d: nat, n1: nat, n0: nat)
    requires n < 0x1_0000_0000_0000_0000 && 0 < d < 0x1_0000_0000
    requires n == 0x1_0000_0000 * n1 + n0 && n0 < 0x1_0000_0000
    ensures var low := 0x1_0000_0000 * Rem(n1, d) + n0;
            low < 0x1_0000_0000_0000_0000 && Quot(low, d) < 0x1_0000_0000
            && Quot(low, d) + 0x1_0000_0000 * Quot(n1, d) == Quot(n, d) < 0x1_0000_0000_0000_0000
  {
    var a, r := Quot(n1, d), Rem(n1, d);
    QuotFloor(n1, d);
    var low := 0x1_0000_0000 * r + n0;
    MulByLiteral(d, 0);
    QuotBelow(low, d, 0x1_0000_0000);
    QuotFloor(low, d);
    TwoDigits(Quot(low, d), a, d);
    FloorUnique(n, d, Quot(low, d) + 0x1_0000_0000 * a);
    QuotAtMost(n, d, n) by { MulMonotone(n, n, 1, d); MulByLiteral(n, 0); }
  }

  lemma TwoDigits(q0: nat, a: nat, d: nat)
    ensures Mul(q0 + 0x1_0000_0000 * a, d) == Mul(q0, d) + 0x1_0000_0000 * Mul(a, d)
  {
    MulAdd(q0, 0x1_0000_0000 * a, d);
    ScaleLeft(a, d);
  }

  // ----- the wide case -------------------------------------------------------

  /** Shifting out the leading zeros of the high word gives a full 32-bit divisor, the top of d. */
  lemma NormalisedDivisor(d: nat, s: nat)
    requires 0x1_0000_0000 <= d < 0x1_0000_0000_0000_0000 && s == LeadingZeros(d / 0x1_0000_0000)
    ensures s <= 31
    ensures Quot(d, Pow2(32 - s)) == ShiftLeft64(d, s) / 0x1_0000_0000
    ensures 0x8000_0000 <= Quot(d, Pow2(32 - s)) < 0x1_0000_0000
  {
    var d1 := d / 0x1_0000_0000;
    LeadingZerosMeaning(d1);
    Pow2Of32();
    Pow2Add(32 - s, s);
    ShiftedBounds(d, d1, Pow2(s), Pow2(32 - s));
    TopWord(d, Pow2(s), Pow2(32 - s));
  }

  lemma TopWord(d: nat, p: nat, k: nat)
    requires p > 0 && k > 0 && Mul(k, p) == 0x1_0000_0000
    requires 0x8000_0000_0000_0000 <= Mul(d, p) < 0x1_0000_0000_0000_0000
    ensures Quot(d, k) == Mul(d, p) / 0x1_0000_0000 == Mul(d, p) % 0x1_0000_0000_0000_0000 / 0x1_0000_0000
    ensures 0x8000_0000 <= Quot(d, k) < 0x1_0000_0000
  {
    CancelFactor(d, p, k);
    QuotIsFloor(Mul(d, p), 0x1_0000_0000);
  }

  lemma ShiftedBounds(d: nat, d1: nat, p: nat, k: nat)
    requires d1 == d / 0x1_0000_0000 && d1 < k && p > 0 && Mul(k, p) == 0x1_0000_0000 && 0x8000_0000 <= Mul(d1, p)
    ensures 0x8000_0000_0000_0000 <= Mul(d, p) < 0x1_0000_0000_0000_0000
  {
    ShiftedLow(d, d1, p);
    ShiftedHigh(d, d1, p);
    MulMonotone(d1 + 1, k, p, p);
  }

  lemma ShiftedLow(d: nat, d1: nat, p: nat)
    requires 0x1_0000_0000 * d1 <= d
    ensures 0x1_0000_0000 * Mul(d1, p) <= Mul(d, p)
  {
    ScaleLeft(d1, p);
    MulMonotone(0x1_0000_0000 * d1, d, p, p);
  }

  lemma ShiftedHigh(d: nat, d1: nat, p: nat)
    requires d < 0x1_0000_0000 * (d1 + 1) && p > 0
    ensures Mul(d, p) < 0x1_0000_0000 * Mul(d1 + 1, p)
  {
    ScaleLeft(d1 + 1, p);
    MulMonotone(d + 1, 0x1_0000_0000 * (d1 + 1), p, p);
    assert Mul(d + 1, p) == p + Mul(d, p);
  }

  /** The estimate the code computes is the true quotient or one more, and computing it does not trap. */
  lemma EstimateIsQuotientOrOneMore(n: nat, d: nat)
    requires n < 0x1_0000_0000_0000_0000 && 0x1_0000_0000 <= d < 0x1_0000_0000_0000_0000
    ensures var s := LeadingZeros(d / 0x1_0000_0000); var v := ShiftLeft64(d, s) / 0x1_0000_0000;
            s <= 31 && 0 < v < 0x1_0000_0000 && Quot(n / 2, v) < 0x1_0000_0000
            && Quot(n, d) <= ShiftRight(Quot(n / 2, v), 31 - s) <= Quot(n, d) + 1
  {
    var s := LeadingZeros(d / 0x1_0000_0000);
    NormalisedDivisor(d, s);
    var k := Pow2(32 - s);
    var v := Quot(d, k);
    NoTrap(n, v);
    var half := Pow2(31 - s);
    var top := Mul(half, Mul(v, 2));
    EstimateIsOneQuotient(n, v, half, top);
    TopDivisor(d, k, half, v, top);
    EstimateLower(n, d, top);
    EstimateUpper(n, d, k, v, top);
  }

  /** The three floors nest into one division, by the divisor with its low bits cleared. */
  lemma EstimateIsOneQuotient(n: nat, v: nat, half: nat, top: nat)
    requires v > 0 && half > 0 && top == Mul(half, Mul(v, 2))
    ensures top > 0 && Quot(Quot(n / 2, v), half) == Quot(n, top)
  {
    QuotIsFloor(n, 2);
    NestedQuot(n, 2, v, Mul(v, 2));
    NestedQuot(n, Mul(v, 2), half, top);
  }

  lemma TopDivisor(d: nat, k: nat, half: nat, v: nat, top: nat)
    requires k == 2 * half && half > 0 && v == Quot(d, k) && top == Mul(half, Mul(v, 2))
    ensures top == Mul(v, k) && top <= d < top + k
  {
    MulAssociates(half, v, 2);
    MulByLiteral(Mul(half, v), 0);
    MulAdd(half, half, v);
    MulCommutes(k, v);
    QuotFloor(d, k);
  }

  lemma NoTrap(n: nat, v: nat)
    requires n < 0x1_0000_0000_0000_0000 && 0x8000_0000 <= v
    ensures Quot(n / 2, v) < 0x1_0000_0000
  {
    MulByLiteral(v, 0);
    QuotBelow(n / 2, v, 0x1_0000_0000);
  }

  lemma EstimateLower(n: nat, d: nat, top: nat)
    requires 0 < top <= d
    ensures Quot(n, d) <= Quot(n, top)
  {
    QuotFloor(n, d);
    MulMonotone(Quot(n, d), Quot(n, d), top, d);
    QuotAtLeast(n, top, Quot(n, d));
  }

  /** Clearing the low bits of the divisor costs at most one in the quotient. */
  lemma EstimateUpper(n: nat, d: nat, k: nat, v: nat, top: nat)
    requires n < 0x1_0000_0000_0000_0000 && (k == 2 || k >= 4) && 0x8000_0000 <= v
    requires top == Mul(v, k) && top <= d < top + k
    ensures d > 0 && top > 0 && Quot(n, top) <= Quot(n, d) + 1
  {
    TopBound(k, v, top);
    var q := Quot(n, d);
    QuotFloor(n, d);
    DivisorMultiple(q, k, top, d);
    TopMultiple(q, k, top);
    UpperArith(n, k, top, q, Mul(q + 2, k), Mul(q + 2, top));
    assert Mul(q + 2, top) == top + Mul(q + 1, top);
    QuotAtMost(n, top, q + 1);
  }

  lemma TopBound(k: nat, v: nat, top: nat)
    requires 0x8000_0000 <= v && top == Mul(v, k)
    ensures 0x8000_0000 * k <= top
  {
    MulCommutes(v, k);
    MulMonotone(k, k, 0x8000_0000, v);
    MulByLiteral(k, 0);
  }

  /** (q + 1) * d is (q + 1) * top plus at most (q + 1) * (k - 1) = (q + 2) * k - k - (q + 1). */
  lemma DivisorMultiple(q: nat, k: nat, top: nat, d: nat)
    requires top <= d < top + k
    ensures Mul(q, d) + d <= Mul(q + 2, top) - top + Mul(q + 2, k) - k - (q + 1)
  {
    assert Mul(q + 1, d) == d + Mul(q, d);
    MulDistributes(q + 1, top, d - top);
    MulMonotone(q + 1, q + 1, d - top, k - 1);
    MulDistributes(q + 1, k - 1, 1);
    MulByLiteral(q + 1, 0);
    assert Mul(q + 2, k) == k + Mul(q + 1, k);
    assert Mul(q + 2, top) == top + Mul(q + 1, top);
  }

  lemma TopMultiple(q: nat, k: nat, top: nat)
    requires 0x8000_0000 * k <= top
    ensures 0x8000_0000 * Mul(q + 2, k) <= Mul(q + 2, top)
    ensures k == 2 ==> Mul(q + 2, k) == 2 * (q + 2)
  {
    MulMonotone(q + 2, q + 2, 0x8000_0000 * k, top);
    MulByLiteral(q + 2, k);
  }

  lemma UpperArith(n: nat, k: nat, top: nat, q: nat, kq: nat, qt: nat)
    requires n < 0x1_0000_0000_0000_0000 && (k == 2 || k >= 4) && 0x8000_0000 * k <= top
    requires 0x8000_0000 * kq <= qt && n < qt - top + (kq - k - (q + 1)) && (k == 2 ==> kq == 2 * (q + 2))
    ensures n < qt
  {
  }

  /** One multiplication tells which of the two candidates it is, without wrapping around. */
  lemma Correction(n: nat, d: nat, est: nat)
    requires n < 0x1_0000_0000_0000_0000 && 0 < d <= n && Quot(n, d) <= est <= Quot(n, d) + 1
    ensures est >= 1 && Mul(est - 1, d) <= n
    ensures Minus64(n, Times64(est - 1, d)) < d <==> est == Quot(n, d) + 1
  {
    QuotFloor(n, d);
    assert est >= 1;
    var q := Quot(n, d);
    if est == q {
      assert Mul(q, d) == d + Mul(q - 1, d);
    }
    var prod := Mul(est - 1, d);
    assert Times64(est - 1, d) == prod;
    assert Minus64(n, prod) == n - prod;
  }

  // ----- remainders and signed forms -----------------------------------------

  /** Unsigned remainder, in a 32-bit result type. */
  method UMod64(n: nat, d: nat) returns (r: nat)
    requires n < 0x1_0000_0000_0000_0000 && 0 < d < 0x1_0000_0000_0000_0000
    ensures r == Rem(n, d) % 0x1_0000_0000
    ensures Rem(n, d) == n % d
  {
    var q := UDiv64(n, d);
    QuotFloor(n, d);
    QuotIsFloor(n, d);
    MulCommutes(d, q);
    SmallDifference(n, Mul(d, q));
    r := Minus64(n, Times64(d, q)) % 0x1_0000_0000;
  }

  lemma SmallDifference(n: nat, m: nat)
    requires m <= n < 0x1_0000_0000_0000_0000
    ensures Minus64(n, m % 0x1_0000_0000_0000_0000) == n - m
  {
  }

  /** The 32-bit result type loses nothing, whatever the dividend, exactly for divisors up to 2^32. */
  lemma UMod64ExactIff(d: nat)
    requires 0 < d < 0x1_0000_0000_0000_0000
    ensures (forall n: nat | n < 0x1_0000_0000_0000_0000 :: Rem(n, d) % 0x1_0000_0000 == Rem(n, d))
            <==> d <= 0x1_0000_0000
  {
    forall n: nat ensures Rem(n, d) < d {
      QuotFloor(n, d);
    }
    if d > 0x1_0000_0000 {
      assert Rem(0x1_0000_0000, d) % 0x1_0000_0000 != Rem(0x1_0000_0000, d);
    }
  }

  function Abs(x: int): nat { if x >= 0 then x else -x }

  /** Division truncating toward zero, section 6.5.5 of ISO/IEC 9899:1999. */
  function TruncDiv(n: int, d: int): int
    requires d != 0
  {
    if (n < 0) == (d < 0) then Quot(Abs(n), Abs(d)) else 0 - Quot(Abs(n), Abs(d))
  }

  function TruncRem(n: int, d: int): int
    requires d != 0
  {
    if n < 0 then 0 - Rem(Abs(n), Abs(d)) else Rem(Abs(n), Abs(d))
  }

  /** Quotient and remainder belong together: the remainder is smaller than the divisor and has the sign of
      the dividend. */
  lemma TruncDivMeaning(n: int, d: int)
    requires d != 0
    ensures n == d * TruncDiv(n, d) + TruncRem(n, d)
    ensures Abs(TruncRem(n, d)) < Abs(d) && Abs(TruncRem(n, d)) <= Abs(n)
    ensures TruncRem(n, d) == 0 || (TruncRem(n, d) < 0 <==> n < 0)
  {
    QuotFloor(Abs(n), Abs(d));
    var q := Quot(Abs(n), Abs(d));
    MulIsProduct(q, Abs(d));
    SignedProducts(d, q);
  }

  lemma SignedProducts(d: int, q: int)
    ensures d * (0 - q) == -(q * d) && q * (-d) == -(q * d) && d * q == q * d
  {
  }

  /** The two's complement reading of the low 64 (32) bits of an integer. */
  function ToInt64(x: int): int {
    var w := x % 0x1_0000_0000_0000_0000;
    if w < 0x8000_0000_0000_0000 then w else w - 0x1_0000_0000_0000_0000
  }

  function ToInt32(x: int): int {
    var w := x % 0x1_0000_0000;
    if w < 0x8000_0000 then w else w - 0x1_0000_0000
  }

  predicate IsInt64(x: int) { -0x8000_0000_0000_0000 <= x < 0x8000_0000_0000_0000 }

  /** Signed division: it truncates toward zero, except that the one unrepresentable quotient wraps around. */
  method SDiv64(n: int, d: int) returns (q: int)
    requires IsInt64(n) && IsInt64(d) && d != 0
    ensures q == if n == -0x8000_0000_0000_0000 && d == -1 then n else TruncDiv(n, d)
    ensures IsInt64(q)
  {
    var nAbs := if n >= 0 then n else Minus64(0, n % 0x1_0000_0000_0000_0000);
    var dAbs := if d >= 0 then d else Minus64(0, d % 0x1_0000_0000_0000_0000);
    AbsWord(n);
    AbsWord(d);
    var qAbs := UDiv64(nAbs, dAbs);
    AbsQuotient(n, d);
    SignedWord(qAbs);
    q := if (n < 0) == (d < 0) then ToInt64(qAbs) else ToInt64(-ToInt64(qAbs));
  }

  lemma AbsWord(n: int)
    requires IsInt64(n)
    ensures (if n >= 0 then n else Minus64(0, n % 0x1_0000_0000_0000_0000)) == Abs(n)
  {
    if n < 0 {
      assert n % 0x1_0000_0000_0000_0000 == n + 0x1_0000_0000_0000_0000;
      assert (0 - (n + 0x1_0000_0000_0000_0000)) % 0x1_0000_0000_0000_0000 == -n;
    }
  }

  lemma SignedWord(w: nat)
    requires w <= 0x8000_0000_0000_0000
    ensures ToInt64(w) == if w == 0x8000_0000_0000_0000 then -0x8000_0000_0000_0000 else w
    ensures ToInt64(-ToInt64(w)) == 0 - w
  {
    assert w % 0x1_0000_0000_0000_0000 == w;
    if w > 0 {
      assert (0 - w) % 0x1_0000_0000_0000_0000 == 0x1_0000_0000_0000_0000 - w;
    }
  }

  lemma AbsQuotient(n: int, d: int)
    requires IsInt64(n) && IsInt64(d) && d != 0
    ensures Quot(Abs(n), Abs(d)) <= 0x8000_0000_0000_0000
    ensures Quot(Abs(n), Abs(d)) == 0x8000_0000_0000_0000 <==> n == -0x8000_0000_0000_0000 && Abs(d) == 1
  {
    var q := Quot(Abs(n), Abs(d));
    QuotFloor(Abs(n), Abs(d));
    if Abs(d) == 1 {
      MulByLiteral(q, 0);
    } else {
      MulMonotone(q, q, 2, Abs(d));
      MulByLiteral(q, 0);
    }
  }

  /** Signed remainder, in a 32-bit result type. */
  method SMod64(n: int, d: int) returns (r: int)
    requires IsInt64(n) && IsInt64(d) && d != 0
    ensures r == ToInt32(TruncRem(n, d))
  {
    var q := SDiv64(n, d);
    SRemainder(n, d, q);
    r := ToInt32(ToInt64(n - ToInt64(d * q)));
  }

  /** Also for INT64_MIN / -1 the wrapped quotient gives the right remainder, zero. */
  lemma SRemainder(n: int, d: int, q: int)
    requires IsInt64(n) && IsInt64(d) && d != 0
    requires q == if n == -0x8000_0000_0000_0000 && d == -1 then n else TruncDiv(n, d)
    ensures ToInt64(n - ToInt64(d * q)) == TruncRem(n, d)
  {
    TruncDivMeaning(n, d);
    if n == -0x8000_0000_0000_0000 && d == -1 {
      assert d * q == -n;
      assert ToInt64(-n) == n;
    } else {
      SmallProduct(n, d * q, TruncRem(n, d));
    }
  }

  lemma SmallProduct(n: int, prod: int, r: int)
    requires IsInt64(n) && Abs(r) <= Abs(n) && (r != 0 ==> (r < 0) == (n < 0)) && n == prod + r
    ensures ToInt64(n - ToInt64(prod)) == r
  {
    assert ToInt64(prod) == prod;
  }

  /** The signed 32-bit remainder is exact for every dividend exactly when |d| is at most 2^31. */
  lemma SMod64ExactIff(d: int)
    requires IsInt64(d) && d != 0
    ensures (forall n: int | IsInt64(n) :: ToInt32(TruncRem(n, d)) == TruncRem(n, d)) <==> Abs(d) <= 0x8000_0000
  {
    forall n: nat ensures Rem(n, Abs(d)) < Abs(d) {
      QuotFloor(n, Abs(d));
    }
    if Abs(d) > 0x8000_0000 {
      assert IsInt64(0x8000_0000) && ToInt32(TruncRem(0x8000_0000, d)) != TruncRem(0x8000_0000, d);
    }
  }
}
