/** Bitmaps packed into 64-bit words (pintos/lib/kernel/bitmap.c). */
module Bitmaps {
  import opened Arithmetic
  import opened Bits
  import opened Wrappers

  // ----- single bits of a word ------------------------------------------------------

  /** w' is w with bit k set to value. */
  ghost predicate BitSet(w: nat, w': nat, k: nat, value: bool) {
    forall j {:trigger BitOf(w', j)} | 0 <= j < 64 :: BitOf(w', j) == if j == k then value else BitOf(w, j)
  }

  /** Or-ing with a mask sets that bit and no other; and-ing with its complement clears it and no other. */
  lemma WordBits(w: nat, k: nat)
    requires k < 64
    ensures BitSet(w, Or(w, Pow2(k)), k, true) && BitSet(w, And(w, Not(Pow2(k), 64)), k, false)
  {
    forall j | 0 <= j < 64 ensures BitOf(Or(w, Pow2(k)), j) == (j == k || BitOf(w, j)) {
      OrBit(w, Pow2(k), j);
      MaskBit(k, j);
    }
    forall j | 0 <= j < 64 ensures BitOf(And(w, Not(Pow2(k), 64)), j) == (j != k && BitOf(w, j)) {
      AndBit(w, Not(Pow2(k), 64), j);
      NotBit(Pow2(k), 64, j);
      MaskBit(k, j);
    }
  }

  // ----- what a bitmap stands for -----------------------------------------------------

  predicate TestBit(words: seq<nat>, idx: nat)
    requires idx < 64 * |words|
  {
    BitOf(words[idx / 64], idx % 64)
  }

  /** The first n bits. */
  function Bools(words: seq<nat>, n: nat): (s: seq<bool>)
    requires n <= 64 * |words|
    ensures |s| == n && forall k | 0 <= k < n :: s[k] == TestBit(words, k)
  {
    if n == 0 then [] else Bools(words, n - 1) + [TestBit(words, n - 1)]
  }

  lemma SetWord(words: seq<nat>, words': seq<nat>, n: nat, idx: nat, value: bool)
    requires idx < n <= 64 * |words| && |words'| == |words|
    requires words' == words[idx / 64 := words'[idx / 64]] && BitSet(words[idx / 64], words'[idx / 64], idx % 64, value)
    ensures Bools(words', n) == Bools(words, n)[idx := value]
  {
    forall k | 0 <= k < n ensures TestBit(words', k) == if k == idx then value else TestBit(words, k) {
      if k / 64 == idx / 64 {
      }
    }
  }

  /** A group of cnt bits equal to value starts at i. */
  predicate Fits(bits: seq<bool>, i: nat, cnt: nat, value: bool) {
    i + cnt <= |bits| && forall k | i <= k < i + cnt :: bits[k] == value
  }

  /** bits with cnt bits from start set to value. */
  function Filled(bits: seq<bool>, start: nat, cnt: nat, value: bool): (r: seq<bool>)
    requires start + cnt <= |bits|
    ensures |r| == |bits| && forall k | 0 <= k < |bits| :: r[k] == if start <= k < start + cnt then value else bits[k]
  {
    if cnt == 0 then bits else Filled(bits, start, cnt - 1, value)[start + cnt - 1 := value]
  }

  /** The first group at or after start. */
  function LowestFit(bits: seq<bool>, start: nat, cnt: nat, value: bool): (r: Option<nat>)
    ensures r.Some? ==> start <= r.value && Fits(bits, r.value, cnt, value)
                        && forall i | start <= i < r.value :: !Fits(bits, i, cnt, value)
    ensures r.None? ==> forall i | start <= i :: !Fits(bits, i, cnt, value)
    decreases |bits| - start
  {
    if start + cnt > |bits| then None
    else if Fits(bits, start, cnt, value) then Some(start)
    else LowestFit(bits, start + 1, cnt, value)
  }

  class Bitmap {
    const bitCnt: nat
    const bits: array<nat>

    ghost predicate Valid()
      reads this
    {
      bits.Length == (bitCnt + 63) / 64
    }

    ghost function Bits(): (s: seq<bool>)
      requires Valid()
      reads this, bits
      ensures |s| == bitCnt
    {
      Bools(bits[..], bitCnt)
    }

    /** bitmap_create, when there is memory for it. */
    constructor (bitCnt: nat)
      ensures Valid() && this.bitCnt == bitCnt && fresh(bits)
      ensures forall k | 0 <= k < bitCnt :: !Bits()[k]
    {
      this.bitCnt := bitCnt;
      bits := new nat[(bitCnt + 63) / 64];
      new;
      SetMultiple(0, bitCnt, false);
    }

    method Mark(idx: nat)
      requires Valid() && idx < bitCnt
      modifies bits
      ensures Bits() == old(Bits())[idx := true]
    {
      var i, k := idx / 64, idx % 64;
      ghost var was := bits[..];
      WordBits(bits[i], k);
      bits[i] := Or(bits[i], Pow2(k));
      SetWord(was, bits[..], bitCnt, idx, true);
    }

    method Reset(idx: nat)
      requires Valid() && idx < bitCnt
      modifies bits
      ensures Bits() == old(Bits())[idx := false]
    {
      var i, k := idx / 64, idx % 64;
      ghost var was := bits[..];
      WordBits(bits[i], k);
      bits[i] := And(bits[i], Not(Pow2(k), 64));
      SetWord(was, bits[..], bitCnt, idx, false);
    }

    method Test(idx: nat) returns (r: bool)
      requires Valid() && idx < bitCnt
      ensures r == Bits()[idx]
    {
      var i, k := idx / 64, idx % 64;
      r := And(bits[i], Pow2(k)) != 0;
      MaskTests(bits[i], k);
      assert TestBit(bits[..], idx) == BitOf(bits[i], k);
    }

    method Set(idx: nat, value: bool)
      requires Valid() && idx < bitCnt
      modifies bits
      ensures Bits() == old(Bits())[idx := value]
    {
      if value {
        Mark(idx);
      } else {
        Reset(idx);
      }
    }

    method SetMultiple(start: nat, cnt: nat, value: bool)
      requires Valid() && start + cnt <= bitCnt
      modifies bits
      ensures Bits() == Filled(old(Bits()), start, cnt, value)
    {
      var i := 0;
      while i < cnt
        invariant 0 <= i <= cnt && Bits() == Filled(old(Bits()), start, i, value)
      {
        Set(start + i, value);
        i := i + 1;
      }
    }

    method Contains(start: nat, cnt: nat, value: bool) returns (r: bool)
      requires Valid() && start + cnt <= bitCnt
      ensures r <==> !Fits(Bits(), start, cnt, !value)
    {
      var i := 0;
      while i < cnt
        invariant 0 <= i <= cnt && Fits(Bits(), start, i, !value)
      {
        var b := Test(start + i);
        if b == value {
          assert Bits()[start + i] == value;
          return true;
        }
        i := i + 1;
      }
      return false;
    }

    /** The lowest fitting range, or None iff none exists. */
    method Scan(start: nat, cnt: nat, value: bool) returns (r: Option<nat>)
      requires Valid() && start <= bitCnt
      ensures r == LowestFit(Bits(), start, cnt, value)
    {
      if cnt <= bitCnt {
        var last := bitCnt - cnt;
        var i := start;
        while i <= last
          invariant start <= i && LowestFit(Bits(), start, cnt, value) == LowestFit(Bits(), i, cnt, value)
        {
          var taken := Contains(i, cnt, !value);
          if !taken {
            return Some(i);
          }
          i := i + 1;
        }
      }
      return None;
    }

    method ScanAndFlip(start: nat, cnt: nat, value: bool) returns (r: Option<nat>)
      requires Valid() && start <= bitCnt
      modifies bits
      ensures r == LowestFit(old(Bits()), start, cnt, value)
      ensures Bits() == if r.Some? then Filled(old(Bits()), r.value, cnt, !value) else old(Bits())
    {
      r := Scan(start, cnt, value);
      if r.Some? {
        SetMultiple(r.value, cnt, !value);
      }
    }
  }
}
