/**
 A C# `int` as the style APIs use it: a 32-bit two's-complement word,
 represented by the set of positions of its 1-bits. Position i has weight
 2^i and only positions 0 to 31 exist, so the 32-bit width is part of the
 type. The bitwise operators `|`, `&` and `~` become union, intersection and
 complement within the 32 positions; unary `-` is two's-complement negation.
 `Value` reads a word as an unsigned number, and the lemmas below show that
 `Not` and `Neg` compute exactly what 32-bit arithmetic computes.
 */
module Words {

  const Width: nat := 32

  type Word = w: set<nat> | forall i :: i in w ==> i < Width

  /** The word with every bit set (C# `-1`). */
  const AllOnes: Word := set i: nat | i < Width

  /** C# `a | b` */
  function Or(a: Word, b: Word): Word {
    a + b
  }

  /** C# `a & b` */
  function And(a: Word, b: Word): Word {
    a * b
  }

  /** C# `~a` */
  function Not(a: Word): Word {
    AllOnes - a
  }

  /** The lowest 1-bit of `y` at or above position `from`. */
  function LowestBitFrom(y: Word, from: nat): (k: nat)
    requires exists j :: j in y && from <= j
    ensures k in y && from <= k
    ensures forall i :: from <= i < k ==> i !in y
    decreases Width - from
  {
    if from in y then from else LowestBitFrom(y, from + 1)
  }

  /** C# unary `-a`: the lowest 1-bit is kept, every bit above it is flipped,
      every bit below it stays 0; zero negates to zero. */
  function Neg(a: Word): Word {
    if a == {} then {}
    else
      assert exists j :: j in a && 0 <= j;
      var k := LowestBitFrom(a, 0);
      {k} + FlippedAbove(a, k)
  }

  /** The positions above `k` where `a` has a 0-bit. */
  function FlippedAbove(a: Word, k: nat): Word {
    set i: nat | k < i < Width && i !in a
  }

  function Pow2(n: nat): (r: nat)
    ensures r >= 1
  {
    if n == 0 then 1 else 2 * Pow2(n - 1)
  }

  lemma {:induction false} Pow2Add(a: nat, b: nat)
    ensures Pow2(a + b) == Pow2(a) * Pow2(b)
  {
    if b > 0 {
      Pow2Add(a, b - 1);
      assert Pow2(a + b) == 2 * Pow2(a + b - 1);
    }
  }

  /** 2^32, the modulus of 32-bit arithmetic. */
  lemma Pow2Width()
    ensures Pow2(Width) == 0x1_0000_0000
  {
    assert Pow2(2) == 4;
    assert Pow2(4) == 16 by { Pow2Add(2, 2); }
    assert Pow2(8) == 256 by { Pow2Add(4, 4); }
    assert Pow2(16) == 0x10000 by { Pow2Add(8, 8); }
    Pow2Add(16, 16);
  }

  /** The unsigned value of the bits of `w` below position `n`. */
  function ValueBelow(w: set<nat>, n: nat): nat {
    if n == 0 then 0 else ValueBelow(w, n - 1) + (if n - 1 in w then Pow2(n - 1) else 0)
  }

  /** The unsigned 32-bit value of a word. */
  function Value(w: Word): nat {
    ValueBelow(w, Width)
  }

  /** The positions `lo` up to 31. */
  function BitsFrom(lo: nat): Word {
    set i | i in AllOnes && lo <= i
  }

  lemma {:induction false} ValueBelowBound(w: set<nat>, n: nat)
    ensures ValueBelow(w, n) < Pow2(n)
  {
    if n > 0 {
      ValueBelowBound(w, n - 1);
    }
  }

  /** Every word reads as a number below 2^32. */
  lemma ValueBound(w: Word)
    ensures Value(w) < Pow2(Width)
  {
    ValueBelowBound(w, Width);
  }

  /** Adding the values of two bit sets counts the bits of both once and the
      shared bits twice. */
  lemma {:induction false} ValueBelowUnion(a: set<nat>, b: set<nat>, n: nat)
    ensures ValueBelow(a, n) + ValueBelow(b, n) == ValueBelow(a + b, n) + ValueBelow(a * b, n)
  {
    if n > 0 {
      ValueBelowUnion(a, b, n - 1);
    }
  }

  /** Two sets with the same bits below `n` have the same value below `n`. */
  lemma {:induction false} ValueBelowAgree(a: set<nat>, b: set<nat>, n: nat)
    requires forall i :: i < n ==> (i in a <==> i in b)
    ensures ValueBelow(a, n) == ValueBelow(b, n)
  {
    if n > 0 {
      ValueBelowAgree(a, b, n - 1);
    }
  }

  /** A single bit at position b is worth 2^b. */
  lemma {:induction false} ValueBelowSingleton(b: nat, n: nat)
    ensures ValueBelow({b}, n) == if n <= b then 0 else Pow2(b)
  {
    if n > 0 {
      ValueBelowSingleton(b, n - 1);
    }
  }

  lemma ValueSingleton(b: nat)
    requires b < Width
    ensures Value({b}) == Pow2(b)
  {
    ValueBelowSingleton(b, Width);
  }

  /** The bits from `lo` up to 31 are worth 2^32 - 2^lo. */
  lemma {:induction false} ValueBelowBitsFrom(lo: nat, n: nat)
    requires lo <= n <= Width
    ensures ValueBelow(BitsFrom(lo), n) + Pow2(lo) == Pow2(n)
  {
    if n == lo {
      ValueBelowAgree(BitsFrom(lo), {}, n);
      ValueBelowEmpty(n);
    } else {
      ValueBelowBitsFrom(lo, n - 1);
    }
  }

  lemma {:induction false} ValueBelowEmpty(n: nat)
    ensures ValueBelow({}, n) == 0
  {
    if n > 0 {
      ValueBelowEmpty(n - 1);
    }
  }

  /** The values of two words without common bits add up. */
  lemma ValueBelowDisjointUnion(a: set<nat>, b: set<nat>, n: nat)
    requires a * b == {}
    ensures ValueBelow(a + b, n) == ValueBelow(a, n) + ValueBelow(b, n)
  {
    ValueBelowUnion(a, b, n);
    ValueBelowEmpty(n);
  }

  /** `~a` reads as 2^32 - 1 - a. */
  lemma NotValue(a: Word)
    ensures Value(Not(a)) == Pow2(Width) - 1 - Value(a)
  {
    assert Not(a) * a == {};
    ValueBelowDisjointUnion(Not(a), a, Width);
    assert Not(a) + a == BitsFrom(0);
    ValueBelowBitsFrom(0, Width);
  }

  /** The bits of `a` above its lowest 1-bit `k`, and the bits above `k` that
      `a` lacks, together fill positions k+1 to 31 exactly once. */
  lemma FillAboveLowestBit(a: Word, k: nat)
    requires k in a
    requires forall i :: i < k ==> i !in a
    ensures (a - {k}) * FlippedAbove(a, k) == {}
    ensures (a - {k}) + FlippedAbove(a, k) == BitsFrom(k + 1)
  {
  }

  lemma ValueAboveLowestBit(a: Word, k: nat)
    requires k in a
    requires forall i :: i < k ==> i !in a
    ensures ValueBelow(a - {k}, Width) + ValueBelow(FlippedAbove(a, k), Width) == Pow2(Width) - Pow2(k + 1)
  {
    FillAboveLowestBit(a, k);
    ValueBelowDisjointUnion(a - {k}, FlippedAbove(a, k), Width);
    ValueBelowBitsFrom(k + 1, Width);
  }

  /** A word with 1-bit `k` is worth 2^k plus its other bits. */
  lemma ValueSplitAtBit(a: Word, k: nat)
    requires k in a
    ensures Value(a) == Pow2(k) + ValueBelow(a - {k}, Width)
  {
    assert {k} * (a - {k}) == {};
    ValueBelowDisjointUnion({k}, a - {k}, Width);
    assert {k} + (a - {k}) == a;
    ValueSingleton(k);
  }

  /** A nonzero word and its negation add up to 2^32. */
  lemma NegValueNonZero(a: Word)
    requires a != {}
    ensures Value(Neg(a)) + Value(a) == Pow2(Width)
  {
    assert exists j :: j in a && 0 <= j;
    var k := LowestBitFrom(a, 0);
    assert Neg(a) == {k} + FlippedAbove(a, k);
    assert {k} * FlippedAbove(a, k) == {};
    ValueBelowDisjointUnion({k}, FlippedAbove(a, k), Width);
    ValueSingleton(k);
    ValueSplitAtBit(a, k);
    ValueAboveLowestBit(a, k);
    assert Pow2(k + 1) == 2 * Pow2(k);
  }

  /** `-a` reads as 2^32 - a for a nonzero word and as 0 for zero, that is
      (2^32 - a) mod 2^32: the model of unary minus is two's-complement
      negation. */
  lemma NegValue(a: Word)
    ensures Value(Neg(a)) == if a == {} then 0 else Pow2(Width) - Value(a)
  {
    if a == {} {
      ValueBelowEmpty(Width);
    } else {
      NegValueNonZero(a);
    }
  }
}
