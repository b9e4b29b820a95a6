/**
 machine/mipssim.cc, Mult: a 32 by 32 bit product in two words, by shifting and adding. The words and
 their wrap-around are written out.
*/
module Multiply {
  import opened Common

  const WORD := 0x1_0000_0000

  /** hi and lo as one number of 64 bits. */
  function Double(hi: Word, lo: Word): (d: nat)
    ensures d < WORD * WORD
  {
    hi * WORD + lo
  }

  /** C's `-a` on an int; the most negative number is its own negative. */
  function Negated(a: Int32): Int32 {
    if a == -0x8000_0000 then a else -a
  }

  /** Adds a double word, with the carry of the low words. */
  function AddDouble(hi: Word, lo: Word, bHi: Word, bLo: Word): (Word, Word) {
    var newLo := (lo + bLo) % WORD;
    var carried := if newLo < bLo then (hi + 1) % WORD else hi;
    ((carried + bHi) % WORD, newLo)
  }

  /** The comparison finds the carry: adding word by word adds the numbers, if the sum fits. */
  lemma AddDoubleAdds(hi: Word, lo: Word, bHi: Word, bLo: Word)
    requires Double(hi, lo) + Double(bHi, bLo) < WORD * WORD
    ensures var r := AddDouble(hi, lo, bHi, bLo); Double(r.0, r.1) == Double(hi, lo) + Double(bHi, bLo)
  {
  }

  /** Shifts a double word left by one bit; the top bit of the low word goes to the high word. */
  function ShiftDouble(hi: Word, lo: Word): (Word, Word) {
    var newHi := (2 * hi) % WORD;
    (if lo >= 0x8000_0000 then newHi + 1 else newHi, (2 * lo) % WORD)
  }

  lemma ShiftDoubleDoubles(hi: Word, lo: Word)
    requires 2 * Double(hi, lo) < WORD * WORD
    ensures var r := ShiftDouble(hi, lo); Double(r.0, r.1) == 2 * Double(hi, lo)
  {
  }

  /** The two's complement of a double word, with the carry of the low words. */
  function NegateDouble(hi: Word, lo: Word): (Word, Word) {
    var newLo := (WORD - 1 - lo + 1) % WORD;
    (if newLo == 0 then (WORD - 1 - hi + 1) % WORD else WORD - 1 - hi, newLo)
  }

  lemma NegateDoubleNegates(hi: Word, lo: Word)
    requires Double(hi, lo) > 0
    ensures var r := NegateDouble(hi, lo); Double(r.0, r.1) == WORD * WORD - Double(hi, lo)
  {
  }

  // ---------------------------------------------------------------- the main loop

  function Pow2(i: nat): (p: nat)
    ensures p > 0
  {
    if i == 0 then 1 else 2 * Pow2(i - 1)
  }

  lemma Doubled(a: nat, b: nat)
    ensures (2 * a) * b == 2 * (a * b)
  {
  }

  lemma {:induction false} Pow2Adds(i: nat, j: nat)
    ensures Pow2(i + j) == Pow2(i) * Pow2(j)
  {
    if i > 0 {
      Pow2Adds(i - 1, j);
      Doubled(Pow2(i - 1), Pow2(j));
    }
  }

  lemma Pow2Of32()
    ensures Pow2(32) == WORD
  {
    assert Pow2(4) == 16;
    Pow2Adds(4, 4);
    Pow2Adds(8, 8);
    Pow2Adds(16, 16);
  }

  lemma {:induction false} Pow2Grows(i: nat, j: nat)
    requires i <= j
    ensures Pow2(i) <= Pow2(j)
  {
    if i < j {
      Pow2Grows(i, j - 1);
    }
  }

  /**
   Before round i, the low i bits of a have been multiplied: `low` is their value, the sum so far is
   low * b, the shifted b is b * 2^i, and a is what is left of a0.
  */
  ghost predicate Multiplied(a0: Int32, b: Word, i: nat, low: nat, a: Int32, sum: nat, shifted: nat) {
    && i <= 32
    && low < Pow2(i)
    && low + a * Pow2(i) == a0
    && sum == low * b
    && shifted == Pow2(i) * b
  }

  lemma MulMonotone(x: nat, y: nat, z: nat)
    requires x <= y
    ensures x * z <= y * z
  {
  }

  lemma MulTwice(x: int, z: int)
    ensures (2 * x) * z == 2 * (x * z)
  {
  }

  lemma MulAdd(x: int, y: int, z: int)
    ensures (x + y) * z == x * z + y * z
  {
  }

  lemma MulShift(half: int, p: int)
    ensures (2 * half) * p == half * (2 * p)
  {
  }

  /** Neither the sum nor the shifted b ever outgrows two words. */
  lemma Fits(a0: Int32, b: Word, i: nat, low: nat, a: Int32, sum: nat, shifted: nat)
    requires Multiplied(a0, b, i, low, a, sum, shifted)
    ensures shifted < WORD * WORD && sum < WORD * WORD
    ensures i < 32 ==> 2 * shifted < WORD * WORD && sum + shifted < WORD * WORD
  {
    Pow2Of32();
    Pow2Grows(i, 32);
    MulMonotone(Pow2(i), WORD, b);
    MulMonotone(low, Pow2(i), b);
    if i < 32 {
      Pow2Grows(i + 1, 32);
      MulMonotone(Pow2(i + 1), WORD, b);
      MulTwice(Pow2(i), b);
    }
  }

  lemma RoundOdd(a0: Int32, b: Word, i: nat, low: nat, a: Int32, sum: nat, shifted: nat)
    requires Multiplied(a0, b, i, low, a, sum, shifted) && i < 32 && a % 2 == 1
    ensures Multiplied(a0, b, i + 1, low + Pow2(i), a / 2, sum + shifted, 2 * shifted)
  {
    var p: int, half: int := Pow2(i), a / 2;
    assert a == 2 * half + 1 && Pow2(i + 1) == 2 * p;
    MulAdd(2 * half, 1, p);
    MulShift(half, p);
    MulAdd(low, p, b);
    MulTwice(p, b);
  }

  lemma RoundEven(a0: Int32, b: Word, i: nat, low: nat, a: Int32, sum: nat, shifted: nat)
    requires Multiplied(a0, b, i, low, a, sum, shifted) && i < 32 && a % 2 == 0
    ensures Multiplied(a0, b, i + 1, low, a / 2, sum, 2 * shifted)
  {
    var p: int, half: int := Pow2(i), a / 2;
    assert a == 2 * half && Pow2(i + 1) == 2 * p;
    MulShift(half, p);
    MulTwice(p, b);
  }

  /** After 32 rounds every bit of a has counted, those of the sign too, and as powers of two. */
  lemma AllRounds(a0: Int32, b: Word, low: nat, a: Int32, sum: nat, shifted: nat)
    requires Multiplied(a0, b, 32, low, a, sum, shifted)
    ensures sum == Unsigned(a0) * b
  {
    Pow2Of32();
    assert low == Unsigned(a0);
  }

  /** When no bit is left after this one, the rest of the rounds would add nothing. */
  lemma EarlyExit(a0: Int32, b: Word, i: nat, low: nat, sum: nat, shifted: nat)
    requires Multiplied(a0, b, i, low, 1, sum, shifted)
    ensures sum + shifted == Unsigned(a0) * b
  {
  }

  /** The loop of Mult, on a as an int whose right shift is arithmetic. */
  method MultiplyUnsigned(a0: Int32, b: Word) returns (hi: Word, lo: Word)
    ensures Double(hi, lo) == Unsigned(a0) * b
  {
    var a := a0;
    var bLo: Word, bHi: Word := b, 0;
    lo, hi := 0, 0;
    ghost var low: nat := 0;
    var i := 0;
    while i < 32
      invariant Multiplied(a0, b, i, low, a, Double(hi, lo), Double(bHi, bLo))
    {
      Fits(a0, b, i, low, a, Double(hi, lo), Double(bHi, bLo));
      ghost var sum, shifted := Double(hi, lo), Double(bHi, bLo);
      if a % 2 == 1 {
        AddDoubleAdds(hi, lo, bHi, bLo);
        var r := AddDouble(hi, lo, bHi, bLo);
        hi, lo := r.0, r.1;
        if a == 1 {
          EarlyExit(a0, b, i, low, sum, shifted);
          return;
        }
        RoundOdd(a0, b, i, low, a, sum, shifted);
        low := low + Pow2(i);
      } else {
        RoundEven(a0, b, i, low, a, sum, shifted);
      }
      ShiftDoubleDoubles(bHi, bLo);
      var r := ShiftDouble(bHi, bLo);
      bHi, bLo := r.0, r.1;
      a := a / 2;
      i := i + 1;
    }
    AllRounds(a0, b, low, a, Double(hi, lo), Double(bHi, bLo));
  }

  // ---------------------------------------------------------------- signs

  /** The absolute value, read as unsigned; also for the most negative number. */
  function Magnitude(a: Int32): Word {
    if a < 0 then -(a as int) else a
  }

  lemma MagnitudesMultiply(x: int, y: int)
    ensures (-x) * y == -(x * y) && x * (-y) == -(x * y) && (-x) * (-y) == x * y
  {
  }

  lemma PositiveProduct(x: nat, y: nat)
    requires 0 < x && 0 < y
    ensures x * y > 0
  {
  }

  /** A product of magnitudes is at most 2^62, so that as signed numbers hi and lo hold it and its negative. */
  lemma MagnitudesFit(a: Int32, b: Int32)
    ensures Magnitude(a) * Magnitude(b) <= 0x4000_0000_0000_0000
    ensures Magnitude(a) * Magnitude(b) == if (a < 0) == (b < 0) then a * b else -(a * b)
    ensures a != 0 && b != 0 ==> Magnitude(a) * Magnitude(b) > 0
  {
    var x: int, y: int := Magnitude(a), Magnitude(b);
    MulMonotone(x, 0x8000_0000, y);
    MagnitudesMultiply(a, b);
    if a != 0 && b != 0 {
      PositiveProduct(x, y);
    }
  }

  lemma SignedDouble(hi: Word, lo: Word)
    ensures Double(hi, lo) <= 0x4000_0000_0000_0000 ==> Signed(hi) * WORD + lo == Double(hi, lo)
    ensures Double(hi, lo) >= WORD * WORD - 0x4000_0000_0000_0000 ==>
              Signed(hi) * WORD + lo == Double(hi, lo) - WORD * WORD
  {
  }

  /** The exact product, of the operands as signed or as unsigned numbers. */
  method Mult(a: Int32, b: Int32, signedArith: bool) returns (hi: Int32, lo: Int32)
    ensures signedArith ==> hi * WORD + Unsigned(lo) == a * b
    ensures !signedArith ==> Unsigned(hi) * WORD + Unsigned(lo) == Unsigned(a) * Unsigned(b)
  {
    if a == 0 || b == 0 {
      return 0, 0;
    }
    var negative, x, y := false, a, b;
    if signedArith {
      if x < 0 {
        negative := !negative;
        x := Negated(x);
      }
      if y < 0 {
        negative := !negative;
        y := Negated(y);
      }
      MagnitudesFit(a, b);
    }
    var h, l := MultiplyUnsigned(x, Unsigned(y));
    SignedDouble(h, l);
    if negative {
      NegateDoubleNegates(h, l);
      var r := NegateDouble(h, l);
      h, l := r.0, r.1;
      SignedDouble(h, l);
    }
    hi, lo := Signed(h), Signed(l);
  }
}
