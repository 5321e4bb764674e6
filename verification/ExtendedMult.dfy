/** 64x64 to 128-bit multiplication from 64-bit operations. */
module ExtendedMult {
  import opened Words
  import opened Arithmetic

  datatype Product = Product(upper: uint64, lower: uint64)

  const HALF: int := 0x1_0000_0000

  function CarryBits(x: uint64): (c: uint64)
    ensures c as int < HALF && x as int == c as int * HALF + Digits(x) as int
  {
    x / 0x1_0000_0000
  }

  function Digits(x: uint64): (d: uint64)
    ensures d as int < HALF
  {
    x % 0x1_0000_0000
  }

  /** The product of two halves leaves room for two more halves in a word. */
  lemma HalvesFit(x: uint64, y: uint64)
    requires x as int < HALF && y as int < HALF
    ensures 0 <= x as int * y as int <= (HALF - 1) * (HALF - 1)
  {
    ProductGrows(x as int, HALF - 1, y as int);
    ProductGrows(y as int, HALF - 1, HALF - 1);
  }

  /** The schoolbook identity behind the routine, over the integers. */
  lemma LongMultiplication(a1: int, a0: int, b1: int, b0: int,
                           ll1: int, ll0: int, hl1: int, hl0: int, lh1: int, lh0: int)
    requires a0 * b0 == ll1 * HALF + ll0
    requires a1 * b0 + ll1 == hl1 * HALF + hl0
    requires a0 * b1 + hl0 == lh1 * HALF + lh0
    ensures (a1 * HALF + a0) * (b1 * HALF + b0)
         == (a1 * b1 + hl1 + lh1) * TWO_TO_64 + lh0 * HALF + ll0
  {
    calc {
      (a1 * HALF + a0) * (b1 * HALF + b0);
      a1 * HALF * (b1 * HALF + b0) + a0 * (b1 * HALF + b0);
      (a1 * b1) * HALF * HALF + (a1 * b0) * HALF + (a0 * b1) * HALF + a0 * b0;
      (a1 * b1) * TWO_TO_64 + (a1 * b0 + ll1) * HALF + (a0 * b1) * HALF + ll0;
      (a1 * b1 + hl1) * TWO_TO_64 + (a0 * b1 + hl0) * HALF + ll0;
      (a1 * b1 + hl1 + lh1) * TWO_TO_64 + lh0 * HALF + ll0;
    }
  }

  /** A 128-bit number below 2^128 has a 64-bit upper half. */
  lemma UpperFits(lhs: uint64, rhs: uint64, upper: int, lower: int)
    requires lhs as int * rhs as int == upper * TWO_TO_64 + lower && 0 <= lower
    ensures upper < TWO_TO_64
  {
    ProductGrows(lhs as int, TWO_TO_64 - 1, rhs as int);
  }

  /** `extendedMultPortable`. Each sum and product is checked to fit 64 bits; only
      the shift of `lowHigh` drops bits, as it is meant to. */
  function ExtendedMultPortable(lhs: uint64, rhs: uint64): (r: Product)
    ensures r.upper as int * TWO_TO_64 + r.lower as int == lhs as int * rhs as int
  {
    var lhsLow := Digits(lhs);
    var rhsLow := Digits(rhs);
    HalvesFit(lhsLow, rhsLow);
    var lowLow := lhsLow * rhsLow;
    HalvesFit(CarryBits(lhs), CarryBits(rhs));
    var highHigh := CarryBits(lhs) * CarryBits(rhs);
    HalvesFit(CarryBits(lhs), rhsLow);
    var highLow := CarryBits(lhs) * rhsLow + CarryBits(lowLow);
    HalvesFit(lhsLow, CarryBits(rhs));
    var lowHigh := lhsLow * CarryBits(rhs) + Digits(highLow);
    LongMultiplication(CarryBits(lhs) as int, lhsLow as int, CarryBits(rhs) as int, rhsLow as int,
                       CarryBits(lowLow) as int, Digits(lowLow) as int, CarryBits(highLow) as int,
                       Digits(highLow) as int, CarryBits(lowHigh) as int, Digits(lowHigh) as int);
    var lower := Digits(lowHigh) * 0x1_0000_0000 + Digits(lowLow);
    UpperFits(lhs, rhs, highHigh as int + CarryBits(highLow) as int + CarryBits(lowHigh) as int, lower as int);
    Product(highHigh + CarryBits(highLow) + CarryBits(lowHigh), lower)
  }
}
