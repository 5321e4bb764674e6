/** The machine word the property engine records its choices in. */
module Words {

  /** `std::uint64_t`. Dafny checks every operation on it for overflow, so a
      proved expression on this type never wraps. */
  newtype uint64 = x: int | 0 <= x < 0x1_0000_0000_0000_0000

  const UINT64_MAX: uint64 := 0xFFFF_FFFF_FFFF_FFFF

  /** 2^64, the modulus of `std::uint64_t` and of a 64-bit `std::size_t`. */
  const TWO_TO_64: int := 0x1_0000_0000_0000_0000

  /** A recorded sequence of choices. */
  type Choices = seq<uint64>

  datatype Option<+T> = None | Some(value: T)

  ghost function Pow2(k: nat): (p: nat)
    ensures p > 0
  {
    if k == 0 then 1 else 2 * Pow2(k - 1)
  }

  lemma {:induction false} Pow2Sum(a: nat, b: nat)
    ensures Pow2(a + b) == Pow2(a) * Pow2(b)
  {
    if a == 0 {
    } else {
      Pow2Sum(a - 1, b);
      assert Pow2(a + b) == 2 * Pow2(a - 1 + b);
    }
  }

  lemma Pow2At8()
    ensures Pow2(8) == 256
  {}

  lemma Pow2At64()
    ensures Pow2(8) == 256 && Pow2(16) == 0x1_0000
    ensures Pow2(32) == 0x1_0000_0000 && Pow2(64) == TWO_TO_64
  {
    hide Pow2;
    Pow2At8();
    Pow2Sum(8, 8);
    Pow2Sum(16, 16);
    Pow2Sum(32, 32);
  }
}
