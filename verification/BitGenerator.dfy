/** Filling a word of one width from a generator of another. */
module BitGenerator {
  import opened Words
  import opened Arithmetic

  /** A random bit generator: the words it will return, and how many it has. */
  class Generator {
    const bits: nat
    const word: nat -> nat
    var position: nat

    ghost predicate Valid()
      reads this
    {
      AllBelow(word, Pow2(bits))
    }

    constructor (bits: nat, word: nat -> nat)
      requires AllBelow(word, Pow2(bits))
      ensures Valid() && this.bits == bits && this.word == word && position == 0
    {
      this.bits, this.word, position := bits, word, 0;
    }

    method Next() returns (value: nat)
      requires Valid()
      modifies this`position
      ensures Valid() && value == word(old(position)) < Pow2(bits) && position == old(position) + 1
    {
      value := word(position);
      position := position + 1;
    }

    /** `fillBitsFrom`: the top bits of one word, or as many words as it takes, the
        first on top. */
    method FillBits(width: nat) returns (value: nat)
      requires Valid() && Fits(bits, width)
      modifies this`position
      ensures Valid() && value == Filled(word, bits, width, old(position)) < Pow2(width)
      ensures position == old(position) + DrawsPerWord(bits, width)
      ensures bits >= width ==>
        && position == old(position) + 1
        && value * Pow2(bits - width) <= word(old(position)) < (value + 1) * Pow2(bits - width)
      ensures bits < width ==>
        && (position - old(position)) * bits == width
        && value == Placed(word, bits, old(position), position - old(position))
    {
      FilledFits(word, bits, width, position);
      FilledMeans(word, bits, width, position);
      if bits >= width {
        value := Next();
        value := Quotient(value, Power(bits - width));
      } else {
        value := FillFromSeveral(width);
      }
    }

    method FillFromSeveral(width: nat) returns (value: nat)
      requires Valid() && Fits(bits, width) && bits < width
      modifies this`position
      ensures value == Filled(word, bits, width, old(position))
      ensures position == old(position) + DrawsPerWord(bits, width)
    {
      hide Pow2, Joined, Slice, Quotient, DrawsPerWord, Remainder;
      var filledBits := 0;
      ghost var n := 0;
      value := 0;
      CountIs(bits, width, 0);
      JoinedNone(Slice(word, position, 0), Pow2(bits));
      while filledBits < width
        invariant filledBits == n * bits && n <= DrawsPerWord(bits, width)
        invariant filledBits < width <==> n < DrawsPerWord(bits, width)
        invariant position == old(position) + n
        invariant value == Joined(Slice(word, old(position), n), Pow2(bits))
        decreases DrawsPerWord(bits, width) - n
      {
        ghost var digits := Slice(word, old(position), n);
        ShiftFits(digits, bits, width, n);
        value := Remainder(value * Power(bits), Power(width));
        var next := Next();
        value := value + next;
        JoinedSnoc(digits, next, Pow2(bits));
        assert digits + [next] == Slice(word, old(position), n + 1);
        Distribute(n, 1, bits);
        filledBits := filledBits + bits;
        n := n + 1;
        CountIs(bits, width, n);
      }
    }
  }

  ghost predicate AllBelow(word: nat -> nat, m: nat) {
    forall i: nat :: word(i) < m
  }

  /** One width divides the other, as those of C++'s unsigned types do. */
  ghost predicate Fits(bits: nat, width: nat) {
    0 < bits && 0 < width && (bits < width ==> width % bits == 0)
  }

  function DrawsPerWord(bits: nat, width: nat): (n: nat)
    requires bits > 0
  {
    if bits >= width then 1 else Quotient(width, bits)
  }

  function Power(k: nat): (p: nat)
    ensures p == Pow2(k) && p > 0
  {
    if k == 0 then 1 else 2 * Power(k - 1)
  }

  function Slice(word: nat -> nat, from: nat, n: nat): (s: seq<nat>)
    ensures |s| == n && forall i | 0 <= i < n :: s[i] == word(from + i)
  {
    seq(n, (i: nat) => word(from + i))
  }

  /** The number whose digits to a base are the given ones. */
  function Joined(digits: seq<nat>, base: nat): nat {
    if digits == [] then 0 else Joined(digits[..|digits| - 1], base) * base + digits[|digits| - 1]
  }

  lemma JoinedSnoc(digits: seq<nat>, digit: nat, base: nat)
    ensures Joined(digits + [digit], base) == Joined(digits, base) * base + digit
  {
    assert (digits + [digit])[..|digits|] == digits;
  }

  function Filled(word: nat -> nat, bits: nat, width: nat, position: nat): nat
    requires bits > 0
  {
    if bits >= width then Quotient(word(position), Power(bits - width))
    else Joined(Slice(word, position, DrawsPerWord(bits, width)), Power(bits))
  }

  /** The sum of n words, the first on top, each in its own bits. */
  ghost function Placed(word: nat -> nat, bits: nat, from: nat, n: nat): nat
    decreases n
  {
    if n == 0 then 0 else word(from) * Pow2((n - 1) * bits) + Placed(word, bits, from + 1, n - 1)
  }

  lemma {:induction false} PlacedSnoc(word: nat -> nat, bits: nat, from: nat, n: nat)
    ensures Placed(word, bits, from, n + 1) == Placed(word, bits, from, n) * Pow2(bits) + word(from + n)
    decreases n
  {
    if n == 0 {
      OneWord(word, bits, from);
    } else {
      PlacedSnoc(word, bits, from + 1, n - 1);
      Distribute(n - 1, 1, bits);
      Pow2Sum((n - 1) * bits, bits);
      Regrouped(word(from), Pow2((n - 1) * bits), Pow2(bits), Placed(word, bits, from + 1, n - 1));
    }
  }

  lemma OneWord(word: nat -> nat, bits: nat, from: nat)
    ensures Placed(word, bits, from, 0) == 0 && Placed(word, bits, from, 1) == word(from)
  {
    assert 0 * bits == 0 && Pow2(0) == 1;
    assert Placed(word, bits, from + 1, 0) == 0;
  }

  lemma Regrouped(x: nat, p: nat, q: nat, rest: nat)
    ensures (x * p + rest) * q == x * (p * q) + rest * q
  {}

  lemma {:induction false} JoinedIsPlaced(word: nat -> nat, bits: nat, from: nat, n: nat)
    ensures Joined(Slice(word, from, n), Pow2(bits)) == Placed(word, bits, from, n)
  {
    if n == 0 {
      JoinedNone(Slice(word, from, 0), Pow2(bits));
    } else {
      hide Pow2, Placed;
      JoinedIsPlaced(word, bits, from, n - 1);
      PlacedSnoc(word, bits, from, n - 1);
      assert Slice(word, from, n) == Slice(word, from, n - 1) + [word(from + n - 1)];
      JoinedSnoc(Slice(word, from, n - 1), word(from + n - 1), Pow2(bits));
    }
  }

  /** The top bits of a wide word; of narrow ones, all bits. */
  lemma FilledMeans(word: nat -> nat, bits: nat, width: nat, position: nat)
    requires Fits(bits, width)
    ensures var value := Filled(word, bits, width, position);
            if bits >= width then value * Pow2(bits - width) <= word(position) < (value + 1) * Pow2(bits - width)
            else value == Placed(word, bits, position, DrawsPerWord(bits, width))
    ensures if bits >= width then DrawsPerWord(bits, width) == 1 else DrawsPerWord(bits, width) * bits == width
  {
    if bits >= width {
      QuotientBounds(word(position), Power(bits - width));
    } else {
      CountIs(bits, width, 0);
      JoinedIsPlaced(word, bits, position, DrawsPerWord(bits, width));
    }
  }

  ghost predicate Digits(digits: seq<nat>, base: nat) {
    forall i | 0 <= i < |digits| :: digits[i] < base
  }

  lemma {:induction false} JoinedBelow(digits: seq<nat>, bits: nat)
    requires Digits(digits, Pow2(bits))
    ensures Joined(digits, Pow2(bits)) < Pow2(|digits| * bits)
  {
    if digits == [] {
      assert Pow2(0) == 1;
    } else {
      var n := |digits| - 1;
      JoinedBelow(digits[..n], bits);
      Distribute(n, 1, bits);
      Pow2Sum(n * bits, bits);
      hide Pow2;
      ProductGrows(Joined(digits[..n], Pow2(bits)) + 1, Pow2(n * bits), Pow2(bits));
      Distribute(Joined(digits[..n], Pow2(bits)), 1, Pow2(bits));
    }
  }

  lemma CountIs(bits: nat, width: nat, n: nat)
    requires 0 < bits < width && width % bits == 0
    ensures n * bits < width <==> n < DrawsPerWord(bits, width)
    ensures DrawsPerWord(bits, width) * bits == width
  {
    var count := DrawsPerWord(bits, width);
    QuotientRemainder(width, bits);
    hide Quotient;
    if n * bits < width {
      CancelFactor(n, count, bits);
    } else if n < count {
      ProductGrows(n + 1, count, bits);
      Distribute(n, 1, bits);
    }
  }

  lemma JoinedNone(digits: seq<nat>, base: nat)
    requires digits == []
    ensures Joined(digits, base) == 0
  {}

  /** As long as bits are missing, the shift loses none. */
  lemma ShiftFits(digits: seq<nat>, bits: nat, width: nat, n: nat)
    requires 0 < bits < width && width % bits == 0 && |digits| == n && n * bits < width
    requires Digits(digits, Pow2(bits))
    ensures Joined(digits, Pow2(bits)) * Pow2(bits) < Pow2(width)
    ensures Remainder(Joined(digits, Pow2(bits)) * Pow2(bits), Power(width)) == Joined(digits, Pow2(bits)) * Pow2(bits)
  {
    hide *;
    JoinedBelow(digits, bits);
    NextPower(bits, width, n);
    Pow2Grows(bits, bits);
    RoomForDigit(Joined(digits, Pow2(bits)), Pow2(n * bits), Pow2(bits), Pow2(width));
    RemainderOfSmall(Joined(digits, Pow2(bits)) * Pow2(bits), Power(width));
  }

  lemma RoomForDigit(j: nat, p: nat, base: nat, limit: nat)
    requires j < p && p * base <= limit && base >= 1
    ensures j * base < limit
  {
    ProductGrows(j + 1, p, base);
    Distribute(j, 1, base);
  }

  lemma NextPower(bits: nat, width: nat, n: nat)
    requires 0 < bits < width && width % bits == 0 && n * bits < width
    ensures Pow2(n * bits) * Pow2(bits) <= Pow2(width)
  {
    var count := DrawsPerWord(bits, width);
    hide *;
    CountIs(bits, width, n);
    ProductGrows(n + 1, count, bits);
    Distribute(n, 1, bits);
    Pow2Sum(n * bits, bits);
    Pow2Grows(n * bits + bits, width);
  }

  lemma {:induction false} Pow2Grows(j: nat, k: nat)
    requires j <= k
    ensures 1 <= Pow2(j) <= Pow2(k)
    decreases k
  {
    if j < k {
      Pow2Grows(j, k - 1);
    } else {
      Pow2Positive(k);
    }
  }

  lemma Pow2Positive(k: nat)
    ensures Pow2(k) >= 1
  {}

  lemma FilledFits(word: nat -> nat, bits: nat, width: nat, position: nat)
    requires Fits(bits, width) && AllBelow(word, Pow2(bits))
    ensures Filled(word, bits, width, position) < Pow2(width)
  {
    if bits >= width {
      Pow2Sum(width, bits - width);
      TopBits(word(position), Pow2(width), Pow2(bits - width));
    } else {
      CountIs(bits, width, 0);
      JoinedBelow(Slice(word, position, DrawsPerWord(bits, width)), bits);
    }
  }

  lemma TopBits(x: nat, upper: nat, lower: nat)
    requires 0 < lower && x < upper * lower
    ensures Quotient(x, lower) < upper
  {
    QuotientBounds(x, lower);
    CancelFactor(Quotient(x, lower), upper, lower);
  }

  // Every word is as likely as any other.

  lemma SameQuotient(x: nat, y: nat, r: nat, s: nat, base: nat)
    requires r < base && s < base && x * base + r == y * base + s
    ensures x == y && r == s
  {
    Distribute(x, 1, base);
    Distribute(y, 1, base);
    CancelFactor(x, y + 1, base);
    CancelFactor(y, x + 1, base);
  }

  /** Different words of a narrow generator fill in different words. */
  lemma {:induction false} JoinedIsInjective(a: seq<nat>, b: seq<nat>, base: nat)
    requires |a| == |b| && Digits(a, base) && Digits(b, base) && Joined(a, base) == Joined(b, base)
    ensures a == b
  {
    if a == [] {
    } else {
      var n := |a| - 1;
      SameQuotient(Joined(a[..n], base), Joined(b[..n], base), a[n], b[n], base);
      JoinedIsInjective(a[..n], b[..n], base);
      assert a == a[..n] + [a[n]] && b == b[..n] + [b[n]];
    }
  }

  /** And every word can be filled in. */
  lemma {:induction false} JoinedIsOnto(value: nat, n: nat, bits: nat) returns (digits: seq<nat>)
    requires value < Pow2(n * bits)
    ensures |digits| == n && Digits(digits, Pow2(bits)) && Joined(digits, Pow2(bits)) == value
    decreases n
  {
    if n == 0 {
      assert Pow2(0) == 1;
      digits := [];
    } else {
      hide Pow2, Quotient, Remainder;
      var base := Pow2(bits);
      Pow2Grows(bits, bits);
      Distribute(n - 1, 1, bits);
      Pow2Sum((n - 1) * bits, bits);
      TopBits(value, Pow2((n - 1) * bits), base);
      var front := JoinedIsOnto(Quotient(value, base), n - 1, bits);
      digits := front + [Remainder(value, base)];
      JoinedSnoc(front, Remainder(value, base), base);
      QuotientRemainder(value, base);
    }
  }

  /** Each word is the top of equally many words of a wide generator. */
  lemma TopBitsShare(y: nat, upper: nat, lower: nat)
    requires 0 < lower && y < upper
    ensures |set x: nat | x < upper * lower && Quotient(x, lower) == y| == lower
  {
    Distribute(y, 1, lower);
    ProductGrows(y + 1, upper, lower);
    forall x: nat
      ensures x < upper * lower && Quotient(x, lower) == y <==> y * lower <= x < (y + 1) * lower
    {
      QuotientBounds(x, lower);
      if y * lower <= x < (y + 1) * lower {
        QuotientIs(x, lower, y);
      }
    }
    var these := set x: nat | x < upper * lower && Quotient(x, lower) == y;
    NatRangeSize(these, y * lower, (y + 1) * lower);
  }

  /** A generator whose next words are the given ones. */
  function WordsOf(digits: seq<nat>): nat -> nat {
    (i: nat) => if i < |digits| then digits[i] else 0
  }

  predicate Fills(bits: nat, width: nat, x: nat, y: nat)
    requires bits > 0
  {
    Filled(WordsOf([x]), bits, width, 0) == y
  }

  /** Each value is filled in from equally many words of a wide generator. */
  lemma WideShare(bits: nat, width: nat, y: nat)
    requires 0 < width <= bits && y < Pow2(width)
    ensures |set x: nat | x < Pow2(bits) && Fills(bits, width, x, y)| == Pow2(bits - width)
  {
    var lower := Pow2(bits - width);
    Pow2Sum(width, bits - width);
    TopBitsShare(y, Pow2(width), lower);
    var tops := set x: nat | x < Pow2(width) * lower && Quotient(x, lower) == y;
    assert (set x: nat | x < Pow2(bits) && Fills(bits, width, x, y)) == tops;
  }

  /** And from exactly one sequence of words of a narrow one. */
  lemma NarrowShare(bits: nat, width: nat, y: nat) returns (digits: seq<nat>)
    requires 0 < bits < width && Fits(bits, width) && y < Pow2(width)
    ensures |digits| * bits == width && Digits(digits, Pow2(bits))
    ensures Filled(WordsOf(digits), bits, width, 0) == y
    ensures forall other: seq<nat> | |other| == |digits| && Digits(other, Pow2(bits)) ::
              Filled(WordsOf(other), bits, width, 0) == y ==> other == digits
  {
    var n := DrawsPerWord(bits, width);
    CountIs(bits, width, 0);
    digits := JoinedIsOnto(y, n, bits);
    hide Pow2, Joined, DrawsPerWord;
    assert Slice(WordsOf(digits), 0, n) == digits;
    forall other: seq<nat> | |other| == n && Digits(other, Pow2(bits)) && Filled(WordsOf(other), bits, width, 0) == y
      ensures other == digits
    {
      assert Slice(WordsOf(other), 0, n) == other;
      JoinedIsInjective(other, digits, Pow2(bits));
    }
  }

  lemma NatRangeSize(these: set<nat>, lo: nat, hi: nat)
    requires lo <= hi && forall x: nat :: x in these <==> lo <= x < hi
    ensures |these| == hi - lo
    decreases hi - lo
  {
    if lo < hi {
      NatRangeSize(these - {hi - 1}, lo, hi - 1);
    } else {
      assert these == {};
    }
  }
}
