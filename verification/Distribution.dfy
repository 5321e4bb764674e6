/** Uniform distribution on the integers of one type, after Lemire. */
module Distribution {
  import opened Words
  import opened Arithmetic
  import opened Counting
  import opened WordCounts
  import opened BitGenerator
  import ExtendedMult

  /** An integer type: how wide it is, and whether it is signed. */
  datatype IntegerType = IntegerType(bits: nat, signed: bool)

  /** The width of `int`. Narrower unsigned operands are promoted to it. */
  const INT_BITS: nat := 32

  ghost predicate ValidType(t: IntegerType) {
    t.bits >= 1
  }

  /** How many values the type has. */
  function Values(t: IntegerType): (m: nat)
    ensures m == Pow2(t.bits) && m > 0
  {
    Power(t.bits)
  }

  function Half(t: IntegerType): (h: nat)
    requires ValidType(t)
    ensures Values(t) == 2 * h && h > 0
  {
    Power(t.bits - 1)
  }

  function Minimum(t: IntegerType): int
    requires ValidType(t)
  {
    if t.signed then -(Half(t) as int) else 0
  }

  predicate InType(t: IntegerType, v: int)
    requires ValidType(t)
  {
    Minimum(t) <= v < Minimum(t) + Values(t)
  }

  // Casts, and the order of the signed values.

  function Wrapped(t: IntegerType, n: int): (w: nat)
    ensures w < Values(t)
  {
    n % Values(t)
  }

  /** `in ^ highest_bit`: flipping the top bit is adding it, without carry. */
  function FlipTop(t: IntegerType, u: nat): nat
    requires ValidType(t)
  {
    Wrapped(t, u + Half(t))
  }

  function TransposeToNaturalOrder(t: IntegerType, u: nat): nat
    requires ValidType(t)
  {
    if t.signed then FlipTop(t, u) else u
  }

  function TransposeTo(t: IntegerType, v: int): nat
    requires ValidType(t)
  {
    TransposeToNaturalOrder(t, Wrapped(t, v))
  }

  /** `static_cast` of an unsigned value to the type. */
  function FromUnsigned(t: IntegerType, u: nat): int
    requires ValidType(t)
  {
    if t.signed && u >= Half(t) then u - Values(t) else u
  }

  function TransposeBack(t: IntegerType, u: nat): int
    requires ValidType(t)
  {
    FromUnsigned(t, TransposeToNaturalOrder(t, u))
  }

  lemma FlipTopIsXor(a: bv8, b: bv16, c: bv32, d: bv64)
    ensures a ^ 0x80 == a + 0x80
    ensures b ^ 0x8000 == b + 0x8000
    ensures c ^ 0x8000_0000 == c + 0x8000_0000
    ensures d ^ 0x8000_0000_0000_0000 == d + 0x8000_0000_0000_0000
  {}

  lemma WrappedIs(t: IntegerType, n: int, w: int)
    requires 0 <= w < Values(t) && (n == w || n == w + Values(t) || n == w - Values(t))
    ensures Wrapped(t, n) == w
  {
    var m := Values(t);
    assert n % m == w by {
      if n == w + m {
        RemainderIs(n, m, 1, w);
      } else if n == w - m {
        RemainderIs(n, m, -1, w);
      } else {
        RemainderIs(n, m, 0, w);
      }
    }
  }

  lemma RemainderIs(n: int, m: nat, q: int, r: int)
    requires m > 0 && n == q * m + r && 0 <= r < m
    ensures n % m == r
  {
    var k := n / m;
    assert n == k * m + n % m;
    Distribute(k, 1, m);
    Distribute(q, 1, m);
    CancelFactor(k, q + 1, m);
    CancelFactor(q, k + 1, m);
  }

  /** Transposed values count from the smallest value of the type. */
  lemma TransposeCounts(t: IntegerType, v: int)
    requires ValidType(t) && InType(t, v)
    ensures TransposeTo(t, v) == v - Minimum(t)
  {
    hide Wrapped, Power;
    if t.signed && v < 0 {
      WrappedIs(t, v, v + Values(t));
      WrappedIs(t, v + Values(t) + Half(t), v + Half(t));
    } else {
      WrappedIs(t, v, v);
      if t.signed {
        WrappedIs(t, v + Half(t), v + Half(t));
      }
    }
  }

  lemma TransposeBackCounts(t: IntegerType, u: nat)
    requires ValidType(t) && u < Values(t)
    ensures TransposeBack(t, u) == u + Minimum(t)
  {
    hide Wrapped, Power;
    if t.signed && u < Half(t) {
      WrappedIs(t, u + Half(t), u + Half(t));
    } else if t.signed {
      WrappedIs(t, u + Half(t), u - Half(t));
    }
  }

  /** The two directions undo each other: every word stands for one value of the
      type. */
  lemma TransposeIsABijection(t: IntegerType, u: nat, v: int)
    requires ValidType(t) && u < Values(t) && InType(t, v)
    ensures InType(t, TransposeBack(t, u)) && TransposeTo(t, TransposeBack(t, u)) == u
    ensures TransposeTo(t, v) < Values(t) && TransposeBack(t, TransposeTo(t, v)) == v
  {
    TransposeBackCounts(t, u);
    TransposeCounts(t, TransposeBack(t, u));
    TransposeCounts(t, v);
    TransposeBackCounts(t, TransposeTo(t, v));
  }

  // The distribution.

  /** How many values [a, b] has; 0 stands for all values of the type. */
  function ComputeDistance(t: IntegerType, a: int, b: int): nat
    requires ValidType(t)
  {
    Wrapped(t, TransposeTo(t, b) - TransposeTo(t, a) + 1)
  }

  /** The remainder of C++, which truncates towards zero. */
  function TruncatedRemainder(n: int, d: nat): int
    requires d > 0
  {
    if n >= 0 then n % d else -(-n % d)
  }

  /** `( ~ab_distance + 1 ) % ab_distance`. An operand narrower than `int` is
      promoted, so that its complement is negative. */
  function ComputeRejectionThreshold(t: IntegerType, distance: nat): nat
  {
    if distance == 0 then 0
    else
      var complement: int := if t.bits < INT_BITS then -(distance as int) - 1 else Values(t) - 1 - distance;
      var sum := if t.bits < INT_BITS then complement + 1 else Wrapped(t, complement + 1);
      Wrapped(t, TruncatedRemainder(sum, distance))
  }

  lemma DistanceCounts(t: IntegerType, a: int, b: int)
    requires ValidType(t) && InType(t, a) && InType(t, b) && a <= b
    ensures ComputeDistance(t, a, b) == if b - a + 1 == Values(t) then 0 else b - a + 1
  {
    TransposeCounts(t, a);
    TransposeCounts(t, b);
    hide *;
    if b - a + 1 == Values(t) {
      WrappedIs(t, b - a + 1, 0);
    } else {
      WrappedIs(t, b - a + 1, b - a + 1);
    }
  }

  /** A type as wide as `int` gets Lemire's threshold. A narrower one gets none. */
  lemma ThresholdIs(t: IntegerType, distance: nat)
    requires ValidType(t) && 0 < distance < Values(t)
    ensures ComputeRejectionThreshold(t, distance)
         == if t.bits < INT_BITS then 0 else Values(t) % distance
  {
    var m := Values(t);
    hide Wrapped, Power;
    if t.bits < INT_BITS {
      RemainderIs(distance, distance, 1, 0);
      WrappedIs(t, 0, 0);
    } else {
      WrappedIs(t, m - distance, m - distance);
      SameRemainder(m, distance);
      assert (m - distance) % distance < distance;
      WrappedIs(t, (m - distance) % distance, (m - distance) % distance);
    }
  }

  lemma SameRemainder(m: nat, d: nat)
    requires 0 < d <= m
    ensures (m - d) % d == m % d
  {
    assert m == (m / d) * d + m % d;
    Distribute(m / d - 1, 1, d);
    RemainderIs(m - d, d, m / d - 1, m % d);
  }

  /** The value a word gives. */
  function ResultOf(t: IntegerType, a: int, distance: nat, word: nat): int
    requires ValidType(t)
  {
    if distance == 0 then TransposeBack(t, word)
    else TransposeBack(t, Wrapped(t, TransposeTo(t, a) + Upper(word, distance, Values(t))))
  }

  predicate Accepted(t: IntegerType, distance: nat, word: nat) {
    distance == 0 || Lower(word, distance, Values(t)) >= ComputeRejectionThreshold(t, distance)
  }

  /** The accepted words that give v. */
  function WordsGiving(t: IntegerType, a: int, b: int, v: int): set<int>
    requires ValidType(t)
  {
    var d := ComputeDistance(t, a, b);
    set x: nat | x < Values(t) && Accepted(t, d, x) && ResultOf(t, a, d, x) == v :: x as int
  }

  /** Each value is the lower bound and the upper half of the product; the sum
      does not wrap. */
  lemma ResultCounts(t: IntegerType, a: int, b: int, word: nat)
    requires ValidType(t) && InType(t, a) && InType(t, b) && a <= b && word < Values(t)
    ensures var d := ComputeDistance(t, a, b);
            ResultOf(t, a, d, word) == if d == 0 then a + word else a + Upper(word, d, Values(t))
    ensures a <= ResultOf(t, a, ComputeDistance(t, a, b), word) <= b
  {
    var d := ComputeDistance(t, a, b);
    var m := Values(t);
    DistanceCounts(t, a, b);
    TransposeCounts(t, a);
    if d == 0 {
      hide ComputeDistance, Wrapped, Power;
      TransposeBackCounts(t, word);
    } else {
      UppersBelow(d, m);
      var upper := Upper(word, d, m);
      assert upper < d;
      hide ComputeDistance, Wrapped, Power, Upper, TransposeTo, TransposeBack;
      WrappedIs(t, TransposeTo(t, a) + upper, TransposeTo(t, a) + upper);
      TransposeBackCounts(t, TransposeTo(t, a) + upper);
    }
  }

  /** The words for a value are those of its distance from the lower bound. */
  lemma WordsGivingAre(t: IntegerType, a: int, b: int, v: int)
    requires ValidType(t) && InType(t, a) && InType(t, b) && a <= v <= b
    ensures var d := ComputeDistance(t, a, b);
            WordsGiving(t, a, b, v) == if d == 0 then {v - a}
                                       else WordsFor(v - a, d, Values(t), ComputeRejectionThreshold(t, d))
  {
    DistanceCounts(t, a, b);
    if ComputeDistance(t, a, b) == 0 {
      AllWordsGive(t, a, b, v);
    } else {
      SomeWordsGive(t, a, b, v);
    }
  }

  lemma AllWordsGive(t: IntegerType, a: int, b: int, v: int)
    requires ValidType(t) && InType(t, a) && InType(t, b) && a <= v <= b
    requires ComputeDistance(t, a, b) == 0 && b - a + 1 == Values(t)
    ensures WordsGiving(t, a, b, v) == {v - a}
  {
    hide ComputeDistance, ResultOf, Values;
    forall x: nat | x < Values(t)
      ensures ResultOf(t, a, 0, x) == a + x
    {
      ResultCounts(t, a, b, x);
    }
    var word: nat := v - a;
    assert word < Values(t) && Accepted(t, 0, word) && ResultOf(t, a, 0, word) == v;
    assert word in WordsGiving(t, a, b, v);
  }

  lemma SomeWordsGive(t: IntegerType, a: int, b: int, v: int)
    requires ValidType(t) && InType(t, a) && InType(t, b) && a <= v <= b
    requires ComputeDistance(t, a, b) != 0
    ensures var d := ComputeDistance(t, a, b);
            WordsGiving(t, a, b, v) == WordsFor(v - a, d, Values(t), ComputeRejectionThreshold(t, d))
  {
    var d := ComputeDistance(t, a, b);
    hide ComputeDistance, ResultOf, Upper, Lower, ComputeRejectionThreshold, Values;
    forall x: nat | x < Values(t)
      ensures ResultOf(t, a, d, x) == a + Upper(x, d, Values(t))
    {
      ResultCounts(t, a, b, x);
    }
  }

  /** Every value of [a, b] is given by equally many accepted words. */
  ghost predicate Uniform(t: IntegerType, a: int, b: int)
    requires ValidType(t)
  {
    exists c: nat :: UniformBy(c, t, a, b)
  }

  ghost predicate UniformBy(c: nat, t: IntegerType, a: int, b: int)
    requires ValidType(t)
  {
    forall v: int | a <= v <= b :: |WordsGiving(t, a, b, v)| == c
  }

  /** For a type at least as wide as `int`, each of the d values has exactly
      floor(2^w / d) accepted words, and exactly 2^w mod d words, fewer than half,
      are rejected. */
  lemma WideTypesAreExact(t: IntegerType, a: int, b: int, v: int)
    requires ValidType(t) && INT_BITS <= t.bits && InType(t, a) && InType(t, b) && a <= v <= b
    ensures var d := ComputeDistance(t, a, b);
            && |WordsGiving(t, a, b, v)| == (if d == 0 then 1 else Values(t) / d)
            && (d != 0 ==>
                  |Rejected(d, Values(t), ComputeRejectionThreshold(t, d))|
                  == Values(t) % d < Values(t) - Values(t) % d)
  {
    var d := ComputeDistance(t, a, b);
    WordsGivingAre(t, a, b, v);
    DistanceCounts(t, a, b);
    if d != 0 {
      ThresholdIs(t, d);
      hide *;
      ExactShare(v - a, d, Values(t));
      RejectedSize(d, Values(t));
    }
  }

  /** For a narrower type no word is rejected, and the shares of the values can
      differ, by at most one word. */
  lemma NarrowTypesAreRounded(t: IntegerType, a: int, b: int, v: int)
    requires ValidType(t) && t.bits < INT_BITS && InType(t, a) && InType(t, b) && a <= v <= b
    ensures forall word: nat | word < Values(t) :: Accepted(t, ComputeDistance(t, a, b), word)
    ensures var d := ComputeDistance(t, a, b);
            d != 0 ==> Values(t) / d <= |WordsGiving(t, a, b, v)| <= Values(t) / d + 1
  {
    var d := ComputeDistance(t, a, b);
    WordsGivingAre(t, a, b, v);
    DistanceCounts(t, a, b);
    if d != 0 {
      ThresholdIs(t, d);
      hide ComputeDistance, WordsGiving, WordsFor, Power, ComputeRejectionThreshold;
      RoundedShare(v - a, d, Values(t));
    }
  }

  /** Exactly when the distribution is uniform: for types at least as wide as `int`
      always, for narrower ones when the number of values divides 2^w. */
  lemma UniformExactly(t: IntegerType, a: int, b: int)
    requires ValidType(t) && InType(t, a) && InType(t, b) && a <= b
    ensures Uniform(t, a, b) <==> t.bits >= INT_BITS || Values(t) % (b - a + 1) == 0
  {
    var d := ComputeDistance(t, a, b);
    DistanceCounts(t, a, b);
    if t.bits >= INT_BITS || d == 0 {
      var c := if d == 0 then 1 else Values(t) / d;
      forall v: int | a <= v <= b
        ensures |WordsGiving(t, a, b, v)| == c
      {
        WordsGivingAre(t, a, b, v);
        if t.bits >= INT_BITS {
          WideTypesAreExact(t, a, b, v);
        }
      }
      assert UniformBy(c, t, a, b);
      if d == 0 {
        RemainderIs(Values(t), Values(t), 1, 0);
      }
    } else {
      ThresholdIs(t, d);
      NarrowUniform(t, a, b);
      FairWithoutRejection(d, Values(t));
    }
  }

  lemma NarrowUniform(t: IntegerType, a: int, b: int)
    requires ValidType(t) && InType(t, a) && InType(t, b) && a <= b
    requires ComputeDistance(t, a, b) == b - a + 1
    requires ComputeRejectionThreshold(t, b - a + 1) == 0
    ensures Uniform(t, a, b) <==> Fair(b - a + 1, Values(t), 0)
  {
    hide WordsGiving, WordsFor, ComputeDistance, ComputeRejectionThreshold, Power;
    var d := b - a + 1;
    forall v: int | a <= v <= b
      ensures WordsGiving(t, a, b, v) == WordsFor(v - a, d, Values(t), 0)
    {
      WordsGivingAre(t, a, b, v);
    }
    if c: nat :| UniformBy(c, t, a, b) {
      forall k: nat | k < d
        ensures |WordsFor(k, d, Values(t), 0)| == c
      {
        assert |WordsGiving(t, a, b, a + k)| == c;
      }
      assert FairBy(c, d, Values(t), 0);
    }
    if c: nat :| FairBy(c, d, Values(t), 0) {
      forall v: int | a <= v <= b
        ensures |WordsGiving(t, a, b, v)| == c
      {
        assert |WordsFor(v - a, d, Values(t), 0)| == c;
      }
      assert UniformBy(c, t, a, b);
    }
  }

  class UniformIntegerDistribution {
    const t: IntegerType
    /** The bounds it was made with. */
    ghost const low: int
    ghost const high: int
    const a': nat
    const distance: nat
    const rejectionThreshold: nat

    ghost predicate Valid() {
      && ValidType(t) && InType(t, low) && InType(t, high) && low <= high
      && a' == TransposeTo(t, low)
      && distance == ComputeDistance(t, low, high)
      && rejectionThreshold == ComputeRejectionThreshold(t, distance)
    }

    constructor (t: IntegerType, a: int, b: int)
      requires ValidType(t) && InType(t, a) && InType(t, b) && a <= b
      ensures Valid() && this.t == t && low == a && high == b
    {
      this.t := t;
      low, high := a, b;
      a' := TransposeTo(t, a);
      distance := ComputeDistance(t, a, b);
      rejectionThreshold := ComputeRejectionThreshold(t, ComputeDistance(t, a, b));
    }

    /** The position in the generator of the word the n-th attempt takes. */
    ghost function Position(g: Generator, from: nat, n: nat): nat
      requires Fits(g.bits, t.bits)
    {
      from + n * DrawsPerWord(g.bits, t.bits)
    }

    ghost function Attempt(g: Generator, from: nat, n: nat): nat
      requires Fits(g.bits, t.bits)
    {
      Filled(g.word, g.bits, t.bits, Position(g, from, n))
    }

    /** Fills in the word of the n-th attempt. */
    method NextWord(g: Generator, ghost from: nat, ghost n: nat) returns (word: nat)
      requires Valid() && g.Valid() && Fits(g.bits, t.bits) && g.position == Position(g, from, n)
      modifies g`position
      ensures g.Valid() && word == Attempt(g, from, n) < Values(t)
      ensures g.position == Position(g, from, n + 1)
    {
      word := g.FillBits(t.bits);
      Distribute(n, 1, DrawsPerWord(g.bits, t.bits));
    }

    /** `operator()`: the value of the first accepted word. It ends only when the
        generator returns one, at latest in attempt `last`. */
    method Draw(g: Generator, ghost last: nat) returns (value: int, ghost n: nat)
      requires Valid() && g.Valid() && Fits(g.bits, t.bits)
      requires Accepted(t, distance, Attempt(g, g.position, last))
      modifies g`position
      ensures g.Valid() && low <= value <= high
      ensures n <= last && g.position == Position(g, old(g.position), n + 1)
      ensures Accepted(t, distance, Attempt(g, old(g.position), n))
      ensures forall i: nat | i < n :: !Accepted(t, distance, Attempt(g, old(g.position), i))
      ensures value == ResultOf(t, low, distance, Attempt(g, old(g.position), n))
    {
      n := 0;
      assert Position(g, g.position, 0) == g.position;
      var word := NextWord(g, g.position, 0);
      ResultCounts(t, low, high, word);
      if distance == 0 {
        value := TransposeBack(t, word);
        return;
      }
      word, n := FirstAccepted(g, word, old(g.position), last);
      ResultCounts(t, low, high, word);
      value := TransposeBack(t, Wrapped(t, a' + Upper(word, distance, Values(t))));
    }

    method FirstAccepted(g: Generator, first: nat, ghost from: nat, ghost last: nat) returns (word: nat, ghost n: nat)
      requires Valid() && g.Valid() && Fits(g.bits, t.bits) && distance != 0
      requires first == Attempt(g, from, 0) < Values(t) && g.position == Position(g, from, 1)
      requires Accepted(t, distance, Attempt(g, from, last))
      modifies g`position
      ensures g.Valid() && n <= last && word == Attempt(g, from, n) < Values(t)
      ensures g.position == Position(g, from, n + 1)
      ensures Accepted(t, distance, word)
      ensures forall i: nat | i < n :: !Accepted(t, distance, Attempt(g, from, i))
    {
      hide Filled, Lower, Upper, Position, ComputeDistance, ComputeRejectionThreshold, TransposeTo;
      n := 0;
      word := first;
      while Lower(word, distance, Values(t)) < rejectionThreshold
        invariant g.Valid() && n <= last && word == Attempt(g, from, n) < Values(t)
        invariant g.position == Position(g, from, n + 1)
        invariant forall i: nat | i < n :: !Accepted(t, distance, Attempt(g, from, i))
        decreases last - n
      {
        word := NextWord(g, from, n + 1);
        n := n + 1;
      }
    }
  }

  /** For words of 64 bits, the halves the distribution looks at are those of the
      portable multiplication. */
  lemma PortableHalves(word: uint64, distance: uint64)
    ensures var r := ExtendedMult.ExtendedMultPortable(word, distance);
            && r.upper as int == Upper(word as nat, distance as nat, TWO_TO_64)
            && r.lower as int == Lower(word as nat, distance as nat, TWO_TO_64)
  {
    var r := ExtendedMult.ExtendedMultPortable(word, distance);
    hide ExtendedMult.ExtendedMultPortable;
    RemainderIs(word as int * distance as int, TWO_TO_64, r.upper as int, r.lower as int);
    QuotientIs(word as nat * distance as nat, TWO_TO_64, r.upper as nat);
  }
}
