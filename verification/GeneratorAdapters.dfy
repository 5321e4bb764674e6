/** The lists that the generator adapters stand for. */
module GeneratorLists {
  /** What `skipToNthElement` does: it jumps, or it throws one of two errors. */
  datatype Jump = Jumped | Backwards | TooFew

  function JumpFrom(index: nat, left: nat, n: nat): Jump {
    if n < index then Backwards
    else if n == index || n - index < left then Jumped
    else TooFew
  }

  function Tail<T>(s: seq<T>): seq<T> {
    if s == [] then [] else s[1..]
  }

  lemma TailOfFirst<T>(first: seq<T>, rest: seq<T>)
    requires first != []
    ensures Tail(first + rest) == Tail(first) + rest
  {}

  function Limit<T>(s: seq<T>, n: nat): seq<T> {
    if |s| <= n then s else s[..n]
  }

  function Dropped<T>(s: seq<T>, n: nat): seq<T> {
    if n <= |s| then s[n..] else []
  }

  lemma DroppedStep<T>(s: seq<T>, n: nat)
    ensures Tail(Dropped(s, n)) == Dropped(s, n + 1)
    ensures Dropped(s, n) == [] <==> n >= |s|
    ensures n <= |s| ==> Dropped(s, n) == s[n..]
    ensures s[0..] == s
  {}

  lemma DroppedFirst<T>(s: seq<T>, n: nat)
    ensures n < |s| ==> Dropped(s, n) != [] && Dropped(s, n)[0] == s[n]
  {}

  function Filtered<T>(s: seq<T>, keep: T -> bool): seq<T> {
    if s == [] then []
    else (if keep(s[0]) then [s[0]] else []) + Filtered(s[1..], keep)
  }

  function Mapped<U, T>(s: seq<U>, f: U -> T): seq<T> {
    if s == [] then [] else [f(s[0])] + Mapped(s[1..], f)
  }

  /** The full chunks only: a shorter rest is dropped. */
  function Chunks<T>(s: seq<T>, size: nat): seq<seq<T>>
    requires size > 0
  {
    if |s| < size then [] else [s[..size]] + Chunks(s[size..], size)
  }

  function Repeated<T>(s: seq<T>, n: nat): seq<T> {
    if n == 0 then [] else s + Repeated(s, n - 1)
  }

  /** Every element as often as it was read. */
  function Spread<T>(s: seq<T>, counts: seq<nat>): seq<T>
    requires |counts| == |s|
  {
    if s == [] then [] else Spread(s[..|s| - 1], counts[..|s| - 1]) + Copies(s[|s| - 1], counts[|s| - 1])
  }

  function Copies<T>(x: T, n: nat): seq<T> {
    seq(n, _ => x)
  }

  predicate ReadOnce(counts: seq<nat>) {
    forall i | 0 <= i < |counts| :: counts[i] == 1
  }

  predicate Distinct<T(==)>(s: seq<T>) {
    forall i, j | 0 <= i < j < |s| :: s[i] != s[j]
  }

  // What the lists are.

  lemma {:induction false} FilteredKeepsAll<T>(s: seq<T>, keep: T -> bool)
    ensures forall x :: multiset(Filtered(s, keep))[x] == if keep(x) then multiset(s)[x] else 0
  {
    if s == [] {
    } else {
      FilteredKeepsAll(s[1..], keep);
      assert s == [s[0]] + s[1..];
    }
  }

  lemma {:induction false} MappedAt<U, T>(s: seq<U>, f: U -> T)
    ensures |Mapped(s, f)| == |s| && forall i | 0 <= i < |s| :: Mapped(s, f)[i] == f(s[i])
  {
    if s == [] {
    } else {
      MappedAt(s[1..], f);
    }
  }

  lemma {:induction false} ChunksAre<T>(s: seq<T>, size: nat)
    requires size > 0
    ensures var k := |Chunks(s, size)|;
            && k * size <= |s| < k * size + size
            && Joined(Chunks(s, size)) == s[..k * size]
    ensures forall c | c in Chunks(s, size) :: |c| == size
  {
    if |s| >= size {
      var rest := s[size..];
      ChunksAre(rest, size);
      OneMoreChunk(s, size, |Chunks(rest, size)|);
    }
  }

  lemma ChunksFrom<T>(s: seq<T>, size: nat)
    requires size > 0
    ensures Chunks(s, size) == if |s| < size then [] else [s[..size]] + Chunks(s[size..], size)
  {}

  lemma OneMoreChunk<T>(s: seq<T>, size: nat, k: nat)
    requires size <= |s| && k * size <= |s| - size
    ensures (k + 1) * size == k * size + size
    ensures s[..size] + s[size..][..k * size] == s[..k * size + size]
  {}

  function Joined<T>(lists: seq<seq<T>>): seq<T> {
    if lists == [] then [] else lists[0] + Joined(lists[1..])
  }

  lemma {:induction false} RepeatedLength<T>(s: seq<T>, n: nat)
    ensures |Repeated(s, n)| == n * |s|
  {
    if n == 0 {
    } else {
      RepeatedLength(s, n - 1);
      assert n * |s| == |s| + (n - 1) * |s|;
    }
  }

  lemma {:induction false} RepeatedAt<T>(s: seq<T>, n: nat, k: nat, i: nat)
    requires k < n && i < |s|
    ensures k * |s| + i < |Repeated(s, n)| && Repeated(s, n)[k * |s| + i] == s[i]
  {
    if k == 0 {
    } else {
      RepeatedAt(s, n - 1, k - 1, i);
      assert k * |s| == |s| + (k - 1) * |s|;
    }
  }

  lemma RepeatedSameExactly<T>(s: seq<T>, t: seq<T>, n: nat)
    ensures Repeated(s, n) == Repeated(t, n) <==> n == 0 || s == t
  {
    if n > 0 && Repeated(s, n) == Repeated(t, n) {
      RepeatedLength(s, n);
      RepeatedLength(t, n);
      SameFactor(n, |s|, |t|);
      assert s == Repeated(s, n)[..|s|] && t == Repeated(t, n)[..|t|];
    }
  }

  lemma SameFactor(n: nat, x: nat, y: nat)
    requires n > 0 && n * x == n * y
    ensures x == y
  {
    assert n * (x - y) == 0;
  }

  /** Reading every element once gives the list again. */
  lemma {:induction false} SpreadOnce<T>(s: seq<T>, counts: seq<nat>)
    requires |counts| == |s| && ReadOnce(counts)
    ensures Spread(s, counts) == s
  {
    if s == [] {
    } else {
      var n := |s| - 1;
      SpreadOnce(s[..n], counts[..n]);
      assert Copies(s[n], 1) == [s[n]];
    }
  }

  /** With distinct elements nothing else does. */
  lemma {:induction false} SpreadIsSame<T>(s: seq<T>, counts: seq<nat>)
    requires |counts| == |s| && Distinct(s)
    ensures Spread(s, counts) == s <==> ReadOnce(counts)
  {
    if ReadOnce(counts) {
      SpreadOnce(s, counts);
    } else if s != [] {
      var n := |s| - 1;
      SpreadIsSame(s[..n], counts[..n]);
      if counts[n] == 1 {
        assert counts == counts[..n] + [1];
        assert s == s[..n] + Copies(s[n], 1);
      } else {
        SpreadHolds(s[..n], counts[..n]);
        NotDistinct(s, Spread(s[..n], counts[..n]), counts[n]);
      }
    }
  }

  /** What `n` rounds give when the first of them was read so. */
  lemma RepeatsExactly<T>(s: seq<T>, counts: seq<nat>, n: nat)
    requires |counts| == |s| && Distinct(s) && n > 0
    ensures s + Repeated(Spread(s, counts), n - 1) == Repeated(s, n) <==> n == 1 || ReadOnce(counts)
  {
    hide Spread, Distinct, ReadOnce;
    SpreadIsSame(s, counts);
    RepeatedSameExactly(Spread(s, counts), s, n - 1);
    var t := Repeated(Spread(s, counts), n - 1);
    assert (s + t)[|s|..] == t;
    assert (s + Repeated(s, n - 1))[|s|..] == Repeated(s, n - 1);
  }

  /** An element read twice is given twice in every later round. */
  lemma SpreadTwice()
    ensures Spread([1, 2], [2, 1]) == [1, 1, 2]
  {
    assert [1, 2][..1] == [1] && [2, 1][..1] == [2];
    assert Spread([1], [2]) == Copies(1, 2) by {
      assert [1][..0] == [] && [2][..0] == [];
    }
  }

  lemma NotDistinct<T>(s: seq<T>, first: seq<T>, k: nat)
    requires s != [] && Distinct(s) && k != 1
    requires forall x | x in first :: x in s[..|s| - 1]
    ensures first + Copies(s[|s| - 1], k) != s
  {
    var n := |s| - 1;
    var t := first + Copies(s[n], k);
    if k == 0 {
      assert s[n] !in first;
    } else if |t| == |s| {
      assert t[n - 1] == s[n];
    }
  }

  lemma SpreadOneMore<T>(s: seq<T>, counts: seq<nat>)
    requires |counts| == |s| > 0
    ensures var n := |s| - 1;
            Spread(s, counts[n := counts[n] + 1]) == Spread(s, counts) + [s[n]]
  {
    var n := |s| - 1;
    assert Copies(s[n], counts[n] + 1) == Copies(s[n], counts[n]) + [s[n]];
    assert counts[n := counts[n] + 1][..n] == counts[..n];
  }

  lemma NothingRead<T>(s: seq<T>, n: nat)
    requires s != [] && n > 0
    ensures Spread(s[..1], [0]) == [] && s[0..] == s
    ensures Repeated(s, n) == s + Repeated(s, n - 1)
  {
    assert s[..1][..0] == [] && [0][..0] == [];
    assert Spread(s[..1][..0], [0][..0]) == [];
  }

  lemma SpreadNoMore<T>(s: seq<T>, counts: seq<nat>)
    requires |counts| + 1 == |s|
    ensures Spread(s, counts + [0]) == Spread(s[..|s| - 1], counts)
  {
    assert (counts + [0])[..|s| - 1] == counts;
  }

  /** One step in the first round, with `n` rounds to come. */
  lemma FirstRoundStep<T>(all: seq<T>, counts: seq<nat>, n: nat)
    requires 0 < |counts| <= |all|
    ensures var k := |counts|;
            && Tail(all[k - 1..]) == all[k..]
            && Tail(all[k - 1..] + Repeated(all, n)) == all[k..] + Repeated(all, n)
    ensures |counts| < |all| ==> Spread(all[..|counts| + 1], counts + [0]) == Spread(all[..|counts|], counts)
    ensures var cache := Spread(all[..|counts|], counts);
            && Repeated(cache, n) == (if n == 0 then [] else Dropped(cache, 0) + Repeated(cache, n - 1))
            && (n > 0 && cache != [] ==> Repeated(cache, n) != [])
            && (Repeated(cache, n) == Repeated(all, n) <==> n == 0 || cache == all)
            && (|counts| == |all| && ReadOnce(counts) ==> cache == all)
  {
    hide Repeated, Spread;
    var k := |counts|;
    var cache := Spread(all[..k], counts);
    RepeatedFirst(cache, n);
    RepeatedSameExactly(cache, all, n);
    if k < |all| {
      SpreadNoMore(all[..k + 1], counts);
      assert all[..k + 1][..k] == all[..k];
    } else {
      assert all[..k] == all;
      if ReadOnce(counts) {
        SpreadOnce(all, counts);
      }
    }
  }

  lemma RepeatedFirst<T>(s: seq<T>, n: nat)
    ensures Repeated(s, n) == if n == 0 then [] else Dropped(s, 0) + Repeated(s, n - 1)
  {}

  /** One step in a later round, with `n` rounds to come. */
  lemma LaterStep<T>(s: seq<T>, at: nat, n: nat)
    requires s == [] || at < |s|
    ensures Tail(Dropped(s, at) + Repeated(s, n)) == Dropped(s, at + 1) + Repeated(s, n)
    ensures Dropped(s, |s|) == [] && (at + 1 < |s| ==> Dropped(s, at + 1) != [])
    ensures Repeated(s, n) == if n == 0 then [] else Dropped(s, 0) + Repeated(s, n - 1)
    ensures n > 0 && s != [] ==> Repeated(s, n) != []
  {
    if s == [] {
      NothingRepeated(s, n);
    }
  }

  lemma {:induction false} NothingRepeated<T>(s: seq<T>, n: nat)
    requires s == []
    ensures Repeated(s, n) == []
  {
    if n == 0 {
    } else {
      NothingRepeated(s, n - 1);
    }
  }

  lemma {:induction false} SpreadHolds<T>(s: seq<T>, counts: seq<nat>)
    requires |counts| == |s|
    ensures forall x | x in Spread(s, counts) :: x in s
  {
    if s == [] {
    } else {
      SpreadHolds(s[..|s| - 1], counts[..|s| - 1]);
    }
  }
}

/** The pull-style adapters. What a generator will still give, its current element
    first, is `Left()`. It is empty once `Next` has returned false. */
module GeneratorAdapters {
  import opened Words
  import opened GeneratorLists

  /** Generator of fixed values. */
  class Source<T> {
    const values: seq<T>
    var at: nat
    var index: nat

    ghost predicate Valid()
      reads this
    {
      values != [] && index == if at < |values| then at else |values| - 1
    }

    ghost function Left(): seq<T>
      reads this
    {
      if at < |values| then values[at..] else []
    }

    constructor (values: seq<T>)
      requires values != []
      ensures Valid() && Left() == values && this.values == values && at == 0
    {
      this.values := values;
      at, index := 0, 0;
    }

    method Get() returns (v: T)
      requires Left() != []
      ensures v == Left()[0]
    {
      v := values[at];
    }

    method Next() returns (ok: bool)
      requires Valid()
      modifies this
      ensures Valid() && Left() == Tail(old(Left())) && ok == (Left() != [])
      ensures at == old(at) + 1 && index == old(index) + if ok then 1 else 0
    {
      at := at + 1;
      ok := at < |values|;
      if ok {
        index := index + 1;
      }
    }

    method SkipToNthElement(n: nat) returns (jump: Jump)
      requires Valid()
      modifies this
      ensures Valid() && jump == JumpFrom(old(index), |old(Left())|, n)
      ensures jump.Jumped? ==> Left() == old(Left())[n - old(index)..]
      ensures jump.Jumped? && n > old(index) ==> at == n
      ensures !jump.Jumped? || n == old(index) ==> at == old(at)
    {
      if n < index {
        return Backwards;
      }
      if n == index {
        return Jumped;
      }
      if n >= |values| {
        return TooFew;
      }
      at, index := n, n;
      jump := Jumped;
    }
  }

  class Take<T> {
    const source: Source<T>
    const target: nat
    var returned: nat
    var index: nat

    ghost predicate Valid()
      reads this, source
    {
      source.Valid() && index < target && (Left() != [] ==> returned == index)
    }

    /** The source was not moved before it was handed over, or it was jumped to the
        right place since. */
    ghost predicate Aligned()
      reads this, source
    {
      source.index == index && (Left() == [] ==> index == target - 1 || source.Left() == [])
    }

    ghost function Left(): seq<T>
      reads this, source
    {
      if returned < target then Limit(source.Left(), target - returned) else []
    }

    constructor (target: nat, source: Source<T>)
      requires source.Valid() && source.Left() != [] && target > 0
      ensures Valid() && Left() == Limit(source.Left(), target)
      ensures this.source == source && this.target == target && index == 0
      ensures Aligned() <==> source.index == 0
    {
      this.source, this.target := source, target;
      returned, index := 0, 0;
    }

    method Get() returns (v: T)
      requires Valid() && Left() != []
      ensures v == Left()[0]
    {
      v := source.Get();
    }

    method Next() returns (ok: bool)
      requires Valid()
      modifies this, source
      ensures Valid() && Left() == Tail(old(Left())) && ok == (Left() != [])
      ensures ok ==> source.at == old(source.at) + 1 && index == old(index) + 1
      ensures old(Aligned()) ==> Aligned()
    {
      returned := returned + 1;
      if returned >= target {
        return false;
      }
      ok := source.Next();
      if ok {
        index := index + 1;
      } else {
        returned := target;
      }
    }

    /** The jump is that of the source, up to the target. When it has somewhere to go, it
        leaves the source where single steps leave it if and only if the two count alike.
        Then it also fails exactly where single steps end too early. */
    method SkipToNthElement(n: nat) returns (jump: Jump)
      requires Valid()
      modifies this, source
      ensures Valid()
      ensures jump == if n < old(index) then Backwards else if n == old(index) then Jumped
                      else if n >= target then TooFew
                      else JumpFrom(old(source.index), |old(source.Left())|, n)
      ensures jump.Jumped? ==> index == n
      ensures jump.Jumped? && n > old(index) ==>
                returned == n && source.Left() == old(source.Left())[n - old(source.index)..]
      ensures !jump.Jumped? ==> Left() == old(Left()) && index == old(index)
      ensures jump.Jumped? && n > old(index) && old(Left()) != [] ==>
                (source.at == old(source.at) + (n - old(index)) <==> old(source.index) == old(index))
      ensures old(Aligned()) ==>
        && Aligned() && jump == JumpFrom(old(index), |old(Left())|, n)
        && (jump.Jumped? ==> Left() == old(Left())[n - old(index)..])
    {
      if n < index {
        return Backwards;
      }
      if n == index {
        return Jumped;
      }
      if n >= target {
        return TooFew;
      }
      jump := source.SkipToNthElement(n);
      if jump.Jumped? {
        returned, index := n, n;
      }
    }
  }

  class Filter<T> {
    const source: Source<T>
    const keep: T -> bool
    var index: nat

    ghost predicate Valid()
      reads this, source
    {
      source.Valid() && (source.Left() != [] ==> keep(source.Left()[0]))
    }

    ghost function Left(): seq<T>
      reads this, source
    {
      Filtered(source.Left(), keep)
    }

    constructor Unchecked(keep: T -> bool, source: Source<T>)
      ensures this.keep == keep && this.source == source && index == 0
    {
      this.keep, this.source, index := keep, source, 0;
    }

    /** There is no generator when nothing passes the filter. */
    static method Create(keep: T -> bool, source: Source<T>) returns (f: Filter?<T>)
      requires source.Valid() && source.Left() != []
      modifies source
      ensures f == null <==> Filtered(old(source.Left()), keep) == []
      ensures f != null ==> fresh(f) && f.source == source && f.keep == keep && f.index == 0
      ensures f != null ==> f.Valid() && f.Left() == Filtered(old(source.Left()), keep)
    {
      f := new Filter.Unchecked(keep, source);
      var v := source.Get();
      if !keep(v) {
        var found := f.Advance();
        if !found {
          f := null;
        }
      }
    }

    method Get() returns (v: T)
      requires Valid() && Left() != []
      ensures v == Left()[0]
    {
      v := source.Get();
    }

    method Advance() returns (ok: bool)
      requires source.Valid()
      modifies source
      ensures Valid() && ok == (Left() != [])
      ensures Left() == Filtered(Tail(old(source.Left())), keep)
    {
      ok := source.Next();
      if !ok {
        return;
      }
      var v := source.Get();
      while ok && !keep(v)
        invariant source.Valid() && ok == (source.Left() != [])
        invariant ok ==> v == source.Left()[0]
        invariant Left() == Filtered(Tail(old(source.Left())), keep)
        decreases |source.Left()|
      {
        ok := source.Next();
        if ok {
          v := source.Get();
        }
      }
    }

    method Next() returns (ok: bool)
      requires Valid()
      modifies this, source
      ensures Valid() && Left() == Tail(old(Left())) && ok == (Left() != [])
      ensures index == old(index) + if ok then 1 else 0
    {
      ok := Advance();
      if ok {
        index := index + 1;
      }
    }

    /** The jump of generators without one of their own: single steps. */
    method SkipToNthElement(n: nat) returns (jump: Jump)
      requires Valid()
      modifies this, source
      ensures Valid() && jump == JumpFrom(old(index), |old(Left())|, n)
      ensures jump.Jumped? ==> Left() == old(Left())[n - old(index)..] && index == n
      ensures jump.TooFew? ==> Left() == []
      ensures jump.Backwards? ==> Left() == old(Left())
    {
      hide Filtered, Tail, Dropped;
      if n < index {
        return Backwards;
      }
      if n == index {
        return Jumped;
      }
      ghost var all := Left();
      DroppedStep(all, 0);
      for i := index to n
        invariant Valid() && index == old(index)
        invariant Left() == Dropped(all, i - index)
        invariant i == index || i - index < |all|
      {
        DroppedStep(all, i - index);
        DroppedStep(all, i + 1 - index);
        FilteredStep(source.Left(), keep);
        var ok := Advance();
        if !ok {
          return TooFew;
        }
      }
      DroppedStep(all, n - index);
      index := n;
      jump := Jumped;
    }
  }

  class Map<U, T> {
    const source: Source<U>
    const f: U -> T
    var cache: Option<T>
    var index: nat

    ghost predicate Valid()
      reads this, source
    {
      source.Valid() && (cache.Some? ==> source.Left() != [] && cache.value == f(source.Left()[0]))
    }

    /** The source was not moved before it was handed over, or it was jumped to the
        right place since. */
    ghost predicate Aligned()
      reads this, source
    {
      source.index == index
    }

    ghost function Left(): seq<T>
      reads this, source
    {
      Mapped(source.Left(), f)
    }

    constructor (f: U -> T, source: Source<U>)
      requires source.Valid() && source.Left() != []
      ensures Valid() && Left() == Mapped(source.Left(), f)
      ensures this.source == source && this.f == f && index == 0
      ensures Aligned() <==> source.index == 0
    {
      this.f, this.source := f, source;
      cache, index := None, 0;
    }

    method Get() returns (v: T)
      requires Valid() && Left() != []
      modifies this`cache
      ensures Valid() && v == Left()[0]
    {
      if cache.None? {
        var u := source.Get();
        cache := Some(f(u));
      }
      v := cache.value;
    }

    method Next() returns (ok: bool)
      requires Valid()
      modifies this, source
      ensures Valid() && Left() == Tail(old(Left())) && ok == (Left() != [])
      ensures ok ==> source.at == old(source.at) + 1 && index == old(index) + 1
      ensures old(Aligned()) ==> Aligned()
    {
      cache := None;
      ok := source.Next();
      if ok {
        index := index + 1;
      }
    }

    /** As for `Take`, without a target. */
    method SkipToNthElement(n: nat) returns (jump: Jump)
      requires Valid()
      modifies this, source
      ensures Valid()
      ensures jump == if n < old(index) then Backwards else if n == old(index) then Jumped
                      else JumpFrom(old(source.index), |old(source.Left())|, n)
      ensures jump.Jumped? ==> index == n
      ensures jump.Jumped? && n > old(index) ==>
                Left() == Mapped(old(source.Left())[n - old(source.index)..], f)
      ensures !jump.Jumped? ==> Left() == old(Left()) && index == old(index)
      ensures jump.Jumped? && n > old(index) && old(Left()) != [] ==>
                (source.at == old(source.at) + (n - old(index)) <==> old(source.index) == old(index))
      ensures old(Aligned()) ==>
        && Aligned() && jump == JumpFrom(old(index), |old(Left())|, n)
        && (jump.Jumped? ==> Left() == old(Left())[n - old(index)..])
    {
      hide Mapped;
      MappedAt(source.Left(), f);
      if n < index {
        return Backwards;
      }
      if n == index {
        return Jumped;
      }
      jump := source.SkipToNthElement(n);
      MappedAt(source.Left(), f);
      if jump.Jumped? {
        cache, index := None, n;
      }
    }
  }

  class Chunk<T> {
    const source: Source<T>
    const size: nat
    var chunk: seq<T>

    ghost predicate Valid()
      reads this, source
    {
      source.Valid() && |chunk| <= size && (size > 0 ==> (|chunk| == size <==> source.Left() != []))
    }

    ghost function Left(): seq<seq<T>>
      requires size > 0
      reads this, source
    {
      if |chunk| == size then [chunk] + Chunks(Tail(source.Left()), size) else []
    }

    constructor Empty(size: nat, source: Source<T>)
      ensures this.size == size && this.source == source && chunk == []
    {
      this.size, this.source, chunk := size, source, [];
    }

    /** There is no generator when the first chunk cannot be filled. Chunks of size zero
        need nothing of the source. */
    static method Create(size: nat, source: Source<T>) returns (c: Chunk?<T>)
      requires source.Valid() && source.Left() != []
      modifies source
      ensures c == null <==> size > 0 && Chunks(old(source.Left()), size) == []
      ensures c != null ==> fresh(c) && c.source == source && c.size == size && c.Valid()
      ensures c != null && size > 0 ==> c.Left() == Chunks(old(source.Left()), size)
      ensures size == 0 ==> source.Left() == old(source.Left())
    {
      hide Chunks, Source.Valid, Source.Left;
      c := new Chunk.Empty(size, source);
      if size == 0 {
        return;
      }
      ChunksFrom(source.Left(), size);
      var v := source.Get();
      c.chunk := [v];
      ghost var all := source.Left();
      for i := 1 to size
        invariant c.source == source && c.size == size && source.Valid() && fresh(c)
        invariant i <= |all| && c.chunk == all[..i] && source.Left() == all[i - 1..]
      {
        var more := source.Next();
        if !more {
          return null;
        }
        v := source.Get();
        c.chunk := c.chunk + [v];
      }
    }

    method Get() returns (v: seq<T>)
      requires Valid() && (size > 0 ==> Left() != [])
      ensures if size > 0 then v == Left()[0] else v == []
    {
      v := chunk;
    }

    method Next() returns (ok: bool)
      requires Valid()
      modifies this, source
      ensures Valid()
      ensures if size > 0 then Left() == Tail(old(Left())) && ok == (Left() != [])
              else ok && source.Left() == old(source.Left())
    {
      hide Chunks, Source.Valid, Source.Left;
      ghost var all := Tail(source.Left());
      if size > 0 {
        ChunksFrom(all, size);
      }
      ghost var live := source.Left() != [];
      chunk := [];
      for i := 0 to size
        invariant source.Valid() && i <= |all| && chunk == all[..i]
        invariant live <==> source.Left() != []
        invariant if i > 0 then live else source.Left() == old(source.Left())
        invariant Tail(source.Left()) == all[i..]
      {
        var more := source.Next();
        if !more {
          return false;
        }
        var v := source.Get();
        chunk := chunk + [v];
      }
      ok := true;
    }
  }

  class Concat<T> {
    const generators: seq<Source<T>>
    var current: nat

    ghost predicate Valid()
      reads this, generators
    {
      && current <= |generators|
      && Apart(generators)
      && (forall i | 0 <= i < |generators| :: generators[i].Valid())
      && (forall i | current <= i < |generators| :: generators[i].Left() != [])
    }

    ghost function Left(): seq<T>
      requires current <= |generators|
      reads this, generators
    {
      Rest(generators, current)
    }

    constructor (generators: seq<Source<T>>)
      requires generators != []
      requires Apart(generators)
      requires forall i | 0 <= i < |generators| :: generators[i].Valid() && generators[i].Left() != []
      ensures Valid() && Left() == Rest(generators, 0) && this.generators == generators
    {
      this.generators, current := generators, 0;
    }

    method Get() returns (v: T)
      requires Valid() && Left() != []
      ensures v == Left()[0]
    {
      v := generators[current].Get();
    }

    method Next() returns (ok: bool)
      requires Valid() && Left() != []
      modifies this`current, generators
      ensures Valid() && Left() == Tail(old(Left())) && ok == (Left() != [])
    {
      hide Apart, Rest, Tail, Source.Valid, Source.Left;
      RestFrom(generators, current);
      TailOfFirst(generators[current].Left(), Rest(generators, current + 1));
      var more := NextOfCurrent();
      RestFrom(generators, current);
      ok := true;
      if !more {
        ok := MoveOn();
      }
    }

    method MoveOn() returns (ok: bool)
      requires current < |generators| && Apart(generators)
      requires forall i | 0 <= i < |generators| :: generators[i].Valid()
      requires forall i | current < i < |generators| :: generators[i].Left() != []
      modifies this`current
      ensures Valid() && Left() == old(Rest(generators, current + 1)) && ok == (Left() != [])
    {
      hide Apart, Rest, Source.Valid, Source.Left;
      RestFrom(generators, current + 1);
      current := current + 1;
      ok := current < |generators|;
    }

    method NextOfCurrent() returns (more: bool)
      requires Valid() && current < |generators|
      modifies generators[current]
      ensures forall i | 0 <= i < |generators| :: generators[i].Valid()
      ensures forall i | current < i < |generators| :: generators[i].Left() != []
      ensures generators[current].Left() == Tail(old(generators[current].Left()))
      ensures more == (generators[current].Left() != [])
      ensures Rest(generators, current + 1) == old(Rest(generators, current + 1))
    {
      hide Rest, Source.Valid, Source.Left, Tail;
      more := generators[current].Next();
    }
  }

  predicate Apart<T>(generators: seq<Source<T>>) {
    forall i, j | 0 <= i < j < |generators| :: generators[i] != generators[j]
  }

  lemma RestFrom<T>(generators: seq<Source<T>>, k: nat)
    ensures Rest(generators, k)
         == if k < |generators| then generators[k].Left() + Rest(generators, k + 1) else []
  {}

  /** What the generators from the `k`-th on give, one after the other. */
  ghost function Rest<T>(generators: seq<Source<T>>, k: nat): seq<T>
    reads set i | k <= i < |generators| :: generators[i]
    decreases |generators| - k
  {
    if k >= |generators| then [] else generators[k].Left() + Rest(generators, k + 1)
  }

  class Repeat<T> {
    const source: Source<T>
    const repeats: nat
    var cache: seq<T>
    var round: nat
    var at: nat
    /** All elements of the source, and how often each was read in the first round. */
    ghost const all: seq<T>
    ghost var counts: seq<nat>

    ghost predicate Valid()
      reads this, source
    {
      && source.Valid() && repeats > 0 && all != []
      && |counts| <= |all| && cache == Spread(all[..|counts|], counts)
      && (round == 0 ==> |counts| > 0 && at == 0 && source.Left() == all[|counts| - 1..])
      && (round > 0 ==> |counts| == |all| && (cache == [] || at < |cache|))
    }

    /** In the first round as it is when every element is read once. */
    ghost function Left(): seq<T>
      reads this, source
    {
      if round >= repeats then []
      else if round == 0 then source.Left() + Repeated(all, repeats - 1)
      else Dropped(cache, at) + Repeated(cache, repeats - round - 1)
    }

    constructor (repeats: nat, source: Source<T>)
      requires source.Valid() && source.Left() != [] && repeats > 0
      ensures Valid() && Left() == Repeated(source.Left(), repeats)
      ensures this.source == source && this.repeats == repeats
      ensures all == source.Left() && counts == [0] && round == 0
    {
      hide Spread, Repeated, Dropped, Source.Left, Source.Valid;
      this.source, this.repeats := source, repeats;
      cache, round, at := [], 0, 0;
      all, counts := source.Left(), [0];
      new;
      NothingRead(all, repeats);
    }

    /** In the first round every call adds to the list that the later rounds give. */
    method Get() returns (v: T)
      requires Valid() && Left() != []
      requires round > 0 ==> cache != []
      modifies this`cache, this`counts
      ensures Valid() && Left() == old(Left()) && v == Left()[0]
      ensures round > 0 ==> counts == old(counts)
      ensures round == 0 ==>
                counts == old(counts)[|old(counts)| - 1 := old(counts)[|old(counts)| - 1] + 1]
    {
      hide Spread, Repeated, Dropped;
      DroppedFirst(cache, at);
      if round == 0 {
        ghost var k := |counts| - 1;
        SpreadOneMore(all[..k + 1], counts);
        v := source.Get();
        cache := cache + [v];
        counts := counts[k := counts[k] + 1];
      } else {
        v := cache[at];
      }
    }

    /** One step along the list. After the first round the list goes on with what was
        read in that round: with the right elements if every one was read once. */
    method Next() returns (ok: bool)
      requires Valid() && round < repeats
      modifies this`round, this`at, this`counts, source
      ensures Valid() && ok == (round < repeats)
      ensures cache != [] ==> ok == (Left() != [])
      ensures cache == [] && old(round) > 0 ==> ok && round == old(round)
      ensures old(round) == 0 && |old(counts)| < |all| ==> round == 0 && counts == old(counts) + [0]
      ensures old(round) == 0 && |old(counts)| == |all| ==>
                round == 1 && counts == old(counts) && Left() == Repeated(cache, repeats - 1)
      ensures old(round) > 0 ==> counts == old(counts) && round >= old(round)
      ensures old(round) > 0 || |old(counts)| < |all| ==> Left() == Tail(old(Left()))
      ensures old(round) == 0 && |old(counts)| == |all| ==>
                (Left() == Tail(old(Left())) <==> repeats == 1 || cache == all)
      ensures ReadOnce(old(counts)) ==> Left() == Tail(old(Left()))
    {
      hide Repeated, Spread, Dropped, Tail;
      if round == 0 {
        ok := NextOfSource();
      } else {
        ok := NextOfCache();
      }
    }

    method NextOfSource() returns (ok: bool)
      requires Valid() && round == 0
      modifies this`round, this`counts, source
      ensures Valid() && ok == (round < repeats)
      ensures cache != [] ==> ok == (Left() != [])
      ensures |old(counts)| < |all| ==>
                round == 0 && counts == old(counts) + [0] && Left() == Tail(old(Left()))
      ensures |old(counts)| == |all| ==>
                && round == 1 && counts == old(counts) && Left() == Repeated(cache, repeats - 1)
                && (Left() == Tail(old(Left())) <==> repeats == 1 || cache == all)
                && (ReadOnce(counts) ==> cache == all)
    {
      hide Repeated, Spread, Dropped, Tail;
      FirstRoundStep(all, counts, repeats - 1);
      var more := source.Next();
      if more {
        counts := counts + [0];
      } else {
        round := round + 1;
      }
      ok := round < repeats;
    }

    method NextOfCache() returns (ok: bool)
      requires Valid() && 0 < round < repeats
      modifies this`round, this`at
      ensures Valid() && ok == (round < repeats) && round >= old(round)
      ensures Left() == Tail(old(Left())) && (cache != [] ==> ok == (Left() != []))
      ensures cache == [] ==> ok && round == old(round)
    {
      hide Repeated, Spread, Dropped, Tail;
      LaterStep(cache, at, repeats - round - 1);
      at := at + 1;
      if at == |cache| {
        at := 0;
        round := round + 1;
      }
      ok := round < repeats;
    }
  }

  lemma FilteredStep<T>(s: seq<T>, keep: T -> bool)
    requires s != [] ==> keep(s[0])
    ensures Filtered(Tail(s), keep) == Tail(Filtered(s, keep))
  {}

  /** The values 1 to 4, moved to 2. */
  method MovedSource() returns (source: Source<int>)
    ensures fresh(source) && source.Valid() && source.Left() == [2, 3, 4] && source.at == source.index == 1
  {
    source := new Source([1, 2, 3, 4]);
    var _ := source.Next();
  }

  /** From a source that was moved before, a jump to the second element stays where the
      source is; a step goes on. */
  method TakeOfMovedSource() returns (jumped: int, stepped: int)
    ensures jumped == 2 && stepped == 3
  {
    jumped := TakeJumped();
    var source := MovedSource();
    var take := new Take(3, source);
    var _ := take.Next();
    stepped := take.Get();
  }

  method TakeJumped() returns (jumped: int)
    ensures jumped == 2
  {
    var source := MovedSource();
    var take := new Take(3, source);
    var _ := take.SkipToNthElement(1);
    jumped := take.Get();
  }

  /** The same with a map, here one that adds 10. */
  method MapOfMovedSource() returns (jumped: int, stepped: int)
    ensures jumped == 12 && stepped == 13
  {
    jumped := MapJumped();
    var source := MovedSource();
    var map10 := new Map((v: int) => v + 10, source);
    var _ := map10.Next();
    stepped := map10.Get();
  }

  method MapJumped() returns (jumped: int)
    ensures jumped == 12
  {
    var source := MovedSource();
    var map10 := new Map((v: int) => v + 10, source);
    var _ := map10.SkipToNthElement(1);
    jumped := map10.Get();
  }
}
