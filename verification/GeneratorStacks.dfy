/** Generators on generators, as values: an adapter takes any generator, adapters
    included. A value is the whole state of a stack, with the counter that each of its
    generators keeps. */
module GeneratorStacks {
  import opened Words
  import opened GeneratorLists

  /** A concatenation holds the generators that are not used up. */
  datatype Gen<!T> =
    | Values(values: seq<T>, at: nat, index: nat)
    | Take(inner: Gen<T>, target: nat, returned: nat, index: nat)
    | Filter(inner: Gen<T>, keep: T -> bool, index: nat)
    | Map(inner: Gen<T>, f: T -> T, index: nat)
    | Concat(rest: Gens<T>, index: nat)

  datatype Gens<!T> = Nil | Cons(head: Gen<T>, tail: Gens<T>)

  datatype Moved<!T> = Moved(gen: Gen<T>, ok: bool)

  datatype Skipped<!T> = Skipped(jump: Jump, gen: Gen<T>)

  /** What a generator will still give, its current element first. */
  function Left<T>(g: Gen<T>): seq<T> {
    match g
    case Values(values, at, _) => Dropped(values, at)
    case Take(inner, target, returned, _) =>
      if returned < target then Limit(Left(inner), target - returned) else []
    case Filter(inner, keep, _) => Filtered(Left(inner), keep)
    case Map(inner, f, _) => Mapped(Left(inner), f)
    case Concat(rest, _) => LeftOfAll(rest)
  }

  function LeftOfAll<T>(gs: Gens<T>): seq<T> {
    if gs.Nil? then [] else Left(gs.head) + LeftOfAll(gs.tail)
  }

  function Size<T>(g: Gen<T>): nat {
    match g
    case Values(_, _, _) => 0
    case Concat(rest, _) => 1 + SizeOfAll(rest)
    case _ => 1 + Size(g.inner)
  }

  function SizeOfAll<T>(gs: Gens<T>): nat {
    if gs.Nil? then 0 else 1 + Size(gs.head) + SizeOfAll(gs.tail)
  }

  /** The same generator with another counter. */
  function Numbered<T>(g: Gen<T>, index: nat): Gen<T> {
    g.(index := index)
  }

  // What holds of every stack, whatever was done with it.

  predicate Valid<T>(g: Gen<T>)
    decreases g, 1
  {
    Sound(g) && Counted(g)
  }

  predicate Sound<T>(g: Gen<T>)
    decreases g, 0
  {
    match g
    case Values(values, _, _) => values != []
    case Take(inner, target, _, _) => Valid(inner) && target > 0
    case Filter(inner, keep, _) => Valid(inner) && (Left(inner) != [] ==> keep(Left(inner)[0]))
    case Map(inner, _, _) => Valid(inner)
    case Concat(rest, _) => AllReady(rest)
  }

  predicate AllReady<T>(gs: Gens<T>) {
    gs.Cons? ==> Valid(gs.head) && Left(gs.head) != [] && AllReady(gs.tail)
  }

  /** The counter agrees with what the generator counts itself. */
  predicate Counted<T>(g: Gen<T>) {
    && (g.Values? ==> g.index == if g.at < |g.values| then g.at else |g.values| - 1)
    && (g.Take? && Left(g) != [] ==> g.returned == g.index)
  }

  // The operations.

  function Get<T>(g: Gen<T>): (v: T)
    requires Sound(g) && Left(g) != []
    ensures v == Left(g)[0]
  {
    match g
    case Values(values, at, _) => values[at]
    case Take(inner, _, _, _) =>
      assert Valid(inner);
      Get(inner)
    case Filter(inner, keep, _) =>
      assert Valid(inner);
      Get(inner)
    case Map(inner, f, _) =>
      assert Valid(inner);
      f(Get(inner))
    case Concat(rest, _) =>
      ReadyHead(rest);
      Get(rest.head)
  }

  lemma ReadyHead<T>(gs: Gens<T>)
    requires AllReady(gs) && LeftOfAll(gs) != []
    ensures gs.Cons? && Valid(gs.head) && Left(gs.head) != [] && AllReady(gs.tail)
    ensures LeftOfAll(gs) == Left(gs.head) + LeftOfAll(gs.tail)
    ensures SizeOfAll(gs) == 1 + Size(gs.head) + SizeOfAll(gs.tail)
    ensures LeftOfAll(gs.tail) != [] <==> gs.tail.Cons?
  {
    if gs.Cons? && gs.tail.Cons? {
      assert AllReady(gs.tail) && Left(gs.tail.head) != [];
    }
  }

  lemma ReadyAgain<T>(head: Gen<T>, tail: Gens<T>)
    requires Valid(head) && Left(head) != [] && AllReady(tail)
    ensures AllReady(Cons(head, tail)) && LeftOfAll(Cons(head, tail)) == Left(head) + LeftOfAll(tail)
    ensures SizeOfAll(Cons(head, tail)) == 1 + Size(head) + SizeOfAll(tail)
  {}

  /** `next` of the generator itself, which does not count. */
  function Advance<T>(g: Gen<T>): (m: Moved<T>)
    requires Sound(g) && Left(g) != []
    ensures Sound(m.gen) && Left(m.gen) == Tail(Left(g)) && m.ok == (Left(m.gen) != [])
    ensures Size(m.gen) <= Size(g) && m.gen.index == g.index
    decreases Size(g), |Left(g)|, 0
  {
    match g
    case Values(values, at, index) => Moved(Values(values, at + 1, index), at + 1 < |values|)
    case Take(inner, target, returned, index) =>
      if returned + 1 >= target then Moved(Take(inner, target, returned + 1, index), false)
      else
        var m := Next(inner);
        Moved(Take(m.gen, target, if m.ok then returned + 1 else target, index), m.ok)
    case Filter(inner, keep, index) =>
      var m := Seek(Next(inner), keep);
      Moved(Filter(m.gen, keep, index), m.ok)
    case Map(inner, f, index) =>
      var m := Next(inner);
      Moved(Map(m.gen, f, index), m.ok)
    case Concat(rest, index) =>
      ReadyHead(rest);
      TailOfFirst(Left(rest.head), LeftOfAll(rest.tail));
      var m := Next(rest.head);
      if m.ok then
        ReadyAgain(m.gen, rest.tail);
        Moved(Concat(Cons(m.gen, rest.tail), index), true)
      else Moved(Concat(rest.tail, index), rest.tail.Cons?)
  }

  /** `countedNext`. */
  function Next<T>(g: Gen<T>): (m: Moved<T>)
    requires Valid(g) && Left(g) != []
    ensures Valid(m.gen) && Left(m.gen) == Tail(Left(g)) && m.ok == (Left(m.gen) != [])
    ensures Size(m.gen) <= Size(g) && m.gen.index == g.index + if m.ok then 1 else 0
    decreases Size(g), |Left(g)|, 1
  {
    var m := Advance(g);
    if m.ok then Moved(Numbered(m.gen, g.index + 1), true) else m
  }

  /** The loop of a filter: on to the next element that passes. */
  function Seek<T>(m: Moved<T>, keep: T -> bool): (r: Moved<T>)
    requires Valid(m.gen) && m.ok == (Left(m.gen) != [])
    ensures Valid(r.gen) && r.ok == (Left(r.gen) != []) && Size(r.gen) <= Size(m.gen)
    ensures Filtered(Left(r.gen), keep) == Filtered(Left(m.gen), keep)
    ensures r.ok ==> keep(Left(r.gen)[0])
    decreases Size(m.gen), |Left(m.gen)|, 2
  {
    if !m.ok || keep(Get(m.gen)) then m else Seek(Next(m.gen), keep)
  }

  /** All elements, as a client reads them. */
  function Drained<T>(g: Gen<T>): seq<T>
    requires Valid(g) && Left(g) != []
    decreases |Left(g)|
  {
    var m := Next(g);
    [Get(g)] + if m.ok then Drained(m.gen) else []
  }

  lemma {:induction false} DrainedIsLeft<T>(g: Gen<T>)
    requires Valid(g) && Left(g) != []
    ensures Drained(g) == Left(g)
    decreases |Left(g)|
  {
    hide Valid, Left, Get, Next;
    var m := Next(g);
    if !m.ok {
    } else {
      DrainedIsLeft(m.gen);
    }
  }

  // Jumps.

  function SkipToNthElement<T>(g: Gen<T>, n: nat): (s: Skipped<T>)
    requires Valid(g) && Left(g) != []
    decreases g, 1
  {
    if n < g.index then Skipped(Backwards, g)
    else if n == g.index then Skipped(Jumped, g)
    else
      var s := SkipImpl(g, n);
      if s.jump.Jumped? then Skipped(Jumped, Numbered(s.gen, n)) else s
  }

  function SkipImpl<T>(g: Gen<T>, n: nat): (s: Skipped<T>)
    requires Sound(g) && Left(g) != [] && g.index < n
    decreases g, 0
  {
    match g
    case Values(values, at, index) =>
      if n >= |values| then Skipped(TooFew, g) else Skipped(Jumped, Values(values, n, index))
    case Take(inner, target, returned, index) =>
      if n >= target then Skipped(TooFew, g)
      else
        var s := SkipToNthElement(inner, n);
        Skipped(s.jump, Take(s.gen, target, if s.jump.Jumped? then n else returned, index))
    case Map(inner, f, index) =>
      var s := SkipToNthElement(inner, n);
      Skipped(s.jump, Map(s.gen, f, index))
    case _ => SkipBySteps(g, n - g.index)
  }

  /** The jump of generators without one of their own. */
  function SkipBySteps<T>(g: Gen<T>, k: nat): (s: Skipped<T>)
    requires Sound(g) && (k > 0 ==> Left(g) != [])
    decreases k
  {
    if k == 0 then Skipped(Jumped, g)
    else
      var m := Advance(g);
      if m.ok then SkipBySteps(m.gen, k - 1) else Skipped(TooFew, m.gen)
  }

  /** Single steps. */
  function Stepped<T>(g: Gen<T>, k: nat): (r: Gen<T>)
    requires Valid(g) && k < |Left(g)|
    ensures Valid(r) && Left(r) == Left(g)[k..] && r.index == g.index + k
    decreases k
  {
    if k == 0 then g else Stepped(Next(g).gen, k - 1)
  }

  /** Every generator whose jump is left to its inner one counts as that one does: it
      stands on a generator that was not moved before it was handed over. Filters and
      concatenations step, whatever they stand on. */
  predicate Aligned<T>(g: Gen<T>) {
    g.Take? || g.Map? ==> g.inner.index == g.index && Aligned(g.inner)
  }

  lemma TakeIs<T>(g: Gen<T>)
    requires g.Take? && Valid(g) && Left(g) != []
    ensures Valid(g.inner) && g.returned == g.index < g.target
    ensures Left(g) == Limit(Left(g.inner), g.target - g.returned)
    ensures |Left(g)| > 1 ==>
      var m := Next(g.inner);
      Next(g) == Moved(Take(m.gen, g.target, g.returned + 1, g.index + 1), true)
  {
    assert Valid(g.inner);
  }

  lemma MapIs<T>(g: Gen<T>)
    requires g.Map? && Valid(g)
    ensures Valid(g.inner) && Left(g) == Mapped(Left(g.inner), g.f) && |Left(g)| == |Left(g.inner)|
    ensures |Left(g)| > 1 ==> Next(g) == Moved(Map(Next(g.inner).gen, g.f, g.index + 1), true)
  {
    assert Valid(g.inner);
    MappedAt(Left(g.inner), g.f);
  }

  lemma SteppedOne<T>(g: Gen<T>, k: nat)
    requires Valid(g) && 0 < k < |Left(g)|
    ensures Next(g).ok && k - 1 < |Left(Next(g).gen)| && Stepped(g, k) == Stepped(Next(g).gen, k - 1)
  {}

  lemma SteppedNone<T>(g: Gen<T>)
    requires Valid(g) && Left(g) != []
    ensures Stepped(g, 0) == g
  {}

  lemma {:induction false} SteppedTake<T>(g: Gen<T>, k: nat)
    requires g.Take? && Valid(g) && k < |Left(g)|
    ensures Valid(g.inner) && k < |Left(g.inner)|
    ensures Stepped(g, k) == Take(Stepped(g.inner, k), g.target, g.returned + k, g.index + k)
    decreases k
  {
    hide Valid, Left, Next, Stepped;
    TakeIs(g);
    if k == 0 {
      SteppedNone(g);
      SteppedNone(g.inner);
    } else {
      SteppedOne(g, k);
      SteppedOne(g.inner, k);
      SteppedTake(Next(g).gen, k - 1);
    }
  }

  lemma {:induction false} SteppedMap<T>(g: Gen<T>, k: nat)
    requires g.Map? && Valid(g) && k < |Left(g)|
    ensures Valid(g.inner) && k < |Left(g.inner)|
    ensures Stepped(g, k) == Map(Stepped(g.inner, k), g.f, g.index + k)
    decreases k
  {
    hide Valid, Left, Next, Stepped;
    MapIs(g);
    if k == 0 {
      SteppedNone(g);
      SteppedNone(g.inner);
    } else {
      SteppedOne(g, k);
      SteppedOne(g.inner, k);
      SteppedMap(Next(g).gen, k - 1);
    }
  }

  lemma {:induction false} SteppedValues<T>(g: Gen<T>, k: nat)
    requires g.Values? && Valid(g) && k < |Left(g)|
    ensures Stepped(g, k) == Values(g.values, g.at + k, g.index + k)
    decreases k
  {
    if k == 0 {
    } else {
      SteppedOne(g, k);
      SteppedValues(Next(g).gen, k - 1);
    }
  }

  /** The counter plays no part in how filters and concatenations move. */
  lemma AdvanceUncounted<T>(g: Gen<T>, index: nat)
    requires (g.Filter? || g.Concat?) && Valid(g) && Left(g) != []
    ensures var u := Numbered(g, index);
            var m := Next(g);
            && Sound(u) && Left(u) == Left(g)
            && (m.gen.Filter? || m.gen.Concat?)
            && Advance(u) == Moved(Numbered(m.gen, index), m.ok)
  {}

  lemma SkipOne<T>(g: Gen<T>, k: nat)
    requires Sound(g) && Left(g) != [] && k > 0
    ensures var m := Advance(g);
            SkipBySteps(g, k) == if m.ok then SkipBySteps(m.gen, k - 1) else Skipped(TooFew, m.gen)
  {}

  lemma SkipNone<T>(g: Gen<T>)
    requires Sound(g)
    ensures SkipBySteps(g, 0) == Skipped(Jumped, g)
  {}

  ghost predicate SkipsAsStepped<T>(g: Gen<T>, k: nat, index: nat)
    requires Valid(g) && Left(g) != []
  {
    var u := Numbered(g, index);
    && Sound(u) && Left(u) != []
    && var s := SkipBySteps(u, k);
       if k < |Left(g)| then s == Skipped(Jumped, Numbered(Stepped(g, k), index))
       else s.jump == TooFew && Left(s.gen) == []
  }

  lemma {:induction false} SkipBySteppingIs<T>(g: Gen<T>, k: nat, index: nat)
    requires (g.Filter? || g.Concat?) && Valid(g) && Left(g) != []
    ensures SkipsAsStepped(g, k, index)
    decreases k
  {
    hide Valid, Sound, Left, Next, Advance, Stepped, SkipBySteps;
    AdvanceUncounted(g, index);
    var m := Next(g);
    if k == 0 {
      SkipNone(Numbered(g, index));
      SteppedNone(g);
    } else {
      SkipOne(Numbered(g, index), k);
      if k < |Left(g)| {
        SteppedOne(g, k);
      }
      if m.ok {
        SkipBySteppingIs(m.gen, k - 1, index);
      } else {
        AdvanceUncounted(g, index);
      }
    }
  }

  // What jumps are, one kind at a time.

  lemma SkipIs<T>(g: Gen<T>, n: nat)
    requires Valid(g) && Left(g) != [] && g.index < n
    ensures Sound(g)
    ensures var s := SkipImpl(g, n);
            SkipToNthElement(g, n) == if s.jump.Jumped? then Skipped(Jumped, Numbered(s.gen, n)) else s
  {}

  lemma ValuesAre<T>(g: Gen<T>)
    requires g.Values? && Valid(g) && Left(g) != []
    ensures g.at == g.index < |g.values| && |Left(g)| == |g.values| - g.index
  {}

  lemma SkipValuesIs<T>(g: Gen<T>, n: nat)
    requires g.Values? && Valid(g) && Left(g) != [] && g.index < n
    ensures SkipToNthElement(g, n)
         == if n >= |g.values| then Skipped(TooFew, g) else Skipped(Jumped, Values(g.values, n, n))
  {}

  lemma SkipTakeIs<T>(g: Gen<T>, n: nat)
    requires g.Take? && Valid(g) && Left(g) != [] && g.index < n < g.target
    ensures Valid(g.inner) && Left(g.inner) != []
    ensures var s := SkipToNthElement(g.inner, n);
            SkipToNthElement(g, n)
            == if s.jump.Jumped? then Skipped(Jumped, Take(s.gen, g.target, n, n))
               else Skipped(s.jump, Take(s.gen, g.target, g.returned, g.index))
  {
    assert Valid(g.inner);
  }

  lemma SkipMapIs<T>(g: Gen<T>, n: nat)
    requires g.Map? && Valid(g) && Left(g) != [] && g.index < n
    ensures Valid(g.inner) && Left(g.inner) != []
    ensures var s := SkipToNthElement(g.inner, n);
            SkipToNthElement(g, n)
            == if s.jump.Jumped? then Skipped(Jumped, Map(s.gen, g.f, n))
               else Skipped(s.jump, Map(s.gen, g.f, g.index))
  {
    assert Valid(g.inner);
  }

  /** After a jump, the counter is where the jump was to go. */
  lemma JumpedIndex<T>(g: Gen<T>, n: nat)
    requires Valid(g) && Left(g) != []
    ensures SkipToNthElement(g, n).jump.Jumped? ==> SkipToNthElement(g, n).gen.index == n
  {}

  /** A jump that has somewhere to go ends exactly where single steps end if and only if
      the stack is aligned. */
  lemma {:induction false} JumpIsStepsExactly<T>(g: Gen<T>, n: nat)
    requires Valid(g) && g.index < n < g.index + |Left(g)|
    ensures SkipToNthElement(g, n) == Skipped(Jumped, Stepped(g, n - g.index)) <==> Aligned(g)
    decreases g, 1
  {
    hide Valid, Left, Stepped, SkipToNthElement;
    match g
    case Values(_, _, _) => JumpOfValues(g, n);
    case Take(_, _, _, _) => JumpOfTake(g, n);
    case Map(_, _, _) => JumpOfMap(g, n);
    case _ => JumpBySteps(g, n);
  }

  lemma JumpOfValues<T>(g: Gen<T>, n: nat)
    requires g.Values? && Valid(g) && g.index < n < g.index + |Left(g)|
    ensures SkipToNthElement(g, n) == Skipped(Jumped, Stepped(g, n - g.index))
  {
    hide Valid, Left, Stepped, SkipToNthElement;
    ValuesAre(g);
    SteppedValues(g, n - g.index);
    SkipValuesIs(g, n);
  }

  lemma JumpBySteps<T>(g: Gen<T>, n: nat)
    requires (g.Filter? || g.Concat?) && Valid(g) && g.index < n < g.index + |Left(g)|
    ensures SkipToNthElement(g, n) == Skipped(Jumped, Stepped(g, n - g.index))
  {
    hide Valid, Left, Stepped, SkipToNthElement, SkipBySteps, Sound;
    SkipBySteppingIs(g, n - g.index, g.index);
    SkipIs(g, n);
  }

  lemma {:induction false} JumpOfTake<T>(g: Gen<T>, n: nat)
    requires g.Take? && Valid(g) && g.index < n < g.index + |Left(g)|
    ensures SkipToNthElement(g, n) == Skipped(Jumped, Stepped(g, n - g.index)) <==> Aligned(g)
    decreases g, 0
  {
    hide Valid, Left, Stepped, SkipToNthElement;
    TakeIs(g);
    SteppedTake(g, n - g.index);
    SkipTakeIs(g, n);
    JumpedIndex(g.inner, n);
    if g.inner.index == g.index {
      JumpIsStepsExactly(g.inner, n);
    }
  }

  lemma {:induction false} JumpOfMap<T>(g: Gen<T>, n: nat)
    requires g.Map? && Valid(g) && g.index < n < g.index + |Left(g)|
    ensures SkipToNthElement(g, n) == Skipped(Jumped, Stepped(g, n - g.index)) <==> Aligned(g)
    decreases g, 0
  {
    hide Valid, Left, Stepped, SkipToNthElement;
    MapIs(g);
    SteppedMap(g, n - g.index);
    SkipMapIs(g, n);
    JumpedIndex(g.inner, n);
    if g.inner.index == g.index {
      JumpIsStepsExactly(g.inner, n);
    }
  }

  /** Where a jump that fails leaves the generator where it was. One that got there by
      steps is used up. */
  predicate FailsInPlace<T>(g: Gen<T>, n: nat) {
    match g
    case Values(_, _, _) => true
    case Take(inner, target, _, _) => n >= target || FailsInPlace(inner, n)
    case Map(inner, _, _) => FailsInPlace(inner, n)
    case _ => false
  }

  /** On an aligned stack a jump fails exactly where single steps end too early. */
  lemma {:induction false} JumpFailsExactly<T>(g: Gen<T>, n: nat)
    requires Valid(g) && Left(g) != [] && Aligned(g) && n >= g.index + |Left(g)|
    ensures var s := SkipToNthElement(g, n);
            s.jump == TooFew && Left(s.gen) == if FailsInPlace(g, n) then Left(g) else []
    decreases g
  {
    hide Valid, Left, SkipToNthElement, SkipBySteps, Sound;
    match g
    case Values(_, _, _) =>
      ValuesAre(g);
      SkipValuesIs(g, n);
    case Take(inner, target, _, _) =>
      TakeIs(g);
      TakeFails(g, n);
      if n < target {
        JumpFailsExactly(inner, n);
      }
    case Map(inner, f, _) =>
      MapIs(g);
      SkipMapIs(g, n);
      JumpFailsExactly(inner, n);
      MapLeft(SkipToNthElement(inner, n).gen, f, g.index);
    case _ =>
      SkipBySteppingIs(g, n - g.index, g.index);
      SkipIs(g, n);
  }

  lemma MapLeft<T>(inner: Gen<T>, f: T -> T, index: nat)
    ensures Left(Map(inner, f, index)) == Mapped(Left(inner), f)
  {}

  lemma TakeFails<T>(g: Gen<T>, n: nat)
    requires g.Take? && Valid(g) && Left(g) != [] && n >= g.index + |Left(g)|
    ensures Valid(g.inner) && Left(g.inner) != []
    ensures n >= g.target ==> SkipToNthElement(g, n) == Skipped(TooFew, g)
    ensures n < g.target ==>
      var s := SkipToNthElement(g.inner, n);
      && n >= g.index + |Left(g.inner)| && Left(g) == Left(g.inner)
      && (s.jump == TooFew ==>
            && SkipToNthElement(g, n) == Skipped(TooFew, Take(s.gen, g.target, g.returned, g.index))
            && (Left(s.gen) in {[], Left(g)} ==> Left(SkipToNthElement(g, n).gen) == Left(s.gen)))
  {
    assert Valid(g.inner);
  }

  lemma {:induction false} AlignedStays<T>(g: Gen<T>)
    requires Valid(g) && |Left(g)| > 1 && Aligned(g)
    ensures Aligned(Next(g).gen)
    decreases g
  {
    match g
    case Take(inner, _, _, _) =>
      TakeIs(g);
      AlignedStays(inner);
    case Map(inner, _, _) =>
      MapIs(g);
      AlignedStays(inner);
    case _ =>
  }

  // Building a stack.

  function OfValues<T>(values: seq<T>): (g: Gen<T>)
    requires values != []
    ensures Valid(g) && Left(g) == values && Aligned(g)
  {
    Values(values, 0, 0)
  }

  function OfTake<T>(target: nat, inner: Gen<T>): (g: Gen<T>)
    requires Valid(inner) && Left(inner) != [] && target > 0
    ensures Valid(g) && Left(g) == Limit(Left(inner), target)
    ensures Aligned(g) <==> inner.index == 0 && Aligned(inner)
  {
    Take(inner, target, 0, 0)
  }

  /** There is no generator when nothing passes the filter. */
  function OfFilter<T>(keep: T -> bool, inner: Gen<T>): (g: Option<Gen<T>>)
    requires Valid(inner) && Left(inner) != []
    ensures g.None? <==> Filtered(Left(inner), keep) == []
    ensures g.Some? ==> Valid(g.value) && Left(g.value) == Filtered(Left(inner), keep) && Aligned(g.value)
  {
    var m := Seek(Moved(inner, true), keep);
    if m.ok then Some(Filter(m.gen, keep, 0)) else None
  }

  function OfMap<T>(f: T -> T, inner: Gen<T>): (g: Gen<T>)
    requires Valid(inner) && Left(inner) != []
    ensures Valid(g) && Left(g) == Mapped(Left(inner), f)
    ensures Aligned(g) <==> inner.index == 0 && Aligned(inner)
  {
    Map(inner, f, 0)
  }

  function OfConcat<T>(gens: Gens<T>): (g: Gen<T>)
    requires AllReady(gens)
    ensures Valid(g) && Left(g) == LeftOfAll(gens) && Aligned(g)
  {
    Concat(gens, 0)
  }
}
