/** Include expansion: the engine's headers are put in place of their includes, once
    each, by a depth-first walk over any include graph. */
module Amalgamation {
  import opened IncludeGraph

  /** What holds while `file` is being expanded. A visited header that is not
      complete is being expanded too, so it includes the file. */
  ghost predicate Context(g: Graph, out: Output, visited: set<Name>, file: Name) {
    && visited <= Universe(g)
    && (forall h | h !in visited || h == USER_CONFIG :: Own(out, Header(h)) == [])
    && (forall h | h in visited && h != USER_CONFIG :: Complete(g, out, h) || Reaches(g, h, file))
    && (forall p | 0 <= p < |out| :: InOrder(g, out, p))
  }

  /** What expanding (a part of) `file` for `origin` adds to the output and to the
      visited headers: those are complete, and what they include is visited. */
  ghost predicate Expanded(g: Graph, file: Name, origin: Origin,
                           out0: Output, visited0: set<Name>, out: Output, visited: set<Name>) {
    && out0 <= out && visited0 <= visited
    && (forall h | h in visited && h !in visited0 :: IncludesDeeply(g, file, h))
    && (forall h | h in visited && h !in visited0 && h != USER_CONFIG :: Finished(g, h, out, visited))
    && (forall o: Origin | o != origin && !IsNew(o, visited0, visited) :: Own(out, o) == Own(out0, o))
  }

  ghost predicate IsNew(o: Origin, visited0: set<Name>, visited: set<Name>) {
    o.Header? && o.name in visited && o.name !in visited0
  }

  ghost predicate Finished(g: Graph, header: Name, out: Output, visited: set<Name>) {
    Complete(g, out, header) && forall h | Includes(g, header, h) :: h in visited
  }

  /** The includes among the first n lines are visited, and complete unless they
      include the file again. */
  ghost predicate DoneAbove(g: Graph, out: Output, visited: set<Name>, file: Name, n: nat) {
    forall header | IncludedAbove(g, file, n, header) ::
      header in visited && (header != USER_CONFIG && !Reaches(g, header, file) ==> Complete(g, out, header))
  }

  /** `origin` stands for `file`; a header is visited before it is expanded. */
  ghost predicate Stands(origin: Origin, file: Name, visited: set<Name>) {
    origin.name == file && file != USER_CONFIG && (origin.Header? ==> file in visited)
  }

  lemma IncludedAboveNext(g: Graph, file: Name, n: nat, header: Name)
    requires n < |Lines(g, file)|
    ensures IncludedAbove(g, file, n + 1, header) <==>
            IncludedAbove(g, file, n, header) || Lines(g, file)[n] == EngineInclude(header)
  {}

  lemma IncludedAboveAll(g: Graph, file: Name, header: Name)
    requires Includes(g, file, header)
    ensures IncludedAbove(g, file, |Lines(g, file)|, header)
  {}

  // A kept line.

  lemma KeptLineInOrder(g: Graph, out: Output, visited: set<Name>, file: Name, origin: Origin, n: nat)
    requires Context(g, out, visited, file) && DoneAbove(g, out, visited, file, n) && origin.name == file
    ensures forall p | 0 <= p < |out| + 1 :: InOrder(g, out + [Emitted(origin, n)], p)
  {
    hide Own, Reaches, Complete, IncludedAbove;
    var out' := out + [Emitted(origin, n)];
    forall p | 0 <= p < |out'|
      ensures InOrder(g, out', p)
    {
      if p < |out| {
        assert InOrder(g, out, p);
        assert out'[..p] == out[..p] && out'[p] == out[p];
      } else {
        assert out'[..p] == out;
      }
    }
  }

  lemma KeptLineKeepsContext(g: Graph, out: Output, visited: set<Name>, file: Name, origin: Origin, n: nat)
    requires Context(g, out, visited, file) && DoneAbove(g, out, visited, file, n) && Stands(origin, file, visited)
    ensures Context(g, out + [Emitted(origin, n)], visited, file)
  {
    hide Own, Reaches, Kept, InOrder, DoneAbove;
    var out' := out + [Emitted(origin, n)];
    KeptLineInOrder(g, out, visited, file, origin, n);
    ReachesItself(g, file);
    forall h: Name
      ensures origin != Header(h) ==> Own(out', Header(h)) == Own(out, Header(h))
    {
      OwnSnoc(out, Emitted(origin, n), Header(h));
      SeqPlusNothing(Own(out, Header(h)));
    }
  }

  lemma SeqPlusNothing(s: seq<nat>)
    ensures s + [] == s
  {}

  lemma KeptLineKeepsExpanded(g: Graph, file: Name, origin: Origin, out0: Output, visited0: set<Name>,
                              out: Output, visited: set<Name>, n: nat)
    requires Expanded(g, file, origin, out0, visited0, out, visited) && Stands(origin, file, visited0)
    ensures Expanded(g, file, origin, out0, visited0, out + [Emitted(origin, n)], visited)
    ensures Own(out + [Emitted(origin, n)], origin) == Own(out, origin) + [n]
  {
    hide Own, IncludesDeeply, Kept, Includes;
    var out' := out + [Emitted(origin, n)];
    OwnSnoc(out, Emitted(origin, n), origin);
    forall o: Origin | o != origin
      ensures Own(out', o) == Own(out, o)
    {
      OwnSnoc(out, Emitted(origin, n), o);
      SeqPlusNothing(Own(out, o));
    }
  }

  lemma KeptLineKeepsDone(g: Graph, out: Output, visited: set<Name>, file: Name, origin: Origin, n: nat)
    requires DoneAbove(g, out, visited, file, n) && origin.name == file && n < |Lines(g, file)|
    requires !Lines(g, file)[n].EngineInclude?
    ensures DoneAbove(g, out + [Emitted(origin, n)], visited, file, n + 1)
    ensures DoneAbove(g, out, visited, file, n + 1)
  {
    hide Own, Reaches, Kept, IncludedAbove;
    ReachesItself(g, file);
    forall header
      ensures IncludedAbove(g, file, n + 1, header) <==> IncludedAbove(g, file, n, header)
      ensures header != file ==> Own(out + [Emitted(origin, n)], Header(header)) == Own(out, Header(header))
    {
      IncludedAboveNext(g, file, n, header);
      OwnSnoc(out, Emitted(origin, n), Header(header));
      SeqPlusNothing(Own(out, Header(header)));
    }
  }

  // An include.

  lemma VisitedIncludeIsDone(g: Graph, out: Output, visited: set<Name>, file: Name, n: nat, header: Name)
    requires Context(g, out, visited, file) && DoneAbove(g, out, visited, file, n)
    requires n < |Lines(g, file)| && Lines(g, file)[n] == EngineInclude(header) && header in visited
    ensures DoneAbove(g, out, visited, file, n + 1)
  {
    hide Reaches, Complete, IncludedAbove, InOrder, Own;
    forall h
      ensures IncludedAbove(g, file, n + 1, h) <==> IncludedAbove(g, file, n, h) || h == header
    {
      IncludedAboveNext(g, file, n, h);
    }
  }

  /** The generated configuration is visited, not expanded. */
  lemma ConfigIsVisited(g: Graph, file: Name, origin: Origin, out0: Output, visited0: set<Name>,
                        out: Output, visited: set<Name>, n: nat)
    requires Context(g, out, visited, file) && Expanded(g, file, origin, out0, visited0, out, visited)
    requires Includes(g, file, USER_CONFIG)
    requires DoneAbove(g, out, visited, file, n)
    ensures Context(g, out, visited + {USER_CONFIG}, file)
    ensures Expanded(g, file, origin, out0, visited0, out, visited + {USER_CONFIG})
    ensures DoneAbove(g, out, visited + {USER_CONFIG}, file, n)
  {
    hide Own, Reaches, Complete, IncludesDeeply, InOrder, Includes, IncludedAbove;
    IncludesDeeper(g, file, USER_CONFIG, USER_CONFIG);
  }

  /** A header is visited, and can be expanded. */
  lemma HeaderCanBeExpanded(g: Graph, out: Output, visited: set<Name>, file: Name, header: Name)
    requires Context(g, out, visited, file) && Includes(g, file, header) && header in Universe(g)
    requires header !in visited && header != USER_CONFIG
    ensures Context(g, out, visited + {header}, header)
    ensures Own(out, Header(header)) == []
  {
    hide Own, Reaches, Complete, InOrder, Includes;
    ReachesItself(g, header);
    forall h | h in visited && h != USER_CONFIG && Reaches(g, h, file)
      ensures Reaches(g, h, header)
    {
      ReachesNext(g, h, file, header);
    }
  }

  /** What the expansion of `header` from `(out, visited)` gave. */
  ghost predicate HeaderExpanded(g: Graph, header: Name, out: Output, visited: set<Name>,
                                 out': Output, visited': set<Name>) {
    && header !in visited && header != USER_CONFIG && Own(out, Header(header)) == []
    && Context(g, out', visited', header)
    && Expanded(g, header, Header(header), out, visited + {header}, out', visited')
    && Own(out', Header(header)) == Own(out, Header(header)) + Kept(g, header, true)
    && (forall h | Includes(g, header, h) :: h in visited')
  }

  /** It is complete then, and nothing visited before is touched. */
  lemma HeaderIsComplete(g: Graph, header: Name, out: Output, visited: set<Name>, out': Output, visited': set<Name>)
    requires HeaderExpanded(g, header, out, visited, out', visited')
    ensures Finished(g, header, out', visited')
    ensures forall h | h in visited :: Own(out', Header(h)) == Own(out, Header(h))
    ensures forall h | h in visited && Complete(g, out, h) :: Complete(g, out', h)
    ensures forall h | h in visited' && h !in visited && h != USER_CONFIG :: Finished(g, h, out', visited')
  {
    hide Own, Reaches, IncludesDeeply, InOrder, Includes, Kept;
    assert [] + Kept(g, header, true) == Kept(g, header, true);
  }

  lemma ExpandedHeaderKeepsContext(g: Graph, file: Name, header: Name, out: Output, visited: set<Name>,
                                   out': Output, visited': set<Name>)
    requires Context(g, out, visited, file) && HeaderExpanded(g, header, out, visited, out', visited')
    ensures Context(g, out', visited', file)
  {
    hide Own, Reaches, Complete, IncludesDeeply, InOrder, Includes, Kept;
    HeaderIsComplete(g, header, out, visited, out', visited');
  }

  lemma ExpandedHeaderKeepsDone(g: Graph, file: Name, header: Name, n: nat, out: Output, visited: set<Name>,
                                out': Output, visited': set<Name>)
    requires DoneAbove(g, out, visited, file, n) && HeaderExpanded(g, header, out, visited, out', visited')
    ensures DoneAbove(g, out', visited', file, n)
    ensures header in visited'
  {
    hide Own, Reaches, Complete, IncludesDeeply, InOrder, Includes, IncludedAbove, Context;
    HeaderIsComplete(g, header, out, visited, out', visited');
  }

  lemma ExpandedHeaderKeepsExpanded(g: Graph, file: Name, origin: Origin, out0: Output, visited0: set<Name>,
                                    header: Name, out: Output, visited: set<Name>, out': Output, visited': set<Name>)
    requires Expanded(g, file, origin, out0, visited0, out, visited)
    requires Stands(origin, file, visited0) && Includes(g, file, header)
    requires HeaderExpanded(g, header, out, visited, out', visited')
    ensures Expanded(g, file, origin, out0, visited0, out', visited')
    ensures Own(out', origin) == Own(out, origin)
  {
    hide Own, Reaches, Complete, IncludesDeeply, InOrder, Includes, Context, Kept;
    HeaderIsComplete(g, header, out, visited, out', visited');
    forall h | h in visited' && h !in visited0
      ensures IncludesDeeply(g, file, h)
    {
      IncludesDeeper(g, file, header, h);
    }
    forall o: Origin | o != origin && !IsNew(o, visited0, visited')
      ensures Own(out', o) == Own(out0, o)
    {
      assert Own(out', o) == Own(out, o);
    }
  }

  /** The kept lines of a file, without its includes. */
  function WithoutIncludes(origin: Origin, kept: seq<nat>): (out: Output)
    ensures |out| == |kept| && forall i | 0 <= i < |out| :: out[i] == Emitted(origin, kept[i])
  {
    seq(|kept|, i requires 0 <= i < |kept| => Emitted(origin, kept[i]))
  }

  lemma CopiedMeans(g: Graph, file: Name, origin: Origin)
    ensures var copied := WithoutIncludes(origin, Kept(g, file, false));
            && (forall line :: line in copied <==>
                  line.origin == origin && line.index < |Lines(g, file)| && Lines(g, file)[line.index] == Plain)
            && (forall p, q | 0 <= p < q < |copied| :: copied[p].index < copied[q].index)
  {
    var kept := Kept(g, file, false);
    var copied := WithoutIncludes(origin, kept);
    KeptUpToMeans(Lines(g, file), |Lines(g, file)|, false);
    forall line: Emitted | line.origin == origin && line.index in kept
      ensures line in copied
    {
      var i :| 0 <= i < |kept| && kept[i] == line.index;
      assert copied[i] == line;
    }
    forall line: Emitted | line in copied
      ensures line.origin == origin && line.index in kept
    {
      var i :| 0 <= i < |copied| && copied[i] == line;
      assert kept[i] in kept;
    }
  }

  class Generator {
    const g: Graph
    var concatenatedHeaders: set<Name>

    constructor (g: Graph)
      ensures this.g == g && concatenatedHeaders == {}
    {
      this.g := g;
      concatenatedHeaders := {};
    }

    /** `Concatenate` without expanding headers. */
    method CopyLines(out: Output, file: Name, origin: Origin) returns (out': Output)
      ensures out' == out + WithoutIncludes(origin, Kept(g, file, false))
      ensures forall line :: line in out'[|out|..] <==>
                line.origin == origin && line.index < |Lines(g, file)| && Lines(g, file)[line.index] == Plain
      ensures forall p, q | |out| <= p < q < |out'| :: out'[p].index < out'[q].index
    {
      CopiedMeans(g, file, origin);
      out' := out;
      var lines := Lines(g, file);
      for n := 0 to |lines|
        invariant out' == out + WithoutIncludes(origin, KeptUpTo(lines, n, false))
      {
        if lines[n].Dropped? || lines[n].EngineInclude? {
          continue;
        }
        if !lines[n].RunnerInclude? {
          out' := out' + [Emitted(origin, n)];
        }
      }
    }

    /** `Concatenate` with headers expanded. */
    method Concatenate(out: Output, file: Name, origin: Origin) returns (out': Output)
      requires ValidGraph(g)
      requires Context(g, out, concatenatedHeaders, file) && Stands(origin, file, concatenatedHeaders)
      modifies this
      ensures Context(g, out', concatenatedHeaders, file)
      ensures Expanded(g, file, origin, out, old(concatenatedHeaders), out', concatenatedHeaders)
      ensures Own(out', origin) == Own(out, origin) + Kept(g, file, true)
      ensures forall h | Includes(g, file, h) :: h in concatenatedHeaders
      decreases Universe(g) - concatenatedHeaders
    {
      hide Context, Expanded, DoneAbove, Own, Reaches, Includes, Complete;
      out' := out;
      var lines := Lines(g, file);
      Beginning(g, file, origin, out, concatenatedHeaders);
      for n := 0 to |lines|
        invariant Context(g, out', concatenatedHeaders, file) && old(concatenatedHeaders) <= concatenatedHeaders
        invariant Expanded(g, file, origin, out, old(concatenatedHeaders), out', concatenatedHeaders)
        invariant DoneAbove(g, out', concatenatedHeaders, file, n)
        invariant Own(out', origin) == Own(out, origin) + KeptUpTo(lines, n, true)
      {
        var line := lines[n];
        if line.EngineInclude? {
          out' := Include(out', file, origin, n, out, old(concatenatedHeaders));
          continue;
        }
        KeptLineKeepsDone(g, out', concatenatedHeaders, file, origin, n);
        if IsKept(line, true) {
          KeptLineKeepsContext(g, out', concatenatedHeaders, file, origin, n);
          KeptLineKeepsExpanded(g, file, origin, out, old(concatenatedHeaders), out', concatenatedHeaders, n);
          out' := out' + [Emitted(origin, n)];
        }
      }
      AllIncludesAreDone(g, out', concatenatedHeaders, file);
    }

    /** One engine include: the header is expanded here if no include of it came
        before. */
    method Include(out: Output, file: Name, origin: Origin, n: nat, ghost out0: Output, ghost visited0: set<Name>)
      returns (out': Output)
      requires ValidGraph(g) && n < |Lines(g, file)| && Lines(g, file)[n].EngineInclude?
      requires Stands(origin, file, visited0) && visited0 <= concatenatedHeaders
      requires Context(g, out, concatenatedHeaders, file) && DoneAbove(g, out, concatenatedHeaders, file, n)
      requires Expanded(g, file, origin, out0, visited0, out, concatenatedHeaders)
      modifies this
      ensures Context(g, out', concatenatedHeaders, file) && DoneAbove(g, out', concatenatedHeaders, file, n + 1)
      ensures Expanded(g, file, origin, out0, visited0, out', concatenatedHeaders)
      ensures Own(out', origin) == Own(out, origin) && old(concatenatedHeaders) <= concatenatedHeaders
      decreases Universe(g) - concatenatedHeaders, 0
    {
      hide Context, Expanded, DoneAbove, Own, Reaches, Complete;
      out' := out;
      var header := Lines(g, file)[n].name;
      ghost var before := concatenatedHeaders;
      assert Includes(g, file, header) && header in Universe(g);
      if header !in concatenatedHeaders {
        if header == USER_CONFIG {
          ConfigIsVisited(g, file, origin, out0, visited0, out, before, n);
          concatenatedHeaders := concatenatedHeaders + {header};
        } else {
          HeaderCanBeExpanded(g, out, before, file, header);
          concatenatedHeaders := concatenatedHeaders + {header};
          out' := Concatenate(out', header, Header(header));
          assert HeaderExpanded(g, header, out, before, out', concatenatedHeaders);
          ExpandedHeaderKeepsContext(g, file, header, out, before, out', concatenatedHeaders);
          ExpandedHeaderKeepsDone(g, file, header, n, out, before, out', concatenatedHeaders);
          ExpandedHeaderKeepsExpanded(g, file, origin, out0, visited0, header, out, before, out', concatenatedHeaders);
          ExpandedGrows(g, header, Header(header), out, before + {header}, out', concatenatedHeaders);
        }
      }
      VisitedIncludeIsDone(g, out', concatenatedHeaders, file, n, header);
    }
  }

  lemma Beginning(g: Graph, file: Name, origin: Origin, out: Output, visited: set<Name>)
    ensures Expanded(g, file, origin, out, visited, out, visited)
    ensures DoneAbove(g, out, visited, file, 0)
    ensures Own(out, origin) + [] == Own(out, origin)
  {}

  lemma ExpandedGrows(g: Graph, file: Name, origin: Origin, out0: Output, visited0: set<Name>,
                      out: Output, visited: set<Name>)
    requires Expanded(g, file, origin, out0, visited0, out, visited)
    ensures out0 <= out && visited0 <= visited
  {}

  lemma AllIncludesAreDone(g: Graph, out: Output, visited: set<Name>, file: Name)
    requires DoneAbove(g, out, visited, file, |Lines(g, file)|)
    ensures forall h | Includes(g, file, h) :: h in visited
  {
    hide IncludedAbove, Includes, Reaches, Complete;
    forall h | Includes(g, file, h)
      ensures IncludedAbove(g, file, |Lines(g, file)|, h)
    {
      IncludedAboveAll(g, file, h);
    }
  }

  const ALL: Name := "Progmasoft/Catch3/All.hpp"
  const MOCK: Name := "Progmasoft/Catch3/Mock.hpp"

  /** Whether one of the two roots includes the header, directly or not. */
  ghost predicate IsNeeded(g: Graph, header: Name) {
    IncludesDeeply(g, ALL, header) || IncludesDeeply(g, MOCK, header)
  }

  /** How the output reads: the lines of the roots, the lines of each needed header
      once, all in source order, and nothing else. */
  ghost predicate IsAmalgamation(g: Graph, out: Output) {
    && Own(out, Root(ALL)) == Kept(g, ALL, true)
    && Own(out, Root(MOCK)) == Kept(g, MOCK, true)
    && (forall name | name != ALL && name != MOCK :: Own(out, Root(name)) == [])
    && (forall h | IsNeeded(g, h) && h != USER_CONFIG :: Complete(g, out, h))
    && (forall h | !IsNeeded(g, h) || h == USER_CONFIG :: Own(out, Header(h)) == [])
  }

  /** The expansions of `Generator::Header`: both roots, with one set of headers. */
  method ExpandHeaders(g: Graph) returns (out: Output, expanded: set<Name>)
    requires ValidGraph(g)
    ensures forall h :: h in expanded <==> IsNeeded(g, h)
    ensures IsAmalgamation(g, out)
    ensures forall line :: line in out <==> Belongs(g, line.origin) && IsCode(g, line.origin.name, line.index)
    ensures forall p, q | 0 <= p < q < |out| && out[p].origin == out[q].origin :: out[p].index < out[q].index
    ensures forall p | 0 <= p < |out| :: InOrder(g, out, p)
  {
    hide Belongs, IsCode, Own, Kept, Reaches, IncludesDeeply, Includes, InOrder, IsAmalgamation, Complete;
    var generator := new Generator(g);
    NothingYet(g);
    var first := generator.Concatenate([], ALL, Root(ALL));
    ghost var visited := generator.concatenatedHeaders;
    NextRoot(g, first, visited);
    out := generator.Concatenate(first, MOCK, Root(MOCK));
    expanded := generator.concatenatedHeaders;
    ExpandedAreNeeded(g, first, visited, out, expanded);
    OutputIsAmalgamation(g, first, visited, out, expanded);
    AmalgamationMeans(g, out);
  }

  /** A file that the amalgamated header has to show: a root, or a header that a root
      needs, without the user configuration. */
  ghost predicate Belongs(g: Graph, origin: Origin) {
    match origin
    case Root(name) => name == ALL || name == MOCK
    case Header(name) => IsNeeded(g, name) && name != USER_CONFIG
  }

  /** Line n of a file is code, or an include of the runner. */
  predicate IsCode(g: Graph, file: Name, n: nat) {
    n < |Lines(g, file)| && (Lines(g, file)[n] == Plain || Lines(g, file)[n] == RunnerInclude)
  }

  /** The output has exactly the code of the files that belong to it, line by line and
      each line once, in source order. */
  lemma AmalgamationMeans(g: Graph, out: Output)
    requires IsAmalgamation(g, out)
    ensures forall line :: line in out <==> Belongs(g, line.origin) && IsCode(g, line.origin.name, line.index)
    ensures forall p, q | 0 <= p < q < |out| && out[p].origin == out[q].origin :: out[p].index < out[q].index
  {
    hide Own, IsNeeded, KeptUpTo;
    forall origin: Origin
      ensures Increasing(Own(out, origin))
      ensures forall n: nat :: n in Own(out, origin) <==> Belongs(g, origin) && IsCode(g, origin.name, n)
    {
      KeptUpToMeans(Lines(g, origin.name), |Lines(g, origin.name)|, true);
      assert Own(out, origin) == if Belongs(g, origin) then Kept(g, origin.name, true) else [];
    }
    forall origin: Origin
      ensures forall n: nat :: Emitted(origin, n) in out <==> Belongs(g, origin) && IsCode(g, origin.name, n)
      ensures forall p, q | 0 <= p < q < |out| && out[p].origin == out[q].origin == origin ::
                out[p].index < out[q].index
    {
      OwnMembers(out, origin);
      OwnOrdered(out, origin);
    }
    forall line: Emitted
      ensures line in out <==> Belongs(g, line.origin) && IsCode(g, line.origin.name, line.index)
    {
      assert line == Emitted(line.origin, line.index);
    }
  }

  /** Whatever line comes after an include in its file comes after all code of the
      included header, unless that header includes the file again. */
  lemma OrderMeans(g: Graph, out: Output, p: nat, i: nat, header: Name, n: nat)
    requires p < |out| && InOrder(g, out, p)
    requires i < out[p].index && i < |Lines(g, out[p].origin.name)|
    requires Lines(g, out[p].origin.name)[i] == EngineInclude(header)
    requires header != USER_CONFIG && !Reaches(g, header, out[p].origin.name) && IsCode(g, header, n)
    ensures exists q | 0 <= q < p :: out[q] == Emitted(Header(header), n)
  {
    assert IncludedAbove(g, out[p].origin.name, out[p].index, header);
    assert Complete(g, out[..p], header);
    KeptUpToMeans(Lines(g, header), |Lines(g, header)|, true);
    OwnMembers(out[..p], Header(header));
    assert Emitted(Header(header), n) in out[..p];
  }

  lemma NothingYet(g: Graph)
    ensures Context(g, [], {}, ALL) && Own([], Root(ALL)) == [] && Own([], Root(MOCK)) == []
  {}

  lemma NextRoot(g: Graph, out: Output, visited: set<Name>)
    requires Context(g, out, visited, ALL) && Expanded(g, ALL, Root(ALL), [], {}, out, visited)
    ensures Context(g, out, visited, MOCK)
  {
    hide Own, Kept, Reaches, IncludesDeeply, Includes, InOrder;
  }

  lemma ExpandedAreNeeded(g: Graph, first: Output, visited: set<Name>, out: Output, expanded: set<Name>)
    requires Expanded(g, ALL, Root(ALL), [], {}, first, visited)
    requires Expanded(g, MOCK, Root(MOCK), first, visited, out, expanded)
    requires forall h | Includes(g, ALL, h) :: h in visited
    requires forall h | Includes(g, MOCK, h) :: h in expanded
    ensures forall h :: h in expanded <==> IsNeeded(g, h)
  {
    hide Own, Kept, Reaches, IncludesDeeply, InOrder, Complete, Includes;
    ConfigIncludesNothing(g);
    forall h, h' | h in expanded && Includes(g, h, h')
      ensures h' in expanded
    {
      assert if h in visited then Finished(g, h, first, visited) else Finished(g, h, out, expanded);
    }
    forall h | IsNeeded(g, h)
      ensures h in expanded
    {
      if IncludesDeeply(g, ALL, h) {
        ClosedHoldsAll(g, expanded, ALL, h);
      } else {
        ClosedHoldsAll(g, expanded, MOCK, h);
      }
    }
  }

  lemma ConfigIncludesNothing(g: Graph)
    ensures forall h :: !Includes(g, USER_CONFIG, h)
  {}

  lemma OutputIsAmalgamation(g: Graph, first: Output, visited: set<Name>, out: Output, expanded: set<Name>)
    requires Context(g, out, expanded, MOCK)
    requires Expanded(g, ALL, Root(ALL), [], {}, first, visited)
    requires Expanded(g, MOCK, Root(MOCK), first, visited, out, expanded)
    requires Own(first, Root(ALL)) == Own([], Root(ALL)) + Kept(g, ALL, true)
    requires Own(out, Root(MOCK)) == Own(first, Root(MOCK)) + Kept(g, MOCK, true)
    requires forall h :: h in expanded <==> IsNeeded(g, h)
    ensures IsAmalgamation(g, out)
  {
    hide Kept, Reaches, IncludesDeeply, InOrder, Includes, IsNeeded;
    assert [] + Kept(g, ALL, true) == Kept(g, ALL, true) && [] + Kept(g, MOCK, true) == Kept(g, MOCK, true);
    forall h | h in expanded && h != USER_CONFIG
      ensures Complete(g, out, h)
    {
      if h in visited {
        assert Finished(g, h, first, visited);
        assert Own(out, Header(h)) == Own(first, Header(h));
      } else {
        assert Finished(g, h, out, expanded);
      }
    }
  }
}
