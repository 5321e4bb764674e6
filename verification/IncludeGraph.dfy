/** The include graph of the engine's headers, and the text an amalgamation makes
    of it, as a list of where each line came from. */
module IncludeGraph {

  type Name = string

  /** A line of a file, as the amalgamation sees it. */
  datatype Line =
    | Dropped                 // `#pragma once` and copyright lines
    | Plain
    | RunnerInclude
    | EngineInclude(name: Name)

  /** The files, and the engine headers an include can name. */
  datatype Graph = Graph(files: map<Name, seq<Line>>, upstream: set<Name>)

  const USER_CONFIG: Name := "Progmasoft/Catch3/UserConfig.hpp"

  /** A file that cannot be read is reported, and has no lines. */
  function Lines(g: Graph, file: Name): seq<Line> {
    if file in g.files then g.files[file] else []
  }

  function Universe(g: Graph): set<Name> {
    g.upstream + {USER_CONFIG}
  }

  /** An include of any other header is not an engine include. */
  ghost predicate ValidGraph(g: Graph) {
    forall file | file in g.files ::
      forall i | 0 <= i < |g.files[file]| && g.files[file][i].EngineInclude? :: g.files[file][i].name in Universe(g)
  }

  /** `file` is expanded, and one of its lines includes `header`. */
  ghost predicate Includes(g: Graph, file: Name, header: Name) {
    file != USER_CONFIG && EngineInclude(header) in Lines(g, file)
  }

  ghost predicate IsPath(g: Graph, path: seq<Name>) {
    path != [] &&
    forall i | 0 <= i < |path| - 1 :: Includes(g, path[i], path[i + 1])
  }

  /** `a` is `b`, or includes it, directly or not. */
  ghost predicate Reaches(g: Graph, a: Name, b: Name) {
    exists path :: IsPath(g, path) && path[0] == a && path[|path| - 1] == b
  }

  /** `file` includes `header`, directly or not. */
  ghost predicate IncludesDeeply(g: Graph, file: Name, header: Name) {
    exists first :: Includes(g, file, first) && Reaches(g, first, header)
  }

  lemma ReachesItself(g: Graph, a: Name)
    ensures Reaches(g, a, a)
  {
    assert IsPath(g, [a]);
  }

  lemma PathSnoc(g: Graph, path: seq<Name>, last: Name)
    requires IsPath(g, path) && Includes(g, path[|path| - 1], last)
    ensures IsPath(g, path + [last])
  {
    hide Includes;
  }

  lemma PathCons(g: Graph, first: Name, path: seq<Name>)
    requires IsPath(g, path) && Includes(g, first, path[0])
    ensures IsPath(g, [first] + path)
  {
    hide Includes;
  }

  lemma ReachesNext(g: Graph, a: Name, b: Name, c: Name)
    requires Reaches(g, a, b) && Includes(g, b, c)
    ensures Reaches(g, a, c)
  {
    hide Includes;
    var path :| IsPath(g, path) && path[0] == a && path[|path| - 1] == b;
    PathSnoc(g, path, c);
    assert (path + [c])[0] == a && (path + [c])[|path|] == c;
  }

  lemma IncludesDeeper(g: Graph, file: Name, child: Name, header: Name)
    requires Includes(g, file, child)
    ensures IncludesDeeply(g, file, child)
    ensures IncludesDeeply(g, child, header) ==> IncludesDeeply(g, file, header)
  {
    hide Includes;
    ReachesItself(g, child);
    if IncludesDeeply(g, child, header) {
      var first :| Includes(g, child, first) && Reaches(g, first, header);
      var path :| IsPath(g, path) && path[0] == first && path[|path| - 1] == header;
      PathCons(g, child, path);
      assert ([child] + path)[0] == child && ([child] + path)[|path|] == header;
    }
  }

  /** A set that holds what a file includes, and what its members include, holds
      everything the file includes deeply. */
  lemma {:induction false} ClosedHoldsPath(g: Graph, closed: set<Name>, path: seq<Name>)
    requires forall h, header | h in closed && Includes(g, h, header) :: header in closed
    requires IsPath(g, path) && path[0] in closed
    ensures path[|path| - 1] in closed
    decreases |path|
  {
    if |path| == 1 {
    } else {
      assert Includes(g, path[0], path[1]);
      ClosedHoldsPath(g, closed, path[1..]);
    }
  }

  lemma ClosedHoldsAll(g: Graph, closed: set<Name>, file: Name, header: Name)
    requires forall h, h' | h in closed && Includes(g, h, h') :: h' in closed
    requires forall h | Includes(g, file, h) :: h in closed
    requires IncludesDeeply(g, file, header)
    ensures header in closed
  {
    var first :| Includes(g, file, first) && Reaches(g, first, header);
    var path :| IsPath(g, path) && path[0] == first && path[|path| - 1] == header;
    ClosedHoldsPath(g, closed, path);
  }

  // The output.

  /** A file put in as a whole, or as a header in place of its include. */
  datatype Origin = Root(name: Name) | Header(name: Name)

  /** One line of the output. */
  datatype Emitted = Emitted(origin: Origin, index: nat)

  type Output = seq<Emitted>

  predicate IsKept(line: Line, expandHeaders: bool) {
    line.Plain? || (line.RunnerInclude? && expandHeaders)
  }

  /** The indices of the kept ones among the first n lines. */
  function KeptUpTo(lines: seq<Line>, n: nat, expandHeaders: bool): seq<nat>
    requires n <= |lines|
  {
    if n == 0 then []
    else KeptUpTo(lines, n - 1, expandHeaders) + if IsKept(lines[n - 1], expandHeaders) then [n - 1] else []
  }

  function Kept(g: Graph, file: Name, expandHeaders: bool): seq<nat> {
    KeptUpTo(Lines(g, file), |Lines(g, file)|, expandHeaders)
  }

  /** The lines of one origin in the output, in their order there. */
  function Own(out: Output, origin: Origin): seq<nat> {
    if out == [] then []
    else
      var last := out[|out| - 1];
      Own(out[..|out| - 1], origin) + if last.origin == origin then [last.index] else []
  }

  lemma OwnSnoc(out: Output, line: Emitted, origin: Origin)
    ensures Own(out + [line], origin) == Own(out, origin) + if line.origin == origin then [line.index] else []
  {
    assert (out + [line])[..|out|] == out;
  }

  /** Code is kept, and the runner's includes when headers are expanded; nothing else. */
  lemma {:induction false} KeptUpToMeans(lines: seq<Line>, n: nat, expandHeaders: bool)
    requires n <= |lines|
    ensures forall k :: k in KeptUpTo(lines, n, expandHeaders) <==>
              0 <= k < n && (lines[k] == Plain || (lines[k] == RunnerInclude && expandHeaders))
    ensures Increasing(KeptUpTo(lines, n, expandHeaders))
  {
    if n == 0 {
    } else {
      var before := KeptUpTo(lines, n - 1, expandHeaders);
      KeptUpToMeans(lines, n - 1, expandHeaders);
      IncreasingSnoc(before, n - 1);
    }
  }

  predicate Increasing(s: seq<nat>) {
    forall i, j | 0 <= i < j < |s| :: s[i] < s[j]
  }

  lemma IncreasingSnoc(s: seq<nat>, last: nat)
    ensures Increasing(s + [last]) <==> Increasing(s) && forall k | k in s :: k < last
  {
    var t := s + [last];
    if Increasing(t) {
      forall i, j | 0 <= i < j < |s|
        ensures s[i] < s[j]
      {
        assert t[i] < t[j];
      }
      forall k | k in s
        ensures k < last
      {
        var i :| 0 <= i < |s| && s[i] == k;
        assert t[i] < t[|s|];
      }
    }
    if Increasing(s) && forall k | k in s :: k < last {
      forall i, j | 0 <= i < j < |t|
        ensures t[i] < t[j]
      {
        assert s[i] in s && (j < |s| ==> s[i] < s[j]);
      }
    }
  }

  /** The lines of an origin are those the output has of it. */
  lemma {:induction false} OwnMembers(out: Output, origin: Origin)
    ensures forall k :: k in Own(out, origin) <==> Emitted(origin, k) in out
  {
    if out == [] {
    } else {
      var last := |out| - 1;
      OwnMembers(out[..last], origin);
      assert out == out[..last] + [out[last]];
    }
  }

  lemma {:induction false} OwnOrdered(out: Output, origin: Origin)
    requires Increasing(Own(out, origin))
    ensures forall p, q | 0 <= p < q < |out| && out[p].origin == out[q].origin == origin :: out[p].index < out[q].index
  {
    if out == [] {
    } else {
      var last := |out| - 1;
      var before := out[..last];
      IncreasingSnoc(Own(before, origin), out[last].index);
      assert Own(out, origin) == Own(before, origin) + if out[last].origin == origin then [out[last].index] else [];
      assert Own(before, origin) + [] == Own(before, origin);
      OwnOrdered(before, origin);
      OwnMembers(before, origin);
      forall p, q | 0 <= p < q < |out| && out[p].origin == out[q].origin == origin
        ensures out[p].index < out[q].index
      {
        assert out[p] == before[p] && out[p] == Emitted(origin, out[p].index);
        if q < last {
          assert out[q] == before[q];
        }
      }
    }
  }

  /** The kept lines of a header are in the output, once each and in order. */
  ghost predicate Complete(g: Graph, out: Output, header: Name) {
    Own(out, Header(header)) == Kept(g, header, true)
  }

  /** Before line p of the output come all lines of the headers that the file of
      line p includes further up, except those that include the file again. */
  ghost predicate InOrder(g: Graph, out: Output, p: nat)
    requires p < |out|
  {
    forall header | IncludedAbove(g, out[p].origin.name, out[p].index, header)
                    && header != USER_CONFIG && !Reaches(g, header, out[p].origin.name) ::
      Complete(g, out[..p], header)
  }

  ghost predicate IncludedAbove(g: Graph, file: Name, n: nat, header: Name) {
    exists i | 0 <= i < n && i < |Lines(g, file)| :: Lines(g, file)[i] == EngineInclude(header)
  }
}
