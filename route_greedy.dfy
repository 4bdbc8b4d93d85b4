/** The greedy variant of the route trie: the same nodes and the same
    insertion, but the lookup walks down one path and never backtracks.
    At each segment it takes the exact child if there is one, else the
    '*' child, else it fails. */
module RouteGreedy {
  import opened Common
  import opened RouteTries

  /** The walk of `findRoute`: the node reached after `segments[i..]` and
      the parameters bound on the way, or nothing when a segment has
      neither an exact nor a '*' child. A '*' child is taken whether or
      not it has a parameter name; only a named one binds the segment. */
  function Walk(n: Node, segments: seq<string>, i: nat, params: Params): Option<(Node, Params)>
    decreases |segments| - i
  {
    if i >= |segments| then Some((n, params))
    else if segments[i] in n.children then Walk(n.children[segments[i]], segments, i + 1, params)
    else if "*" in n.children then
      var p := n.children["*"];
      var bound := if p.paramNames != [] then params[p.paramNames[|p.paramNames| - 1] := segments[i]] else params;
      Walk(p, segments, i + 1, bound)
    else None
  }

  /** The answer of the greedy `findRoute`. The whole path is split,
      query string included. */
  function GreedyLookup(root: Node, path: string, verb: string): RouteMatch
  {
    match Walk(root, Segments(path), 0, map[])
    case None => NoMatch
    case Some((n, params)) =>
      if Handles(n, verb) then RouteMatch(n.handlers[verb], params) else NoMatch
  }

  /** Exact children only: the walk is the exact descent. */
  lemma {:induction false} WalkFollows(n: Node, segments: seq<string>, i: nat, params: Params)
    requires i <= |segments|
    requires Follow(n, segments[i..]).Some?
    ensures Walk(n, segments, i, params) == Some((Follow(n, segments[i..]).value, params))
    decreases |segments| - i
  {
    if i < |segments| {
      assert segments[i..][1..] == segments[i + 1..];
      WalkFollows(n.children[segments[i]], segments, i + 1, params);
    }
  }

  /** After adding a static route, the greedy lookup of that path answers
      with the handler just added and no parameters. */
  lemma GreedyAddThenFind(root: Node, path: string, verb: string, handler: string)
    requires AllStatic(Segments(path))
    ensures GreedyLookup(Insert(root, Segments(path), verb, handler), path, verb) == RouteMatch(handler, map[])
  {
    var segs := Segments(path);
    InsertThenFollow(root, segs, verb, handler);
    assert segs[0..] == segs;
    WalkFollows(Insert(root, segs, verb, handler), segs, 0, map[]);
  }

  /** Every '*' child the walk passes through carries a parameter name. */
  predicate Named(n: Node, segments: seq<string>, i: nat)
    decreases |segments| - i
  {
    if i >= |segments| then true
    else if segments[i] in n.children then Named(n.children[segments[i]], segments, i + 1)
    else if "*" in n.children then n.children["*"].paramNames != [] && Named(n.children["*"], segments, i + 1)
    else true
  }

  /** The greedy walk is the first path the backtracking search explores:
      when it ends on a leaf (and passes only named '*' children), that
      leaf is the first match collected. */
  lemma {:induction false} WalkIsFirstMatch(n: Node, segments: seq<string>, i: nat, params: Params)
    requires i <= |segments|
    requires Named(n, segments, i)
    requires Walk(n, segments, i, params).Some? && Walk(n, segments, i, params).value.0.isLeaf
    ensures Matches(n, segments, i, params) != []
    ensures Matches(n, segments, i, params)[0] == Walk(n, segments, i, params).value
    decreases |segments| - i
  {
    if i < |segments| {
      var seg := segments[i];
      if seg in n.children {
        WalkIsFirstMatch(n.children[seg], segments, i + 1, params);
      } else {
        var p := n.children["*"];
        var bound := params[p.paramNames[|p.paramNames| - 1] := seg];
        WalkIsFirstMatch(p, segments, i + 1, bound);
        assert ExactPart(n, segments, i, params) == [];
        assert ParamPart(n, segments, i, params) == Matches(p, segments, i + 1, bound);
      }
    }
  }

  /** When the greedy lookup finds a handler, the backtracking lookup finds
      the same handler with the same parameters (for a path without a
      query string, passing only named '*' children). */
  lemma GreedyAgreesWhenFound(root: Node, path: string, verb: string)
    requires '?' !in path
    requires Named(root, Segments(path), 0)
    requires Walk(root, Segments(path), 0, map[]).Some?
    requires Handles(Walk(root, Segments(path), 0, map[]).value.0, verb)
    ensures Lookup(root, path, verb) == GreedyLookup(root, path, verb)
  {
    NoQuery(path);
    WalkIsFirstMatch(root, Segments(path), 0, map[]);
  }

  /** The greedy walk does not back up: a dead end below an exact child
      fails the lookup even where the '*' child would lead to a handler.
      With "/a/b" and "/:x/c" added, "/a/c" finds nothing greedily, while
      the backtracking lookup finds the second route. */
  lemma NoBacktracking(verb: string, first: string, second: string)
    ensures var t := Insert(Insert(EmptyNode, ["a", "b"], verb, first), [":x", "c"], verb, second);
      && GreedyLookup(t, "/a/c", verb) == NoMatch
      && Lookup(t, "/a/c", verb) == RouteMatch(second, map["x" := "a"])
  {
    var t := BacktrackTrie(verb, first, second);
    BacktrackShape(verb, first, second);
    assert "/a/c" == "/" + "a" + "/" + "c";
    TwoSegmentPath("a", "c");
    NoQuery("/a/c");
    BacktrackWalk(verb, first, second);
    assert GreedyLookup(t, "/a/c", verb) == NoMatch;
    BacktrackMatches(verb, first, second);
  }

  /** The trie of `NoBacktracking`, written out. */
  function BacktrackTrie(verb: string, first: string, second: string): Node
  {
    Node(map["a" := Node(map["b" := Node(map[], map[verb := first], [], true)], map[], [], false),
             "*" := Node(map["c" := Node(map[], map[verb := second], [], true)], map[], ["x"], false)],
         map[], [], false)
  }

  lemma BacktrackWalk(verb: string, first: string, second: string)
    ensures Walk(BacktrackTrie(verb, first, second), ["a", "c"], 0, map[]) == None
  {
    var a := BacktrackTrie(verb, first, second).children["a"];
    assert Walk(a, ["a", "c"], 1, map[]) == None;
  }

  lemma BacktrackMatches(verb: string, first: string, second: string)
    ensures Matches(BacktrackTrie(verb, first, second), ["a", "c"], 0, map[]) ==
            [(Node(map[], map[verb := second], [], true), map["x" := "a"])]
  {
    var t := BacktrackTrie(verb, first, second);
    var segs := ["a", "c"];
    var a := t.children["a"];
    var x := t.children["*"];
    var leafC := x.children["c"];
    var bound: Params := map["x" := "a"];
    assert Matches(a, segs, 1, map[]) == [];
    assert Matches(leafC, segs, 2, bound) == [(leafC, bound)];
    assert ExactPart(x, segs, 1, bound) == [(leafC, bound)];
    assert Matches(x, segs, 1, bound) == [(leafC, bound)];
    assert ParamPart(t, segs, 0, map[]) == [(leafC, bound)];
  }

  lemma BacktrackShape(verb: string, first: string, second: string)
    ensures Insert(Insert(EmptyNode, ["a", "b"], verb, first), [":x", "c"], verb, second) ==
            BacktrackTrie(verb, first, second)
  {
    var leafB := Node(map[], map[verb := first], [], true);
    var leafC := Node(map[], map[verb := second], [], true);
    var a := Node(map["b" := leafB], map[], [], false);
    assert Insert(EmptyNode, ["b"], verb, first) == a by {
      assert ["b"][1..] == [];
    }
    assert Insert(EmptyNode, ["a", "b"], verb, first) == Node(map["a" := a], map[], [], false) by {
      assert ["a", "b"][1..] == ["b"];
    }
    assert Insert(EmptyNode.(paramNames := ["x"]), ["c"], verb, second) ==
           Node(map["c" := leafC], map[], ["x"], false) by {
      assert ["c"][1..] == [];
    }
    assert IsParam(":x") && ":x"[1..] == "x";
    assert [":x", "c"][1..] == ["c"];
    assert EmptyNode.paramNames + ["x"] == ["x"];
  }

  /** As written (name on the parent), a trailing parameter is walked
      through but its value is not recorded: "/s/:name" answers "/s/v"
      with the handler and no parameters. */
  lemma TrailingParamUnrecordedAsWritten(s: string, name: string, v: string, verb: string, handler: string)
    requires ParamRoute(s, name, v)
    ensures GreedyLookup(InsertAsWritten(EmptyNode, [s, ":" + name], verb, handler), "/" + s + "/" + v, verb)
            == RouteMatch(handler, map[])
  {
    var leaf := Node(map[], map[verb := handler], [], true);
    var u := Node(map["*" := leaf], map[], [name], false);
    AsWrittenShape(s, name, verb, handler);
    TwoSegmentPath(s, v);
    NoQuery("/" + s + "/" + v);
    assert Walk(u, [s, v], 1, map[]) == Some((leaf, map[]));
  }

  /** With the name on the '*' child the value is recorded. */
  lemma TrailingParamRecorded(s: string, name: string, v: string, verb: string, handler: string)
    requires ParamRoute(s, name, v)
    ensures GreedyLookup(Insert(EmptyNode, [s, ":" + name], verb, handler), "/" + s + "/" + v, verb)
            == RouteMatch(handler, map[name := v])
  {
    var leaf := Node(map[], map[verb := handler], [name], true);
    var u := Node(map["*" := leaf], map[], [], false);
    CorrectedShape(s, name, verb, handler);
    TwoSegmentPath(s, v);
    NoQuery("/" + s + "/" + v);
    assert Walk(u, [s, v], 1, map[]) == Some((leaf, map[name := v]));
  }

  // ---------------------------------------------------------------------
  // The router object of the benchmark.

  class GreedyRouter {
    var root: Node

    constructor ()
      ensures root == EmptyNode
    {
      root := EmptyNode;
    }

    /** `addRoute` as written: a ":name" segment's name goes onto the node
        above the '*' child. On a route without parameters this is the
        corrected insertion. The list of parameter names it is given is not
        used. */
    method AddRoute(path: string, verb: string, handler: string, paramNames: seq<string>)
      modifies this
      ensures root == InsertAsWritten(old(root), Segments(path), verb, handler)
      ensures AllStatic(Segments(path)) ==> root == Insert(old(root), Segments(path), verb, handler)
    {
      var segments := SplitPath(path);
      root := InsertAsWritten(root, segments, verb, handler);
      if AllStatic(segments) {
        InsertStaticAgrees(old(root), segments, verb, handler);
      }
    }

    /** `addRoute` with the parameter name recorded on the '*' child, where
        the lookup reads it. */
    method AddRouteCorrected(path: string, verb: string, handler: string)
      modifies this
      ensures root == Insert(old(root), Segments(path), verb, handler)
      ensures AllStatic(Segments(path)) ==> root == InsertAsWritten(old(root), Segments(path), verb, handler)
    {
      var segments := SplitPath(path);
      root := Insert(root, segments, verb, handler);
      if AllStatic(segments) {
        InsertStaticAgrees(old(root), segments, verb, handler);
      }
    }

    /** `findRoute`: walk segment by segment, then check the final node. */
    method FindRoute(path: string, verb: string) returns (r: RouteMatch)
      ensures r == GreedyLookup(root, path, verb)
    {
      var segments := SplitPath(path);
      var current := root;
      var params: Params := map[];
      var i := 0;
      while i < |segments|
        invariant i <= |segments|
        invariant Walk(root, segments, 0, map[]) == Walk(current, segments, i, params)
      {
        var segment := segments[i];
        if segment in current.children {
          current := current.children[segment];
        } else if "*" in current.children {
          current := current.children["*"];
          if current.paramNames != [] {
            params := params[current.paramNames[|current.paramNames| - 1] := segment];
          }
        } else {
          return NoMatch;
        }
        i := i + 1;
      }
      if Handles(current, verb) {
        return RouteMatch(current.handlers[verb], params);
      }
      return NoMatch;
    }
  }
}
