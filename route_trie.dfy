/** The segment trie that maps a request path and method to a handler
    name. Static segments are children under their own text, a ":name"
    segment is the child "*", and a child "**" swallows one or more
    whole segments. Lookup collects every match depth first (exact child,
    then parameter child, then wildcard) and answers with the first
    match that is a leaf holding a handler for the method. */
module RouteTries {
  import opened Common
  import HttpRequests

  /** A trie node. No node is ever shared between two parents, so each
      node is a value that owns its subtrie. */
  datatype Node = Node(
    children: map<string, Node>,
    handlers: map<string, string>,
    paramNames: seq<string>,
    isLeaf: bool)

  const EmptyNode: Node := Node(map[], map[], [], false)

  type Params = map<string, string>

  datatype RouteMatch = RouteMatch(handler: string, params: Params)

  const NoMatch: RouteMatch := RouteMatch([], map[])

  // ---------------------------------------------------------------------
  // Splitting a path into segments.

  /** The non-empty pieces, in order. */
  function NonEmpty(pieces: seq<string>): (r: seq<string>)
    ensures |r| <= |pieces|
    ensures forall i :: 0 <= i < |r| ==> r[i] != [] && r[i] in pieces
  {
    if pieces == [] then []
    else (if pieces[0] == [] then [] else [pieces[0]]) + NonEmpty(pieces[1..])
  }

  /** What `splitPath` returns: the pieces between '/' characters, with
      the empty ones (from leading, trailing or doubled '/') dropped. */
  function Segments(path: string): seq<string>
  {
    NonEmpty(HttpRequests.Split(path, '/'))
  }

  /** Every segment is non-empty and free of '/'. */
  lemma SegmentsWellFormed(path: string)
    ensures forall i :: 0 <= i < |Segments(path)| ==> Segments(path)[i] != [] && '/' !in Segments(path)[i]
  {
    HttpRequests.SplitPiecesFree(path, '/');
  }

  predicate WellFormedSegments(segs: seq<string>)
  {
    forall i :: 0 <= i < |segs| ==> segs[i] != [] && '/' !in segs[i]
  }

  lemma {:induction false} NonEmptyKeeps(pieces: seq<string>)
    requires forall i :: 0 <= i < |pieces| ==> pieces[i] != []
    ensures NonEmpty(pieces) == pieces
  {
    if pieces != [] {
      NonEmptyKeeps(pieces[1..]);
    }
  }

  /** Segments joined by '/' split back into the same segments, with or
      without a leading '/'. */
  lemma SegmentsOfJoin(segs: seq<string>)
    requires WellFormedSegments(segs)
    ensures Segments(Join(segs, "/")) == segs
    ensures Segments("/" + Join(segs, "/")) == segs
  {
    var j := Join(segs, "/");
    if segs == [] {
      assert HttpRequests.Split(j, '/') == [[]];
    } else {
      HttpRequests.SplitJoin(segs, '/');
      NonEmptyKeeps(segs);
    }
    HttpRequests.SplitAtFirst([], '/', j);
    assert [] + ['/'] + j == "/" + j;
  }

  /** The segments still to come when `pending` has been read of the
      current piece and `s` is the unread text. */
  function Pending(pending: string, s: string): seq<string>
  {
    NonEmpty(HttpRequests.Split(pending + s, '/'))
  }

  /** The piece read so far, as a list of at most one segment. */
  function Kept(segment: string): (r: seq<string>)
    ensures |r| <= 1
  {
    if segment == [] then [] else [segment]
  }

  /** A '/' ends the pending piece. */
  lemma PendingAtSlash(pending: string, s: string)
    requires '/' !in pending && s != [] && s[0] == '/'
    ensures Pending(pending, s) == Kept(pending) + Pending([], s[1..])
  {
    HttpRequests.SplitAtFirst(pending, '/', s[1..]);
    assert pending + s == pending + ['/'] + s[1..];
    assert [] + s[1..] == s[1..];
  }

  /** Any other character extends it. */
  lemma PendingExtends(pending: string, s: string)
    requires s != [] && s[0] != '/'
    ensures Pending(pending, s) == Pending(pending + [s[0]], s[1..])
  {
    assert pending + s == (pending + [s[0]]) + s[1..];
  }

  /** At the end of the text the pending piece is the last one. */
  lemma PendingAtEnd(pending: string)
    requires '/' !in pending
    ensures Pending(pending, []) == Kept(pending)
  {
    assert pending + [] == pending;
    assert HttpRequests.IndexOf(pending, '/').None?;
  }

  /** `splitPath`: the `getline(stream, segment, '/')` loop. */
  method SplitPath(path: string) returns (segments: seq<string>)
    ensures segments == Segments(path)
  {
    segments := [];
    var segment := "";
    var i := 0;
    assert segment + path[i..] == path;
    while i < |path|
      invariant i <= |path|
      invariant '/' !in segment
      invariant Segments(path) == segments + Pending(segment, path[i..])
    {
      assert path[i..][1..] == path[i + 1..];
      segments, segment := ReadChar(segments, segment, path[i..]);
      i := i + 1;
    }
    PendingAtEnd(segment);
    if segment != [] {
      segments := segments + [segment];
    }
  }

  /** One character of the loop: a '/' ends the current piece, which is
      kept when non-empty; any other character extends it. */
  method ReadChar(segments: seq<string>, segment: string, rest: string)
    returns (segments': seq<string>, segment': string)
    requires '/' !in segment && rest != []
    ensures '/' !in segment'
    ensures segments' + Pending(segment', rest[1..]) == segments + Pending(segment, rest)
  {
    if rest[0] == '/' {
      PendingAtSlash(segment, rest);
      Reassociate(segments, Kept(segment), Pending([], rest[1..]));
      segments' := if segment != [] then segments + [segment] else segments;
      segment' := "";
    } else {
      PendingExtends(segment, rest);
      segments' := segments;
      segment' := segment + [rest[0]];
    }
  }

  // ---------------------------------------------------------------------
  // Adding a route.

  predicate IsParam(segment: string)
  {
    |segment| > 0 && segment[0] == ':'
  }

  /** The child a segment descends into. */
  function ChildKey(segment: string): string
  {
    if IsParam(segment) then "*" else segment
  }

  function ChildOr(n: Node, key: string): Node
  {
    if key in n.children then n.children[key] else EmptyNode
  }

  /** `addRoute` as written: the name of a ":name" segment is pushed onto
      the node that holds the '*' child, not onto the '*' child itself. */
  function InsertAsWritten(n: Node, segments: seq<string>, verb: string, handler: string): (r: Node)
    ensures segments != [] ==> ChildKey(segments[0]) in r.children
    decreases |segments|
  {
    if segments == [] then n.(isLeaf := true, handlers := n.handlers[verb := handler])
    else
      var segment := segments[0];
      var key := ChildKey(segment);
      var here := if IsParam(segment) then n.(paramNames := n.paramNames + [segment[1..]]) else n;
      var child := InsertAsWritten(ChildOr(n, key), segments[1..], verb, handler);
      here.(children := here.children[key := child])
  }

  /** `addRoute` with the parameter name recorded on the '*' child, where
      the lookup reads it. */
  function Insert(n: Node, segments: seq<string>, verb: string, handler: string): (r: Node)
    ensures segments != [] ==> ChildKey(segments[0]) in r.children
    decreases |segments|
  {
    if segments == [] then n.(isLeaf := true, handlers := n.handlers[verb := handler])
    else
      var segment := segments[0];
      var key := ChildKey(segment);
      var old_child := ChildOr(n, key);
      var named := if IsParam(segment) then old_child.(paramNames := old_child.paramNames + [segment[1..]]) else old_child;
      n.(children := n.children[key := Insert(named, segments[1..], verb, handler)])
  }

  predicate AllStatic(segments: seq<string>)
  {
    forall i :: 0 <= i < |segments| ==> !IsParam(segments[i])
  }

  /** The two differ only on parameter segments. */
  lemma {:induction false} InsertStaticAgrees(n: Node, segments: seq<string>, verb: string, handler: string)
    requires AllStatic(segments)
    ensures Insert(n, segments, verb, handler) == InsertAsWritten(n, segments, verb, handler)
    decreases |segments|
  {
    if segments != [] {
      InsertStaticAgrees(ChildOr(n, segments[0]), segments[1..], verb, handler);
    }
  }

  /** Descent through exact children only. */
  function Follow(n: Node, segments: seq<string>): Option<Node>
    decreases |segments|
  {
    if segments == [] then Some(n)
    else if segments[0] in n.children then Follow(n.children[segments[0]], segments[1..])
    else None
  }

  /** After inserting a static route, its path leads by exact children to
      a leaf that holds the handler for the method. */
  lemma {:induction false} InsertThenFollow(n: Node, segments: seq<string>, verb: string, handler: string)
    requires AllStatic(segments)
    ensures var t := Follow(Insert(n, segments, verb, handler), segments);
      t.Some? && t.value.isLeaf && verb in t.value.handlers && t.value.handlers[verb] == handler
    decreases |segments|
  {
    if segments != [] {
      InsertThenFollow(ChildOr(n, segments[0]), segments[1..], verb, handler);
    }
  }

  // ---------------------------------------------------------------------
  // Collecting matches.

  /** `wildcardValue` after the inner loop over `segments`: each segment
      appended, with a '/' before it once the value is non-empty. */
  function WildcardValue(segments: seq<string>): string
  {
    if segments == [] then []
    else
      var v := WildcardValue(segments[..|segments| - 1]);
      (if v != [] then v + "/" else v) + segments[|segments| - 1]
  }

  lemma {:induction false} JoinSnoc(xs: seq<string>, y: string, sep: string)
    requires xs != []
    ensures Join(xs + [y], sep) == Join(xs, sep) + sep + y
  {
    if |xs| > 1 {
      JoinSnoc(xs[1..], y, sep);
      assert (xs + [y])[1..] == xs[1..] + [y];
    } else {
      assert (xs + [y])[1..] == [y];
    }
  }

  /** On non-empty segments the wildcard value is the segments joined by
      '/', and it is empty exactly when no segment is taken. */
  lemma {:induction false} WildcardValueJoins(segments: seq<string>)
    requires forall i :: 0 <= i < |segments| ==> segments[i] != []
    ensures WildcardValue(segments) == Join(segments, "/")
    ensures WildcardValue(segments) == [] <==> segments == []
  {
    if segments != [] {
      var init := segments[..|segments| - 1];
      WildcardValueJoins(init);
      if init != [] {
        JoinSnoc(init, segments[|segments| - 1], "/");
      }
      assert init + [segments[|segments| - 1]] == segments;
    }
  }

  /** Whether a collected node answers for the method. */
  predicate Handles(n: Node, verb: string)
  {
    n.isLeaf && verb in n.handlers
  }

  /** Every (node, params) pair `findMatches` pushes for `segments[i..]`,
      in the order it pushes them: at the end of the path the node itself
      if it is a leaf; otherwise the matches through the exact child, then
      through the parameter child, then through the wildcard child. */
  function Matches(n: Node, segments: seq<string>, i: nat, params: Params): (r: seq<(Node, Params)>)
    ensures forall k :: 0 <= k < |r| ==> r[k].0.isLeaf
    decreases n, 2, 0
  {
    if i >= |segments| then (if n.isLeaf then [(n, params)] else [])
    else ExactPart(n, segments, i, params) + ParamPart(n, segments, i, params) + WildPart(n, segments, i, params)
  }

  function ExactPart(n: Node, segments: seq<string>, i: nat, params: Params): (r: seq<(Node, Params)>)
    requires i < |segments|
    ensures forall k :: 0 <= k < |r| ==> r[k].0.isLeaf
    decreases n, 1, 0
  {
    if segments[i] in n.children then Matches(n.children[segments[i]], segments, i + 1, params) else []
  }

  /** The parameter child is followed only when its own name list is
      non-empty; the last name binds the segment. */
  function ParamPart(n: Node, segments: seq<string>, i: nat, params: Params): (r: seq<(Node, Params)>)
    requires i < |segments|
    ensures forall k :: 0 <= k < |r| ==> r[k].0.isLeaf
    decreases n, 1, 0
  {
    if "*" in n.children && n.children["*"].paramNames != [] then
      var p := n.children["*"];
      Matches(p, segments, i + 1, params[p.paramNames[|p.paramNames| - 1] := segments[i]])
    else []
  }

  function WildPart(n: Node, segments: seq<string>, i: nat, params: Params): (r: seq<(Node, Params)>)
    requires i < |segments|
    ensures forall k :: 0 <= k < |r| ==> r[k].0.isLeaf
    decreases n, 1, 0
  {
    if "**" in n.children then WildMatches(n.children["**"], segments, i, i, params) else []
  }

  /** The wildcard loop, from capture end `k` up to the last segment: the
      capture `segments[from..k]` is tried only when it is non-empty. */
  function WildMatches(w: Node, segments: seq<string>, from: nat, k: nat, params: Params): (r: seq<(Node, Params)>)
    requires from <= k <= |segments|
    ensures forall j :: 0 <= j < |r| ==> r[j].0.isLeaf
    decreases w, 3, |segments| - k
  {
    var v := WildcardValue(segments[from..k]);
    var here := if v != [] then Matches(w, segments, k, params["*" := v]) else [];
    here + (if k < |segments| then WildMatches(w, segments, from, k + 1, params) else [])
  }

  /** The exact path is explored first: when it ends on a leaf, that leaf
      with the parameters so far is the first match. */
  lemma {:induction false} ExactPathFirst(n: Node, segments: seq<string>, i: nat, params: Params)
    requires i <= |segments|
    requires Follow(n, segments[i..]).Some? && Follow(n, segments[i..]).value.isLeaf
    ensures Matches(n, segments, i, params) != []
    ensures Matches(n, segments, i, params)[0] == (Follow(n, segments[i..]).value, params)
    decreases |segments| - i
  {
    if i < |segments| {
      assert segments[i..][1..] == segments[i + 1..];
      ExactPathFirst(n.children[segments[i]], segments, i + 1, params);
    }
  }

  /** The rest of the wildcard loop from capture end `k`, empty once the
      loop is over. */
  function WildFrom(w: Node, segments: seq<string>, from: nat, k: nat, params: Params): seq<(Node, Params)>
    requires from <= k
  {
    if k <= |segments| then WildMatches(w, segments, from, k, params) else []
  }

  /** A wildcard leaf without children catches the whole rest of the path,
      and only it: the captures that stop early find nothing below. */
  lemma {:induction false} WildcardTakesRest(w: Node, segments: seq<string>, from: nat, k: nat, params: Params)
    requires w.children == map[] && w.isLeaf
    requires from < |segments| && from <= k <= |segments|
    requires forall i :: from <= i < |segments| ==> segments[i] != []
    ensures WildMatches(w, segments, from, k, params) ==
            [(w, params["*" := WildcardValue(segments[from..])])]
    decreases |segments| - k
  {
    if k < |segments| {
      WildcardTakesRest(w, segments, from, k + 1, params);
      ChildlessMidway(w, segments, k, params["*" := WildcardValue(segments[from..k])]);
    } else {
      assert segments[from..k] == segments[from..];
      WildcardValueJoins(segments[from..]);
    }
  }

  /** A node without children matches nothing before the path ends. */
  lemma ChildlessMidway(w: Node, segments: seq<string>, k: nat, params: Params)
    requires w.children == map[] && k < |segments|
    ensures Matches(w, segments, k, params) == []
  {
  }

  // ---------------------------------------------------------------------
  // Looking a route up.

  /** The first collected match that answers for the method, else the
      empty handler with no parameters. */
  function FirstHandled(matches: seq<(Node, Params)>, verb: string): (r: RouteMatch)
    ensures (forall k :: 0 <= k < |matches| ==> !Handles(matches[k].0, verb)) ==> r == NoMatch
    ensures forall k :: 0 <= k < |matches| && Handles(matches[k].0, verb) &&
                        (forall j :: 0 <= j < k ==> !Handles(matches[j].0, verb)) ==>
              r == RouteMatch(matches[k].0.handlers[verb], matches[k].1)
  {
    if matches == [] then NoMatch
    else if Handles(matches[0].0, verb) then RouteMatch(matches[0].0.handlers[verb], matches[0].1)
    else
      var r := FirstHandled(matches[1..], verb);
      assert forall k :: 1 <= k < |matches| ==> matches[k] == matches[1..][k - 1];
      r
  }

  /** Everything from the first '?' on is the query and takes no part in
      the lookup. */
  function BasePath(path: string): string
  {
    match HttpRequests.IndexOf(path, '?')
    case None => path
    case Some(q) => path[..q]
  }

  /** The answer `findRoute` gives. */
  function Lookup(root: Node, path: string, verb: string): RouteMatch
  {
    FirstHandled(Matches(root, Segments(BasePath(path)), 0, map[]), verb)
  }

  /** A query string appended to a path does not change the answer. */
  lemma LookupIgnoresQuery(root: Node, path: string, query: string, verb: string)
    requires '?' !in path
    ensures Lookup(root, path + "?" + query, verb) == Lookup(root, path, verb)
  {
    var full := path + "?" + query;
    HttpRequests.IndexOfAt(full, '?', |path|);
    assert full[..|path|] == path;
    assert HttpRequests.IndexOf(path, '?').None?;
  }

  /** After adding a static route, looking its path up with the same
      method answers with the handler just added and no parameters,
      whatever the trie held before. */
  lemma AddThenFind(root: Node, path: string, verb: string, handler: string)
    requires '?' !in path
    requires AllStatic(Segments(path))
    ensures Lookup(Insert(root, Segments(path), verb, handler), path, verb) == RouteMatch(handler, map[])
  {
    var segs := Segments(path);
    var t := Insert(root, segs, verb, handler);
    assert HttpRequests.IndexOf(path, '?').None?;
    InsertThenFollow(root, segs, verb, handler);
    assert segs[0..] == segs;
    ExactPathFirst(t, segs, 0, map[]);
  }

  /** Adding the same static path and method twice: the last handler wins. */
  lemma LastWriteWins(root: Node, path: string, verb: string, first: string, second: string)
    requires '?' !in path
    requires AllStatic(Segments(path))
    ensures Lookup(Insert(Insert(root, Segments(path), verb, first), Segments(path), verb, second), path, verb)
            == RouteMatch(second, map[])
  {
    AddThenFind(Insert(root, Segments(path), verb, first), path, verb, second);
  }

  /** An empty trie answers nothing. */
  lemma EmptyFindsNothing(path: string, verb: string)
    ensures Lookup(EmptyNode, path, verb) == NoMatch
  {
  }

  // ---------------------------------------------------------------------
  // The parameter name is stored where the lookup does not read it.

  /** The path "/s/v" for two plain segments. */
  lemma TwoSegmentPath(s: string, v: string)
    requires s != [] && v != [] && '/' !in s && '/' !in v && '?' !in s && '?' !in v
    ensures BasePath("/" + s + "/" + v) == "/" + s + "/" + v
    ensures Segments(BasePath("/" + s + "/" + v)) == [s, v]
  {
    var path := "/" + s + "/" + v;
    assert path == "/" + (s + "/" + v);
    assert '?' !in path by {
      assert forall i :: 0 <= i < |path| ==> path[i] == '/' || path[i] in s || path[i] in v;
    }
    NoQuery(path);
    assert WellFormedSegments([s, v]);
    SegmentsOfJoin([s, v]);
    assert Join([s, v], "/") == s + "/" + Join([v], "/");
  }

  lemma NoQuery(path: string)
    requires '?' !in path
    ensures BasePath(path) == path
  {
    assert HttpRequests.IndexOf(path, '?').None?;
  }

  /** The route "/s/:name": a static node, then a parameter node. */
  predicate ParamRoute(s: string, name: string, v: string)
  {
    && s != [] && v != [] && '/' !in s && '/' !in v && '?' !in s && '?' !in v
    && !IsParam(s) && s != "*" && s != "**" && v != "*"
  }

  /** As written, the route "/s/:name" is never found for "/s/v" (say
      "/users/:id" and "/users/42"): the name sits on the node for "s",
      the '*' child's own list is empty, so the lookup never descends. */
  lemma ParamRouteUnreachableAsWritten(s: string, name: string, v: string, verb: string, handler: string)
    requires ParamRoute(s, name, v)
    ensures Lookup(InsertAsWritten(EmptyNode, [s, ":" + name], verb, handler), "/" + s + "/" + v, verb) == NoMatch
  {
    var leaf := Node(map[], map[verb := handler], [], true);
    var u := Node(map["*" := leaf], map[], [name], false);
    var t := Node(map[s := u], map[], [], false);
    AsWrittenShape(s, name, verb, handler);
    TwoSegmentPath(s, v);
    var segs := [s, v];
    assert Matches(u, segs, 1, map[]) == [];
    assert Matches(t, segs, 0, map[]) == [];
  }

  lemma AsWrittenShape(s: string, name: string, verb: string, handler: string)
    requires !IsParam(s)
    ensures InsertAsWritten(EmptyNode, [s, ":" + name], verb, handler) ==
      Node(map[s := Node(map["*" := Node(map[], map[verb := handler], [], true)], map[], [name], false)], map[], [], false)
  {
    var leaf := Node(map[], map[verb := handler], [], true);
    var u := Node(map["*" := leaf], map[], [name], false);
    assert IsParam(":" + name) && (":" + name)[1..] == name;
    assert [s, ":" + name][1..] == [":" + name];
    assert InsertAsWritten(EmptyNode, [":" + name], verb, handler) == u;
  }

  /** With the name stored on the '*' child, "/s/v" is found and binds
      `name` to `v`. */
  lemma ParamRouteFound(s: string, name: string, v: string, verb: string, handler: string)
    requires ParamRoute(s, name, v)
    ensures Lookup(Insert(EmptyNode, [s, ":" + name], verb, handler), "/" + s + "/" + v, verb) ==
            RouteMatch(handler, map[name := v])
  {
    var leaf := Node(map[], map[verb := handler], [name], true);
    var u := Node(map["*" := leaf], map[], [], false);
    var t := Node(map[s := u], map[], [], false);
    CorrectedShape(s, name, verb, handler);
    TwoSegmentPath(s, v);
    CorrectedMatches(s, name, v, verb, handler);
  }

  lemma CorrectedShape(s: string, name: string, verb: string, handler: string)
    requires !IsParam(s)
    ensures Insert(EmptyNode, [s, ":" + name], verb, handler) ==
      Node(map[s := Node(map["*" := Node(map[], map[verb := handler], [name], true)], map[], [], false)], map[], [], false)
  {
    var leaf := Node(map[], map[verb := handler], [name], true);
    var u := Node(map["*" := leaf], map[], [], false);
    assert IsParam(":" + name) && (":" + name)[1..] == name;
    assert [s, ":" + name][1..] == [":" + name];
    assert EmptyNode.paramNames + [name] == [name];
    assert [":" + name][1..] == [];
    assert Insert(EmptyNode.(paramNames := [name]), [], verb, handler) == leaf;
    assert Insert(EmptyNode, [":" + name], verb, handler) == u;
  }

  lemma CorrectedMatches(s: string, name: string, v: string, verb: string, handler: string)
    requires ParamRoute(s, name, v)
    ensures var leaf := Node(map[], map[verb := handler], [name], true);
      var t := Node(map[s := Node(map["*" := leaf], map[], [], false)], map[], [], false);
      Matches(t, [s, v], 0, map[]) == [(leaf, map[name := v])]
  {
    var leaf := Node(map[], map[verb := handler], [name], true);
    var u := Node(map["*" := leaf], map[], [], false);
    var t := Node(map[s := u], map[], [], false);
    var segs := [s, v];
    var bound: Params := map[name := v];
    assert Matches(leaf, segs, 2, bound) == [(leaf, bound)];
    assert ParamPart(u, segs, 1, map[]) == [(leaf, bound)];
    assert Matches(u, segs, 1, map[]) == [(leaf, bound)];
  }

  // ---------------------------------------------------------------------
  // The router object.

  class RouteTrie {
    var root: Node

    constructor ()
      ensures root == EmptyNode
    {
      root := EmptyNode;
    }

    /** `clear`: a fresh empty root; every lookup then fails. */
    method Clear()
      modifies this
      ensures root == EmptyNode
      ensures forall path, verb :: Lookup(root, path, verb) == NoMatch
    {
      root := EmptyNode;
      forall path, verb
        ensures Lookup(root, path, verb) == NoMatch
      {
        EmptyFindsNothing(path, verb);
      }
    }

    /** `addRoute` as written: a ":name" segment's name goes onto the node
        above the '*' child. On a route without parameters this is the
        corrected insertion. The list of parameter names it is given is not
        used. */
    method AddRoute(path: string, verb: string, handler: string, paramNames: seq<string>)
      modifies this
      ensures root == InsertAsWritten(old(root), Segments(path), verb, handler)
      ensures AllStatic(Segments(path)) ==> root == Insert(old(root), Segments(path), verb, handler)
    {
      var segments := SplitPath(path);
      root := InsertAsWritten(root, segments, verb, handler);
      if AllStatic(segments) {
        InsertStaticAgrees(old(root), segments, verb, handler);
      }
    }

    /** `addRoute` with the parameter name recorded on the '*' child, where
        the lookup reads it. */
    method AddRouteCorrected(path: string, verb: string, handler: string)
      modifies this
      ensures root == Insert(old(root), Segments(path), verb, handler)
      ensures AllStatic(Segments(path)) ==> root == InsertAsWritten(old(root), Segments(path), verb, handler)
    {
      var segments := SplitPath(path);
      root := Insert(root, segments, verb, handler);
      if AllStatic(segments) {
        InsertStaticAgrees(old(root), segments, verb, handler);
      }
    }

    /** `findRoute`: collect the matches, then take the first that answers
        for the method. */
    method FindRoute(path: string, verb: string) returns (r: RouteMatch)
      ensures r == Lookup(root, path, verb)
    {
      var basePath := path;
      var q := HttpRequests.IndexOf(path, '?');
      if q.Some? {
        basePath := path[..q.value];
      }
      var segments := SplitPath(basePath);
      var matches := FindMatches(root, segments, 0, map[], []);
      assert [] + Matches(root, segments, 0, map[]) == Matches(root, segments, 0, map[]);
      r := PickMatch(matches, verb);
    }

    /** The scan over the collected matches. */
    static method PickMatch(matches: seq<(Node, Params)>, verb: string) returns (r: RouteMatch)
      ensures r == FirstHandled(matches, verb)
    {
      var k := 0;
      while k < |matches|
        invariant k <= |matches|
        invariant FirstHandled(matches, verb) == FirstHandled(matches[k..], verb)
      {
        if Handles(matches[k].0, verb) {
          return RouteMatch(matches[k].0.handlers[verb], matches[k].1);
        }
        assert matches[k..][1..] == matches[k + 1..];
        k := k + 1;
      }
      return NoMatch;
    }

    /** `findMatches`: appends to `acc` the matches for `segments[i..]`. */
    static method FindMatches(n: Node, segments: seq<string>, i: nat, params: Params,
                              acc: seq<(Node, Params)>) returns (matches: seq<(Node, Params)>)
      ensures matches == acc + Matches(n, segments, i, params)
      decreases n, 2
    {
      if i >= |segments| {
        matches := if n.isLeaf then acc + [(n, params)] else acc;
        return;
      }
      var segment := segments[i];
      matches := acc;
      if segment in n.children {
        matches := FindMatches(n.children[segment], segments, i + 1, params, matches);
      }
      ghost var exact := matches;
      assert exact == acc + ExactPart(n, segments, i, params);
      if "*" in n.children {
        var p := n.children["*"];
        if p.paramNames != [] {
          matches := FindMatches(p, segments, i + 1, params[p.paramNames[|p.paramNames| - 1] := segment], matches);
        }
      }
      ghost var param := matches;
      assert param == exact + ParamPart(n, segments, i, params);
      if "**" in n.children {
        matches := WildcardLoop(n.children["**"], segments, i, params, matches);
      }
      assert matches == param + WildPart(n, segments, i, params);
      Reassociate(acc, ExactPart(n, segments, i, params), ParamPart(n, segments, i, params));
      Reassociate(acc, ExactPart(n, segments, i, params) + ParamPart(n, segments, i, params), WildPart(n, segments, i, params));
    }

    /** The loop over capture ends `k = i .. |segments|`. */
    static method WildcardLoop(w: Node, segments: seq<string>, i: nat, params: Params,
                               acc: seq<(Node, Params)>) returns (matches: seq<(Node, Params)>)
      requires i < |segments|
      ensures matches == acc + WildMatches(w, segments, i, i, params)
      decreases w, 3, 1
    {
      matches := acc;
      var k := i;
      while k <= |segments|
        invariant i <= k <= |segments| + 1
        invariant acc + WildMatches(w, segments, i, i, params) == matches + WildFrom(w, segments, i, k, params)
        decreases |segments| + 1 - k
      {
        matches := WildcardStep(w, segments, i, k, params, matches);
        k := k + 1;
      }
      assert matches + [] == matches;
    }

    /** One capture end: the capture `segments[i..k]` is tried when it is
        non-empty. */
    static method WildcardStep(w: Node, segments: seq<string>, i: nat, k: nat, params: Params,
                               acc: seq<(Node, Params)>) returns (matches: seq<(Node, Params)>)
      requires i <= k <= |segments|
      ensures matches + WildFrom(w, segments, i, k + 1, params) == acc + WildFrom(w, segments, i, k, params)
      decreases w, 3, 0
    {
      var v := WildcardJoin(segments, i, k);
      matches := acc;
      if v != [] {
        matches := FindMatches(w, segments, k, params["*" := v], matches);
      }
      ghost var here := if v != [] then Matches(w, segments, k, params["*" := v]) else [];
      assert matches == acc + here;
      Reassociate(acc, here, WildFrom(w, segments, i, k + 1, params));
    }

    /** The inner loop that builds the wildcard value. */
    static method WildcardJoin(segments: seq<string>, from: nat, to: nat) returns (v: string)
      requires from <= to <= |segments|
      ensures v == WildcardValue(segments[from..to])
    {
      v := [];
      var j := from;
      while j < to
        invariant from <= j <= to
        invariant v == WildcardValue(segments[from..j])
      {
        if v != [] {
          v := v + "/";
        }
        v := v + segments[j];
        assert segments[from..j + 1][..j - from] == segments[from..j];
        j := j + 1;
      }
    }
  }
}
