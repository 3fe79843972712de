/** The route registry that `add` and `rm` edit: a tree of segment nodes plus
    `refs`, which maps each route key to its info and each full path to the keys
    registered under it. */
module Registry {
  import opened Common
  import opened PathWalk
  import opened PathMatcher
  import Ordering

  /** The route info passed to `add`: its key (the empty string stands for a
      missing or falsy key), the two flags `reduce` reads, and any other fields. */
  datatype RouteInfo = RouteInfo(key: string, exact: bool, fallback: bool, fields: map<string, string>)

  /** `refs[key]`: the route info spread with its `fullpath` and `depth`. */
  datatype Info = Info(key: string, exact: bool, fallback: bool, fields: map<string, string>, fullpath: string, depth: nat)

  /** A segment node: the accumulated path it was created for, the matcher of its
      segment, its child segments in priority order (None until a child is first
      pushed, `[]` once every child was removed) and the children themselves. */
  datatype Node = Node(route: string, pattern: Pattern, keys: Option<seq<string>>, children: map<string, Node>)

  /** The registry object. `top` plays the part of the routes object itself: only
      its keys and children are ever read. `infos` and `paths` are the two uses of
      `refs`: key to info, full path to the keys registered there. */
  datatype Tree = Tree(top: Node, infos: map<string, Info>, paths: map<string, seq<string>>)

  /** The outcome of an edit: the registry afterwards, which an error thrown half
      way leaves partly updated, and the returned value or the error. */
  datatype Outcome<+T> = Outcome(tree: Tree, result: Result<T>)

  function Empty(): (t: Tree)
    ensures t.top.keys.None? && t.infos == map[] && t.paths == map[]
  {
    Tree(Node("", Matcher([], [], false), None, map[]), map[], map[])
  }

  /** Every key listed under a full path has an info, and every info is filed
      under its own key. */
  predicate RefsClosed(t: Tree)
  {
    (forall p, k :: p in t.paths && k in t.paths[p] ==> k in t.infos)
    && (forall k :: k in t.infos ==> t.infos[k].key == k)
  }

  /** The keys registered under a full path (`refs[fullpath] || []`). */
  function Listed(paths: map<string, seq<string>>, p: string): seq<string>
  {
    if p in paths then paths[p] else []
  }

  // ---------------------------------------------------------------------------
  // depth
  // ---------------------------------------------------------------------------

  predicate IsSigil(c: char)
  {
    c == '#' || c == ':' || c == '/' || c == '*' || c == '.'
  }

  /** The cut positions q' >= q of the depth split: one of `#`, `:`, `/`, `*`, `.`
      followed by a word character, never at position 0 and never at the end. */
  function CutCount(s: string, q: nat): (c: nat)
    requires q >= 1
    ensures q + 1 < |s| ==> c <= |s| - q - 1
    ensures q + 1 >= |s| ==> c == 0
    decreases |s| - q
  {
    if q + 1 >= |s| then 0
    else (if IsSigil(s[q]) && IsWord(s[q + 1]) then 1 else 0) + CutCount(s, q + 1)
  }

  /** The number of pieces `fullpath` splits into before each sigil that a word
      character follows: one more piece than cuts; a path
      of n >= 2 characters has at most n - 1 pieces. */
  function DepthOf(s: string): (d: nat)
    ensures d >= 1
    ensures |s| >= 2 ==> d <= |s| - 1
    ensures |s| <= 2 ==> d == 1
  {
    1 + CutCount(s, 1)
  }

  lemma DepthExamples()
    ensures DepthOf("/") == 1
    ensures DepthOf("/a/:b") == 2
    ensures DepthOf("/a-b/c.d") == 3
  {
    assert DepthOf("/a/:b") == 1 + CutCount("/a/:b", 1);
    assert CutCount("/a/:b", 3) == 1 + CutCount("/a/:b", 4);
    assert CutCount("/a-b/c.d", 4) == 1 + CutCount("/a-b/c.d", 5);
    assert CutCount("/a-b/c.d", 6) == 1 + CutCount("/a-b/c.d", 7);
  }

  // ---------------------------------------------------------------------------
  // the child keys of a node
  // ---------------------------------------------------------------------------

  /** The order `PathMatcher.sort` keeps a node's child keys in: by a priority that
      is not part of this model, ties in insertion order. */
  function Priority(rank: string -> int): string -> seq<int>
  {
    k => [rank(k)]
  }

  /** The parent's keys after `PathMatcher.push` of segment x: unchanged when x is
      already there, otherwise x added and the keys re-sorted by priority. */
  function PushKey(keys: Option<seq<string>>, x: string, rank: string -> int): (r: seq<string>)
    ensures x in r
    ensures keys.Some? && x in keys.value ==> r == keys.value
    ensures keys.None? ==> r == [x]
    ensures keys.Some? && x !in keys.value ==>
      multiset(r) == multiset(keys.value) + multiset{x} && Ordering.Sorted(r, Priority(rank))
  {
    if keys.None? then [x]
    else if x in keys.value then keys.value
    else
      var r := Ordering.Sort(keys.value + [x], Priority(rank));
      Ordering.SortSpec(keys.value + [x], Priority(rank));
      assert x in multiset(keys.value + [x]);
      r
  }

  /** `keys.splice(keys.indexOf(x), 1)`: the first occurrence of x removed. */
  function RemoveFirst(s: seq<string>, x: string): (r: seq<string>)
    requires x in s
    ensures |r| == |s| - 1
    ensures multiset(r) == multiset(s) - multiset{x}
  {
    if s[0] == x then (assert s == [s[0]] + s[1..]; s[1..])
    else
      var r := [s[0]] + RemoveFirst(s[1..], x);
      assert s == [s[0]] + s[1..];
      r
  }

  // ---------------------------------------------------------------------------
  // paths in the tree
  // ---------------------------------------------------------------------------

  /** The node reached from n by following the child segments in `at`. */
  function At(n: Node, at: seq<string>): Option<Node>
    decreases |at|
  {
    if at == [] then Some(n)
    else if at[0] in n.children then At(n.children[at[0]], at[1..])
    else None
  }

  /** n with the node at `at` replaced by m (n itself when `at` leads nowhere). */
  function Update(n: Node, at: seq<string>, m: Node): Node
    decreases |at|
  {
    if at == [] then m
    else if at[0] in n.children then n.(children := n.children[at[0] := Update(n.children[at[0]], at[1..], m)])
    else n
  }

  lemma {:induction false} UpdateAt(n: Node, at: seq<string>, m: Node)
    requires At(n, at).Some?
    ensures At(Update(n, at, m), at) == Some(m)
    decreases |at|
  {
    if at != [] {
      UpdateAt(n.children[at[0]], at[1..], m);
    }
  }

  /** Editing the node at `at` leaves every position off that path as it was. */
  lemma {:induction false} UpdateFrame(n: Node, at: seq<string>, m: Node, q: seq<string>)
    requires At(n, at).Some?
    requires !(q <= at) && !(at <= q)
    ensures At(Update(n, at, m), q) == At(n, q)
    decreases |at|
  {
    var x := at[0];
    var u := Update(n, at, m);
    assert u.children == n.children[x := Update(n.children[x], at[1..], m)];
    if q[0] == x {
      assert !(q[1..] <= at[1..]) && !(at[1..] <= q[1..]);
      UpdateFrame(n.children[x], at[1..], m, q[1..]);
    }
  }

  /** Along the path to an edited node, each ancestor keeps its route, pattern,
      keys and other children; only the child on the path is replaced. */
  lemma {:induction false} UpdateAncestor(n: Node, at: seq<string>, m: Node, q: seq<string>)
    requires At(n, at).Some? && q < at
    ensures At(n, q).Some? && At(Update(n, at, m), q).Some?
    ensures var a, b := At(n, q).value, At(Update(n, at, m), q).value;
      at[|q|] in a.children && at[|q|] in b.children && b == a.(children := a.children[at[|q|] := b.children[at[|q|]]])
    decreases |q|
  {
    var x := at[0];
    var u := Update(n, at, m);
    assert u.children == n.children[x := Update(n.children[x], at[1..], m)];
    if q != [] {
      assert q[0] == x && q[1..] < at[1..];
      UpdateAncestor(n.children[x], at[1..], m, q[1..]);
      assert at[|q|] == at[1..][|q| - 1];
    }
  }

  /** Every step of `at` is listed among the keys of the node it leaves and has a
      child: the path `reduce` can follow. */
  predicate Linked(n: Node, at: seq<string>)
    decreases |at|
  {
    at == [] || (n.keys.Some? && at[0] in n.keys.value && at[0] in n.children && Linked(n.children[at[0]], at[1..]))
  }

  // ---------------------------------------------------------------------------
  // add
  // ---------------------------------------------------------------------------

  /** The path a node is created for: the accumulated path of its visit. */
  function RouteOf(v: Visit): string
  {
    match v.acc
    case Some(a) => a
    case None => ""
  }

  datatype Grown = Grown(node: Node, error: Option<Error>)

  /** The walk of `add`: `root = PathMatcher.push(x, root, leaf, fullpath)` per
      visit. A child is created with the compiled segment when it is missing; a
      segment that does not compile stops the walk with the nodes made so far. */
  function Grow(n: Node, vs: seq<Visit>, rank: string -> int): (g: Grown)
    ensures g.error.Some? ==> g.error.value.SyntaxError?
    decreases |vs|
  {
    if vs == [] then Grown(n, None)
    else
      var x := vs[0].seg;
      if x in n.children then Attach(n, x, Grow(n.children[x], vs[1..], rank), rank)
      else match Compile(x)
        case Err(e) => TokenizeError(x); Grown(n, Some(e))
        case Ok(m) => Attach(n, x, Grow(Node(RouteOf(vs[0]), m, None, map[]), vs[1..], rank), rank)
  }

  function Attach(n: Node, x: string, g: Grown, rank: string -> int): (r: Grown)
    ensures r.error == g.error
    ensures r.node.children == n.children[x := g.node]
  {
    Grown(n.(keys := Some(PushKey(n.keys, x, rank)), children := n.children[x := g.node]), g.error)
  }

  /** A walk that completes leaves every visited segment linked from the top. */
  lemma {:induction false} GrowLinks(n: Node, vs: seq<Visit>, rank: string -> int)
    requires Grow(n, vs, rank).error.None?
    ensures Linked(Grow(n, vs, rank).node, Segments(vs))
    decreases |vs|
  {
    if vs != [] {
      var x := vs[0].seg;
      assert Segments(vs) == [x] + Segments(vs[1..]);
      if x in n.children {
        GrowLinks(n.children[x], vs[1..], rank);
      } else {
        var m := Compile(x).value;
        GrowLinks(Node(RouteOf(vs[0]), m, None, map[]), vs[1..], rank);
      }
    }
  }

  /** `add(path, routes, parent, routeInfo)`. */
  function Add(t: Tree, path: string, parent: string, ri: RouteInfo, rank: string -> int): (o: Outcome<string>)
  {
    var fullpath := Merge(path, parent);
    var info := Info(ri.key, ri.exact, ri.fallback, ri.fields, fullpath, DepthOf(fullpath));
    if path == "" || (path[0] != '#' && path[0] != '/') then Outcome(t, Err(TypeError("Routes should have a valid path")))
    else if ri.key == "" then Outcome(t, Err(TypeError("Routes should have a key")))
    else
      var filed := t.(infos := t.infos[ri.key := info], paths := t.paths[fullpath := Listed(t.paths, fullpath) + [ri.key]]);
      if HasSlashGroup(fullpath) then Outcome(filed, Err(TypeError("RegExp cannot contain slashes")))
      else
        var g := Grow(t.top, Visits(fullpath), rank);
        Outcome(filed.(top := g.node), if g.error.Some? then Err(g.error.value) else Ok(fullpath))
  }

  predicate ValidPath(path: string)
  {
    path != "" && (path[0] == '#' || path[0] == '/')
  }

  /** An invalid path or a missing key is refused with a TypeError before anything
      is written. */
  lemma AddRejects(t: Tree, path: string, parent: string, ri: RouteInfo, rank: string -> int)
    ensures var o := Add(t, path, parent, ri, rank);
      !ValidPath(path) || ri.key == "" <==> o.tree == t && o.result.Err? && o.result.error.TypeError? && Listed(o.tree.paths, Merge(path, parent)) == Listed(t.paths, Merge(path, parent))
  {
  }

  /** Once validated, `refs[key]` holds the info with its full path and depth and
      the key is appended after the keys already filed under the full path; no
      other entry changes, whether or not the walk that follows succeeds. The
      result is the merged path. */
  lemma AddFiles(t: Tree, path: string, parent: string, ri: RouteInfo, rank: string -> int)
    requires ValidPath(path) && ri.key != ""
    ensures var o := Add(t, path, parent, ri, rank);
      var fullpath := Merge(path, parent);
      && o.tree.infos == t.infos[ri.key := Info(ri.key, ri.exact, ri.fallback, ri.fields, fullpath, DepthOf(fullpath))]
      && o.tree.paths.Keys == t.paths.Keys + {fullpath}
      && o.tree.paths[fullpath] == Listed(t.paths, fullpath) + [ri.key]
      && (forall p :: p in t.paths && p != fullpath ==> o.tree.paths[p] == t.paths[p])
      && (o.result.Ok? ==> o.result.value == fullpath)
      && (o.result.Err? <==> HasSlashGroup(fullpath) || Grow(t.top, Visits(fullpath), rank).error.Some?)
  {
    var fullpath := Merge(path, parent);
    var o := Add(t, path, parent, ri, rank);
    assert o.tree.infos == t.infos[ri.key := Info(ri.key, ri.exact, ri.fallback, ri.fields, fullpath, DepthOf(fullpath))];
    assert o.tree.paths == t.paths[fullpath := Listed(t.paths, fullpath) + [ri.key]];
  }

  /** After a successful add every segment of the full path is linked from the top,
      so `reduce` can reach the new route. */
  lemma AddLinks(t: Tree, path: string, parent: string, ri: RouteInfo, rank: string -> int)
    requires Add(t, path, parent, ri, rank).result.Ok?
    ensures Linked(Add(t, path, parent, ri, rank).tree.top, Parts(Merge(path, parent)))
  {
    var fullpath := Merge(path, parent);
    var g := Grow(t.top, Visits(fullpath), rank);
    assert ValidPath(path) && ri.key != "" && !HasSlashGroup(fullpath);
    assert Add(t, path, parent, ri, rank).tree.top == g.node;
    GrowLinks(t.top, Visits(fullpath), rank);
    SegmentsOfParts(fullpath);
  }

  lemma AddKeepsRefsClosed(t: Tree, path: string, parent: string, ri: RouteInfo, rank: string -> int)
    requires RefsClosed(t)
    ensures RefsClosed(Add(t, path, parent, ri, rank).tree)
  {
    var o := Add(t, path, parent, ri, rank);
    if ValidPath(path) && ri.key != "" {
      var fullpath := Merge(path, parent);
      assert o.tree.infos == t.infos[ri.key := Info(ri.key, ri.exact, ri.fallback, ri.fields, fullpath, DepthOf(fullpath))];
      assert o.tree.paths == t.paths[fullpath := Listed(t.paths, fullpath) + [ri.key]];
    } else {
      assert o.tree == t;
    }
  }

  // ---------------------------------------------------------------------------
  // rm
  // ---------------------------------------------------------------------------

  /** The walk state of `rm`: the node last stepped from (`leaf`) and where it is,
      the segment stepped along (`key`) and the node it led to (`root`). */
  datatype Spot = Spot(leafAt: seq<string>, leaf: Option<Node>, key: Option<string>, root: Option<Node>)

  /** The walk of `rm`: stops once the cursor fell off the tree (clearing `leaf`),
      throws NotFound at a node that never had children. */
  function Locate(root: Option<Node>, rootAt: seq<string>, vs: seq<Visit>, sp: Spot, path: string): (r: Result<Spot>)
    ensures r.Err? ==> r.error.NotFound? && r.error.route == path
    decreases |vs|
  {
    if vs == [] then Ok(sp)
    else match root
      case None => Ok(sp.(leaf := None))
      case Some(n) =>
        if n.keys.None? then Err(NotFound(path, vs[0].seg))
        else
          var x := vs[0].seg;
          var next := if x in n.children then Some(n.children[x]) else None;
          Locate(next, rootAt + [x], vs[1..], Spot(rootAt, Some(n), Some(x), next), path)
  }

  /** The walk keeps `leaf` and `root` where `leafAt` and `leafAt + [key]` lead. */
  lemma {:induction false} LocateAt(top: Node, root: Option<Node>, rootAt: seq<string>, vs: seq<Visit>, sp: Spot, path: string)
    requires root == At(top, rootAt)
    requires sp.leaf.Some? ==> sp.key.Some? && sp.leaf == At(top, sp.leafAt) && sp.root == At(top, sp.leafAt + [sp.key.value])
    ensures var r := Locate(root, rootAt, vs, sp, path);
      r.Ok? && r.value.leaf.Some? ==>
        r.value.key.Some? && r.value.leaf == At(top, r.value.leafAt) && r.value.root == At(top, r.value.leafAt + [r.value.key.value])
    decreases |vs|
  {
    if vs != [] && root.Some? && root.value.keys.Some? {
      var n := root.value;
      var x := vs[0].seg;
      var next := if x in n.children then Some(n.children[x]) else None;
      AtStep(top, rootAt, x);
      LocateAt(top, next, rootAt + [x], vs[1..], Spot(rootAt, Some(n), Some(x), next), path);
    }
  }

  lemma {:induction false} AtStep(top: Node, at: seq<string>, x: string)
    requires At(top, at).Some?
    ensures At(top, at + [x]) == (if x in At(top, at).value.children then Some(At(top, at).value.children[x]) else None)
    decreases |at|
  {
    if at == [] {
      assert At(top, [x]) == (if x in top.children then At(top.children[x], []) else None);
    } else {
      assert (at + [x])[1..] == at[1..] + [x];
      AtStep(top.children[at[0]], at[1..], x);
    }
  }

  /** Where `rm` edits: the parent node and its position, the key to remove and the
      node it names (None when missing), after the walk and its checks, with the
      top node replaced by its `/` child. */
  datatype Target = Target(at: seq<string>, leaf: Node, key: string, root: Option<Node>)

  function Locus(t: Tree, path: string, fullpath: string): (r: Result<Target>)
    ensures r.Err? ==> (r.error.NotFound? && r.error.route == path) || r.error.TypeError?
  {
    if HasSlashGroup(fullpath) then Err(TypeError("RegExp cannot contain slashes"))
    else match Locate(Some(t.top), [], Visits(fullpath), Spot([], None, None, Some(t.top)), path)
      case Err(e) => Err(e)
      case Ok(sp) =>
        if sp.leaf.None? || sp.key.None? || sp.key.value == "" then
          Err(NotFound(path, if sp.key.Some? then sp.key.value else ""))
        else if sp.leafAt == [] then
          if "/" in t.top.children then Ok(Target(["/"], t.top.children["/"], sp.key.value, sp.root))
          else Err(TypeError("Cannot read properties of undefined"))
        else Ok(Target(sp.leafAt, sp.leaf.value, sp.key.value, sp.root))
  }

  /** The target found is the node at its position in the tree. */
  lemma LocusAt(t: Tree, path: string, fullpath: string)
    requires Locus(t, path, fullpath).Ok?
    ensures At(t.top, Locus(t, path, fullpath).value.at) == Some(Locus(t, path, fullpath).value.leaf)
  {
    var vs := Visits(fullpath);
    LocateAt(t.top, Some(t.top), [], vs, Spot([], None, None, Some(t.top)), path);
    var sp := Locate(Some(t.top), [], vs, Spot([], None, None, Some(t.top)), path).value;
    if sp.leafAt == [] {
      assert At(t.top, ["/"]) == At(t.top.children["/"], []);
    }
  }

  /** `rm(path, routes, parent)`. */
  function Rm(t: Tree, path: string, parent: string, rank: string -> int): (o: Outcome<()>)
    ensures o.tree.infos == t.infos
    ensures o.tree.paths == t.paths || o.tree.paths == t.paths - {Merge(path, parent)}
  {
    var fullpath := Merge(path, parent);
    match Locus(t, path, fullpath)
    case Err(e) => Outcome(t, Err(e))
    case Ok(Target(at, leaf, key, root)) =>
      if leaf.route != key then
        if leaf.keys.None? then Outcome(t, Err(TypeError("Cannot read properties of undefined")))
        else if key !in leaf.keys.value then Outcome(t, Err(NotFound(path, key)))
        else
          var keys := Ordering.Sort(RemoveFirst(leaf.keys.value, key), Priority(rank));
          var edited := t.(top := Update(t.top, at, leaf.(keys := Some(keys), children := leaf.children - {key})));
          Unfile(edited, leaf, root, fullpath)
      else Unfile(t, leaf, root, fullpath)
  }

  /** `if (leaf.route === root.route) delete routes.refs[fullpath]`. */
  function Unfile(t: Tree, leaf: Node, root: Option<Node>, fullpath: string): (o: Outcome<()>)
    ensures o.tree.top == t.top && o.tree.infos == t.infos
    ensures o.tree.paths == t.paths || o.tree.paths == t.paths - {fullpath}
    ensures o.result.Err? ==> o.result.error.TypeError?
  {
    match root
    case None => Outcome(t, Err(TypeError("Cannot read properties of undefined")))
    case Some(r) =>
      if leaf.route == r.route then Outcome(t.(paths := t.paths - {fullpath}), Ok(()))
      else Outcome(t, Ok(()))
  }

  /** When the key is listed under a parent whose route differs from it, `rm` removes
      exactly that key and its child: the parent's keys become a sorted permutation of
      the old ones minus the key, and its other children stay. */
  lemma RmRemoves(t: Tree, path: string, parent: string, rank: string -> int)
    requires Locus(t, path, Merge(path, parent)).Ok?
    requires var g := Locus(t, path, Merge(path, parent)).value;
      g.leaf.route != g.key && g.leaf.keys.Some? && g.key in g.leaf.keys.value
    ensures var g := Locus(t, path, Merge(path, parent)).value;
      var n := At(Rm(t, path, parent, rank).tree.top, g.at);
      && At(t.top, g.at) == Some(g.leaf)
      && n.Some? && n.value.keys.Some?
      && multiset(n.value.keys.value) == multiset(g.leaf.keys.value) - multiset{g.key}
      && Ordering.Sorted(n.value.keys.value, Priority(rank))
      && n.value.children == g.leaf.children - {g.key}
      && n.value.route == g.leaf.route && n.value.pattern == g.leaf.pattern
      && Rm(t, path, parent, rank).tree.top == Update(t.top, g.at, n.value)
  {
    var g := Locus(t, path, Merge(path, parent)).value;
    LocusAt(t, path, Merge(path, parent));
    var keys := RemoveFirst(g.leaf.keys.value, g.key);
    Ordering.SortSpec(keys, Priority(rank));
    UpdateAt(t.top, g.at, g.leaf.(keys := Some(Ordering.Sort(keys, Priority(rank))), children := g.leaf.children - {g.key}));
  }

  /** `refs[fullpath]` goes only when the parent's route equals the removed node's. */
  lemma RmUnfiles(t: Tree, path: string, parent: string, rank: string -> int)
    requires Rm(t, path, parent, rank).result.Ok?
    ensures Locus(t, path, Merge(path, parent)).Ok?
    ensures var g := Locus(t, path, Merge(path, parent)).value;
      g.root.Some? &&
      Rm(t, path, parent, rank).tree.paths ==
        (if g.leaf.route == g.root.value.route then t.paths - {Merge(path, parent)} else t.paths)
  {
  }

  /** A key that the parent does not list is refused with NotFound(path, key), and
      nothing is changed. */
  lemma RmMissingKey(t: Tree, path: string, parent: string, rank: string -> int)
    requires Locus(t, path, Merge(path, parent)).Ok?
    requires var g := Locus(t, path, Merge(path, parent)).value;
      g.leaf.route != g.key && g.leaf.keys.Some? && g.key !in g.leaf.keys.value
    ensures Rm(t, path, parent, rank) == Outcome(t, Err(NotFound(path, Locus(t, path, Merge(path, parent)).value.key)))
  {
  }

  /** Outside the parent's path and subtree, `rm` changes no node. */
  lemma RmLeavesOthers(t: Tree, path: string, parent: string, rank: string -> int, q: seq<string>)
    requires Locus(t, path, Merge(path, parent)).Ok?
    requires var g := Locus(t, path, Merge(path, parent)).value;
      g.leaf.route != g.key && g.leaf.keys.Some? && g.key in g.leaf.keys.value
    requires var g := Locus(t, path, Merge(path, parent)).value;
      !(q <= g.at) && !(g.at <= q)
    ensures At(Rm(t, path, parent, rank).tree.top, q) == At(t.top, q)
  {
    var g := Locus(t, path, Merge(path, parent)).value;
    RmRemoves(t, path, parent, rank);
    var n := At(Rm(t, path, parent, rank).tree.top, g.at).value;
    UpdateFrame(t.top, g.at, n, q);
  }

  /** The node at `at` exists and has had children pushed under it. */
  predicate Reached(top: Node, at: seq<string>)
  {
    At(top, at).Some? && At(top, at).value.keys.Some?
  }

  lemma AtCons(n: Node, x: string, rest: seq<string>)
    ensures At(n, [x] + rest) == if x in n.children then At(n.children[x], rest) else None
  {
    assert ([x] + rest)[0] == x && ([x] + rest)[1..] == rest;
  }

  /** One step of the rm walk from `root` along the first visit. */
  lemma LocateStep(root: Node, rootAt: seq<string>, vs: seq<Visit>, sp: Spot, path: string)
    requires vs != [] && root.keys.Some?
    ensures var x := vs[0].seg;
      var next := if x in root.children then Some(root.children[x]) else None;
      Locate(Some(root), rootAt, vs, sp, path) == Locate(next, rootAt + [x], vs[1..], Spot(rootAt, Some(root), Some(x), next), path)
  {
  }

  /** `ss` lists the segments the visits `vs` step through. */
  predicate SegsOf(vs: seq<Visit>, ss: seq<string>)
  {
    |ss| == |vs| && forall k :: 0 <= k < |vs| ==> ss[k] == vs[k].seg
  }

  /** The rm walk steps onto a segment that is missing before the last visit: the
      cursor falls off the tree and the next visit clears `leaf`. Here `At` is
      taken from the node the walk starts on. */
  lemma {:induction false} LocateFalls(root: Node, rootAt: seq<string>, vs: seq<Visit>, ss: seq<string>, sp: Spot, path: string, i: nat)
    requires SegsOf(vs, ss) && i + 1 < |vs|
    requires forall j :: 0 <= j <= i ==> Reached(root, ss[..j])
    requires At(root, ss[..i + 1]).None?
    ensures Locate(Some(root), rootAt, vs, sp, path) == Ok(Spot(rootAt + ss[..i], None, Some(ss[i]), None))
    decreases i
  {
    var x := vs[0].seg;
    assert ss[..0] == [];
    assert Reached(root, ss[..0]);
    assert ss[..1] == [x];
    AtCons(root, x, []);
    LocateStep(root, rootAt, vs, sp, path);
    if i == 0 {
      assert rootAt + ss[..0] == rootAt;
      LocateFallsHere(root, rootAt, vs, sp, path);
    } else {
      LocateFallsLater(root, rootAt, vs, ss, sp, path, i);
    }
  }

  lemma LocateFallsHere(root: Node, rootAt: seq<string>, vs: seq<Visit>, sp: Spot, path: string)
    requires 1 < |vs| && root.keys.Some?
    requires vs[0].seg !in root.children
    ensures Locate(Some(root), rootAt, vs, sp, path) == Ok(Spot(rootAt, None, Some(vs[0].seg), None))
  {
    LocateStep(root, rootAt, vs, sp, path);
  }

  lemma {:induction false} LocateFallsLater(root: Node, rootAt: seq<string>, vs: seq<Visit>, ss: seq<string>, sp: Spot, path: string, i: nat)
    requires SegsOf(vs, ss) && 0 < i && i + 1 < |vs|
    requires forall j :: 0 <= j <= i ==> Reached(root, ss[..j])
    requires At(root, ss[..i + 1]).None?
    ensures Locate(Some(root), rootAt, vs, sp, path) == Ok(Spot(rootAt + ss[..i], None, Some(ss[i]), None))
    decreases i, 0
  {
    var x := vs[0].seg;
    var ts := ss[1..];
    assert ss == [x] + ts;
    ReachedChild(root, x, ts, i);
    var c := root.children[x];
    var sp1 := Spot(rootAt, Some(root), Some(x), Some(c));
    LocateStep(root, rootAt, vs, sp, path);
    assert ss[..i + 1] == [x] + ts[..i];
    AtCons(root, x, ts[..i]);
    assert SegsOf(vs[1..], ts);
    LocateFalls(c, rootAt + [x], vs[1..], ts, sp1, path, i - 1);
    assert ss[..i] == [x] + ts[..i - 1];
    assert (rootAt + [x]) + ts[..i - 1] == rootAt + ss[..i];
  }

  /** Nodes reached along `[x] + ts` are reached along `ts` from the child `x`. */
  lemma ReachedChild(root: Node, x: string, ts: seq<string>, i: nat)
    requires 0 < i <= |ts|
    requires forall j :: 0 <= j <= i ==> Reached(root, ([x] + ts)[..j])
    ensures x in root.children && root.keys.Some?
    ensures forall j :: 0 <= j <= i - 1 ==> Reached(root.children[x], ts[..j])
  {
    assert ([x] + ts)[..0] == [];
    assert Reached(root, ([x] + ts)[..0]);
    assert ([x] + ts)[..1] == [x];
    assert Reached(root, ([x] + ts)[..1]);
    AtCons(root, x, []);
    forall j | 0 <= j <= i - 1 ensures Reached(root.children[x], ts[..j]) {
      assert ([x] + ts)[..j + 1] == [x] + ts[..j];
      assert Reached(root, ([x] + ts)[..j + 1]);
      AtCons(root, x, ts[..j]);
    }
  }

  /** The rm walk reaches a node that never had children pushed under it. */
  lemma {:induction false} LocateNoKeys(root: Node, rootAt: seq<string>, vs: seq<Visit>, ss: seq<string>, sp: Spot, path: string, i: nat)
    requires SegsOf(vs, ss) && i < |vs|
    requires forall j :: 0 <= j < i ==> Reached(root, ss[..j])
    requires At(root, ss[..i]).Some? && At(root, ss[..i]).value.keys.None?
    ensures Locate(Some(root), rootAt, vs, sp, path) == Err(NotFound(path, ss[i]))
    decreases i
  {
    assert ss[..0] == [];
    if i > 0 {
      var x := vs[0].seg;
      var ts := ss[1..];
      assert ss == [x] + ts;
      assert Reached(root, ss[..0]);
      assert ss[..i] == [x] + ts[..i - 1];
      AtCons(root, x, ts[..i - 1]);
      assert x in root.children;
      var c := root.children[x];
      LocateStep(root, rootAt, vs, sp, path);
      var sp1 := Spot(rootAt, Some(root), Some(x), Some(c));
      forall j | 0 <= j < i - 1 ensures Reached(c, ts[..j]) {
        assert ss[..j + 1] == [x] + ts[..j];
        assert Reached(root, ss[..j + 1]);
        AtCons(root, x, ts[..j]);
      }
      assert SegsOf(vs[1..], ts);
      LocateNoKeys(c, rootAt + [x], vs[1..], ts, sp1, path, i - 1);
    }
  }

  lemma VisitsSegs(s: string)
    ensures SegsOf(Visits(s), Parts(s))
  {
    var vs := Visits(s);
    SegmentsOfParts(s);
    forall k | 0 <= k < |vs| ensures Parts(s)[k] == vs[k].seg {
      SegmentsAt(vs, k);
    }
  }

  /** A segment of the full path missing from the tree, before the last one, makes
      `rm` throw NotFound(path, segment) with nothing changed. */
  lemma RmMissingSegment(t: Tree, path: string, parent: string, rank: string -> int, i: nat)
    requires !HasSlashGroup(Merge(path, parent)) && i + 1 < |Parts(Merge(path, parent))|
    requires forall j :: 0 <= j <= i ==> Reached(t.top, Parts(Merge(path, parent))[..j])
    requires At(t.top, Parts(Merge(path, parent))[..i + 1]).None?
    ensures Rm(t, path, parent, rank) == Outcome(t, Err(NotFound(path, Parts(Merge(path, parent))[i])))
  {
    var fullpath := Merge(path, parent);
    var vs := Visits(fullpath);
    VisitsSegs(fullpath);
    var sp := Spot([], None, None, Some(t.top));
    LocateFalls(t.top, [], vs, Parts(fullpath), sp, path, i);
  }

  /** A node on the full path that never had children pushed under it makes `rm`
      throw NotFound(path, segment) at the segment visited there. */
  lemma RmNoChildren(t: Tree, path: string, parent: string, rank: string -> int, i: nat)
    requires !HasSlashGroup(Merge(path, parent)) && i < |Parts(Merge(path, parent))|
    requires forall j :: 0 <= j < i ==> Reached(t.top, Parts(Merge(path, parent))[..j])
    requires At(t.top, Parts(Merge(path, parent))[..i]).Some?
    requires At(t.top, Parts(Merge(path, parent))[..i]).value.keys.None?
    ensures Rm(t, path, parent, rank) == Outcome(t, Err(NotFound(path, Parts(Merge(path, parent))[i])))
  {
    var fullpath := Merge(path, parent);
    var vs := Visits(fullpath);
    VisitsSegs(fullpath);
    var sp := Spot([], None, None, Some(t.top));
    LocateNoKeys(t.top, [], vs, Parts(fullpath), sp, path, i);
  }

  /** `rm` throws only NotFound naming the path it was given, or a TypeError. */
  lemma RmErrors(t: Tree, path: string, parent: string, rank: string -> int)
    requires Rm(t, path, parent, rank).result.Err?
    ensures var e := Rm(t, path, parent, rank).result.error;
      (e.NotFound? && e.route == path) || e.TypeError?
  {
    var g := Locus(t, path, Merge(path, parent));
    if g.Ok? {
      var Target(at, leaf, key, root) := g.value;
      if leaf.route != key && leaf.keys.Some? && key in leaf.keys.value {
        var keys := Ordering.Sort(RemoveFirst(leaf.keys.value, key), Priority(rank));
        var edited := t.(top := Update(t.top, at, leaf.(keys := Some(keys), children := leaf.children - {key})));
        assert Rm(t, path, parent, rank) == Unfile(edited, leaf, root, Merge(path, parent));
      }
    }
  }

  /** Removing from a registry nothing was added to fails at the first segment. */
  lemma RmFromEmpty(path: string, parent: string, rank: string -> int)
    requires !HasSlashGroup(Merge(path, parent))
    ensures Rm(Empty(), path, parent, rank).result == Err(NotFound(path, "/"))
  {
    var fullpath := Merge(path, parent);
    assert Visits(fullpath)[0].seg == Parts(fullpath)[0];
  }

  lemma RmKeepsRefsClosed(t: Tree, path: string, parent: string, rank: string -> int)
    requires RefsClosed(t)
    ensures RefsClosed(Rm(t, path, parent, rank).tree)
  {
    var o := Rm(t, path, parent, rank);
    forall p, k | p in o.tree.paths && k in o.tree.paths[p]
      ensures k in o.tree.infos
    {
      assert p in t.paths && o.tree.paths[p] == t.paths[p];
    }
  }
}
