/** Resolution: `reduce` descends the registry one visited segment at a time,
    emits one record per route filed at each node it passes, and sorts them;
    `find` runs it under a retry count. */
module Resolver {
  import opened Common
  import opened PathWalk
  import opened PathMatcher
  import opened Registry
  import Ordering

  /** One resolved route: the spread info (without `fullpath`), the `matches` flag,
      the parameters captured so far, the route's full path, its depth plus the
      number of keys of the segment that emitted it, and the path it matched. */
  datatype Record = Record(
    key: string, exact: bool, fallback: bool, fields: map<string, string>,
    matches: bool, params: map<string, string>, route: string, depth: nat, path: string)

  /** JavaScript truthiness of a string that may be null. */
  predicate Truthy(o: Option<string>)
  {
    o.Some? && o.value != ""
  }

  /** The record for `info` emitted at visit v by a segment with nkeys keys. */
  function MakeRecord(info: Info, v: Visit, isSplat: bool, data: map<string, string>, nkeys: nat): Record
  {
    var x, leaf, extra := v.seg, v.acc, v.rest;
    var matches :=
      if info.exact then extra.None?
      else !(x != "" && leaf.None?) || leaf == Some(x) || isSplat || !Truthy(extra);
    var path := if isSplat && Truthy(extra) then extra.value else if Truthy(leaf) then leaf.value else x;
    Record(info.key, info.exact, info.fallback, info.fields, matches, data, info.fullpath, info.depth + nkeys, path)
  }

  /** Along the visits of a non-empty path, an exact route's record matches only at
      the last segment, and any other route's record always matches. */
  lemma MatchesAtVisit(info: Info, s: string, i: nat, isSplat: bool, data: map<string, string>, nkeys: nat)
    requires s != "" && i < |Visits(s)|
    ensures MakeRecord(info, Visits(s)[i], isSplat, data, nkeys).matches <==> (!info.exact || i == |Visits(s)| - 1)
  {
    VisitShape(s, i);
  }

  // ---------------------------------------------------------------------------
  // emitting records
  // ---------------------------------------------------------------------------

  predicate HasKey(out: seq<Record>, k: string)
  {
    exists i :: 0 <= i < |out| && out[i].key == k
  }

  predicate KeysDistinct(out: seq<Record>)
  {
    forall i, j :: 0 <= i < j < |out| ==> out[i].key != out[j].key
  }

  predicate InfosKeyed(infos: map<string, Info>)
  {
    forall k :: k in infos ==> infos[k].key == k
  }

  /** The keys filed under a node's route, its route plus `/` and plus `#`. */
  function Routes(t: Tree, route: string): seq<string>
  {
    Listed(t.paths, route) + Listed(t.paths, route + "/") + Listed(t.paths, route + "#")
  }

  /** rec is the record built at visit v from the info of one of the routes. */
  predicate BuiltFrom(rec: Record, infos: map<string, Info>, routes: seq<string>, v: Visit, isSplat: bool, data: map<string, string>, nkeys: nat)
  {
    exists k :: k in routes && k in infos && rec == MakeRecord(infos[k], v, isSplat, data, nkeys)
  }

  /** `routes.forEach(...)`: append a record for each route whose key is not out
      yet; the records out before stay in front, and every record appended is
      the one built from the info of one of the routes. */
  function Emit(infos: map<string, Info>, out: seq<Record>, routes: seq<string>, v: Visit, isSplat: bool, data: map<string, string>, nkeys: nat): (r: seq<Record>)
    requires forall k :: k in routes ==> k in infos
    ensures |r| >= |out| && r[..|out|] == out
    ensures forall i :: |out| <= i < |r| ==> BuiltFrom(r[i], infos, routes, v, isSplat, data, nkeys)
    decreases |routes|
  {
    if routes == [] then out
    else
      var k := routes[0];
      var next := if HasKey(out, k) then out else out + [MakeRecord(infos[k], v, isSplat, data, nkeys)];
      var r := Emit(infos, next, routes[1..], v, isSplat, data, nkeys);
      assert forall i :: |out| <= i < |r| ==> BuiltFrom(r[i], infos, routes, v, isSplat, data, nkeys) by {
        forall i | |out| <= i < |r|
          ensures BuiltFrom(r[i], infos, routes, v, isSplat, data, nkeys)
        {
          if i < |next| {
            assert r[i] == next[i] && i == |out|;
            assert routes[0] in routes;
          } else {
            assert BuiltFrom(r[i], infos, routes[1..], v, isSplat, data, nkeys);
            var k' :| k' in routes[1..] && k' in infos && r[i] == MakeRecord(infos[k'], v, isSplat, data, nkeys);
            assert k' in routes;
          }
        }
      }
      r
  }

  /** Every route ends up out, and no key is out twice. */
  lemma {:induction false} EmitSpec(infos: map<string, Info>, out: seq<Record>, routes: seq<string>, v: Visit, isSplat: bool, data: map<string, string>, nkeys: nat)
    requires InfosKeyed(infos) && forall k :: k in routes ==> k in infos
    ensures forall k :: k in routes ==> HasKey(Emit(infos, out, routes, v, isSplat, data, nkeys), k)
    ensures KeysDistinct(out) ==> KeysDistinct(Emit(infos, out, routes, v, isSplat, data, nkeys))
    decreases |routes|
  {
    if routes != [] {
      var k := routes[0];
      var next := if HasKey(out, k) then out else out + [MakeRecord(infos[k], v, isSplat, data, nkeys)];
      assert HasKey(next, k) by {
        if !HasKey(out, k) {
          assert next[|out|].key == k;
        } else {
          var i :| 0 <= i < |out| && out[i].key == k;
          assert next[i] == out[i];
        }
      }
      EmitSpec(infos, next, routes[1..], v, isSplat, data, nkeys);
      var r := Emit(infos, next, routes[1..], v, isSplat, data, nkeys);
      assert HasKey(r, k) by {
        var i :| 0 <= i < |next| && next[i].key == k;
        assert r[..|next|] == next && r[i] == next[i];
      }
    }
  }

  // ---------------------------------------------------------------------------
  // the specification of reduce
  // ---------------------------------------------------------------------------

  /** The variables of `reduce` that outlive one visit: the node the walk is at,
      the captured parameters, the records out so far and the splat flag. */
  datatype Cursor = Cursor(root: Node, data: map<string, string>, out: seq<Record>, splat: bool)

  function KeysOf(n: Node): seq<string>
  {
    if n.keys.Some? then n.keys.value else []
  }

  /** `root.keys.some(x => x.includes('*'))` */
  predicate SplatKey(keys: seq<string>)
  {
    exists j :: 0 <= j < |keys| && '*' in keys[j]
  }

  /** `_isSplat ? extra || x : x`: what a child's pattern is matched against. */
  function Input(isSplat: bool, v: Visit): string
  {
    if isSplat && Truthy(v.rest) then v.rest.value else v.seg
  }

  /** `root.keys.some(k => { … })` from key ks[0] on: the cursor afterwards and
      whether a child was taken (`found`). */
  function ScanFrom(t: Tree, node: Node, ks: seq<string>, v: Visit, c: Cursor, decode: Option<string> -> string): (r: Result<(Cursor, bool)>)
    requires RefsClosed(t)
    ensures r.Ok? && !r.value.1 ==> r.value.0.root == c.root && r.value.0.splat == c.splat
    ensures r.Err? ==> r.error.TypeError?
    decreases |ks|
  {
    if ks == [] then Ok((c, false))
    else if ks[0] !in node.children then Err(TypeError("Cannot read properties of undefined"))
    else
      var child := node.children[ks[0]];
      var isSplat := child.pattern.splat;
      match Match(child.pattern, Input(isSplat, v), decode)
      case None => ScanFrom(t, node, ks[1..], v, c, decode)
      case Some(m) =>
        var data := c.data + m;
        var out := Emit(t.infos, c.out, Routes(t, child.route), v, isSplat, data, |child.pattern.keys|);
        if v.rest.None? && child.keys.None? then Ok((c.(data := data, out := out), false))
        else if !isSplat && !Truthy(v.rest) && SplatKey(KeysOf(node)) then
          ScanFrom(t, node, ks[1..], v, c.(data := data, out := out), decode)
        else Ok((Cursor(child, data, out, isSplat), true))
  }

  /** `root.keys.some(k => root[k].pattern.match(x))` */
  function AnyMatch(node: Node, ks: seq<string>, x: string): (r: Result<bool>)
    ensures r == Ok(true) ==> exists k :: k in ks && k in node.children && RawMatch(node.children[k].pattern, x).Some?
    ensures r == Ok(false) ==> forall k :: k in ks ==> k in node.children && RawMatch(node.children[k].pattern, x).None?
    ensures r.Err? ==> r.error.TypeError?
    decreases |ks|
  {
    if ks == [] then Ok(false)
    else if ks[0] !in node.children then Err(TypeError("Cannot read properties of undefined"))
    else if RawMatch(node.children[ks[0]].pattern, x).Some? then Ok(true)
    else AnyMatch(node, ks[1..], x)
  }

  /** The child under key k and whether its pattern accepts the visit's input. */
  predicate Accepts(node: Node, k: string, v: Visit, decode: Option<string> -> string)
    requires k in node.children
  {
    var p := node.children[k].pattern;
    Match(p, Input(p.splat, v), decode).Some?
  }

  /** The `some` callback returns true for k without taking its child: the child
      accepts the last segment and has no keys of its own. */
  predicate EndsAt(node: Node, k: string, v: Visit, decode: Option<string> -> string)
  {
    k in node.children && Accepts(node, k, v, decode) && v.rest.None? && node.children[k].keys.None?
  }

  /** The scan moves on past k: its child refuses the input, or accepts it but is
      not terminal and is overridden because a sibling key holds `*`. */
  predicate PassesOver(node: Node, k: string, v: Visit, decode: Option<string> -> string)
  {
    k in node.children &&
    (!Accepts(node, k, v, decode) ||
     (!EndsAt(node, k, v, decode) && !node.children[k].pattern.splat && !Truthy(v.rest) && SplatKey(KeysOf(node))))
  }

  /** The scan takes k's child: it accepts the input, is not terminal, and no `*`
      sibling overrides it. */
  predicate Takes(node: Node, k: string, v: Visit, decode: Option<string> -> string)
  {
    k in node.children && Accepts(node, k, v, decode) && !EndsAt(node, k, v, decode) &&
    (node.children[k].pattern.splat || Truthy(v.rest) || !SplatKey(KeysOf(node)))
  }

  /** ks[j] is the first key of ks the scan does not move past. */
  predicate FirstStop(node: Node, ks: seq<string>, v: Visit, decode: Option<string> -> string, j: int)
  {
    0 <= j < |ks| && forall l :: 0 <= l < j ==> PassesOver(node, ks[l], v, decode)
  }

  /** The cursor after the scan moves past k: unchanged when k's child refuses
      the input, otherwise with the captures added and the routes emitted. */
  function PassCursor(t: Tree, node: Node, k: string, v: Visit, c: Cursor, decode: Option<string> -> string): Cursor
    requires RefsClosed(t) && k in node.children
  {
    var child := node.children[k];
    match Match(child.pattern, Input(child.pattern.splat, v), decode)
    case None => c
    case Some(m) =>
      c.(data := c.data + m, out := Emit(t.infos, c.out, Routes(t, child.route), v, child.pattern.splat, c.data + m, |child.pattern.keys|))
  }

  /** One step of the scan, told by what it does with ks[0]. */
  lemma ScanStep(t: Tree, node: Node, ks: seq<string>, v: Visit, c: Cursor, decode: Option<string> -> string)
    requires RefsClosed(t) && ks != []
    ensures ks[0] !in node.children ==> ScanFrom(t, node, ks, v, c, decode).Err?
    ensures PassesOver(node, ks[0], v, decode) ==>
      ScanFrom(t, node, ks, v, c, decode) == ScanFrom(t, node, ks[1..], v, PassCursor(t, node, ks[0], v, c, decode), decode)
    ensures EndsAt(node, ks[0], v, decode) ==> ScanFrom(t, node, ks, v, c, decode).Ok? && !ScanFrom(t, node, ks, v, c, decode).value.1
    ensures Takes(node, ks[0], v, decode) ==>
      var r := ScanFrom(t, node, ks, v, c, decode);
      r.Ok? && r.value.1 && r.value.0.root == node.children[ks[0]] && r.value.0.splat == node.children[ks[0]].pattern.splat
  {
  }

  /** The scan's outcome, by the first key it does not move past: it takes that
      key's child exactly when the child qualifies, and then the cursor is at that
      child with its splat flag; it fails exactly at a key without a child; and it
      takes nothing exactly when it moves past every key or ends at a terminal one. */
  lemma {:induction false} ScanTakesFirst(t: Tree, node: Node, ks: seq<string>, v: Visit, c: Cursor, decode: Option<string> -> string)
    requires RefsClosed(t)
    ensures var r := ScanFrom(t, node, ks, v, c, decode);
      r.Ok? && r.value.1 <==> exists j :: FirstStop(node, ks, v, decode, j) && Takes(node, ks[j], v, decode)
    ensures var r := ScanFrom(t, node, ks, v, c, decode);
      forall j :: FirstStop(node, ks, v, decode, j) && Takes(node, ks[j], v, decode) ==>
        r.Ok? && r.value.0.root == node.children[ks[j]] && r.value.0.splat == node.children[ks[j]].pattern.splat
    ensures ScanFrom(t, node, ks, v, c, decode).Err? <==> exists j :: FirstStop(node, ks, v, decode, j) && ks[j] !in node.children
    ensures var r := ScanFrom(t, node, ks, v, c, decode);
      r.Ok? && !r.value.1 <==>
        (forall l :: 0 <= l < |ks| ==> PassesOver(node, ks[l], v, decode)) ||
        exists j :: FirstStop(node, ks, v, decode, j) && EndsAt(node, ks[j], v, decode)
    decreases |ks|
  {
    if ks != [] {
      var k0 := ks[0];
      ScanStep(t, node, ks, v, c, decode);
      assert FirstStop(node, ks, v, decode, 0);
      if PassesOver(node, k0, v, decode) {
        ScanTakesFirst(t, node, ks[1..], v, PassCursor(t, node, k0, v, c, decode), decode);
        StopsAfterPass(node, ks, v, decode);
      } else {
        forall j | FirstStop(node, ks, v, decode, j) ensures j == 0 {
          assert j > 0 ==> PassesOver(node, k0, v, decode);
        }
        assert !(forall l :: 0 <= l < |ks| ==> PassesOver(node, ks[l], v, decode));
      }
    }
  }

  /** Moving past ks[0] shifts every first-stop fact down by one. */
  lemma StopsAfterPass(node: Node, ks: seq<string>, v: Visit, decode: Option<string> -> string)
    requires ks != [] && PassesOver(node, ks[0], v, decode)
    ensures forall j :: j > 0 ==> (FirstStop(node, ks, v, decode, j) <==> FirstStop(node, ks[1..], v, decode, j - 1))
    ensures (exists j :: FirstStop(node, ks, v, decode, j) && Takes(node, ks[j], v, decode)) <==>
      exists j :: FirstStop(node, ks[1..], v, decode, j) && Takes(node, ks[1..][j], v, decode)
    ensures (exists j :: FirstStop(node, ks, v, decode, j) && ks[j] !in node.children) <==>
      exists j :: FirstStop(node, ks[1..], v, decode, j) && ks[1..][j] !in node.children
    ensures (exists j :: FirstStop(node, ks, v, decode, j) && EndsAt(node, ks[j], v, decode)) <==>
      exists j :: FirstStop(node, ks[1..], v, decode, j) && EndsAt(node, ks[1..][j], v, decode)
    ensures (forall l :: 0 <= l < |ks| ==> PassesOver(node, ks[l], v, decode)) <==>
      forall l :: 0 <= l < |ks[1..]| ==> PassesOver(node, ks[1..][l], v, decode)
  {
    forall j | j > 0 ensures FirstStop(node, ks, v, decode, j) <==> FirstStop(node, ks[1..], v, decode, j - 1) {
      if j < |ks| {
        if FirstStop(node, ks, v, decode, j) {
          forall l | 0 <= l < j - 1 ensures PassesOver(node, ks[1..][l], v, decode) {
            assert ks[1..][l] == ks[l + 1];
          }
        }
        if FirstStop(node, ks[1..], v, decode, j - 1) {
          forall l | 0 <= l < j ensures PassesOver(node, ks[l], v, decode) {
            if l > 0 {
              assert ks[l] == ks[1..][l - 1];
            }
          }
        }
      }
    }
    forall l | 0 <= l < |ks[1..]| ensures ks[1..][l] == ks[l + 1] {
    }
  }

  /** One callback of the walk in `reduce`: the cursor afterwards and whether the
      walk stops (`splat || !found`). */
  function VisitStep(t: Tree, key: string, v: Visit, c: Cursor, decode: Option<string> -> string): (r: Result<(Cursor, bool)>)
    requires RefsClosed(t)
  {
    if c.root.keys.None? then Err(NotFound(key, v.seg))
    else match ScanFrom(t, c.root, c.root.keys.value, v, c, decode)
      case Err(e) => Err(e)
      case Ok((next, found)) =>
        if found then Ok((next, next.splat))
        else match AnyMatch(c.root, c.root.keys.value, v.seg)
          case Err(e) => Err(e)
          case Ok(any) => if any then Ok((next, true)) else Err(NotFound(key, v.seg))
  }

  /** The walk of `reduce` over the visits left: the records out when it ends. */
  function WalkFrom(t: Tree, key: string, vs: seq<Visit>, c: Cursor, decode: Option<string> -> string): (r: Result<seq<Record>>)
    requires RefsClosed(t)
    decreases |vs|
  {
    if vs == [] then Ok(c.out)
    else match VisitStep(t, key, vs[0], c, decode)
      case Err(e) => Err(e)
      case Ok((next, stop)) => if stop then Ok(next.out) else WalkFrom(t, key, vs[1..], next, decode)
  }

  /** `reduce(key, root)`. */
  function ReduceSpec(t: Tree, key: string, decode: Option<string> -> string): Result<seq<Record>>
    requires RefsClosed(t)
  {
    if HasSlashGroup(key) then Err(TypeError("RegExp cannot contain slashes"))
    else match WalkFrom(t, key, Visits(key), Cursor(t.top, map[], [], false), decode)
      case Err(e) => Err(e)
      case Ok(out) => Ok(SortRecords(out))
  }

  // ---------------------------------------------------------------------------
  // the result order
  // ---------------------------------------------------------------------------

  predicate HasHash(route: string)
  {
    '#' in route
  }

  /** The comparator of `out.sort`. */
  function Compare(a: Record, b: Record): int
  {
    if b.fallback && !a.fallback then -1
    else if a.fallback && !b.fallback then 1
    else if HasHash(b.route) && !HasHash(a.route) then -1
    else if HasHash(a.route) && !HasHash(b.route) then 1
    else a.depth - b.depth
  }

  /** The sort key the comparator orders by. */
  function Rank(r: Record): seq<int>
  {
    [if r.fallback then 1 else 0, if HasHash(r.route) then 1 else 0, r.depth]
  }

  /** `out.sort(compare)`: a stable sort by the comparator. */
  function SortRecords(out: seq<Record>): seq<Record>
  {
    Ordering.Sort(out, Rank)
  }

  /** The comparator puts a no later than b exactly when a's key is not greater,
      and calls them equal exactly when their keys are equal. */
  lemma CompareAgrees(a: Record, b: Record)
    ensures Compare(a, b) <= 0 <==> Ordering.Le(Rank(a), Rank(b))
    ensures Compare(a, b) == 0 <==> Rank(a) == Rank(b)
  {
    var ra, rb := Rank(a), Rank(b);
    assert ra[1..] == [ra[1], a.depth] && rb[1..] == [rb[1], b.depth];
    assert ra[1..][1..] == [a.depth] && rb[1..][1..] == [b.depth];
    assert ra[1..][1..][1..] == [] && rb[1..][1..][1..] == [];
    assert Ordering.Le([a.depth], [b.depth]) <==> a.depth <= b.depth;
    assert Ordering.Le(ra[1..], rb[1..]) <==> ra[1] < rb[1] || (ra[1] == rb[1] && a.depth <= b.depth);
    assert Ordering.Le(ra, rb) <==> ra[0] < rb[0] || (ra[0] == rb[0] && Ordering.Le(ra[1..], rb[1..]));
  }

  /** What it means for a to come no later than b in the result: non-fallback
      routes first, then routes without `#`, then by ascending depth. */
  predicate InOrder(a: Record, b: Record)
  {
    && (a.fallback ==> b.fallback)
    && (a.fallback == b.fallback && HasHash(a.route) ==> HasHash(b.route))
    && (a.fallback == b.fallback && HasHash(a.route) == HasHash(b.route) ==> a.depth <= b.depth)
  }

  lemma RankInOrder(a: Record, b: Record)
    requires Ordering.Le(Rank(a), Rank(b))
    ensures InOrder(a, b)
  {
    CompareAgrees(a, b);
  }

  /** Two sequences with the same elements have distinct keys together. */
  lemma {:induction false} KeysDistinctPerm(s: seq<Record>, t: seq<Record>)
    requires multiset(s) == multiset(t) && KeysDistinct(s)
    ensures KeysDistinct(t)
    decreases |t|
  {
    if t != [] {
      var x := t[0];
      assert x in multiset(s);
      var p :| 0 <= p < |s| && s[p] == x;
      var s' := s[..p] + s[p + 1..];
      DropDistinct(s, p);
      DropMultiset(s, p);
      var u := t[1..];
      assert t == [x] + u;
      assert multiset(s') == multiset(u);
      KeysDistinctPerm(s', u);
      forall i, j | 0 <= i < j < |t| ensures t[i].key != t[j].key {
        assert t[j] == u[j - 1];
        if i == 0 {
          assert t[j] in multiset(s');
          assert t[j] in s';
        } else {
          assert t[i] == u[i - 1];
        }
      }
    }
  }

  /** Dropping position p keeps the keys distinct, and none of the rest has its key. */
  lemma DropDistinct(s: seq<Record>, p: nat)
    requires KeysDistinct(s) && p < |s|
    ensures KeysDistinct(s[..p] + s[p + 1..])
    ensures forall y :: y in s[..p] + s[p + 1..] ==> y.key != s[p].key
  {
    var s' := s[..p] + s[p + 1..];
    forall i | 0 <= i < |s'| ensures s'[i] == s[if i < p then i else i + 1] {
    }
  }

  lemma DropMultiset(s: seq<Record>, p: nat)
    requires p < |s|
    ensures multiset(s[..p] + s[p + 1..]) == multiset(s) - multiset{s[p]}
  {
    assert s == s[..p] + [s[p]] + s[p + 1..];
  }

  /** The result is ordered as the comparator says, is a permutation of the
      records emitted, keeps emission order among records the comparator ties,
      and has distinct keys when the emitted records do. */
  lemma SortRecordsSpec(out: seq<Record>)
    ensures forall i, j :: 0 <= i < j < |SortRecords(out)| ==> InOrder(SortRecords(out)[i], SortRecords(out)[j])
    ensures multiset(SortRecords(out)) == multiset(out)
    ensures forall c :: Ordering.Filter(SortRecords(out), Rank, c) == Ordering.Filter(out, Rank, c)
    ensures KeysDistinct(out) ==> KeysDistinct(SortRecords(out))
  {
    var r := SortRecords(out);
    Ordering.SortSpec(out, Rank);
    forall i, j | 0 <= i < j < |r| ensures InOrder(r[i], r[j]) {
      RankInOrder(r[i], r[j]);
    }
    forall c ensures Ordering.Filter(r, Rank, c) == Ordering.Filter(out, Rank, c) {
      Ordering.SortStable(out, Rank, c);
    }
    if KeysDistinct(out) {
      KeysDistinctPerm(out, r);
    }
  }

  // ---------------------------------------------------------------------------
  // what reduce promises
  // ---------------------------------------------------------------------------

  /** Records only ever join the output once per key: the walk keeps keys distinct. */
  lemma {:induction false} WalkDistinct(t: Tree, key: string, vs: seq<Visit>, c: Cursor, decode: Option<string> -> string)
    requires RefsClosed(t) && KeysDistinct(c.out)
    ensures WalkFrom(t, key, vs, c, decode).Ok? ==> KeysDistinct(WalkFrom(t, key, vs, c, decode).value)
    decreases |vs|
  {
    if vs != [] && c.root.keys.Some? {
      ScanDistinct(t, c.root, c.root.keys.value, vs[0], c, decode);
      match VisitStep(t, key, vs[0], c, decode)
      case Err(_) =>
      case Ok((next, stop)) =>
        if !stop {
          WalkDistinct(t, key, vs[1..], next, decode);
        }
    }
  }

  lemma {:induction false} ScanDistinct(t: Tree, node: Node, ks: seq<string>, v: Visit, c: Cursor, decode: Option<string> -> string)
    requires RefsClosed(t) && KeysDistinct(c.out)
    ensures ScanFrom(t, node, ks, v, c, decode).Ok? ==> KeysDistinct(ScanFrom(t, node, ks, v, c, decode).value.0.out)
    decreases |ks|
  {
    if ks != [] && ks[0] in node.children {
      var child := node.children[ks[0]];
      var isSplat := child.pattern.splat;
      match Match(child.pattern, Input(isSplat, v), decode)
      case None => ScanDistinct(t, node, ks[1..], v, c, decode);
      case Some(m) =>
        var data := c.data + m;
        EmitSpec(t.infos, c.out, Routes(t, child.route), v, isSplat, data, |child.pattern.keys|);
        var out := Emit(t.infos, c.out, Routes(t, child.route), v, isSplat, data, |child.pattern.keys|);
        var next := c.(data := data, out := out);
        ScanDistinct(t, node, ks[1..], v, next, decode);
        assert ScanFrom(t, node, ks, v, c, decode) ==
          if v.rest.None? && child.keys.None? then Ok((next, false))
          else if !isSplat && !Truthy(v.rest) && SplatKey(KeysOf(node)) then ScanFrom(t, node, ks[1..], v, next, decode)
          else Ok((Cursor(child, data, out, isSplat), true));
    }
  }

  /** `reduce` emits each route key at most once, in the order the comparator
      demands. */
  lemma ReduceResult(t: Tree, key: string, decode: Option<string> -> string)
    requires RefsClosed(t) && ReduceSpec(t, key, decode).Ok?
    ensures KeysDistinct(ReduceSpec(t, key, decode).value)
    ensures var r := ReduceSpec(t, key, decode).value;
      forall i, j :: 0 <= i < j < |r| ==> InOrder(r[i], r[j])
  {
    var c := Cursor(t.top, map[], [], false);
    WalkDistinct(t, key, Visits(key), c, decode);
    SortRecordsSpec(WalkFrom(t, key, Visits(key), c, decode).value);
  }

  /** A NotFound from the walk names the requested path and one of its segments. */
  lemma {:induction false} WalkNotFound(t: Tree, key: string, vs: seq<Visit>, c: Cursor, decode: Option<string> -> string)
    requires RefsClosed(t)
    requires WalkFrom(t, key, vs, c, decode).Err? && WalkFrom(t, key, vs, c, decode).error.NotFound?
    ensures WalkFrom(t, key, vs, c, decode).error.route == key
    ensures exists i :: 0 <= i < |vs| && WalkFrom(t, key, vs, c, decode).error.segment == vs[i].seg
    decreases |vs|
  {
    match VisitStep(t, key, vs[0], c, decode)
    case Err(e) =>
      if c.root.keys.Some? {
        var s := ScanFrom(t, c.root, c.root.keys.value, vs[0], c, decode);
        assert s.Ok?;
      }
      assert e.segment == vs[0].seg;
    case Ok((next, stop)) =>
      WalkNotFound(t, key, vs[1..], next, decode);
      var i :| 0 <= i < |vs[1..]| && WalkFrom(t, key, vs[1..], next, decode).error.segment == vs[1..][i].seg;
      assert vs[1..][i] == vs[i + 1];
  }

  /** `reduce` raises NotFound(key, x) exactly for a visited segment x. */
  lemma ReduceNotFound(t: Tree, key: string, decode: Option<string> -> string)
    requires RefsClosed(t) && ReduceSpec(t, key, decode).Err? && ReduceSpec(t, key, decode).error.NotFound?
    ensures ReduceSpec(t, key, decode).error.route == key
    ensures ReduceSpec(t, key, decode).error.segment in Parts(key)
  {
    var vs := Visits(key);
    var c := Cursor(t.top, map[], [], false);
    var w := WalkFrom(t, key, vs, c, decode);
    assert !HasSlashGroup(key) && w.Err?;
    assert ReduceSpec(t, key, decode) == w;
    WalkNotFound(t, key, vs, c, decode);
    var i :| 0 <= i < |vs| && w.error.segment == vs[i].seg;
    assert vs[i] == VisitAt(Parts(key), i);
    assert Parts(key)[i] in Parts(key);
  }

  /** A step where no child is taken but some child's pattern matches the segment
      also ends the walk, with the records collected so far. */
  lemma PatternOnlyStops(t: Tree, key: string, vs: seq<Visit>, c: Cursor, decode: Option<string> -> string)
    requires RefsClosed(t) && vs != [] && c.root.keys.Some?
    requires var s := ScanFrom(t, c.root, c.root.keys.value, vs[0], c, decode);
      s.Ok? && !s.value.1 && AnyMatch(c.root, c.root.keys.value, vs[0].seg) == Ok(true)
    ensures WalkFrom(t, key, vs, c, decode) == Ok(ScanFrom(t, c.root, c.root.keys.value, vs[0], c, decode).value.0.out)
  {
  }

  /** The cursor `c` cannot take the visit `v`: its node had nothing pushed under
      it, or the scan takes no child and no child's pattern matches the segment. */
  predicate Stuck(t: Tree, c: Cursor, v: Visit, decode: Option<string> -> string)
    requires RefsClosed(t)
  {
    c.root.keys.None? ||
    (var s := ScanFrom(t, c.root, c.root.keys.value, v, c, decode);
     s.Ok? && !s.value.1 && AnyMatch(c.root, c.root.keys.value, v.seg) == Ok(false))
  }

  /** A visit raises NotFound(key, segment) exactly when the cursor is stuck there. */
  lemma VisitNotFound(t: Tree, key: string, v: Visit, c: Cursor, decode: Option<string> -> string)
    requires RefsClosed(t)
    ensures VisitStep(t, key, v, c, decode) == Err(NotFound(key, v.seg)) <==> Stuck(t, c, v, decode)
  {
  }

  /** The visits `vs` taken one after another from `c`: the cursor reached and
      whether the walk has stopped. */
  function Advance(t: Tree, key: string, vs: seq<Visit>, c: Cursor, decode: Option<string> -> string): Result<(Cursor, bool)>
    requires RefsClosed(t)
    decreases |vs|
  {
    if vs == [] then Ok((c, false))
    else match VisitStep(t, key, vs[0], c, decode)
      case Err(e) => Err(e)
      case Ok((next, stop)) => if stop then Ok((next, true)) else Advance(t, key, vs[1..], next, decode)
  }

  /** The walk over `vs` is the first i visits followed by the walk over the rest. */
  lemma {:induction false} WalkAfter(t: Tree, key: string, vs: seq<Visit>, c: Cursor, decode: Option<string> -> string, i: nat)
    requires RefsClosed(t) && i <= |vs|
    ensures WalkFrom(t, key, vs, c, decode) ==
      match Advance(t, key, vs[..i], c, decode)
      case Err(e) => Err(e)
      case Ok((n, stop)) => if stop then Ok(n.out) else WalkFrom(t, key, vs[i..], n, decode)
    decreases i
  {
    if i == 0 {
      assert vs[..0] == [] && vs[0..] == vs;
    } else {
      var pre := vs[..i];
      assert pre[0] == vs[0] && pre[1..] == vs[1..][..i - 1];
      match VisitStep(t, key, vs[0], c, decode)
      case Err(e) =>
      case Ok((next, stop)) =>
        if !stop {
          WalkAfter(t, key, vs[1..], next, decode, i - 1);
          assert vs[1..][i - 1..] == vs[i..];
        }
    }
  }

  /** `reduce` raises NotFound(key, x) for the i-th segment x when the walk gets
      through the first i segments without stopping and is stuck at the next. */
  lemma ReduceNotFoundAt(t: Tree, key: string, decode: Option<string> -> string, i: nat)
    requires RefsClosed(t) && !HasSlashGroup(key) && i < |Parts(key)|
    requires var a := Advance(t, key, Visits(key)[..i], Cursor(t.top, map[], [], false), decode);
      a.Ok? && !a.value.1 && Stuck(t, a.value.0, Visits(key)[i], decode)
    ensures ReduceSpec(t, key, decode) == Err(NotFound(key, Parts(key)[i]))
  {
    var vs := Visits(key);
    var c := Cursor(t.top, map[], [], false);
    var d := Advance(t, key, vs[..i], c, decode).value.0;
    WalkAfter(t, key, vs, c, decode, i);
    var rest := vs[i..];
    assert rest[0] == vs[i];
    assert vs[i] == VisitAt(Parts(key), i);
    VisitNotFound(t, key, vs[i], d, decode);
    assert WalkFrom(t, key, rest, d, decode) == Err(NotFound(key, Parts(key)[i]));
  }

  /** In a registry nothing was added to, every path fails at its first segment. */
  lemma ReduceEmpty(key: string, decode: Option<string> -> string)
    requires !HasSlashGroup(key)
    ensures ReduceSpec(Empty(), key, decode) == Err(NotFound(key, "/"))
  {
    assert Visits(key)[0].seg == Parts(key)[0];
  }

  /** A step that takes a splat child ends the walk: no later segment is visited. */
  lemma SplatStops(t: Tree, key: string, vs: seq<Visit>, c: Cursor, decode: Option<string> -> string)
    requires RefsClosed(t) && vs != [] && c.root.keys.Some?
    requires var s := ScanFrom(t, c.root, c.root.keys.value, vs[0], c, decode);
      s.Ok? && s.value.1 && s.value.0.splat
    ensures WalkFrom(t, key, vs, c, decode) == Ok(ScanFrom(t, c.root, c.root.keys.value, vs[0], c, decode).value.0.out)
  {
  }

  // ---------------------------------------------------------------------------
  // the imperative reduce
  // ---------------------------------------------------------------------------

  /** The `forEach` over the routes of a matched child. */
  method EmitRoutes(infos: map<string, Info>, out0: seq<Record>, routes: seq<string>, v: Visit, isSplat: bool, data: map<string, string>, nkeys: nat)
    returns (out: seq<Record>)
    requires InfosKeyed(infos) && forall k :: k in routes ==> k in infos
    ensures out == Emit(infos, out0, routes, v, isSplat, data, nkeys)
  {
    out := out0;
    var j := 0;
    while j < |routes|
      invariant 0 <= j <= |routes|
      invariant Emit(infos, out0, routes, v, isSplat, data, nkeys) == Emit(infos, out, routes[j..], v, isSplat, data, nkeys)
    {
      var k := routes[j];
      if !HasKey(out, k) {
        out := out + [MakeRecord(infos[k], v, isSplat, data, nkeys)];
      }
      j := j + 1;
    }
  }

  /** The `root.keys.some(k => { … })` loop of one visit. */
  method Scan(t: Tree, v: Visit, c: Cursor, decode: Option<string> -> string) returns (r: Result<(Cursor, bool)>)
    requires RefsClosed(t) && c.root.keys.Some?
    ensures r == ScanFrom(t, c.root, c.root.keys.value, v, c, decode)
  {
    var root := c.root;
    var ks := root.keys.value;
    var data, out := c.data, c.out;
    var j := 0;
    while j < |ks|
      invariant 0 <= j <= |ks|
      invariant ScanFrom(t, root, ks, v, c, decode) == ScanFrom(t, root, ks[j..], v, c.(data := data, out := out), decode)
    {
      var k := ks[j];
      if k !in root.children {
        return Err(TypeError("Cannot read properties of undefined"));
      }
      var child := root.children[k];
      var isSplat := child.pattern.splat;
      var matches := Match(child.pattern, Input(isSplat, v), decode);
      if matches.Some? {
        data := data + matches.value;
        out := EmitRoutes(t.infos, out, Routes(t, child.route), v, isSplat, data, |child.pattern.keys|);
        if v.rest.None? && child.keys.None? {
          return Ok((c.(data := data, out := out), false));
        }
        if isSplat || Truthy(v.rest) || !SplatKey(KeysOf(root)) {
          return Ok((Cursor(child, data, out, isSplat), true));
        }
      }
      j := j + 1;
    }
    return Ok((c.(data := data, out := out), false));
  }

  /** `reduce(key, root)`: the walk with its callback inlined, then the sort. */
  method Reduce(t: Tree, key: string, decode: Option<string> -> string) returns (r: Result<seq<Record>>)
    requires RefsClosed(t)
    ensures r == ReduceSpec(t, key, decode)
  {
    if HasSlashGroup(key) {
      return Err(TypeError("RegExp cannot contain slashes"));
    }
    var vs := Visits(key);
    var c := Cursor(t.top, map[], [], false);
    var i := 0;
    while i < |vs|
      invariant 0 <= i <= |vs|
      invariant WalkFrom(t, key, vs, Cursor(t.top, map[], [], false), decode) == WalkFrom(t, key, vs[i..], c, decode)
    {
      var v := vs[i];
      if c.root.keys.None? {
        return Err(NotFound(key, v.seg));
      }
      var step := Scan(t, v, c, decode);
      if step.Err? {
        return Err(step.error);
      }
      var (next, found) := step.value;
      if !found {
        var any := AnyMatch(c.root, c.root.keys.value, v.seg);
        if any.Err? {
          return Err(any.error);
        }
        if !any.value {
          return Err(NotFound(key, v.seg));
        }
      }
      c := next;
      if c.splat || !found {
        return Ok(SortRecords(c.out));
      }
      i := i + 1;
    }
    return Ok(SortRecords(c.out));
  }

  /** `find(path, routes, retries)`: None is `undefined`. At most two attempts, the
      second only after a failure with retries to spare; since `reduce` writes
      nothing, the second attempt yields what the first did. */
  method Find(t: Tree, path: string, retries: int, decode: Option<string> -> string)
    returns (r: Option<Result<seq<Record>>>, attempts: nat)
    requires RefsClosed(t)
    ensures retries <= 0 ==> r.None? && attempts == 0
    ensures retries > 0 ==> r == Some(ReduceSpec(t, path, decode))
    ensures retries > 0 ==> attempts == (if ReduceSpec(t, path, decode).Err? && retries > 1 then 2 else 1)
  {
    var left := retries;
    attempts := 0;
    r := None;
    while left > 0 && r.None?
      invariant r.None? ==> left == retries && attempts == 0
      invariant r.Some? ==> retries > 0 && r == Some(ReduceSpec(t, path, decode))
      invariant r.Some? ==> attempts == (if ReduceSpec(t, path, decode).Err? && retries > 1 then 2 else 1)
    {
      left := left - 1;
      var res := Reduce(t, path, decode);
      attempts := attempts + 1;
      if res.Err? && left > 0 {
        res := Reduce(t, path, decode);
        attempts := attempts + 1;
      }
      r := Some(res);
    }
  }
}
