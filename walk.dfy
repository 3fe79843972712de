/** The path segmenter: `merge` joins a mount prefix and a path, `walk` splits a
    path before every `/` and `#` and calls back once per segment with the
    segment, the path accumulated so far and the input that remains. */
module PathWalk {
  import opened Common

  /** `merge(path, parent)`: a parent that is empty or exactly `/` is dropped. */
  function Merge(path: string, parent: string): string
  {
    (if parent != "" && parent != "/" then parent else "") + path
  }

  /** The merged path is the path itself under an empty or `/` parent, and the
      parent followed by the path otherwise. */
  lemma MergeShape(path: string, parent: string)
    ensures var r := Merge(path, parent);
      && (parent == "" || parent == "/" ==> r == path)
      && (parent != "" && parent != "/" ==> |r| == |parent| + |path| && r[..|parent|] == parent && r[|parent|..] == path)
  {
  }

  predicate IsSep(c: char)
  {
    c == '/' || c == '#'
  }

  /** No `<` or `>` in s[a..b]. */
  predicate NoAngle(s: string, a: nat, b: nat)
    requires a <= b <= |s|
  {
    forall k :: a <= k < b ==> s[k] != '<' && s[k] != '>'
  }

  /** The path holds a match of `/<[^<>]*\/[^<>]*>/`: an angle-bracket group with a
      slash inside and no other angle bracket in between. */
  predicate HasSlashGroup(s: string)
  {
    exists i, j :: 0 <= i < j < |s| && s[i] == '<' && s[j] == '>' && NoAngle(s, i + 1, j) && '/' in s[i + 1..j]
  }

  /** The smallest cut position at or after i: a separator or the end. */
  function NextCut(s: string, i: nat): (j: nat)
    requires i <= |s|
    ensures i <= j <= |s|
    ensures j < |s| ==> IsSep(s[j])
    ensures forall k :: i <= k < j ==> !IsSep(s[k])
    decreases |s| - i
  {
    if i == |s| || IsSep(s[i]) then i else NextCut(s, i + 1)
  }

  /** `s.split(/(?=\/|#)/)`: a cut before every separator except at position 0;
      the empty string gives one empty piece. */
  function Pieces(s: string): seq<string>
    decreases |s|
  {
    if s == "" then [""]
    else
      var j := NextCut(s, 1);
      [s[..j]] + (if j == |s| then [] else Pieces(s[j..]))
  }

  /** A piece holds a separator at most as its first character. */
  predicate SepOnlyFirst(p: string)
  {
    forall k :: 0 < k < |p| ==> !IsSep(p[k])
  }

  lemma PiecesShape(s: string)
    ensures |Pieces(s)| >= 1
    ensures Join(Pieces(s)) == s
    ensures forall p :: p in Pieces(s) ==> SepOnlyFirst(p)
    ensures s != "" ==> forall p :: p in Pieces(s) ==> p != ""
    ensures s != "" ==> forall k :: 0 < k < |Pieces(s)| ==> |Pieces(s)[k]| > 0 && IsSep(Pieces(s)[k][0])
    ensures s != "" ==> Pieces(s)[0] == s[..NextCut(s, 1)]
  {
    PiecesJoin(s);
    PiecesPieces(s);
    if s != "" {
      PiecesHeads(s);
    }
  }

  lemma {:induction false} PiecesJoin(s: string)
    ensures |Pieces(s)| >= 1 && Join(Pieces(s)) == s
    decreases |s|
  {
    if s != "" {
      var j := NextCut(s, 1);
      var ps := Pieces(s);
      assert ps != [] && ps[0] == s[..j];
      assert Join(ps) == s[..j] + Join(ps[1..]);
      if j < |s| {
        var t := s[j..];
        PiecesJoin(t);
        assert ps[1..] == Pieces(t);
        assert s == s[..j] + t;
      } else {
        assert ps[1..] == [];
        assert s[..j] == s;
      }
    }
  }

  /** Each piece is non-empty and holds a separator at most in front. */
  lemma {:induction false} PiecesPieces(s: string)
    ensures forall p :: p in Pieces(s) ==> SepOnlyFirst(p) && (s != "" ==> p != "")
    decreases |s|
  {
    if s != "" {
      var j := NextCut(s, 1);
      var ps := Pieces(s);
      assert SepOnlyFirst(s[..j]);
      if j < |s| {
        PiecesPieces(s[j..]);
        assert ps == [s[..j]] + Pieces(s[j..]);
      }
    }
  }

  /** Every piece after the first starts with a separator. */
  lemma PiecesHeads(s: string)
    requires s != ""
    ensures forall k :: 0 < k < |Pieces(s)| ==> |Pieces(s)[k]| > 0 && IsSep(Pieces(s)[k][0])
  {
    var j := NextCut(s, 1);
    if j < |s| {
      var t := s[j..];
      var ps := Pieces(s);
      assert ps[1..] == Pieces(t);
      PiecesFrom(t);
      forall k | 0 < k < |ps|
        ensures |ps[k]| > 0 && IsSep(ps[k][0])
      {
        assert ps[k] == Pieces(t)[k - 1];
      }
    }
  }

  /** The pieces of a string that starts with a separator all start with one. */
  lemma {:induction false} PiecesFrom(t: string)
    requires t != "" && IsSep(t[0])
    ensures forall k :: 0 <= k < |Pieces(t)| ==> |Pieces(t)[k]| > 0 && IsSep(Pieces(t)[k][0])
    decreases |t|
  {
    var j := NextCut(t, 1);
    var ps := Pieces(t);
    assert ps[0] == t[..j] && t[..j][0] == t[0];
    if j < |t| {
      PiecesFrom(t[j..]);
      assert ps[1..] == Pieces(t[j..]);
      forall k | 0 < k < |ps|
        ensures |ps[k]| > 0 && IsSep(ps[k][0])
      {
        assert ps[k] == Pieces(t[j..])[k - 1];
      }
    } else {
      assert |ps| == 1;
    }
  }

  /** `parts` after `if (parts[0] !== '/') parts.unshift('/')`. */
  function Parts(s: string): (parts: seq<string>)
    ensures |parts| >= 1 && parts[0] == "/"
  {
    PiecesShape(s);
    var p := Pieces(s);
    if p[0] == "/" then p else ["/"] + p
  }

  /** The three callback arguments: segment, accumulated path (or null), remaining input (or null). */
  datatype Visit = Visit(seg: string, acc: Option<string>, rest: Option<string>)

  /** `root.slice(1)` */
  function Tail(s: seq<string>): seq<string>
  {
    if |s| == 0 then [] else s[1..]
  }

  /** The arguments of the i-th callback, written as the source computes them. */
  function VisitAt(parts: seq<string>, i: nat): Visit
    requires i < |parts|
  {
    var x := parts[i];
    var parent := NonEmpty(Join(Tail(parts[..i]) + [x]));
    var segment := NonEmpty(Join(parts[i + 1..]));
    Visit(x, parent, if segment.Some? then Some((if x != "/" then x else "") + segment.value) else None)
  }

  /** Every callback `walk` would make if no callback stopped it. */
  function Visits(s: string): (vs: seq<Visit>)
    ensures |vs| == |Parts(s)| && |vs| >= 1
  {
    var parts := Parts(s);
    seq(|parts|, i requires 0 <= i < |parts| => VisitAt(parts, i))
  }

  function Segments(vs: seq<Visit>): (segs: seq<string>)
    ensures |segs| == |vs|
  {
    if vs == [] then [] else [vs[0].seg] + Segments(vs[1..])
  }

  lemma {:induction false} SegmentsAt(vs: seq<Visit>, k: nat)
    requires k < |vs|
    ensures Segments(vs)[k] == vs[k].seg
  {
    if k > 0 {
      SegmentsAt(vs[1..], k - 1);
    }
  }

  lemma SegmentsOfParts(s: string)
    ensures Segments(Visits(s)) == Parts(s)
  {
    var vs := Visits(s);
    forall k | 0 <= k < |vs|
      ensures Segments(vs)[k] == Parts(s)[k]
    {
      SegmentsAt(vs, k);
    }
  }

  /** The visited segments concatenate to the path, with `/` prepended unless the
      first split piece is exactly `/`, and no segment has a separator after its
      first character. */
  lemma WalkCovers(s: string)
    ensures Join(Segments(Visits(s))) == (if Pieces(s)[0] == "/" then s else "/" + s)
    ensures forall k :: 0 <= k < |Visits(s)| ==> SepOnlyFirst(Visits(s)[k].seg)
  {
    PiecesShape(s);
    SegmentsOfParts(s);
    var p := Pieces(s);
    if p[0] != "/" {
      assert Parts(s)[1..] == p;
      assert Join(Parts(s)) == "/" + Join(p);
    }
    forall k | 0 <= k < |Visits(s)|
      ensures SepOnlyFirst(Visits(s)[k].seg)
    {
      assert Visits(s)[k].seg == Parts(s)[k];
      if p[0] != "/" && k > 0 {
        assert Parts(s)[k] == p[k - 1];
      }
      assert Parts(s)[k] in p || Parts(s)[k] == "/";
    }
  }

  lemma JoinSingle(x: string)
    ensures Join([x]) == x
  {
    assert [x][1..] == [];
  }

  lemma PartsNonEmpty(s: string)
    requires s != ""
    ensures forall q :: q in Parts(s) ==> q != ""
  {
    PiecesShape(s);
    forall q | q in Parts(s) ensures q != "" {
      if q != "/" { assert q in Pieces(s); }
    }
  }

  /** For a non-empty path: every segment is non-empty; the accumulated path is
      segment 0 itself for the first callback and segments 1..i joined otherwise;
      the remaining input is null exactly for the last callback. */
  lemma VisitShape(s: string, i: nat)
    requires s != "" && i < |Visits(s)|
    ensures Visits(s)[i].seg != ""
    ensures Visits(s)[i].acc == Some(if i == 0 then Parts(s)[0] else Join(Parts(s)[1..i + 1]))
    ensures Visits(s)[i].rest.None? <==> i == |Visits(s)| - 1
  {
    var parts := Parts(s);
    PartsNonEmpty(s);
    assert Visits(s)[i] == VisitAt(parts, i);
    assert parts[i] in parts;
    if i == 0 {
      assert Tail(parts[..0]) + [parts[0]] == [parts[0]];
      JoinSingle(parts[0]);
    } else {
      assert Tail(parts[..i]) + [parts[i]] == parts[1..i + 1];
      assert parts[1] in parts;
      JoinNonEmpty(parts[1..i + 1]);
    }
    if i + 1 < |parts| {
      assert parts[i + 1] in parts;
      JoinNonEmpty(parts[i + 1..]);
    } else {
      assert parts[i + 1..] == [];
    }
  }

  lemma {:induction false} JoinNonEmpty(parts: seq<string>)
    requires |parts| >= 1 && parts[0] != ""
    ensures Join(parts) != ""
  {
  }

  /** `walk(path, cb)` with a callback that only decides whether to stop: rejects
      slash groups before any callback, then calls back left to right and stops
      right after the first callback that returns true. Returns the callbacks made. */
  method Walk(path: string, stop: Visit -> bool) returns (r: Result<seq<Visit>>)
    ensures r.Err? <==> HasSlashGroup(path)
    ensures r.Err? ==> r.error.TypeError?
    ensures r.Ok? ==> 1 <= |r.value| <= |Visits(path)| && r.value == Visits(path)[..|r.value|]
    ensures r.Ok? ==> forall j :: 0 <= j < |r.value| - 1 ==> !stop(r.value[j])
    ensures r.Ok? && |r.value| < |Visits(path)| ==> stop(r.value[|r.value| - 1])
  {
    if HasSlashGroup(path) {
      return Err(TypeError("RegExp cannot contain slashes"));
    }
    var parts := Parts(path);
    ghost var vs := Visits(path);
    var root: seq<string> := [];
    var visited: seq<Visit> := [];
    var i := 0;
    while i < |parts|
      invariant 0 <= i <= |parts| == |vs|
      invariant root == parts[..i]
      invariant visited == vs[..i]
      invariant forall j :: 0 <= j < i ==> !stop(visited[j])
    {
      var x := parts[i];
      var parent := NonEmpty(Join(Tail(root) + [x]));
      var segment := NonEmpty(Join(parts[i + 1..]));
      var v := Visit(x, parent, if segment.Some? then Some((if x != "/" then x else "") + segment.value) else None);
      assert v == VisitAt(parts, i) == vs[i];
      assert vs[..i + 1] == vs[..i] + [v];
      visited := visited + [v];
      assert parts[..i + 1] == parts[..i] + [x];
      root := root + [x];
      if stop(v) {
        return Ok(visited);
      }
      i := i + 1;
    }
    assert vs[..i] == vs;
    return Ok(visited);
  }
}
