/** The segment pattern compiler (`buildMatcher`) and matcher (`PathMatcher.match`).

    `buildMatcher` escapes regular-expression metacharacters, turns `( … )` into an
    optional non-capturing group, `:name` into a capture of non-`/` characters and
    `*name` into a capture that may cross `/`; both captures refuse to start at a
    `#`. The compiled expression is anchored at both ends and, when no `*name`
    is present, also accepts the value followed by `/` and anything after it.

    Here the compiled expression is a sequence of tokens, and a JavaScript match
    is modelled by listing every way the tokens can consume the input in the order
    a backtracking engine tries them: a lazy capture tries shorter runs first, an
    optional group tries taking the group before skipping it. The first listed
    parse that the anchored tail accepts is the match the engine reports. */
module PathMatcher {
  import opened Common

  datatype Atom = Lit(c: char) | Param(name: string) | Splat(name: string)

  /** A top-level token: a single atom, or an optional group of atoms. */
  datatype Token = One(atom: Atom) | Opt(group: seq<Atom>)

  /** What `buildMatcher` returns: the parameter names, the compiled expression and the splat flag. */
  datatype Matcher = Matcher(keys: seq<string>, tokens: seq<Token>, splat: bool)

  /** `\w` */
  predicate IsWord(c: char)
  {
    ('a' <= c <= 'z') || ('A' <= c <= 'Z') || ('0' <= c <= '9') || c == '_'
  }

  /** The characters `.` does not match. */
  predicate IsLineTerminator(c: char)
  {
    c == '\n' || c == '\r' || c == '\U{2028}' || c == '\U{2029}'
  }

  // ---------------------------------------------------------------------------
  // Compiling a pattern string
  // ---------------------------------------------------------------------------

  /** The end of the run of word characters starting at i. */
  function WordEnd(p: string, i: nat): (e: nat)
    requires i <= |p|
    ensures i <= e <= |p|
    ensures forall k :: i <= k < e ==> IsWord(p[k])
    ensures e < |p| ==> !IsWord(p[e])
    decreases |p| - i
  {
    if i < |p| && IsWord(p[i]) then WordEnd(p, i + 1) else i
  }

  /** A `:` or `*` followed by a word character starts a parameter name. */
  predicate StartsName(p: string, i: nat)
  {
    i + 1 < |p| && (p[i] == ':' || p[i] == '*') && IsWord(p[i + 1])
  }

  /** The atoms of a region, as the key replacement `/\\?([:*]\w+)/g` sees them. */
  function ScanAtoms(p: string, i: nat): seq<Atom>
    requires i <= |p|
    decreases |p| - i
  {
    if i == |p| then []
    else if StartsName(p, i) then
      var e := WordEnd(p, i + 1);
      [if p[i] == ':' then Param(p[i + 1..e]) else Splat(p[i + 1..e])] + ScanAtoms(p, e)
    else [Lit(p[i])] + ScanAtoms(p, i + 1)
  }

  /** The `)` closing a group opened just before k: the lazy `(.*?)` stops at the
      first `)`, and cannot cross a line terminator. */
  function GroupEnd(p: string, k: nat): (r: Option<nat>)
    requires k <= |p|
    ensures r.Some? ==> k <= r.value < |p| && p[r.value] == ')'
    ensures r.Some? ==> forall m :: k <= m < r.value ==> p[m] != ')' && !IsLineTerminator(p[m])
    ensures r.None? ==> forall m :: k <= m < |p| && p[m] == ')' ==> exists j :: k <= j < m && IsLineTerminator(p[j])
    decreases |p| - k
  {
    if k == |p| || IsLineTerminator(p[k]) then None
    else if p[k] == ')' then Some(k)
    else GroupEnd(p, k + 1)
  }

  /** A group whose text starts with a word character compiles to `(?:w…)?`, whose
      `:w…` the key replacement then rewrites into a capture, leaving `(?(` behind:
      `new RegExp` rejects that. */
  function ScanTokens(p: string, i: nat): Result<seq<Token>>
    requires i <= |p|
    decreases |p| - i
  {
    if i == |p| then Ok([])
    else if p[i] == '(' && GroupEnd(p, i + 1).Some? then
      var j := GroupEnd(p, i + 1).value;
      if j > i + 1 && IsWord(p[i + 1]) then Err(SyntaxError(p))
      else
        match ScanTokens(p, j + 1)
        case Ok(rest) => Ok([Opt(ScanAtoms(p[i + 1..j], 0))] + rest)
        case Err(e) => Err(e)
    else if StartsName(p, i) then
      var e := WordEnd(p, i + 1);
      match ScanTokens(p, e)
      case Ok(rest) => Ok([One(if p[i] == ':' then Param(p[i + 1..e]) else Splat(p[i + 1..e]))] + rest)
      case Err(e) => Err(e)
    else
      match ScanTokens(p, i + 1)
      case Ok(rest) => Ok([One(Lit(p[i]))] + rest)
      case Err(e) => Err(e)
  }

  /** A backslash is escaped to `\\`; when `:name` follows it, the key replacement
      swallows the second backslash, which then escapes the capture's `(` and
      leaves a `)` unmatched: `new RegExp` rejects that. */
  predicate BackslashBeforeName(p: string)
  {
    exists i :: 0 <= i < |p| - 2 && p[i] == '\\' && p[i + 1] == ':' && IsWord(p[i + 2])
  }

  /** The compiled expression of a pattern, or the error `new RegExp` raises. */
  function Tokenize(p: string): Result<seq<Token>>
  {
    if BackslashBeforeName(p) then Err(SyntaxError(p)) else ScanTokens(p, 0)
  }

  function AtomKeys(atoms: seq<Atom>): seq<string>
  {
    if atoms == [] then []
    else (if atoms[0].Lit? then [] else [atoms[0].name]) + AtomKeys(atoms[1..])
  }

  /** The atoms of a token: the atom itself, or the group's atoms. */
  function TokenAtoms(t: Token): seq<Atom>
  {
    match t
    case One(a) => [a]
    case Opt(g) => g
  }

  /** The parameter names of the tokens, left to right, groups included. */
  function Keys(toks: seq<Token>): seq<string>
  {
    if toks == [] then [] else AtomKeys(TokenAtoms(toks[0])) + Keys(toks[1..])
  }

  predicate AtomsHaveSplat(atoms: seq<Atom>)
  {
    exists k :: 0 <= k < |atoms| && atoms[k].Splat?
  }

  predicate TokenHasSplat(t: Token)
  {
    AtomsHaveSplat(TokenAtoms(t))
  }

  /** Some `*name` token occurs, inside a group or not. */
  predicate HasSplat(toks: seq<Token>)
  {
    exists k :: 0 <= k < |toks| && TokenHasSplat(toks[k])
  }

  /** The pattern text a token sequence stands for. */
  function RenderAtoms(atoms: seq<Atom>): string
  {
    if atoms == [] then ""
    else
      (match atoms[0]
       case Lit(c) => [c]
       case Param(n) => ":" + n
       case Splat(n) => "*" + n) + RenderAtoms(atoms[1..])
  }

  function Render(toks: seq<Token>): string
  {
    if toks == [] then ""
    else
      (match toks[0]
       case One(a) => RenderAtoms([a])
       case Opt(g) => "(" + RenderAtoms(g) + ")") + Render(toks[1..])
  }

  lemma {:induction false} ScanAtomsRenders(p: string, i: nat)
    requires i <= |p|
    ensures RenderAtoms(ScanAtoms(p, i)) == p[i..]
    decreases |p| - i
  {
    if i < |p| {
      var atoms := ScanAtoms(p, i);
      if StartsName(p, i) {
        var e := WordEnd(p, i + 1);
        ScanAtomsRenders(p, e);
        var a := if p[i] == ':' then Param(p[i + 1..e]) else Splat(p[i + 1..e]);
        assert atoms[0] == a && atoms[1..] == ScanAtoms(p, e);
        assert RenderAtoms(atoms) == [p[i]] + p[i + 1..e] + p[e..];
        assert p[i..] == [p[i]] + p[i + 1..e] + p[e..];
      } else {
        ScanAtomsRenders(p, i + 1);
        assert atoms[0] == Lit(p[i]) && atoms[1..] == ScanAtoms(p, i + 1);
        assert RenderAtoms(atoms) == [p[i]] + p[i + 1..];
        assert p[i..] == [p[i]] + p[i + 1..];
      }
    }
  }

  lemma GroupRenders(p: string, i: nat, j: nat, rest: seq<Token>)
    requires i < j < |p| && p[i] == '(' && p[j] == ')'
    requires Render(rest) == p[j + 1..]
    ensures Render([Opt(ScanAtoms(p[i + 1..j], 0))] + rest) == p[i..]
  {
    var body := p[i + 1..j];
    ScanAtomsRenders(body, 0);
    assert body[0..] == body;
    var toks := [Opt(ScanAtoms(body, 0))] + rest;
    assert toks[0] == Opt(ScanAtoms(body, 0)) && toks[1..] == rest;
    assert Render(toks) == "(" + body + ")" + Render(rest);
    assert p[i..] == "(" + body + ")" + p[j + 1..];
  }

  lemma NameRenders(p: string, i: nat, e: nat, rest: seq<Token>)
    requires i + 1 < e <= |p| && (p[i] == ':' || p[i] == '*')
    requires Render(rest) == p[e..]
    ensures Render([One(if p[i] == ':' then Param(p[i + 1..e]) else Splat(p[i + 1..e]))] + rest) == p[i..]
  {
    var name := p[i + 1..e];
    var a := if p[i] == ':' then Param(name) else Splat(name);
    assert RenderAtoms([a]) == [p[i]] + name by {
      assert [a][1..] == [];
    }
    var toks := [One(a)] + rest;
    assert toks[0] == One(a) && toks[1..] == rest;
    assert Render(toks) == RenderAtoms([a]) + Render(rest);
    assert p[i..] == [p[i]] + name + p[e..];
  }

  lemma LitRenders(p: string, i: nat, rest: seq<Token>)
    requires i < |p|
    requires Render(rest) == p[i + 1..]
    ensures Render([One(Lit(p[i]))] + rest) == p[i..]
  {
    assert ([One(Lit(p[i]))] + rest)[1..] == rest;
    assert [Lit(p[i])][1..] == [];
    assert RenderAtoms([Lit(p[i])]) == [p[i]] + RenderAtoms([]);
    assert Render([One(Lit(p[i]))] + rest) == RenderAtoms([Lit(p[i])]) + Render(rest);
    assert p[i..] == [p[i]] + p[i + 1..];
  }

  /** Compilation loses nothing: the tokens render back to the pattern text, each
      character accounted for by exactly one token. */
  lemma {:induction false} ScanTokensRenders(p: string, i: nat)
    requires i <= |p|
    requires ScanTokens(p, i).Ok?
    ensures Render(ScanTokens(p, i).value) == p[i..]
    decreases |p| - i
  {
    if i < |p| {
      if p[i] == '(' && GroupEnd(p, i + 1).Some? {
        var j := GroupEnd(p, i + 1).value;
        ScanTokensRenders(p, j + 1);
        GroupRenders(p, i, j, ScanTokens(p, j + 1).value);
      } else if StartsName(p, i) {
        var e := WordEnd(p, i + 1);
        ScanTokensRenders(p, e);
        NameRenders(p, i, e, ScanTokens(p, e).value);
      } else {
        ScanTokensRenders(p, i + 1);
        LitRenders(p, i, ScanTokens(p, i + 1).value);
      }
    }
  }

  lemma TokenizeRoundTrip(p: string)
    requires Tokenize(p).Ok?
    ensures Render(Tokenize(p).value) == p
  {
    ScanTokensRenders(p, 0);
  }

  /** `buildMatcher(path)`: compile the pattern, then collect the keys and the
      splat flag the way the replace callback does. */
  method BuildMatcher(p: string) returns (r: Result<Matcher>)
    ensures r.Err? <==> Tokenize(p).Err?
    ensures r.Err? ==> r.error == SyntaxError(p)
    ensures r.Ok? ==> r.value.tokens == Tokenize(p).value
    ensures r.Ok? ==> r.value.keys == Keys(r.value.tokens)
    ensures r.Ok? ==> (r.value.splat <==> HasSplat(r.value.tokens))
  {
    var t := Tokenize(p);
    if t.Err? {
      TokenizeError(p);
      return Err(SyntaxError(p));
    }
    var keys, splat := FoldTokens(t.value);
    return Ok(Matcher(keys, t.value, splat));
  }

  /** The replace callback as a left fold: push each key, raise the flag on a `*name`. */
  method FoldTokens(toks: seq<Token>) returns (keys: seq<string>, splat: bool)
    ensures keys == Keys(toks)
    ensures splat <==> HasSplat(toks)
  {
    keys := [];
    splat := false;
    var i := 0;
    while i < |toks|
      invariant 0 <= i <= |toks|
      invariant keys == Keys(toks[..i])
      invariant splat <==> HasSplat(toks[..i])
    {
      var atoms := TokenAtoms(toks[i]);
      keys, splat := FoldAtoms(atoms, keys, splat);
      KeysStep(toks, i);
      SplatStep(toks, i);
      i := i + 1;
    }
    assert toks[..i] == toks;
  }

  /** The replace callback over the atoms of one token: push each name, raise the
      flag on a `*name`. */
  method FoldAtoms(atoms: seq<Atom>, keys0: seq<string>, splat0: bool) returns (keys: seq<string>, splat: bool)
    ensures keys == keys0 + AtomKeys(atoms)
    ensures splat <==> splat0 || AtomsHaveSplat(atoms)
  {
    keys, splat := keys0, splat0;
    var j := 0;
    while j < |atoms|
      invariant 0 <= j <= |atoms|
      invariant keys + AtomKeys(atoms[j..]) == keys0 + AtomKeys(atoms)
      invariant splat <==> splat0 || exists k :: 0 <= k < j && atoms[k].Splat?
    {
      assert AtomKeys(atoms[j..]) == (if atoms[j].Lit? then [] else [atoms[j].name]) + AtomKeys(atoms[j + 1..]) by {
        assert atoms[j..][0] == atoms[j];
        assert atoms[j..][1..] == atoms[j + 1..];
      }
      if !atoms[j].Lit? {
        keys := keys + [atoms[j].name];
      }
      if atoms[j].Splat? {
        splat := true;
      }
      j := j + 1;
    }
    assert atoms[j..] == [];
  }

  lemma {:induction false} KeysAppend(a: seq<Token>, b: seq<Token>)
    ensures Keys(a + b) == Keys(a) + Keys(b)
  {
    if a == [] {
      assert a + b == b;
    } else {
      assert (a + b)[0] == a[0] && (a + b)[1..] == a[1..] + b;
      KeysAppend(a[1..], b);
    }
  }

  lemma KeysStep(toks: seq<Token>, i: nat)
    requires i < |toks|
    ensures Keys(toks[..i + 1]) == Keys(toks[..i]) + AtomKeys(TokenAtoms(toks[i]))
  {
    assert toks[..i + 1] == toks[..i] + [toks[i]];
    KeysAppend(toks[..i], [toks[i]]);
    assert [toks[i]][1..] == [];
  }

  lemma SplatStep(toks: seq<Token>, i: nat)
    requires i < |toks|
    ensures HasSplat(toks[..i + 1]) <==> HasSplat(toks[..i]) || AtomsHaveSplat(TokenAtoms(toks[i]))
  {
    var a, b := toks[..i + 1], toks[..i];
    assert a == b + [toks[i]];
    if HasSplat(a) && !AtomsHaveSplat(TokenAtoms(toks[i])) {
      var k :| 0 <= k < |a| && TokenHasSplat(a[k]);
      assert k < i && a[k] == b[k];
    }
    if HasSplat(b) {
      var k :| 0 <= k < |b| && TokenHasSplat(b[k]);
      assert a[k] == b[k];
    }
    if AtomsHaveSplat(TokenAtoms(toks[i])) {
      assert TokenHasSplat(a[i]);
    }
  }

  lemma TokenizeError(p: string)
    requires Tokenize(p).Err?
    ensures Tokenize(p).error == SyntaxError(p)
  {
    if !BackslashBeforeName(p) {
      ScanTokensError(p, 0);
    }
  }

  lemma {:induction false} ScanTokensError(p: string, i: nat)
    requires i <= |p|
    requires ScanTokens(p, i).Err?
    ensures ScanTokens(p, i).error == SyntaxError(p)
    decreases |p| - i
  {
    if p[i] == '(' && GroupEnd(p, i + 1).Some? {
      var j := GroupEnd(p, i + 1).value;
      if !(j > i + 1 && IsWord(p[i + 1])) {
        ScanTokensError(p, j + 1);
      }
    } else if StartsName(p, i) {
      ScanTokensError(p, WordEnd(p, i + 1));
    } else {
      ScanTokensError(p, i + 1);
    }
  }

  /** A compiled matcher: its keys and splat flag are those of its tokens. */
  type Pattern = m: Matcher | m.keys == Keys(m.tokens) && m.splat == HasSplat(m.tokens)
    witness Matcher([], [], false)

  /** The matcher as a function, for the tree and the resolver. */
  function Compile(p: string): (r: Result<Pattern>)
    ensures r.Ok? <==> Tokenize(p).Ok?
    ensures r.Ok? ==> r.value.tokens == Tokenize(p).value
  {
    match Tokenize(p)
    case Ok(toks) => Ok(Matcher(Keys(toks), toks, HasSplat(toks)))
    case Err(e) => Err(e)
  }

  // ---------------------------------------------------------------------------
  // Matching
  // ---------------------------------------------------------------------------

  /** One way of consuming input: where it ends, and one capture per key
      (None: the group holding the capture was skipped, JavaScript's undefined). */
  datatype Parse = Parse(end: nat, caps: seq<Option<string>>)

  /** The end of a `[^/]*?` run starting at i. */
  function ParamStop(s: string, i: nat): (j: nat)
    requires i <= |s|
    ensures i <= j <= |s|
    ensures forall k :: i <= k < j ==> s[k] != '/'
    ensures j < |s| ==> s[j] == '/'
    decreases |s| - i
  {
    if i == |s| || s[i] == '/' then i else ParamStop(s, i + 1)
  }

  /** The end of a `.*?` run starting at i. */
  function SplatStop(s: string, i: nat): (j: nat)
    requires i <= |s|
    ensures i <= j <= |s|
    ensures forall k :: i <= k < j ==> !IsLineTerminator(s[k])
    ensures j < |s| ==> IsLineTerminator(s[j])
    decreases |s| - i
  {
    if i == |s| || IsLineTerminator(s[i]) then i else SplatStop(s, i + 1)
  }

  /** The runs s[i..k] for k = from, …, stop: shortest first (lazy quantifier). */
  function Spans(s: string, i: nat, from: nat, stop: nat): (r: seq<Parse>)
    requires i <= from && stop <= |s|
    ensures forall p :: p in r ==> from <= p.end <= stop && |p.caps| == 1 && p.caps[0] == Some(s[i..p.end])
    decreases stop - from
  {
    if from > stop then [] else [Parse(from, [Some(s[i..from])])] + Spans(s, i, from + 1, stop)
  }

  /** The ways one atom can consume input at i, in the order they are tried.
      Both captures start with the lookahead `(?!#)`. */
  function AtomChoices(a: Atom, s: string, i: nat): (r: seq<Parse>)
    requires i <= |s|
    ensures forall p :: p in r ==> i <= p.end <= |s|
  {
    match a
    case Lit(c) => if i < |s| && s[i] == c then [Parse(i + 1, [])] else []
    case Param(_) => if i < |s| && s[i] == '#' then [] else Spans(s, i, i, ParamStop(s, i))
    case Splat(_) => if i < |s| && s[i] == '#' then [] else Spans(s, i, i, SplatStop(s, i))
  }

  /** Prefix each continuation parse with the captures made before it. */
  function Shift(caps: seq<Option<string>>, ps: seq<Parse>): (r: seq<Parse>)
    ensures |r| == |ps|
    ensures forall k :: 0 <= k < |r| ==> r[k] == Parse(ps[k].end, caps + ps[k].caps)
    ensures forall p :: p in r ==> exists q :: q in ps && p == Parse(q.end, caps + q.caps)
  {
    if ps == [] then [] else [Parse(ps[0].end, caps + ps[0].caps)] + Shift(caps, ps[1..])
  }

  /** Every way a sequence of atoms consumes input from i, in backtracking order. */
  function AtomsParses(atoms: seq<Atom>, s: string, i: nat): (r: seq<Parse>)
    requires i <= |s|
    ensures forall p :: p in r ==> i <= p.end <= |s|
    decreases |atoms|, 0, 0
  {
    if atoms == [] then [Parse(i, [])]
    else AtomsThen(AtomChoices(atoms[0], s, i), atoms[1..], s, i)
  }

  function AtomsThen(choices: seq<Parse>, rest: seq<Atom>, s: string, i: nat): (r: seq<Parse>)
    requires forall p :: p in choices ==> i <= p.end <= |s|
    ensures forall p :: p in r ==> i <= p.end <= |s|
    decreases |rest|, 1, |choices|
  {
    if choices == [] then []
    else Shift(choices[0].caps, AtomsParses(rest, s, choices[0].end)) + AtomsThen(choices[1..], rest, s, i)
  }

  function Undefined(n: nat): (r: seq<Option<string>>)
    ensures |r| == n && forall k :: 0 <= k < n ==> r[k].None?
  {
    if n == 0 then [] else [None] + Undefined(n - 1)
  }

  /** The parses that consume something: a `?` iteration that matches the empty
      string is rejected by the engine. */
  function Consuming(ps: seq<Parse>, i: nat): (r: seq<Parse>)
    ensures forall p :: p in r ==> p in ps && p.end > i
    ensures forall p :: p in ps && p.end > i ==> p in r
  {
    if ps == [] then []
    else (if ps[0].end > i then [ps[0]] else []) + Consuming(ps[1..], i)
  }

  /** The ways one token can consume input at i: a group is taken before it is skipped. */
  function TokenChoices(t: Token, s: string, i: nat): (r: seq<Parse>)
    requires i <= |s|
    ensures forall p :: p in r ==> i <= p.end <= |s|
  {
    match t
    case One(a) => AtomChoices(a, s, i)
    case Opt(g) => Consuming(AtomsParses(g, s, i), i) + [Parse(i, Undefined(|AtomKeys(g)|))]
  }

  function Parses(toks: seq<Token>, s: string, i: nat): (r: seq<Parse>)
    requires i <= |s|
    ensures forall p :: p in r ==> i <= p.end <= |s|
    decreases |toks|, 0, 0
  {
    if toks == [] then [Parse(i, [])]
    else TokensThen(TokenChoices(toks[0], s, i), toks[1..], s, i)
  }

  function TokensThen(choices: seq<Parse>, rest: seq<Token>, s: string, i: nat): (r: seq<Parse>)
    requires forall p :: p in choices ==> i <= p.end <= |s|
    ensures forall p :: p in r ==> i <= p.end <= |s|
    decreases |rest|, 1, |choices|
  {
    if choices == [] then []
    else Shift(choices[0].caps, Parses(rest, s, choices[0].end)) + TokensThen(choices[1..], rest, s, i)
  }

  predicate NoLineTerminator(s: string)
  {
    forall k :: 0 <= k < |s| ==> !IsLineTerminator(s[k])
  }

  /** The anchored tail: `$` for a splat pattern, `(?:$|\/.*?)$` otherwise. */
  predicate TailAccepts(s: string, e: nat, splat: bool)
    requires e <= |s|
  {
    e == |s| || (!splat && s[e] == '/' && NoLineTerminator(s[e + 1..]))
  }

  /** The captures of the first parse the tail accepts: what `value.match(regex)` yields. */
  function FirstAccepted(ps: seq<Parse>, s: string, splat: bool): (r: Option<seq<Option<string>>>)
    requires forall p :: p in ps ==> p.end <= |s|
    ensures r.Some? <==> exists p :: p in ps && TailAccepts(s, p.end, splat)
    ensures r.Some? ==> exists p :: p in ps && TailAccepts(s, p.end, splat) && p.caps == r.value
  {
    if ps == [] then None
    else if TailAccepts(s, ps[0].end, splat) then Some(ps[0].caps)
    else FirstAccepted(ps[1..], s, splat)
  }

  /** No parse before index k is accepted by the tail. */
  predicate RefusedBefore(ps: seq<Parse>, s: string, splat: bool, k: nat)
    requires k <= |ps| && forall p :: p in ps ==> p.end <= |s|
  {
    forall j :: 0 <= j < k ==> !TailAccepts(s, ps[j].end, splat)
  }

  /** The captures reported are those of the first accepted parse: every parse
      listed before it is refused by the tail. */
  lemma {:induction false} FirstAcceptedFirst(ps: seq<Parse>, s: string, splat: bool)
    requires forall p :: p in ps ==> p.end <= |s|
    requires FirstAccepted(ps, s, splat).Some?
    ensures exists k :: (0 <= k < |ps| && TailAccepts(s, ps[k].end, splat) && ps[k].caps == FirstAccepted(ps, s, splat).value &&
      RefusedBefore(ps, s, splat, k))
    decreases |ps|
  {
    if TailAccepts(s, ps[0].end, splat) {
      assert RefusedBefore(ps, s, splat, 0);
    } else {
      var tail := ps[1..];
      assert FirstAccepted(ps, s, splat) == FirstAccepted(tail, s, splat);
      FirstAcceptedFirst(tail, s, splat);
      var k :| 0 <= k < |tail| && TailAccepts(s, tail[k].end, splat) && tail[k].caps == FirstAccepted(tail, s, splat).value &&
        RefusedBefore(tail, s, splat, k);
      assert ps[k + 1] == tail[k];
      forall j | 0 <= j < k + 1 ensures !TailAccepts(s, ps[j].end, splat) {
        if j > 0 {
          assert ps[j] == tail[j - 1];
        }
      }
      assert RefusedBefore(ps, s, splat, k + 1);
    }
  }

  // --- what every parse satisfies -------------------------------------------

  /** A capture of a `:name` never holds `/`; a capture of a `*name` never holds a
      line terminator; neither starts with `#`. */
  predicate CaptureOk(v: string, isSplat: bool)
  {
    (v == "" || v[0] != '#') &&
    (if isSplat then NoLineTerminator(v) else '/' !in v)
  }

  function AtomKinds(atoms: seq<Atom>): (r: seq<bool>)
    ensures |r| == |AtomKeys(atoms)|
  {
    if atoms == [] then []
    else (if atoms[0].Lit? then [] else [atoms[0].Splat?]) + AtomKinds(atoms[1..])
  }

  /** For each key, whether it is a `*name`. */
  function Kinds(toks: seq<Token>): (r: seq<bool>)
    ensures |r| == |Keys(toks)|
  {
    if toks == [] then []
    else AtomKinds(TokenAtoms(toks[0])) + Kinds(toks[1..])
  }

  predicate CapsOk(caps: seq<Option<string>>, kinds: seq<bool>)
  {
    |caps| == |kinds| &&
    forall k :: 0 <= k < |caps| && caps[k].Some? ==> CaptureOk(caps[k].value, kinds[k])
  }

  predicate ParseOk(p: Parse, s: string, i: nat, kinds: seq<bool>)
  {
    i <= p.end <= |s| && CapsOk(p.caps, kinds)
  }

  lemma CapsOkAppend(a: seq<Option<string>>, ka: seq<bool>, b: seq<Option<string>>, kb: seq<bool>)
    requires CapsOk(a, ka) && CapsOk(b, kb)
    ensures CapsOk(a + b, ka + kb)
  {
    forall k | 0 <= k < |a + b| && (a + b)[k].Some?
      ensures CaptureOk((a + b)[k].value, (ka + kb)[k])
    {
      if k < |a| {
        assert (a + b)[k] == a[k];
      } else {
        assert (a + b)[k] == b[k - |a|];
      }
    }
  }

  lemma AtomChoicesOk(a: Atom, s: string, i: nat)
    requires i <= |s|
    ensures forall p :: p in AtomChoices(a, s, i) ==> ParseOk(p, s, i, AtomKinds([a]))
  {
    assert [a][1..] == [];
    forall p | p in AtomChoices(a, s, i)
      ensures ParseOk(p, s, i, AtomKinds([a]))
    {
      if !a.Lit? {
        var v := s[i..p.end];
        assert p.caps[0] == Some(v);
        if v != "" {
          assert v[0] == s[i];
        }
        if a.Param? {
          assert forall k :: 0 <= k < |v| ==> v[k] == s[i + k];
        } else {
          assert forall k :: 0 <= k < |v| ==> v[k] == s[i + k];
        }
      }
    }
  }

  lemma {:induction false} AtomsParsesOk(atoms: seq<Atom>, s: string, i: nat)
    requires i <= |s|
    ensures forall p :: p in AtomsParses(atoms, s, i) ==> ParseOk(p, s, i, AtomKinds(atoms))
    decreases |atoms|, 0
  {
    if atoms != [] {
      var choices := AtomChoices(atoms[0], s, i);
      assert AtomsParses(atoms, s, i) == AtomsThen(choices, atoms[1..], s, i);
      AtomChoicesOk(atoms[0], s, i);
      AtomsRestOk(atoms[1..], s, i);
      AtomsThenOk(choices, atoms[1..], s, i, AtomKinds([atoms[0]]));
      AtomKindsHead(atoms);
    }
  }

  lemma AtomKindsHead(atoms: seq<Atom>)
    requires atoms != []
    ensures AtomKinds(atoms) == AtomKinds([atoms[0]]) + AtomKinds(atoms[1..])
  {
    assert [atoms[0]][1..] == [];
  }

  lemma {:induction false} AtomsRestOk(rest: seq<Atom>, s: string, i: nat)
    requires i <= |s|
    ensures forall e :: i <= e <= |s| ==>
      forall p :: p in AtomsParses(rest, s, e) ==> ParseOk(p, s, e, AtomKinds(rest))
    decreases |rest|, 1
  {
    forall e | i <= e <= |s|
      ensures forall p :: p in AtomsParses(rest, s, e) ==> ParseOk(p, s, e, AtomKinds(rest))
    {
      AtomsParsesOk(rest, s, e);
    }
  }

  lemma {:induction false} AtomsThenOk(choices: seq<Parse>, rest: seq<Atom>, s: string, i: nat, head: seq<bool>)
    requires forall p :: p in choices ==> i <= p.end <= |s| && CapsOk(p.caps, head)
    requires forall e :: i <= e <= |s| ==>
      forall p :: p in AtomsParses(rest, s, e) ==> ParseOk(p, s, e, AtomKinds(rest))
    ensures forall p :: p in AtomsThen(choices, rest, s, i) ==> ParseOk(p, s, i, head + AtomKinds(rest))
    decreases |choices|
  {
    if choices != [] {
      var c := choices[0];
      assert c in choices;
      var tail := AtomsParses(rest, s, c.end);
      forall k | 0 <= k < |tail|
        ensures ParseOk(Shift(c.caps, tail)[k], s, i, head + AtomKinds(rest))
      {
        assert tail[k] in tail;
        CapsOkAppend(c.caps, head, tail[k].caps, AtomKinds(rest));
      }
      AtomsThenOk(choices[1..], rest, s, i, head);
    }
  }

  lemma TokenChoicesOk(t: Token, s: string, i: nat)
    requires i <= |s|
    ensures forall p :: p in TokenChoices(t, s, i) ==> i <= p.end <= |s| && CapsOk(p.caps, AtomKinds(TokenAtoms(t)))
  {
    match t
    case One(a) => AtomChoicesOk(a, s, i);
    case Opt(g) =>
      AtomsParsesOk(g, s, i);
  }

  /** Every parse of a compiled pattern ends inside the input and its captures obey
      the capture rules of their keys. */
  lemma {:induction false} ParsesOk(toks: seq<Token>, s: string, i: nat)
    requires i <= |s|
    ensures forall p :: p in Parses(toks, s, i) ==> ParseOk(p, s, i, Kinds(toks))
    decreases |toks|, 0
  {
    if toks != [] {
      var choices := TokenChoices(toks[0], s, i);
      TokenChoicesOk(toks[0], s, i);
      ParsesRestOk(toks[1..], s, i);
      TokensThenOk(choices, toks[1..], s, i, AtomKinds(TokenAtoms(toks[0])));
    }
  }

  lemma {:induction false} ParsesRestOk(rest: seq<Token>, s: string, i: nat)
    requires i <= |s|
    ensures forall e :: i <= e <= |s| ==>
      forall p :: p in Parses(rest, s, e) ==> ParseOk(p, s, e, Kinds(rest))
    decreases |rest|, 1
  {
    forall e | i <= e <= |s|
      ensures forall p :: p in Parses(rest, s, e) ==> ParseOk(p, s, e, Kinds(rest))
    {
      ParsesOk(rest, s, e);
    }
  }

  lemma {:induction false} TokensThenOk(choices: seq<Parse>, rest: seq<Token>, s: string, i: nat, head: seq<bool>)
    requires forall p :: p in choices ==> i <= p.end <= |s| && CapsOk(p.caps, head)
    requires forall e :: i <= e <= |s| ==>
      forall p :: p in Parses(rest, s, e) ==> ParseOk(p, s, e, Kinds(rest))
    ensures forall p :: p in TokensThen(choices, rest, s, i) ==> ParseOk(p, s, i, head + Kinds(rest))
    decreases |choices|
  {
    if choices != [] {
      var c := choices[0];
      assert c in choices;
      var tail := Parses(rest, s, c.end);
      forall k | 0 <= k < |tail|
        ensures ParseOk(Shift(c.caps, tail)[k], s, i, head + Kinds(rest))
      {
        assert tail[k] in tail;
        CapsOkAppend(c.caps, head, tail[k].caps, Kinds(rest));
      }
      TokensThenOk(choices[1..], rest, s, i, head);
    }
  }

  /** The raw captures `value.match(regex)` yields, or None when it fails. */
  function RawMatch(m: Matcher, s: string): (r: Option<seq<Option<string>>>)
  {
    ParsesOk(m.tokens, s, 0);
    FirstAccepted(Parses(m.tokens, s, 0), s, m.splat)
  }

  /** A successful match captures one value per key, each obeying its key's rule,
      and the match is anchored: some parse reaches the end of the input, or, for a
      pattern without `*name`, reaches a `/` followed only by characters `.` matches. */
  lemma RawMatchSound(m: Matcher, s: string)
    requires RawMatch(m, s).Some?
    ensures CapsOk(RawMatch(m, s).value, Kinds(m.tokens))
    ensures |RawMatch(m, s).value| == |Keys(m.tokens)|
    ensures exists p :: p in Parses(m.tokens, s, 0) && p.end <= |s| && TailAccepts(s, p.end, m.splat)
  {
    ParsesOk(m.tokens, s, 0);
  }

  /** `keys.reduce((prev, cur, i) => { prev[cur] = decodeURIComponent(matches[i + 1]); … }, {})` */
  function CaptureMap(keys: seq<string>, caps: seq<Option<string>>, decode: Option<string> -> string): (r: map<string, string>)
    requires |caps| == |keys|
    ensures r.Keys == set k | k in keys
    decreases |keys|
  {
    if keys == [] then map[]
    else CaptureMap(keys[..|keys| - 1], caps[..|caps| - 1], decode)[keys[|keys| - 1] := decode(caps[|caps| - 1])]
  }

  /** Each key holds the decoded capture of its last occurrence. */
  lemma {:induction false} CaptureMapLastWins(keys: seq<string>, caps: seq<Option<string>>, decode: Option<string> -> string, i: nat)
    requires |caps| == |keys| && i < |keys|
    requires forall j :: i < j < |keys| ==> keys[j] != keys[i]
    ensures CaptureMap(keys, caps, decode)[keys[i]] == decode(caps[i])
    decreases |keys|
  {
    var n := |keys| - 1;
    var before := CaptureMap(keys[..n], caps[..n], decode);
    assert CaptureMap(keys, caps, decode) == before[keys[n] := decode(caps[n])];
    if i < n {
      assert keys[..n][i] == keys[i] && caps[..n][i] == caps[i] && keys[n] != keys[i];
      forall j | i < j < n ensures keys[..n][j] != keys[..n][i] {
        assert keys[..n][j] == keys[j];
      }
      CaptureMapLastWins(keys[..n], caps[..n], decode, i);
    }
  }

  /** `PathMatcher.match(value)`: the decoded captures by key, or undefined. */
  function Match(m: Matcher, s: string, decode: Option<string> -> string): (r: Option<map<string, string>>)
    requires m.keys == Keys(m.tokens)
    ensures r.Some? <==> RawMatch(m, s).Some?
  {
    match RawMatch(m, s)
    case None => None
    case Some(caps) =>
      RawMatchSound(m, s);
      Some(CaptureMap(m.keys, caps, decode))
  }

  // --- literal patterns -------------------------------------------------------

  /** A pattern with no group, no `:name` and no `*name`. */
  predicate Plain(w: string)
  {
    forall k :: 0 <= k < |w| ==> w[k] != '(' && w[k] != ':' && w[k] != '*'
  }

  /** One literal token per character. */
  function LitTokens(w: string): (r: seq<Token>)
    ensures |r| == |w|
  {
    if w == [] then [] else [One(Lit(w[0]))] + LitTokens(w[1..])
  }

  lemma {:induction false} PlainScan(w: string, i: nat)
    requires Plain(w) && i <= |w|
    ensures ScanTokens(w, i) == Ok(LitTokens(w[i..]))
    decreases |w| - i
  {
    if i < |w| {
      PlainScan(w, i + 1);
      assert w[i..][0] == w[i] && w[i..][1..] == w[i + 1..];
    }
  }

  lemma {:induction false} LitTokensFree(w: string)
    ensures Keys(LitTokens(w)) == [] && !HasSplat(LitTokens(w))
  {
    if w != [] {
      LitTokensFree(w[1..]);
      var t := LitTokens(w);
      assert t[0] == One(Lit(w[0])) && t[1..] == LitTokens(w[1..]);
      assert AtomKeys([Lit(w[0])]) == [] by {
        assert [Lit(w[0])][1..] == [];
      }
      assert Keys(t) == AtomKeys(TokenAtoms(t[0])) + Keys(t[1..]);
      forall k | 0 <= k < |t| ensures !TokenHasSplat(t[k]) {
        if k > 0 {
          assert t[k] == t[1..][k - 1];
        }
      }
    }
  }

  /** A plain pattern compiles to its characters, with no keys and no splat. */
  lemma PlainCompiles(w: string)
    requires Plain(w)
    ensures Compile(w).Ok?
    ensures Compile(w).value.tokens == LitTokens(w)
    ensures Compile(w).value.keys == [] && !Compile(w).value.splat
  {
    assert !BackslashBeforeName(w);
    PlainScan(w, 0);
    assert w[0..] == w;
    LitTokensFree(w);
  }

  /** Literal tokens consume exactly their own text: metacharacters are escaped. */
  /** w occurs in s at i. */
  predicate OccursAt(w: string, s: string, i: nat)
  {
    i + |w| <= |s| && s[i..i + |w|] == w
  }

  lemma OccursStep(w: string, s: string, i: nat)
    requires w != [] && i <= |s|
    ensures OccursAt(w, s, i) <==> i < |s| && s[i] == w[0] && OccursAt(w[1..], s, i + 1)
  {
    if i + |w| <= |s| {
      assert s[i..i + |w|] == [s[i]] + s[i + 1..i + |w|];
    }
  }

  lemma ShiftNothing(ps: seq<Parse>)
    ensures Shift([], ps) == ps
  {
    forall k | 0 <= k < |ps| ensures Shift([], ps)[k] == ps[k] {
      assert [] + ps[k].caps == ps[k].caps;
    }
  }

  /** A token with a single way of consuming input continues from where it stops. */
  lemma ParsesSingle(toks: seq<Token>, s: string, i: nat, c: Parse)
    requires i <= |s| && toks != [] && TokenChoices(toks[0], s, i) == [c]
    ensures Parses(toks, s, i) == Shift(c.caps, Parses(toks[1..], s, c.end))
  {
    assert [c][1..] == [];
    assert TokensThen([c], toks[1..], s, i) == Shift(c.caps, Parses(toks[1..], s, c.end)) + TokensThen([], toks[1..], s, i);
  }

  lemma {:induction false} LitParses(w: string, s: string, i: nat)
    requires i <= |s|
    ensures Parses(LitTokens(w), s, i) == if OccursAt(w, s, i) then [Parse(i + |w|, [])] else []
    decreases |w|
  {
    if w != [] {
      var toks := LitTokens(w);
      assert toks[0] == One(Lit(w[0])) && toks[1..] == LitTokens(w[1..]);
      OccursStep(w, s, i);
      if i < |s| && s[i] == w[0] {
        ParsesSingle(toks, s, i, Parse(i + 1, []));
        LitParses(w[1..], s, i + 1);
        ShiftNothing(Parses(toks[1..], s, i + 1));
      } else {
        assert TokenChoices(toks[0], s, i) == [];
      }
    }
  }

  /** A plain pattern accepts exactly its own text, and that text followed by `/`
      and characters `.` matches; the match captures nothing. */
  lemma PlainMatch(w: string, s: string, decode: Option<string> -> string)
    requires Plain(w)
    ensures Compile(w).Ok?
    ensures Match(Compile(w).value, s, decode) ==
      if s == w || (|w| < |s| && s[..|w|] == w && s[|w|] == '/' && NoLineTerminator(s[|w| + 1..]))
      then Some(map[]) else None
  {
    PlainCompiles(w);
    LitParses(w, s, 0);
    if |w| <= |s| {
      assert s[0..|w|] == s[..|w|];
      if |w| == |s| {
        assert s[..|w|] == s;
      }
    }
  }

  // --- optional groups --------------------------------------------------------

  /** A `( … )` group either consumes something its atoms consume, or is skipped
      with its keys undefined; skipping is tried last. */
  lemma OptChoices(g: seq<Atom>, s: string, i: nat)
    requires i <= |s|
    ensures var r := TokenChoices(Opt(g), s, i);
      && r != [] && r[|r| - 1] == Parse(i, Undefined(|AtomKeys(g)|))
      && forall p :: p in r[..|r| - 1] <==> p in AtomsParses(g, s, i) && p.end > i
  {
    var r := TokenChoices(Opt(g), s, i);
    assert r[..|r| - 1] == Consuming(AtomsParses(g, s, i), i);
  }

  // --- a longer input keeps every parse -----------------------------------------

  /** s continues v: v is a prefix of s, and the character after it, if any, is not `#`. */
  predicate Continues(v: string, s: string)
  {
    |v| <= |s| && s[..|v|] == v && (|v| < |s| ==> s[|v|] != '#')
  }

  lemma ContinuesAt(v: string, s: string, k: nat)
    requires Continues(v, s) && k < |v|
    ensures s[k] == v[k]
  {
    assert s[..|v|][k] == s[k];
  }

  lemma {:induction false} ParamStopGrows(v: string, s: string, i: nat)
    requires Continues(v, s) && i <= |v|
    ensures ParamStop(v, i) <= ParamStop(s, i)
    decreases |v| - i
  {
    if i < |v| {
      ContinuesAt(v, s, i);
      if v[i] != '/' {
        ParamStopGrows(v, s, i + 1);
      }
    }
  }

  lemma {:induction false} SplatStopGrows(v: string, s: string, i: nat)
    requires Continues(v, s) && i <= |v|
    ensures SplatStop(v, i) <= SplatStop(s, i)
    decreases |v| - i
  {
    if i < |v| {
      ContinuesAt(v, s, i);
      if !IsLineTerminator(v[i]) {
        SplatStopGrows(v, s, i + 1);
      }
    }
  }

  lemma {:induction false} SpansHas(s: string, i: nat, from: nat, stop: nat, k: nat)
    requires i <= from <= k <= stop <= |s|
    ensures Parse(k, [Some(s[i..k])]) in Spans(s, i, from, stop)
    decreases k - from
  {
    if from < k {
      SpansHas(s, i, from + 1, stop, k);
    }
  }

  lemma SpansGrow(v: string, s: string, i: nat, stopv: nat, stops: nat)
    requires Continues(v, s) && i <= stopv <= |v| && stopv <= stops <= |s|
    ensures forall p :: p in Spans(v, i, i, stopv) ==> p in Spans(s, i, i, stops)
  {
    forall p | p in Spans(v, i, i, stopv)
      ensures p in Spans(s, i, i, stops)
    {
      assert v[i..p.end] == s[..|v|][i..p.end] == s[i..p.end];
      assert p.caps == [p.caps[0]];
      SpansHas(s, i, i, stops, p.end);
    }
  }

  lemma AtomChoicesGrow(a: Atom, v: string, s: string, i: nat)
    requires Continues(v, s) && i <= |v|
    ensures forall p :: p in AtomChoices(a, v, i) ==> p in AtomChoices(a, s, i)
  {
    if i < |v| {
      ContinuesAt(v, s, i);
    }
    match a
    case Lit(c) =>
    case Param(_) =>
      ParamStopGrows(v, s, i);
      SpansGrow(v, s, i, ParamStop(v, i), ParamStop(s, i));
    case Splat(_) =>
      SplatStopGrows(v, s, i);
      SpansGrow(v, s, i, SplatStop(v, i), SplatStop(s, i));
  }

  lemma ShiftGrow(caps: seq<Option<string>>, xs: seq<Parse>, ys: seq<Parse>)
    requires forall q :: q in xs ==> q in ys
    ensures forall p :: p in Shift(caps, xs) ==> p in Shift(caps, ys)
  {
    forall p | p in Shift(caps, xs)
      ensures p in Shift(caps, ys)
    {
      var q :| q in xs && p == Parse(q.end, caps + q.caps);
      var k :| 0 <= k < |ys| && ys[k] == q;
      assert Shift(caps, ys)[k] == p;
    }
  }

  lemma {:induction false} AtomsThenHas(cs: seq<Parse>, rest: seq<Atom>, s: string, i: nat, c: Parse, p: Parse)
    requires forall q :: q in cs ==> i <= q.end <= |s|
    requires c in cs && p in Shift(c.caps, AtomsParses(rest, s, c.end))
    ensures p in AtomsThen(cs, rest, s, i)
    decreases |cs|
  {
    if cs[0] != c {
      AtomsThenHas(cs[1..], rest, s, i, c, p);
    }
  }

  lemma {:induction false} AtomsParsesGrow(atoms: seq<Atom>, v: string, s: string, i: nat)
    requires Continues(v, s) && i <= |v|
    ensures forall p :: p in AtomsParses(atoms, v, i) ==> p in AtomsParses(atoms, s, i)
    decreases |atoms|, 0, 0
  {
    if atoms != [] {
      AtomChoicesGrow(atoms[0], v, s, i);
      AtomsThenGrow(AtomChoices(atoms[0], v, i), AtomChoices(atoms[0], s, i), atoms[1..], v, s, i);
    }
  }

  lemma {:induction false} AtomsThenGrow(cv: seq<Parse>, cs: seq<Parse>, rest: seq<Atom>, v: string, s: string, i: nat)
    requires Continues(v, s)
    requires forall q :: q in cv ==> i <= q.end <= |v| && q in cs
    requires forall q :: q in cs ==> i <= q.end <= |s|
    ensures forall p :: p in AtomsThen(cv, rest, v, i) ==> p in AtomsThen(cs, rest, s, i)
    decreases |rest|, 1, |cv|
  {
    if cv != [] {
      var c := cv[0];
      assert c in cv;
      AtomsParsesGrow(rest, v, s, c.end);
      ShiftGrow(c.caps, AtomsParses(rest, v, c.end), AtomsParses(rest, s, c.end));
      forall p | p in Shift(c.caps, AtomsParses(rest, v, c.end))
        ensures p in AtomsThen(cs, rest, s, i)
      {
        AtomsThenHas(cs, rest, s, i, c, p);
      }
      AtomsThenGrow(cv[1..], cs, rest, v, s, i);
    }
  }

  lemma TokenChoicesGrow(t: Token, v: string, s: string, i: nat)
    requires Continues(v, s) && i <= |v|
    ensures forall p :: p in TokenChoices(t, v, i) ==> p in TokenChoices(t, s, i)
  {
    match t
    case One(a) => AtomChoicesGrow(a, v, s, i);
    case Opt(g) => AtomsParsesGrow(g, v, s, i);
  }

  lemma {:induction false} TokensThenHas(cs: seq<Parse>, rest: seq<Token>, s: string, i: nat, c: Parse, p: Parse)
    requires forall q :: q in cs ==> i <= q.end <= |s|
    requires c in cs && p in Shift(c.caps, Parses(rest, s, c.end))
    ensures p in TokensThen(cs, rest, s, i)
    decreases |cs|
  {
    if cs[0] != c {
      TokensThenHas(cs[1..], rest, s, i, c, p);
    }
  }

  /** Every way the tokens consume a prefix of v is also a way of consuming s. */
  lemma {:induction false} ParsesGrow(toks: seq<Token>, v: string, s: string, i: nat)
    requires Continues(v, s) && i <= |v|
    ensures forall p :: p in Parses(toks, v, i) ==> p in Parses(toks, s, i)
    decreases |toks|, 0, 0
  {
    if toks != [] {
      TokenChoicesGrow(toks[0], v, s, i);
      TokensThenGrow(TokenChoices(toks[0], v, i), TokenChoices(toks[0], s, i), toks[1..], v, s, i);
    }
  }

  lemma {:induction false} TokensThenGrow(cv: seq<Parse>, cs: seq<Parse>, rest: seq<Token>, v: string, s: string, i: nat)
    requires Continues(v, s)
    requires forall q :: q in cv ==> i <= q.end <= |v| && q in cs
    requires forall q :: q in cs ==> i <= q.end <= |s|
    ensures forall p :: p in TokensThen(cv, rest, v, i) ==> p in TokensThen(cs, rest, s, i)
    decreases |rest|, 1, |cv|
  {
    if cv != [] {
      var c := cv[0];
      assert c in cv;
      ParsesGrow(rest, v, s, c.end);
      ShiftGrow(c.caps, Parses(rest, v, c.end), Parses(rest, s, c.end));
      forall p | p in Shift(c.caps, Parses(rest, v, c.end))
        ensures p in TokensThen(cs, rest, s, i)
      {
        TokensThenHas(cs, rest, s, i, c, p);
      }
      TokensThenGrow(cv[1..], cs, rest, v, s, i);
    }
  }

  /** A pattern without `*name` that accepts v also accepts v followed by `/` and
      any text `.` matches: the optional tail `(?:$|\/.*?)$`. */
  lemma SlashSuffixAccepted(m: Matcher, v: string, w: string)
    requires !m.splat && NoLineTerminator(w) && RawMatch(m, v).Some?
    ensures RawMatch(m, v + "/" + w).Some?
  {
    var s := v + "/" + w;
    ParsesOk(m.tokens, v, 0);
    var p :| p in Parses(m.tokens, v, 0) && TailAccepts(v, p.end, false);
    assert s[..|v|] == v && s[|v|] == '/';
    ParsesGrow(m.tokens, v, s, 0);
    assert p in Parses(m.tokens, s, 0);
    assert TailAccepts(s, p.end, false) by {
      if p.end == |v| {
        assert s[p.end + 1..] == w;
      } else {
        ContinuesAt(v, s, p.end);
        var tail := v[p.end + 1..];
        assert s[p.end + 1..] == tail + "/" + w;
        forall k | 0 <= k < |tail + "/" + w|
          ensures !IsLineTerminator((tail + "/" + w)[k])
        {
          if k < |tail| {
            assert (tail + "/" + w)[k] == tail[k];
          } else if k > |tail| {
            assert (tail + "/" + w)[k] == w[k - |tail| - 1];
          }
        }
      }
    }
  }

  // --- what a capture accepts -------------------------------------------------

  /** A `:name` at i accepts every run that holds no `/`, unless the run starts at a `#`. */
  lemma ParamAccepts(n: string, s: string, i: nat, k: nat)
    requires i <= k <= |s| && (i < |s| ==> s[i] != '#')
    requires forall m :: i <= m < k ==> s[m] != '/'
    ensures Parse(k, [Some(s[i..k])]) in AtomChoices(Param(n), s, i)
  {
    SpansHas(s, i, i, ParamStop(s, i), k);
  }

  /** A `*name` at i accepts every run that holds no line terminator, `/` included,
      unless the run starts at a `#`. */
  lemma SplatAccepts(n: string, s: string, i: nat, k: nat)
    requires i <= k <= |s| && (i < |s| ==> s[i] != '#')
    requires forall m :: i <= m < k ==> !IsLineTerminator(s[m])
    ensures Parse(k, [Some(s[i..k])]) in AtomChoices(Splat(n), s, i)
  {
    SpansHas(s, i, i, SplatStop(s, i), k);
  }

  /** Nothing left to match: each choice is a finished parse. */
  lemma {:induction false} TokensThenNil(cs: seq<Parse>, s: string, i: nat)
    requires forall p :: p in cs ==> i <= p.end <= |s|
    ensures TokensThen(cs, [], s, i) == cs
    decreases |cs|
  {
    if cs != [] {
      var c := cs[0];
      assert Parses([], s, c.end) == [Parse(c.end, [])];
      assert Shift(c.caps, [Parse(c.end, [])]) == [Parse(c.end, c.caps + [])];
      assert c.caps + [] == c.caps;
      TokensThenNil(cs[1..], s, i);
      assert cs == [c] + cs[1..];
    }
  }

  /** `/` followed by one atom: past the slash, the parses are the atom's choices. */
  lemma SlashThen(a: Atom, s: string)
    requires |s| >= 1 && s[0] == '/'
    ensures Parses([One(Lit('/')), One(a)], s, 0) == AtomChoices(a, s, 1)
  {
    var toks := [One(Lit('/')), One(a)];
    var one := [One(a)];
    assert toks[0] == One(Lit('/')) && toks[1..] == one;
    var c := Parse(1, []);
    assert AtomChoices(Lit('/'), s, 0) == [c];
    ParsesSingle(toks, s, 0, c);
    var after := Parses(one, s, 1);
    ShiftNothing(after);
    assert one[0] == One(a) && one[1..] == [];
    var cs := AtomChoices(a, s, 1);
    assert after == TokensThen(cs, [], s, 1);
    TokensThenNil(cs, s, 1);
  }

  /** The capture object of a single key. */
  lemma CaptureMapOne(n: string, c: Option<string>, decode: Option<string> -> string)
    ensures CaptureMap([n], [c], decode) == map[n := decode(c)]
  {
    assert [n][..0] == [] && [c][..0] == [];
  }

  lemma SlashKeys(a: Atom)
    requires !a.Lit?
    ensures Keys([One(Lit('/')), One(a)]) == [a.name]
  {
    var toks := [One(Lit('/')), One(a)];
    var one := [One(a)];
    assert toks[1..] == one && one[1..] == [];
    assert [Lit('/')][1..] == [] && [a][1..] == [];
    assert AtomKeys([Lit('/')]) == [] && AtomKeys([a]) == [a.name];
    assert Keys(one) == AtomKeys([a]) + Keys([]);
    assert Keys(toks) == AtomKeys([Lit('/')]) + Keys(one);
  }

  /** When every accepted parse carries the same captures, those are the match. */
  lemma OnlyAccepted(ps: seq<Parse>, s: string, splat: bool, q: Parse)
    requires forall p :: p in ps ==> p.end <= |s|
    requires q in ps && q.end <= |s| && TailAccepts(s, q.end, splat)
    requires forall p :: p in ps && TailAccepts(s, p.end, splat) ==> p.caps == q.caps
    ensures FirstAccepted(ps, s, splat) == Some(q.caps)
  {
  }

  /** A `*name` after a `/` matches `/` followed by any text free of line terminators
      that does not start with `#`, slashes included, and captures all of it. */
  lemma SplatPatternMatch(n: string, v: string, decode: Option<string> -> string)
    requires NoLineTerminator(v) && (v != "" ==> v[0] != '#')
    ensures var m := Matcher([n], [One(Lit('/')), One(Splat(n))], true);
      m.keys == Keys(m.tokens) && Match(m, "/" + v, decode) == Some(map[n := decode(Some(v))])
  {
    var m := Matcher([n], [One(Lit('/')), One(Splat(n))], true);
    SlashKeys(Splat(n));
    var s := "/" + v;
    forall j | 1 <= j < |s| ensures !IsLineTerminator(s[j]) {
      assert s[j] == v[j - 1];
    }
    var stop := SplatStop(s, 1);
    assert stop == |s|;
    SlashThen(Splat(n), s);
    var ps := Parses(m.tokens, s, 0);
    assert ps == Spans(s, 1, 1, stop);
    assert s[1..|s|] == v;
    SplatAccepts(n, s, 1, |s|);
    OnlyAccepted(ps, s, true, Parse(|s|, [Some(v)]));
    assert RawMatch(m, s) == Some([Some(v)]);
    CaptureMapOne(n, Some(v), decode);
  }

  /** A `:name` after a `/` matches `/`, then a run without `/` that does not start
      with `#`, then nothing or `/` and text free of line terminators; it captures
      the run. */
  lemma ParamPatternMatch(n: string, v: string, rest: string, decode: Option<string> -> string)
    requires '/' !in v && (v != "" ==> v[0] != '#')
    requires rest == "" || (rest[0] == '/' && NoLineTerminator(rest[1..]))
    ensures var m := Matcher([n], [One(Lit('/')), One(Param(n))], false);
      m.keys == Keys(m.tokens) && Match(m, "/" + v + rest, decode) == Some(map[n := decode(Some(v))])
  {
    var m := Matcher([n], [One(Lit('/')), One(Param(n))], false);
    SlashKeys(Param(n));
    var s := "/" + v + rest;
    var e := 1 + |v|;
    forall j | 1 <= j < e ensures s[j] != '/' {
      assert s[j] == v[j - 1];
    }
    var stop := ParamStop(s, 1);
    assert stop == e by {
      if rest != "" {
        assert s[e] == rest[0];
      }
    }
    SlashThen(Param(n), s);
    var ps := Parses(m.tokens, s, 0);
    assert ps == Spans(s, 1, 1, stop);
    assert s[1..e] == v;
    ParamAccepts(n, s, 1, e);
    assert TailAccepts(s, e, false) by {
      if rest != "" {
        assert s[e] == rest[0] && s[e + 1..] == rest[1..];
      }
    }
    forall p | p in ps && TailAccepts(s, p.end, false) ensures p.caps == [Some(v)] {
    }
    OnlyAccepted(ps, s, false, Parse(e, [Some(v)]));
    assert RawMatch(m, s) == Some([Some(v)]);
    CaptureMapOne(n, Some(v), decode);
  }

  /** A parameter name: a non-empty run of word characters. */
  predicate IsName(n: string)
  {
    n != "" && forall i :: 0 <= i < |n| ==> IsWord(n[i])
  }

  /** The pattern made of `/`, the sigil c (`:` or `*`) and the name n compiles
      to a `/` followed by one parameter or splat capture named n. */
  lemma NameCompiles(c: char, n: string)
    requires (c == ':' || c == '*') && IsName(n)
    ensures var a := if c == ':' then Param(n) else Splat(n);
      Compile("/" + [c] + n).Ok? && Compile("/" + [c] + n).value == Matcher([n], [One(Lit('/')), One(a)], c == '*')
  {
    var p := "/" + [c] + n;
    var a := if c == ':' then Param(n) else Splat(n);
    assert !BackslashBeforeName(p) by {
      forall i | 0 <= i < |p| ensures p[i] != '\\' {
        if i >= 2 {
          assert p[i] == n[i - 2];
        }
      }
    }
    assert p[0] == '/' && p[1] == c && p[2..|p|] == n;
    assert StartsName(p, 1) by {
      assert p[2] == n[0];
    }
    assert WordEnd(p, 2) == |p|;
    assert ScanTokens(p, |p|) == Ok([]);
    assert p[1] != '(' && (if p[1] == ':' then Param(p[2..|p|]) else Splat(p[2..|p|])) == a;
    assert ScanTokens(p, 1) == Ok([One(a)] + []);
    assert [One(a)] + [] == [One(a)];
    assert p[0] != '(' && !StartsName(p, 0);
    assert ScanTokens(p, 0) == Ok([One(Lit('/'))] + [One(a)]);
    SlashKeys(a);
    var toks := [One(Lit('/')), One(a)];
    assert HasSplat(toks) <==> c == '*' by {
      assert TokenHasSplat(toks[1]) <==> c == '*';
      assert !TokenHasSplat(toks[0]);
    }
  }

  /** `/:name` compiled from its text matches as `ParamPatternMatch` states. */
  lemma ParamRouteMatch(n: string, v: string, rest: string, decode: Option<string> -> string)
    requires IsName(n) && '/' !in v && (v != "" ==> v[0] != '#')
    requires rest == "" || (rest[0] == '/' && NoLineTerminator(rest[1..]))
    ensures Compile("/:" + n).Ok? && Match(Compile("/:" + n).value, "/" + v + rest, decode) == Some(map[n := decode(Some(v))])
  {
    assert "/:" + n == "/" + [':'] + n;
    NameCompiles(':', n);
    ParamPatternMatch(n, v, rest, decode);
  }

  /** A `/`, a `*` and a name, compiled from that text, matches as
      `SplatPatternMatch` states. */
  lemma SplatRouteMatch(n: string, v: string, decode: Option<string> -> string)
    requires IsName(n) && NoLineTerminator(v) && (v != "" ==> v[0] != '#')
    ensures Compile("/*" + n).Ok? && Match(Compile("/*" + n).value, "/" + v, decode) == Some(map[n := decode(Some(v))])
  {
    assert "/*" + n == "/" + ['*'] + n;
    NameCompiles('*', n);
    SplatPatternMatch(n, v, decode);
  }
}
