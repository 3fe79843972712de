# abstract-nested-router, modelled in Dafny

A model of the core of `abstract-nested-router`, a small JavaScript router. The core has three parts:

- **The route registry.** `add` files a route under its merged full path. `rm` takes it out again.
- **The resolver.** `reduce` walks a request path segment by segment through the registry. It emits one record per route it passes, then sorts the records. `find` runs `reduce` under a retry count.
- **The `Router` object.** It keeps a stack of mount prefixes. Every `add` and `rm` gets the concatenated stack as its parent path.

Segment patterns (`/:id`, `/*rest`, `(/opt)`) are compiled by `buildMatcher` and matched by `PathMatcher.match`.

Files:

- `common.dfy`: `Option`, `Result`, the router's errors (`NotFound(route, segment)`, `TypeError`, `SyntaxError`) and `Join`, which is `Array.prototype.join('')`.
- `walk.dfy` (`PathWalk`):
  - `merge`;
  - the lookahead split of `walk`, `/(?=\/|#)/`, written as a cut function;
  - the visits the `walk` callback sees, each a segment, an accumulated path and the rest;
  - `walk` itself, as a loop with a stop predicate.
- `matcher.dfy` (`PathMatcher`):
  - `buildMatcher` as a tokenizer into literal characters, `:name`, `*name` and optional groups;
  - the fold that collects the keys and the splat flag;
  - the regular expression's behaviour, as the ordered list of parses a backtracking engine tries;
  - `PathMatcher.match`, building the capture object.
- `ordering.dfy` (`Ordering`): a stable insertion sort by a lexicographic integer key. It stands for `Array.prototype.sort`, which is stable, and for the priority order of child keys.
- `registry.dfy` (`Registry`):
  - the segment tree, as a value;
  - `routes.refs`, as two maps: key to info and full path to keys;
  - `add`, `rm` and the depth split of `add`.
- `resolver.dfy` (`Resolver`):
  - `reduce`, as a recursive specification and as a loop method proved equal to it;
  - the record order of its final sort;
  - `find`'s countdown loop.
- `router.dfy` (`NestedRouter`):
  - the `Router` class, with the registry and the mount stack as fields;
  - mount callbacks, given as a list of router calls (`Op`) and interpreted by `MountSpec`/`RunOps`.

`src/path.js` does not define three things `src/utils.js` uses: `PathMatcher.push`, `PathMatcher.sort` and the `match.keys` / `_length` properties. The model supplies them:

- `push` is get-or-create of the child, with the parent's keys kept in a priority order. The priority is a parameter `rank`.
- `sort` is a permutation into that same order.
- The depth bump at `src/utils.js:72` is the number of keys of the segment's pattern.

`src/index.js:5` never creates `routes.refs`, which `add`, `rm` and `reduce` all read. The model's registry carries `refs` from the start.

## Model

| member | source | states |
|---|---|---|
| PathWalk.MergeShape | src/utils.js:4-6 | A missing or `/` parent leaves the path as is; any other parent is prefixed to the path unchanged. |
| PathWalk.PiecesShape | src/utils.js:15 | The lookahead split loses nothing: the pieces join back to the input. Each piece holds a `/` or `#` only as its first character. Every piece after the first starts with one, and the first runs up to the first later separator. |
| PathWalk.Parts | src/utils.js:15-20 | After the split a leading `/` is added when missing, so there is at least one part and the first is `/`. |
| PathWalk.WalkCovers | src/utils.js:15-25 | The visited segments join back to the path, with `/` prepended when the path did not start with a `/` piece; no segment holds a separator after its first character. |
| PathWalk.SegmentsOfParts | src/utils.js:15-27 | The segments the callback receives are exactly the parts, in order. |
| PathWalk.VisitShape | src/utils.js:22-25 | For a non-empty path, each visit's segment is non-empty. Its `parent` is the concatenation of the parts after `/` up to and including it (`/` for the first). Its `segment` is null exactly at the last visit. |
| PathWalk.Walk | src/utils.js:8-31 | Fails with a TypeError exactly when an angle-bracket group holds a `/`. Otherwise it visits a non-empty prefix of the visits and stops after the first visit whose callback is truthy, or after the last one. |
| Common.NonEmpty | src/utils.js:23-24 | `s \|\| null`: null exactly for the empty string, the string itself otherwise. |
| PathMatcher.TokenizeRoundTrip | src/path.js:7-20 | Compilation loses nothing: rendering the tokens gives back the pattern text. |
| PathMatcher.TokenizeError | src/path.js:9-22 | A pattern the expression constructor rejects fails with a SyntaxError naming that pattern. |
| PathMatcher.BuildMatcher | src/path.js:1-25 | Fails exactly when tokenizing fails. On success, the keys are the names of all `:name`/`*name` in order, and `_isSplat` holds exactly when some `*name` occurs. |
| PathMatcher.FoldTokens | src/path.js:10-20 | The replace callback's fold yields exactly the key list and the splat flag of the tokens. |
| PathMatcher.FoldAtoms | src/path.js:10-20 | Over one token's atoms, keys are appended in order and the splat flag is or-ed. |
| PathMatcher.Compile | src/path.js:27-29 | The matcher exists exactly when the pattern tokenizes, and it holds those tokens. |
| PathMatcher.GroupEnd | src/path.js:9 | The lazy group body ends at the first `)` and does not cross a line terminator. When there is no end, every later `)` has a line terminator before it. |
| PathMatcher.ParsesOk | src/path.js:14-19 | Every way of consuming the input yields one capture per key. A `:name` capture never holds `/`, a `*name` capture never holds a line terminator, and neither starts with `#`. |
| PathMatcher.RawMatchSound | src/path.js:22 | A successful match is anchored: some parse ends at the end of the input or, without a splat, at a `/` followed only by characters `.` matches. Its captures satisfy the key rules. |
| PathMatcher.OptChoices | src/path.js:9 | An optional group first tries each way of consuming something, then skipping, which leaves its keys undefined. |
| PathMatcher.LitParses | src/path.js:8 | Escaped literal text consumes exactly its own characters, at the position where they occur, and nothing else. |
| PathMatcher.PlainCompiles | src/path.js:7-24 | A pattern with no group, `:` or `*` compiles to its literal characters, with no keys and no splat. |
| PathMatcher.PlainMatch | src/path.js:8-22 | A literal pattern matches exactly its own text, or that text followed by `/` and characters `.` matches. The capture object is empty. |
| PathMatcher.ParsesGrow | src/path.js:14-19 | Extending the input (without a `#` right after the old end) keeps every parse of the shorter input. |
| PathMatcher.SlashSuffixAccepted | src/path.js:22 | A non-splat matcher that accepts a value also accepts that value followed by `/` and any line-terminator-free text. |
| PathMatcher.FirstAccepted | src/path.js:34 | The match fails exactly when no parse is accepted by the anchored tail. |
| PathMatcher.FirstAcceptedFirst | src/path.js:34 | The captures reported are those of a parse the tail accepts, and every parse listed before it is refused. |
| PathMatcher.ParamAccepts | src/path.js:14 | `:name` can capture any run of characters that holds no `/` and does not start with `#`. |
| PathMatcher.SplatAccepts | src/path.js:19 | `*name` can capture any run of characters free of line terminators that does not start with `#`, including runs that cross `/`. |
| PathMatcher.ParamPatternMatch | src/path.js:7-42 | The tokens of `/:name` match `/v`, and `/v` followed by `/` and more text. It captures exactly `v` whenever `v` has no `/` and does not start with `#`. |
| PathMatcher.SplatPatternMatch | src/path.js:7-42 | The tokens of `/*name` match `/v` and capture all of `v`, even when `v` crosses `/`. |
| PathMatcher.NameCompiles | src/path.js:7-29 | The text `/:name` or `/*name`, for a non-empty run of word characters, compiles to a `/` literal and one `:name` or `*name` capture, with keys `[name]` and `_isSplat` set exactly for `*`. |
| PathMatcher.ParamRouteMatch | src/path.js:7-42 | The pattern compiled from the text `/:name` matches `/v`, optionally followed by `/` and more text, and captures exactly `v`, whenever `v` has no `/` and does not start with `#`. |
| PathMatcher.SplatRouteMatch | src/path.js:7-42 | The pattern compiled from the text `/*name` matches `/v` and captures all of `v`, slashes included. |
| PathMatcher.CaptureMap | src/path.js:37-40 | The capture object has exactly the keys of the pattern. |
| PathMatcher.CaptureMapLastWins | src/path.js:37-40 | A key repeated in a pattern holds the decoded capture of its last occurrence. |
| PathMatcher.Match | src/path.js:33-42 | `match` returns an object exactly when the expression matches, and undefined otherwise. |
| Ordering.SortSpec | src/utils.js:103-109 | The sort yields a permutation of its input that is ordered by the key. |
| Ordering.SortStable | src/utils.js:103-109 | The sort is stable: the elements of each key class keep their relative order. |
| Ordering.InsertSorted | src/utils.js:103-109 | Inserting into an ordered sequence keeps it ordered and adds nothing else. |
| Ordering.LeTotal | src/utils.js:103-109 | The comparator's order is total. |
| Ordering.LeTrans | src/utils.js:103-109 | The comparator's order is transitive. |
| Registry.Empty | src/index.js:5 | A new registry has no child keys, no infos and no full paths. |
| Registry.DepthOf | src/utils.js:133 | The depth split always yields at least one piece, and at most one per character after the first. |
| Registry.DepthExamples | src/utils.js:133 | The depth of `/` is 1, of `/a/:b` is 2 and of `/a-b/c.d` is 3. |
| Registry.PushKey | src/utils.js:151 | After `push`, the segment is among the parent's keys. Keys already present are unchanged; otherwise the old keys plus the segment, in priority order. |
| Registry.RemoveFirst | src/utils.js:187-193 | `splice(indexOf(key), 1)` removes exactly one occurrence of the key. |
| Registry.Attach | src/utils.js:151 | Linking a grown child replaces exactly that child of the parent. |
| Registry.Grow | src/utils.js:149-152 | The only error of the add walk is a segment pattern that does not compile. |
| Registry.GrowLinks | src/utils.js:149-152 | A walk that completes leaves every visited segment listed among its parent's keys, with a child node. |
| Registry.AddRejects | src/utils.js:136-142 | An empty path, a path not starting with `#` or `/`, or a missing key gives a TypeError and leaves the registry untouched, and only those inputs do. |
| Registry.AddFiles | src/utils.js:131-154 | A valid add files the info, with its full path and depth, under its key. It appends the key to the keys of the full path and changes no other entry. It returns the full path, and fails exactly when the path holds a slash group or a segment does not compile. |
| Registry.AddLinks | src/utils.js:149-152 | After a successful add every part of the full path is linked from the top, so `reduce` can reach it. |
| Registry.AddKeepsRefsClosed | src/utils.js:144-147 | `add` preserves the invariant that every key listed under a full path has an info filed under that key. |
| Registry.UpdateAt | src/utils.js:193-196 | Editing the node at a path puts the new node there. |
| Registry.Locate | src/utils.js:163-176 | The rm walk fails only with NotFound naming the path given to `rm`. |
| Registry.Locus | src/utils.js:160-184 | Finding the parent to edit fails only with NotFound naming the given path, or with a TypeError when `routes['/']` is missing. |
| Registry.LocusAt | src/utils.js:173-184 | The node `rm` edits is the node at the recorded position in the tree. |
| Registry.Rm | src/utils.js:157-202 | `rm` never touches infos. The keys of the full path are either kept or dropped entirely. |
| Registry.Unfile | src/utils.js:199-201 | The final step drops `refs[fullpath]` or not, touches nothing else, and can fail only with a TypeError. |
| Registry.RmRemoves | src/utils.js:186-197 | When the parent lists the key, `rm` removes exactly one occurrence from its keys, keeps them in priority order and deletes that child. The parent keeps its route and pattern. The new tree is the old one with only that node replaced. |
| Registry.UpdateFrame | src/utils.js:193-196 | Replacing one node leaves every node off its path and outside its subtree unchanged. |
| Registry.UpdateAncestor | src/utils.js:193-196 | Replacing one node changes each ancestor only in the child entry that leads towards it. |
| Registry.RmLeavesOthers | src/utils.js:186-197 | `rm` changes no node off the parent's path and outside the parent's subtree. |
| Registry.LocateFalls | src/utils.js:163-176 | When the walk steps onto a missing child before the last segment, the next visit clears `leaf`. |
| Registry.LocateNoKeys | src/utils.js:169-171 | When the walk reaches a node without keys, it throws NotFound with the path and the segment visited there. |
| Registry.RmMissingSegment | src/utils.js:163-180 | A segment missing from the tree before the last one makes `rm` throw NotFound(path, that segment). The tree is unchanged. |
| Registry.RmNoChildren | src/utils.js:163-171 | A node on the full path that has no keys makes `rm` throw NotFound(path, the segment visited there). The tree is unchanged. |
| Registry.RmMissingKey | src/utils.js:186-191 | A key the parent does not list gives NotFound(path, key) and changes nothing. |
| Registry.RmUnfiles | src/utils.js:199-201 | A successful `rm` drops the full path's keys exactly when the parent's route equals the route of the removed node itself. |
| Registry.RmErrors | src/utils.js:163-191 | Every `rm` error is NotFound naming the given path, or a TypeError. |
| Registry.RmFromEmpty | src/utils.js:169-170 | `rm` on a registry nothing was added to fails with NotFound(path, `/`). |
| Registry.RmKeepsRefsClosed | src/utils.js:199-201 | `rm` preserves the registry invariant. |
| Resolver.MatchesAtVisit | src/utils.js:63-67 | Along a path's visits, an exact route's record matches only at the last visit; a non-exact one always matches. |
| Resolver.Emit | src/utils.js:56-78 | Emitting only appends to the records already collected, and every record appended is the one built (exact/`matches` rule, params, route, depth, path) from the info of one of the node's routes. |
| Resolver.EmitSpec | src/utils.js:56-78 | After emitting, every route filed at the node has a record, and record keys stay distinct. |
| Resolver.EmitRoutes | src/utils.js:56-78 | The `forEach` loop computes exactly the emitted records. |
| Resolver.ScanFrom | src/utils.js:45-94 | Scanning a node's keys without a hit leaves the cursor where it was. Its only error is a TypeError from a key without a child. |
| Resolver.ScanTakesFirst | src/utils.js:45-94 | The scan stops at the first key in `keys` order that it does not move past. It moves past a key whose child's pattern refuses the input, or accepts it but is overridden by a `*` sibling. It takes the child at that first key exactly when the child accepts the input, is not a keyless child at the last segment, and is not overridden; the cursor is then at that child with its splat flag. It throws exactly at a key without a child, and takes nothing exactly when it moves past every key or ends at a keyless child at the last segment. |
| Resolver.Scan | src/utils.js:45-94 | The `some` loop over the current node's keys computes exactly the scan. |
| Resolver.AnyMatch | src/utils.js:96 | The fallback check is true exactly when some listed child's pattern matches the segment. |
| Resolver.ScanDistinct | src/utils.js:56-57 | The `out.some(x => x.key === route)` guard keeps record keys distinct over a scan. |
| Resolver.WalkDistinct | src/utils.js:39-101 | Record keys stay distinct over the whole walk. |
| Resolver.CompareAgrees | src/utils.js:103-109 | The comparator's sign agrees with the rank order: fallback routes last, then routes with `#`, then by depth. |
| Resolver.SortRecordsSpec | src/utils.js:103-109 | The sorted records are a permutation in comparator order, stable within equal ranks, and keep distinct keys. |
| Resolver.ReduceResult | src/utils.js:33-110 | A successful `reduce` returns records with distinct keys, ordered by the comparator. |
| Resolver.WalkNotFound | src/utils.js:39-98 | A NotFound from the walk names the requested path and one of the visited segments. |
| Resolver.ReduceNotFound | src/utils.js:39-98 | A NotFound from `reduce` names the requested path and one of its parts. |
| Resolver.ReduceEmpty | src/utils.js:40-42 | Resolving against an empty registry fails at the first segment, `/`. |
| Resolver.SplatStops | src/utils.js:88-100 | When the first scan takes a splat child, the walk stops with the records collected so far. |
| Resolver.PatternOnlyStops | src/utils.js:96-100 | When the scan takes no child but some child's pattern matches the segment, the walk stops with the records collected so far. |
| Resolver.VisitNotFound | src/utils.js:40-97 | A visit throws NotFound(key, segment) exactly when the node has no keys, or when no child is taken and no child's pattern matches. |
| Resolver.WalkAfter | src/utils.js:39-100 | The walk over all visits is the first i visits followed by the walk over the rest. |
| Resolver.ReduceNotFoundAt | src/utils.js:39-98 | If the walk passes the first i segments without stopping and is stuck at the next, `reduce` throws NotFound(key, that segment). |
| Resolver.Reduce | src/utils.js:33-110 | The loop with the callback inlined computes exactly the recursive specification of `reduce`. |
| Resolver.Find | src/utils.js:112-129 | With no retries the result is undefined and nothing runs. Otherwise the result is that of `reduce`. A second attempt happens exactly when the first fails and retries remain. |
| NestedRouter.Normalise | src/index.js:17 | `true` becomes 2; `false`, 0 or missing becomes 1; any other number is kept. |
| NestedRouter.Push | src/index.js:10-12 | Mounting `/` pushes nothing; any other prefix is pushed. |
| NestedRouter.Pop | src/index.js:15 | `pop` removes the last prefix; an empty stack stays empty. |
| NestedRouter.Call | src/index.js:17-19 | `add`, `rm` and `find` leave the stack alone and keep the registry invariant. |
| NestedRouter.RunOps | src/index.js:14 | Running a callback keeps the registry invariant. |
| NestedRouter.Step | src/index.js:9-19 | One router call keeps the registry invariant, and only `mount` can change the stack. |
| NestedRouter.MountSpecClosed | src/index.js:9-16 | A mount keeps the registry invariant. |
| NestedRouter.RunKeepsStack | src/index.js:9-16 | When no `/` is mounted, a callback that completes leaves the stack as it found it. |
| NestedRouter.MountKeepsStack | src/index.js:9-16 | Mounting a prefix other than `/`, with a callback that completes, restores the stack. |
| NestedRouter.MountRootPops | src/index.js:10-15 | Mounting `/` pushes nothing but still pops, so it drops the enclosing prefix. |
| NestedRouter.Router.constructor | src/index.js:4-6 | A new router has an empty registry and an empty stack. |
| NestedRouter.Router.Add | src/index.js:18 | `add` is the registry add with the joined stack as parent; the stack is unchanged. |
| NestedRouter.Router.Rm | src/index.js:19 | `rm` is the registry rm with the joined stack as parent; the stack is unchanged. |
| NestedRouter.Router.Find | src/index.js:17 | `find` is `reduce` on the shared registry when the normalised retries are positive, and undefined otherwise. |
| NestedRouter.Router.Mount | src/index.js:9-16 | `mount` pushes, runs the callback, then pops. A thrown error propagates before the pop. |
| NestedRouter.Router.Apply | src/index.js:9-19 | One call on the router does what its specification says. |
| NestedRouter.Router.Run | src/index.js:14 | Running a callback's calls in order does what the callback specification says, stopping at the first error. |

## Left out

- `decodeURIComponent` is a parameter `decode`, which receives an undefined capture as None. Its URIError is not modelled.
- The priority that `PathMatcher.push`/`PathMatcher.sort` order child keys by is a parameter `rank`. The bodies of those two functions are not part of this model.
- `match.keys.length` (`src/utils.js:72`) is taken to be the number of keys of the segment's pattern. The `_length` field read at `src/utils.js:46` is unused and not modelled.
- The JavaScript regular-expression engine is replaced by token-level parsing. Expression compile errors other than the two this pattern syntax can produce are not modelled: a word character after `(` in a group, and a backslash before `:name`.
- The registry is a value, not a shared mutable object: the aliasing between `leaf`, `root` and the nodes of `routes` is not modelled. An in-place edit is a rebuilt tree.
- `refs` holds route keys and full paths in one JavaScript object. A route key equal to some full path would collide there; the model keeps the two maps apart.
- JavaScript property names such as `__proto__` or `constructor` used as segments are not modelled.
- Arbitrary spread fields of a route info are a map from string to string. A falsy key (`0`, `false`, null, missing) is the empty string.
- NestedRouter.Normalise: `retries` is a boolean, an integer or missing. NaN, strings and other values, which `retries || 1` would also accept, are not modelled.
- `mount` callbacks are lists of router calls (`Op`), not arbitrary code. An error a callback throws stops the run.
- Resolver.Find: the retry is modelled as a re-run of `reduce`. Since `reduce` writes nothing, the second attempt gives the same result as the first.
- `src/error.js` only formats a message. NotFound is a constructor carrying the route and the segment.
- `PathMatcher.push` is not modelled line by line. A new child's route is taken to be the path accumulated so far (`RouteOf` in `registry.dfy`), and an existing child's route is never updated.
- `PathMatcher.push` builds a segment's pattern when it creates the child. A segment whose pattern fails to compile during `add` creates no child: the add walk stops there with a SyntaxError, and the nodes made before it stay in the tree.
- JavaScript strings are sequences of UTF-16 code units; the model's strings are sequences of Unicode scalar values. For characters outside the Basic Multilingual Plane, `.`, `\w` and string indices therefore count differently.
- A route info's spread fields named `matches`, `params`, `route`, `path`, `fullpath` or `depth` would be overwritten by `reduce`; the model keeps the spread fields apart from those record fields.
- `test/main.test.js` targets a different revision of the code and is not part of this model.
