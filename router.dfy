/** The `Router` object: one registry shared by `add`, `rm` and `find`, and a
    stack of mount prefixes whose concatenation is the parent path of every
    `add` and `rm`. */
module NestedRouter {
  import opened Common
  import opened Registry
  import opened Resolver

  /** The `retries` argument of `find`: a boolean, a number, or missing. */
  datatype Retries = Flag(b: bool) | Count(n: int) | Missing

  /** `retries === true ? 2 : retries || 1` */
  function Normalise(r: Retries): (n: int)
    ensures r == Flag(true) ==> n == 2
    ensures r == Flag(false) || r == Count(0) || r == Missing ==> n == 1
    ensures r.Count? && r.n != 0 ==> n == r.n
  {
    match r
    case Flag(b) => if b then 2 else 1
    case Count(k) => if k == 0 then 1 else k
    case Missing => 1
  }

  /** What a mount callback does, in order: the router calls it can make. */
  datatype Op =
    | AddOp(path: string, info: RouteInfo)
    | RmOp(path: string)
    | FindOp(path: string, retries: Retries)
    | MountOp(prefix: string, body: seq<Op>)

  /** The router's state: the registry and the mount stack. */
  datatype Machine = Machine(routes: Tree, stack: seq<string>)

  /** `stack.pop()`: an empty stack stays empty. */
  function Pop(stack: seq<string>): (r: seq<string>)
    ensures stack != [] ==> stack == r + [stack[|stack| - 1]]
    ensures stack == [] ==> r == []
  {
    if stack == [] then [] else stack[..|stack| - 1]
  }

  /** `if (path !== '/') stack.push(path)` */
  function Push(stack: seq<string>, prefix: string): (r: seq<string>)
    ensures prefix == "/" ==> r == stack
    ensures prefix != "/" ==> r == stack + [prefix]
  {
    if prefix != "/" then stack + [prefix] else stack
  }

  // ---------------------------------------------------------------------------
  // the specification of a run
  // ---------------------------------------------------------------------------

  /** `mount(prefix, cb)`: push, run the callback, pop; an error thrown by the
      callback propagates before the pop. */
  function MountSpec(m: Machine, prefix: string, body: seq<Op>, rank: string -> int, decode: Option<string> -> string): (Machine, Option<Error>)
    requires RefsClosed(m.routes)
    decreases body, 1
  {
    var (after, e) := RunOps(m.(stack := Push(m.stack, prefix)), body, rank, decode);
    if e.Some? then (after, e) else (after.(stack := Pop(after.stack)), None)
  }

  /** One `add`, `rm` or `find` call: it leaves the stack alone and the refs closed. */
  function Call(m: Machine, op: Op, rank: string -> int, decode: Option<string> -> string): (r: (Machine, Option<Error>))
    requires RefsClosed(m.routes) && !op.MountOp?
    ensures r.0.stack == m.stack && RefsClosed(r.0.routes)
  {
    match op
    case AddOp(path, info) =>
      var o := Registry.Add(m.routes, path, Join(m.stack), info, rank);
      AddKeepsRefsClosed(m.routes, path, Join(m.stack), info, rank);
      (m.(routes := o.tree), if o.result.Err? then Some(o.result.error) else None)
    case RmOp(path) =>
      var o := Registry.Rm(m.routes, path, Join(m.stack), rank);
      RmKeepsRefsClosed(m.routes, path, Join(m.stack), rank);
      (m.(routes := o.tree), if o.result.Err? then Some(o.result.error) else None)
    case FindOp(path, retries) =>
      var res := ReduceSpec(m.routes, path, decode);
      (m, if Normalise(retries) > 0 && res.Err? then Some(res.error) else None)
  }

  /** The callback's calls, in order, up to the first that throws. */
  function RunOps(m: Machine, ops: seq<Op>, rank: string -> int, decode: Option<string> -> string): (r: (Machine, Option<Error>))
    requires RefsClosed(m.routes)
    ensures RefsClosed(r.0.routes)
    decreases ops, 0
  {
    if ops == [] then (m, None)
    else
      var (next, e) := Step(m, ops[0], rank, decode);
      if e.Some? then (next, e) else RunOps(next, ops[1..], rank, decode)
  }

  /** One call of a callback, of whichever kind. */
  function Step(m: Machine, op: Op, rank: string -> int, decode: Option<string> -> string): (r: (Machine, Option<Error>))
    requires RefsClosed(m.routes)
    ensures RefsClosed(r.0.routes)
    ensures !op.MountOp? ==> r.0.stack == m.stack
    decreases op, 3
  {
    if op.MountOp? then
      MountSpecClosed(m, op.prefix, op.body, rank, decode);
      MountSpec(m, op.prefix, op.body, rank, decode)
    else Call(m, op, rank, decode)
  }

  /** The run from call i on: call i, then the rest unless call i threw. */
  lemma RunOpsAt(m: Machine, ops: seq<Op>, i: nat, rank: string -> int, decode: Option<string> -> string)
    requires RefsClosed(m.routes) && i < |ops|
    ensures var (next, e) := Step(m, ops[i], rank, decode);
      RunOps(m, ops[i..], rank, decode) == if e.Some? then (next, e) else RunOps(next, ops[i + 1..], rank, decode)
  {
    assert ops[i..][0] == ops[i] && ops[i..][1..] == ops[i + 1..];
  }

  lemma MountSpecClosed(m: Machine, prefix: string, body: seq<Op>, rank: string -> int, decode: Option<string> -> string)
    requires RefsClosed(m.routes)
    ensures RefsClosed(MountSpec(m, prefix, body, rank, decode).0.routes)
    decreases body, 2
  {
    var _ := RunOps(m.(stack := Push(m.stack, prefix)), body, rank, decode);
  }

  /** No `mount('/')` anywhere in the callbacks. */
  predicate NoRootMount(ops: seq<Op>)
    decreases ops
  {
    forall i :: 0 <= i < |ops| ==> match ops[i]
      case MountOp(prefix, body) => prefix != "/" && NoRootMount(body)
      case _ => true
  }

  /** Without `mount('/')`, callbacks only ever leave prefixes on the stack: the old
      stack stays underneath, and when nothing throws the stack is as it was. */
  lemma {:induction false} RunKeepsStack(m: Machine, ops: seq<Op>, rank: string -> int, decode: Option<string> -> string)
    requires RefsClosed(m.routes) && NoRootMount(ops)
    ensures var (after, e) := RunOps(m, ops, rank, decode);
      |after.stack| >= |m.stack| && after.stack[..|m.stack|] == m.stack && (e.None? ==> after.stack == m.stack)
    decreases ops, 0
  {
    if ops != [] {
      NoRootMountSplit(ops);
      if ops[0].MountOp? {
        MountKeepsStack(m, ops[0].prefix, ops[0].body, rank, decode);
      }
      var (next, e) := Step(m, ops[0], rank, decode);
      if e.None? {
        RunKeepsStack(next, ops[1..], rank, decode);
      }
    }
  }

  lemma NoRootMountSplit(ops: seq<Op>)
    requires ops != [] && NoRootMount(ops)
    ensures NoRootMount(ops[1..])
    ensures ops[0].MountOp? ==> ops[0].prefix != "/" && NoRootMount(ops[0].body)
  {
    forall i | 0 <= i < |ops[1..]|
      ensures match ops[1..][i] case MountOp(p, b) => p != "/" && NoRootMount(b) case _ => true
    {
      assert ops[1..][i] == ops[i + 1];
    }
  }

  lemma {:induction false} MountKeepsStack(m: Machine, prefix: string, body: seq<Op>, rank: string -> int, decode: Option<string> -> string)
    requires RefsClosed(m.routes) && prefix != "/" && NoRootMount(body)
    ensures var (after, e) := MountSpec(m, prefix, body, rank, decode);
      && (e.None? ==> after.stack == m.stack)
      && (e.Some? ==> |after.stack| > |m.stack| && after.stack[..|m.stack| + 1] == m.stack + [prefix])
    decreases body, 1
  {
    var pushed := m.(stack := m.stack + [prefix]);
    RunKeepsStack(pushed, body, rank, decode);
    var (after, e) := RunOps(pushed, body, rank, decode);
    if e.None? {
      assert after.stack == m.stack + [prefix];
    }
  }

  /** `mount('/', cb)` pushes nothing and still pops: with a callback that leaves
      the stack alone, the enclosing prefix (if any) is removed. */
  lemma MountRootPops(m: Machine, body: seq<Op>, rank: string -> int, decode: Option<string> -> string)
    requires RefsClosed(m.routes) && NoRootMount(body)
    requires RunOps(m, body, rank, decode).1.None?
    ensures MountSpec(m, "/", body, rank, decode).0.stack == Pop(m.stack)
  {
    RunKeepsStack(m, body, rank, decode);
  }

  // ---------------------------------------------------------------------------
  // the router object
  // ---------------------------------------------------------------------------

  class Router {
    var routes: Tree
    var stack: seq<string>
    /** The priority `PathMatcher.sort` orders child segments by. */
    const rank: string -> int
    /** `decodeURIComponent`. */
    const decode: Option<string> -> string

    predicate Valid()
      reads this
    {
      RefsClosed(routes)
    }

    function State(): Machine
      reads this
    {
      Machine(routes, stack)
    }

    constructor(rank: string -> int, decode: Option<string> -> string)
      ensures Valid() && routes == Empty() && stack == []
      ensures this.rank == rank && this.decode == decode
    {
      this.rank := rank;
      this.decode := decode;
      routes := Empty();
      stack := [];
    }

    /** `add(path, routeInfo)`, under the concatenated mount prefixes. */
    method Add(path: string, info: RouteInfo) returns (r: Result<string>)
      requires Valid()
      modifies this
      ensures Valid() && stack == old(stack)
      ensures Outcome(routes, r) == Registry.Add(old(routes), path, Join(old(stack)), info, rank)
    {
      var o := Registry.Add(routes, path, Join(stack), info, rank);
      AddKeepsRefsClosed(routes, path, Join(stack), info, rank);
      routes := o.tree;
      r := o.result;
    }

    /** `rm(path)`, under the concatenated mount prefixes. */
    method Rm(path: string) returns (r: Result<()>)
      requires Valid()
      modifies this
      ensures Valid() && stack == old(stack)
      ensures Outcome(routes, r) == Registry.Rm(old(routes), path, Join(old(stack)), rank)
    {
      var o := Registry.Rm(routes, path, Join(stack), rank);
      RmKeepsRefsClosed(routes, path, Join(stack), rank);
      routes := o.tree;
      r := o.result;
    }

    /** `find(path, retries)`: None is `undefined`, returned when the normalised
      count is not positive; the registry is not touched. */
    method Find(path: string, retries: Retries) returns (r: Option<Result<seq<Record>>>)
      requires Valid()
      ensures Normalise(retries) > 0 ==> r == Some(ReduceSpec(routes, path, decode))
      ensures Normalise(retries) <= 0 ==> r.None?
    {
      var attempts;
      r, attempts := Resolver.Find(routes, path, Normalise(retries), decode);
    }

    /** `mount(prefix, cb)` with the callback's calls spelled out. */
    method Mount(prefix: string, body: seq<Op>) returns (e: Option<Error>)
      requires Valid()
      modifies this
      ensures Valid()
      ensures (State(), e) == MountSpec(old(State()), prefix, body, rank, decode)
      decreases body, 1
    {
      if prefix != "/" {
        stack := stack + [prefix];
      }
      e := Run(body);
      if e.None? {
        stack := Pop(stack);
      }
    }

    /** One call a callback makes; an error it throws is returned. */
    method Apply(op: Op) returns (e: Option<Error>)
      requires Valid()
      modifies this
      ensures Valid()
      ensures (State(), e) == Step(old(State()), op, rank, decode)
      decreases op, 3
    {
      match op {
        case AddOp(path, info) =>
          var r := Add(path, info);
          e := if r.Err? then Some(r.error) else None;
        case RmOp(path) =>
          var r := Rm(path);
          e := if r.Err? then Some(r.error) else None;
        case FindOp(path, retries) =>
          var r := Find(path, retries);
          e := if r.Some? && r.value.Err? then Some(r.value.error) else None;
        case MountOp(prefix, body) =>
          e := Mount(prefix, body);
      }
    }

    /** Runs a callback's calls in order, up to the first that throws. */
    method Run(ops: seq<Op>) returns (e: Option<Error>)
      requires Valid()
      modifies this
      ensures Valid()
      ensures (State(), e) == RunOps(old(State()), ops, rank, decode)
      decreases ops, 0
    {
      var i := 0;
      e := None;
      while i < |ops| && e.None?
        invariant 0 <= i <= |ops| && Valid()
        invariant e.None? ==> RunOps(old(State()), ops, rank, decode) == RunOps(State(), ops[i..], rank, decode)
        invariant e.Some? ==> RunOps(old(State()), ops, rank, decode) == (State(), e)
      {
        RunOpsAt(State(), ops, i, rank, decode);
        e := Apply(ops[i]);
        i := i + 1;
      }
    }
  }
}
