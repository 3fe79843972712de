/** Values shared by every part of the router model: optional values, results,
    the errors the router raises, and string helpers that mirror the JavaScript
    idioms the source relies on (`join('')`, `x || null`). */
module Common {

  datatype Option<+T> = None | Some(value: T)

  datatype Result<+T> = Ok(value: T) | Err(error: Error)

  /** The exceptions the core raises.
      NotFound carries the requested route and the segment where resolution stopped. */
  datatype Error =
    | NotFound(route: string, segment: string)
    | TypeError(reason: string)
    | SyntaxError(pattern: string)

  /** `parts.join('')` */
  function Join(parts: seq<string>): (r: string)
    ensures |r| == JoinLength(parts)
  {
    if parts == [] then "" else parts[0] + Join(parts[1..])
  }

  function JoinLength(parts: seq<string>): nat
  {
    if parts == [] then 0 else |parts[0]| + JoinLength(parts[1..])
  }

  lemma {:induction false} JoinAppend(a: seq<string>, b: seq<string>)
    ensures Join(a + b) == Join(a) + Join(b)
  {
    if a == [] {
      assert a + b == b;
    } else {
      assert (a + b)[1..] == a[1..] + b;
      JoinAppend(a[1..], b);
    }
  }

  /** `s || null`: the empty string is falsy. */
  function NonEmpty(s: string): (r: Option<string>)
    ensures r.None? <==> s == ""
    ensures r.Some? ==> r.value == s
  {
    if s == "" then None else Some(s)
  }
}
