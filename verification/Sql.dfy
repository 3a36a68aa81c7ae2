/** Numbered placeholders: what $n stands for in a statement sent with its arguments. */
module Sql {
  import opened Strings

  datatype Arg =
    | Text(text: string)
    | TextArray(items: seq<string>)
    | Number(n: int)
    | Json(document: string)
    | Instant(at: int)

  /** The argument bound to $n; None when no such argument is sent. */
  function Bound(args: seq<Arg>, n: nat): Option<Arg> {
    if 1 <= n <= |args| then Some(args[n - 1]) else None
  }

  /** 1, 2, ... n: the placeholders of a statement that uses each argument once, in order. */
  function OneTo(n: nat): seq<nat> {
    seq(n, i requires 0 <= i => i + 1)
  }
}
