/**
  The two facts about Rust strings the decoder relies on: `String::len`
  counts UTF-8 bytes, and `take_while` stops at (and consumes) the first
  character that fails its test.
 */
module Strings {

  /** Number of bytes the UTF-8 encoding of `c` takes. */
  function Utf8Width(c: char): (w: nat)
    ensures 1 <= w <= 4
    ensures w == 1 <==> c < '\U{80}'
  {
    if c < '\U{80}' then 1
    else if c < '\U{800}' then 2
    else if c < '\U{10000}' then 3
    else 4
  }

  /** `String::len`: the length of `s` in UTF-8 bytes. */
  function Utf8Len(s: string): (n: nat)
    ensures |s| <= n <= 4 * |s|
  {
    if s == [] then 0 else Utf8Width(s[0]) + Utf8Len(s[1..])
  }

  /**
    The index of the first `c` at or after `p`, or `|s|` when there is none:
    where a `take_while(|x| *x != c)` started at `p` stops.
   */
  function Find(s: string, p: nat, c: char): (k: nat)
    requires p <= |s|
    ensures p <= k <= |s|
    ensures k < |s| ==> s[k] == c
    ensures forall i :: p <= i < k ==> s[i] != c
    decreases |s| - p
  {
    if p == |s| || s[p] == c then p else Find(s, p + 1, c)
  }

  /** A position with no `c` between `p` and it, and a `c` or the end at it, is what `Find` gives. */
  lemma {:induction false} FindIs(s: string, p: nat, k: nat, c: char)
    requires p <= k <= |s|
    requires k < |s| ==> s[k] == c
    requires forall i :: p <= i < k ==> s[i] != c
    ensures Find(s, p, c) == k
  {
  }
}
