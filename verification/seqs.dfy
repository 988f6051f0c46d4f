/** Small sequence helpers shared by the table operations. */
module Seqs {

  /** The first `n` elements of `xs` (all of them when `n` is large, none when
      `n` is not positive): the "keep while size < n" loops of the source. */
  function Take<T>(xs: seq<T>, n: int): (r: seq<T>)
    ensures r <= xs
    ensures |r| == if n <= 0 then 0 else if n < |xs| then n else |xs|
  {
    if n <= 0 then [] else if n < |xs| then xs[..n] else xs
  }

  /** Appending one element and then taking `n` is the same as appending only
      while the kept prefix is still shorter than `n`. */
  lemma TakeSnoc<T>(xs: seq<T>, x: T, n: int)
    ensures Take(xs + [x], n) == if |Take(xs, n)| < n then Take(xs, n) + [x] else Take(xs, n)
  {
    if n > 0 && n < |xs| + 1 {
      assert (xs + [x])[..n] == xs[..n];
    }
  }

  /** String concatenation of all parts, in order. */
  function Concat(parts: seq<string>): (r: string)
    ensures |parts| == 0 ==> r == ""
  {
    if |parts| == 0 then "" else parts[0] + Concat(parts[1..])
  }

  lemma {:induction false} ConcatAppend(a: seq<string>, b: seq<string>)
    ensures Concat(a + b) == Concat(a) + Concat(b)
    decreases |a|
  {
    if |a| == 0 {
      assert a + b == b;
    } else {
      assert (a + b)[1..] == a[1..] + b;
      ConcatAppend(a[1..], b);
    }
  }

  /** `n` copies of `s` glued together (`n <= 0` gives the empty string). */
  function Repeat(s: string, n: int): (r: string)
  {
    if n <= 0 then "" else Repeat(s, n - 1) + s
  }

  /** Length of the longest inner sequence (0 for none). */
  function MaxLen<T>(xss: seq<seq<T>>): (m: nat)
    ensures forall i :: 0 <= i < |xss| ==> |xss[i]| <= m
    ensures |xss| == 0 ==> m == 0
    ensures |xss| > 0 ==> exists i :: 0 <= i < |xss| && |xss[i]| == m
  {
    if |xss| == 0 then 0
    else
      var rest := MaxLen(xss[1..]);
      assert forall i :: 1 <= i < |xss| ==> xss[i] == xss[1..][i - 1];
      if |xss[0]| >= rest then |xss[0]| else rest
  }

  /** The largest number of `xs` (0 when there is none). */
  function Max(xs: seq<nat>): (m: nat)
    ensures forall i :: 0 <= i < |xs| ==> xs[i] <= m
    ensures |xs| == 0 ==> m == 0
    ensures |xs| > 0 ==> exists i :: 0 <= i < |xs| && xs[i] == m
  {
    if |xs| == 0 then 0
    else
      var rest := Max(xs[1..]);
      assert forall i :: 1 <= i < |xs| ==> xs[i] == xs[1..][i - 1];
      if xs[0] >= rest then xs[0] else rest
  }

  function Sum(xs: seq<nat>): (r: nat)
  {
    if |xs| == 0 then 0 else xs[0] + Sum(xs[1..])
  }
}
