module Sequences {
  /** The first n elements, or all of them if there are fewer. */
  function Take<T>(xs: seq<T>, n: nat): seq<T> {
    if |xs| <= n then xs else xs[..n]
  }

  function NonEmpty(words: seq<string>): seq<string> {
    if words == [] then []
    else (if words[0] == "" then [] else [words[0]]) + NonEmpty(words[1..])
  }

  lemma TakeAppend<T>(a: seq<T>, b: seq<T>, n: nat)
    ensures Take(a + b, n) == Take(a, n) + Take(b, n - |Take(a, n)|)
  {}

  lemma TakeCons<T>(x: T, xs: seq<T>, n: nat)
    requires n > 0
    ensures Take([x] + xs, n) == [x] + Take(xs, n - 1)
  {}
}
