/** Equations between slices of sequences, each on its own. */
module Sequences {

  lemma TailOfConcat<T>(a: seq<T>, b: seq<T>)
    requires a != []
    ensures (a + b)[0] == a[0] && (a + b)[1..] == a[1..] + b
  {}

  lemma FrontOfConcat<T>(a: seq<T>, b: seq<T>)
    requires b != []
    ensures var s := a + b; s[|s| - 1] == b[|b| - 1] && s[..|s| - 1] == a + b[..|b| - 1]
  {}

  lemma Associative<T>(a: seq<T>, b: seq<T>, c: seq<T>)
    ensures (a + b) + c == a + (b + c)
  {}

  lemma SplitAround<T>(s: seq<T>, i: nat)
    requires i < |s|
    ensures s == s[..i] + [s[i]] + s[i + 1..]
  {}

  lemma ThreeParts<T>(s: seq<T>, rest: seq<T>, core: seq<T>)
    requires |rest| <= |s| && rest == s[|s| - |rest|..] && |core| <= |rest| && core == rest[..|core|]
    ensures s == s[..|s| - |rest|] + core + rest[|core|..]
  {}
}
