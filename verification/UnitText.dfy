/** Text as JavaScript counts it: sequences of UTF-16 units. */
module UnitText {
  import Text
  import opened Utf16

  type Units = seq<Unit>

  /** White space is never half of a pair. */
  predicate IsSpace(u: Unit) {
    !IsHighSurrogate(u) && !IsLowSurrogate(u) && Text.IsSpace(u as int as char)
  }

  predicate AllSpace(s: Units) {
    forall i | 0 <= i < |s| :: IsSpace(s[i])
  }

  /** The first unit from `i` on that is no white space, or the length. */
  function FirstInk(s: Units, i: nat): (k: nat)
    requires i <= |s|
    ensures i <= k <= |s| && (k < |s| ==> !IsSpace(s[k]))
    ensures forall j | i <= j < k :: IsSpace(s[j])
    decreases |s| - i
  {
    if i == |s| || !IsSpace(s[i]) then i else FirstInk(s, i + 1)
  }

  /** One past the last unit before `n` that is no white space, or zero. */
  function LastInk(s: Units, n: nat): (k: nat)
    requires n <= |s|
    ensures k <= n && (k > 0 ==> !IsSpace(s[k - 1]))
    ensures forall j | k <= j < n :: IsSpace(s[j])
  {
    if n == 0 || !IsSpace(s[n - 1]) then n else LastInk(s, n - 1)
  }

  function TrimStart(s: Units): (r: Units)
    ensures |r| <= |s| && r == s[|s| - |r|..] && AllSpace(s[..|s| - |r|])
    ensures r != [] ==> !IsSpace(r[0])
  {
    s[FirstInk(s, 0)..]
  }

  function TrimEnd(s: Units): (r: Units)
    ensures |r| <= |s| && r == s[..|r|] && AllSpace(s[|r|..])
    ensures r != [] ==> !IsSpace(r[|r| - 1])
  {
    s[..LastInk(s, |s|)]
  }

  lemma TrimEndOfSpace(s: Units)
    requires AllSpace(s)
    ensures TrimEnd(s) == []
  {}
}
