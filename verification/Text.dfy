/** The string operations of the JavaScript runtime that the modelled code uses. */
module Text {
  import opened Sequences

  datatype Option<+T> = None | Some(value: T)

  /** White space and line terminators: what `trim` removes and what `\s` matches. */
  predicate IsSpace(c: char) {
    || '\t' <= c <= '\r' || c == ' ' || c == '\U{A0}' || c == '\U{1680}'
    || '\U{2000}' <= c <= '\U{200A}' || c == '\U{2028}' || c == '\U{2029}'
    || c == '\U{202F}' || c == '\U{205F}' || c == '\U{3000}' || c == '\U{FEFF}'
  }

  /** There are 25 of them. */
  lemma SpacesListed(c: char)
    ensures IsSpace(c) <==> c as int in {
      0x09, 0x0A, 0x0B, 0x0C, 0x0D, 0x20, 0xA0, 0x1680, 0x2000, 0x2001, 0x2002, 0x2003, 0x2004, 0x2005, 0x2006,
      0x2007, 0x2008, 0x2009, 0x200A, 0x2028, 0x2029, 0x202F, 0x205F, 0x3000, 0xFEFF}
  {}

  predicate AllSpace(s: string) {
    forall i | 0 <= i < |s| :: IsSpace(s[i])
  }

  /** No white space at either end. */
  predicate Trimmed(s: string) {
    s == "" || (!IsSpace(s[0]) && !IsSpace(s[|s| - 1]))
  }

  /** The first character from `i` on that is no white space, or the length. */
  function FirstInk(s: string, i: nat): (k: nat)
    requires i <= |s|
    ensures i <= k <= |s| && (k < |s| ==> !IsSpace(s[k]))
    ensures forall j | i <= j < k :: IsSpace(s[j])
    decreases |s| - i
  {
    if i == |s| || !IsSpace(s[i]) then i else FirstInk(s, i + 1)
  }

  /** One past the last character before `n` that is no white space, or zero. */
  function LastInk(s: string, n: nat): (k: nat)
    requires n <= |s|
    ensures k <= n && (k > 0 ==> !IsSpace(s[k - 1]))
    ensures forall j | k <= j < n :: IsSpace(s[j])
  {
    if n == 0 || !IsSpace(s[n - 1]) then n else LastInk(s, n - 1)
  }

  function TrimStart(s: string): (r: string)
    ensures |r| <= |s| && r == s[|s| - |r|..] && AllSpace(s[..|s| - |r|])
    ensures r != "" ==> !IsSpace(r[0])
  {
    s[FirstInk(s, 0)..]
  }

  function TrimEnd(s: string): (r: string)
    ensures |r| <= |s| && r == s[..|r|] && AllSpace(s[|r|..])
    ensures r != "" ==> !IsSpace(r[|r| - 1])
  {
    s[..LastInk(s, |s|)]
  }

  function Trim(s: string): (r: string)
    ensures Trimmed(r)
  {
    var rest := TrimStart(s);
    var r := TrimEnd(rest);
    assert r != "" ==> r[0] == rest[0];
    r
  }

  /** `normalizeOptionalString`: the trimmed text, or nothing when that is empty. */
  function NormalizeOptional(s: Option<string>): Option<string> {
    if s.None? || Trim(s.value) == "" then None else Some(Trim(s.value))
  }

  /** A text is its trimmed core between two stretches of white space. */
  lemma TrimSplits(s: string) returns (before: string, after: string)
    ensures AllSpace(before) && AllSpace(after)
    ensures s == before + Trim(s) + after
  {
    hide IsSpace, AllSpace, TrimStart, TrimEnd;
    var rest := TrimStart(s);
    var core := TrimEnd(rest);
    before, after := s[..|s| - |rest|], rest[|core|..];
    ThreeParts(s, rest, core);
  }

  lemma TrimStartOf(before: string, rest: string)
    requires AllSpace(before) && (rest == "" || !IsSpace(rest[0]))
    ensures TrimStart(before + rest) == rest
  {
    hide IsSpace;
    var s := before + rest;
    var k := FirstInk(s, 0);
    assert forall i | 0 <= i < |before| :: s[i] == before[i];
    assert rest != "" ==> s[|before|] == rest[0];
    assert k == |before|;
  }

  lemma TrimEndOf(rest: string, after: string)
    requires AllSpace(after) && (rest == "" || !IsSpace(rest[|rest| - 1]))
    ensures TrimEnd(rest + after) == rest
  {
    hide IsSpace;
    var s := rest + after;
    var k := LastInk(s, |s|);
    assert forall i | |rest| <= i < |s| :: s[i] == after[i - |rest|];
    assert rest != "" ==> s[|rest| - 1] == rest[|rest| - 1];
    assert k == |rest|;
  }

  lemma TrimOfSpace(s: string)
    requires AllSpace(s)
    ensures Trim(s) == ""
  {
    TrimStartOf(s, "");
    assert s + "" == s;
  }

  /** Only the core of a padded text survives trimming. */
  lemma TrimPadded(before: string, core: string, after: string)
    requires AllSpace(before) && AllSpace(after) && Trimmed(core)
    ensures Trim(before + core + after) == core
  {
    if core == "" {
      TrimOfSpace(before + core + after);
    } else {
      TrimPaddedCore(before, core, after);
    }
  }

  lemma TrimPaddedCore(before: string, core: string, after: string)
    requires core != "" && AllSpace(before) && AllSpace(after) && Trimmed(core)
    ensures Trim(before + core + after) == core
  {
    assert before + core + after == before + (core + after);
    TrimStartOf(before, core + after);
    TrimEndOf(core, after);
  }

  lemma NothingIsSpace()
    ensures AllSpace("")
  {}

  lemma TrimOfTrimmed(s: string)
    requires Trimmed(s)
    ensures Trim(s) == s
  {
    hide IsSpace, AllSpace, Trim, Trimmed;
    NothingIsSpace();
    TrimPadded("", s, "");
    assert "" + s + "" == s;
  }

  /** `pattern` occurs in `s` at index `i`. */
  predicate MatchAt(s: string, pattern: string, i: int) {
    0 <= i && i + |pattern| <= |s| && s[i..i + |pattern|] == pattern
  }

  ghost predicate Contains(s: string, pattern: string) {
    exists i :: MatchAt(s, pattern, i)
  }

  /** `s.indexOf(pattern, from)`. */
  function IndexOf(s: string, pattern: string, from: nat): (r: int)
    requires from <= |s|
    ensures r == -1 || (from <= r && MatchAt(s, pattern, r))
    ensures forall i | from <= i && (r == -1 || i < r) :: !MatchAt(s, pattern, i)
    decreases |s| - from
  {
    if MatchAt(s, pattern, from) then from
    else if from == |s| then -1
    else IndexOf(s, pattern, from + 1)
  }
}
