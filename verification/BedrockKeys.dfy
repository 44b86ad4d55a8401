/** The part of the Bedrock cache key that is normalised: the provider filter. */
module BedrockKeys {
  import opened Text

  /** The order of `toSorted`, character by character. */
  predicate Less(a: string, b: string) {
    b != "" && (a == "" || a[0] < b[0] || (a[0] == b[0] && Less(a[1..], b[1..])))
  }

  /** The texts agree before place `i`, and there the first one ends or has the smaller character. */
  predicate LessFrom(a: string, b: string, i: nat) {
    i <= |a| && i < |b| && a[..i] == b[..i] && (i == |a| || a[i] < b[i])
  }

  lemma {:induction false} LessMeaning(a: string, b: string)
    ensures Less(a, b) <==> exists i: nat :: LessFrom(a, b, i)
  {
    if a == "" || b == "" || a[0] != b[0] {
      assert LessFrom(a, b, 0) <==> Less(a, b);
      assert forall i: nat | i > 0 && LessFrom(a, b, i) :: a[..i][0] == a[0] && b[..i][0] == b[0];
    } else {
      LessMeaning(a[1..], b[1..]);
      forall i: nat
        ensures LessFrom(a[1..], b[1..], i) <==> LessFrom(a, b, i + 1)
      {
        LessFromTail(a, b, i);
      }
      if i: nat :| LessFrom(a, b, i) { assert LessFrom(a[1..], b[1..], i - 1); }
    }
  }

  lemma LessFromTail(a: string, b: string, i: nat)
    requires a != "" && b != "" && a[0] == b[0]
    ensures LessFrom(a[1..], b[1..], i) <==> LessFrom(a, b, i + 1)
  {
    if i + 1 <= |a| && i + 1 <= |b| {
      assert a[..i + 1] == [a[0]] + a[1..][..i] && b[..i + 1] == [b[0]] + b[1..][..i];
      assert a[..i + 1][1..] == a[1..][..i] && b[..i + 1][1..] == b[1..][..i];
    }
  }

  lemma {:induction false} LessIsTotal(a: string, b: string)
    ensures !(Less(a, b) && Less(b, a)) && !Less(a, a)
    ensures Less(a, b) || Less(b, a) || a == b
  {
    if a != "" {
      LessIsTotal(a[1..], if b == "" then "" else b[1..]);
      if b != "" {
        assert a == [a[0]] + a[1..] && b == [b[0]] + b[1..];
      }
    }
  }

  lemma {:induction false} LessIsTransitive(a: string, b: string, c: string)
    requires Less(a, b) && Less(b, c)
    ensures Less(a, c)
  {
    if a != "" && a[0] == b[0] == c[0] {
      LessIsTransitive(a[1..], b[1..], c[1..]);
    }
  }

  /** Sorted without duplicates. */
  predicate IsSorted(s: seq<string>) {
    |s| >= 2 ==> Less(s[0], s[1]) && IsSorted(s[1..])
  }

  /** Puts `x` where it belongs, unless it is there already. */
  function Insert(x: string, s: seq<string>): seq<string> {
    if s == [] then [x]
    else if x == s[0] then s
    else if Less(x, s[0]) then [x] + s
    else [s[0]] + Insert(x, s[1..])
  }

  /** The entries that count, trimmed and in lower case. */
  function Entries(filter: seq<string>, lower: string -> string): seq<string> {
    if filter == [] then [] else
    var entry := Trim(filter[0]);
    (if entry == "" || lower(entry) == "" then [] else [lower(entry)]) + Entries(filter[1..], lower)
  }

  function SortDistinct(s: seq<string>): seq<string> {
    if s == [] then [] else Insert(s[0], SortDistinct(s[1..]))
  }

  /** `normalizeProviderFilter`; a missing filter is an empty one. */
  function NormalizeProviderFilter(filter: seq<string>, lower: string -> string): seq<string> {
    SortDistinct(Entries(filter, lower))
  }

  lemma {:induction false} InsertKeeps(x: string, s: seq<string>)
    requires IsSorted(s)
    ensures IsSorted(Insert(x, s))
    ensures forall y :: y in Insert(x, s) <==> y == x || y in s
  {
    if s != [] && x != s[0] && !Less(x, s[0]) {
      LessIsTotal(x, s[0]);
      InsertKeeps(x, s[1..]);
      var rest := Insert(x, s[1..]);
      assert Insert(x, s)[1..] == rest;
      assert s == [s[0]] + s[1..];
    } else if s != [] && x != s[0] {
      assert Insert(x, s)[1..] == s;
    }
  }

  lemma {:induction false} SortDistinctKeeps(s: seq<string>)
    ensures IsSorted(SortDistinct(s))
    ensures forall y :: y in SortDistinct(s) <==> y in s
  {
    if s != [] {
      SortDistinctKeeps(s[1..]);
      InsertKeeps(s[0], SortDistinct(s[1..]));
      assert s == [s[0]] + s[1..];
    }
  }

  lemma {:induction false} HeadIsLeast(s: seq<string>, x: string)
    requires IsSorted(s) && s != [] && x in s[1..]
    ensures Less(s[0], x)
  {
    if x != s[1] {
      assert s[1..] == [s[1]] + s[1..][1..];
      HeadIsLeast(s[1..], x);
      LessIsTransitive(s[0], s[1], x);
    }
  }

  /** A set has only one sorted list. */
  lemma {:induction false} SortedIsUnique(a: seq<string>, b: seq<string>)
    requires IsSorted(a) && IsSorted(b) && forall x :: x in a <==> x in b
    ensures a == b
  {
    assert a != [] ==> a[0] in a;
    assert b != [] ==> b[0] in b;
    if a != [] && b != [] {
      assert a == [a[0]] + a[1..] && b == [b[0]] + b[1..];
      assert a[0] in b && b[0] in a;
      if a[0] != b[0] {
        HeadIsLeast(a, b[0]);
        HeadIsLeast(b, a[0]);
        LessIsTotal(a[0], b[0]);
        assert false;
      }
      forall x
        ensures x in a[1..] <==> x in b[1..]
      {
        LessIsTotal(a[0], x);
        assert x in a <==> x == a[0] || x in a[1..];
        assert x in b <==> x == b[0] || x in b[1..];
        if x in a[1..] { HeadIsLeast(a, x); }
        if x in b[1..] { HeadIsLeast(b, x); }
      }
      SortedIsUnique(a[1..], b[1..]);
    }
  }

  /** Some entry of the filter names `provider`. */
  ghost predicate Names(filter: seq<string>, provider: string, lower: string -> string) {
    provider != "" && exists e <- filter :: Trim(e) != "" && lower(Trim(e)) == provider
  }

  lemma {:induction false} EntriesMeaning(filter: seq<string>, lower: string -> string)
    ensures forall y :: y in Entries(filter, lower) <==> Names(filter, y, lower)
  {
    if filter != [] {
      EntriesMeaning(filter[1..], lower);
      assert filter == [filter[0]] + filter[1..];
      forall y
        ensures y in Entries(filter, lower) <==> Names(filter, y, lower)
      {
        assert y in Entries(filter[1..], lower) <==> Names(filter[1..], y, lower);
      }
    }
  }

  lemma {:induction false} SortedEverywhere(s: seq<string>)
    requires IsSorted(s)
    ensures forall i, j | 0 <= i < j < |s| :: Less(s[i], s[j])
  {
    if s != [] {
      SortedEverywhere(s[1..]);
      forall j | 0 < j < |s|
        ensures Less(s[0], s[j])
      {
        assert s[1..][j - 1] == s[j];
        HeadIsLeast(s, s[j]);
      }
      assert forall i | 0 < i < |s| :: s[i] == s[1..][i - 1];
    }
  }

  /** The normalised filter lists the named providers in order, each once. */
  lemma NormalizedMeaning(filter: seq<string>, lower: string -> string)
    ensures var r := NormalizeProviderFilter(filter, lower);
      && (forall i, j | 0 <= i < j < |r| :: Less(r[i], r[j]))
      && (forall provider :: provider in r <==> Names(filter, provider, lower))
  {
    hide Less, Names;
    EntriesMeaning(filter, lower);
    SortDistinctKeeps(Entries(filter, lower));
    SortedEverywhere(NormalizeProviderFilter(filter, lower));
  }

  /** Two filters give the same part of the key exactly when they name the same providers,
      in whatever order, case, padding and number. */
  lemma SameProvidersSameKey(f: seq<string>, g: seq<string>, lower: string -> string)
    ensures NormalizeProviderFilter(f, lower) == NormalizeProviderFilter(g, lower)
       <==> forall provider :: Names(f, provider, lower) <==> Names(g, provider, lower)
  {
    hide Trim, Names;
    EntriesMeaning(f, lower);
    EntriesMeaning(g, lower);
    var a, b := NormalizeProviderFilter(f, lower), NormalizeProviderFilter(g, lower);
    SortDistinctKeeps(Entries(f, lower));
    SortDistinctKeeps(Entries(g, lower));
    if a == b {
      forall provider
        ensures Names(f, provider, lower) <==> Names(g, provider, lower)
      {
        assert provider in a <==> Names(f, provider, lower);
        assert provider in b <==> Names(g, provider, lower);
      }
    } else if forall provider :: Names(f, provider, lower) <==> Names(g, provider, lower) {
      SortedIsUnique(a, b);
    }
  }
}
