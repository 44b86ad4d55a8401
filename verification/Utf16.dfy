/** Cutting UTF-16 text so that no character is cut in half. */
module Utf16 {
  import opened Sequences
  import opened Text

  newtype Unit = u: int | 0 <= u < 0x1_0000

  predicate IsHighSurrogate(u: Unit) { 0xD800 <= u <= 0xDBFF }

  predicate IsLowSurrogate(u: Unit) { 0xDC00 <= u <= 0xDFFF }

  function Clamp(bound: int, len: nat): (r: nat)
    ensures r <= len
    ensures bound >= 0 ==> r == if bound <= len then bound else len
    ensures bound < 0 ==> r == if len + bound > 0 then len + bound else 0
  {
    if bound < 0 then (if len + bound > 0 then len + bound else 0) else if bound < len then bound else len
  }

  /** Is the position between the two halves of a pair? */
  predicate InsidePair(s: seq<Unit>, p: nat) {
    0 < p < |s| && IsHighSurrogate(s[p - 1]) && IsLowSurrogate(s[p])
  }

  /** The range that is asked for, its bounds in order. */
  function Range(len: nat, start: int, end: Option<int>): (r: (nat, nat))
    ensures r.0 <= r.1 <= len
  {
    var from, to := Clamp(start, len), if end.Some? then Clamp(end.value, len) else len;
    if to < from then (to, from) else (from, to)
  }

  /** The range has the units between the two bounds, in whichever order these are. A negative bound counts from the
      end, and a missing one is the end. */
  lemma RangeMeaning(len: nat, start: int, end: Option<int>, p: nat)
    requires p < len
    ensures var (from, to) := Range(len, start, end);
      var a := if start < 0 then len + start else start;
      var b := if end.None? then len else if end.value < 0 then len + end.value else end.value;
      from <= p < to <==> a <= p < b || b <= p < a
  {}

  /** The part of the range without half pairs at its ends. */
  function Slice(s: seq<Unit>, start: int, end: Option<int>): seq<Unit> {
    var (from, to) := Range(|s|, start, end);
    SliceWithoutHalves(s, from, to)
  }

  function SliceWithoutHalves(s: seq<Unit>, from: nat, to: nat): seq<Unit>
    requires from <= to <= |s|
  {
    var from' := if InsidePair(s, from) then from + 1 else from;
    var to' := if InsidePair(s, to) then to - 1 else to;
    if from' <= to' then s[from'..to'] else []
  }

  lemma BoundIsClamped(bound: int, len: nat)
    ensures Clamp(bound, len) == if bound < 0 then Max(len + bound, 0) else Min(bound, len)
  {}

  /** `sliceUtf16Safe`. */
  method SliceUtf16Safe(input: seq<Unit>, start: int, end: Option<int>) returns (r: seq<Unit>)
    ensures r == Slice(input, start, end)
  {
    hide IsHighSurrogate, IsLowSurrogate, Clamp, Max, Min;
    var len := |input|;
    BoundIsClamped(start, len);
    if end.Some? { BoundIsClamped(end.value, len); }
    var from := if start < 0 then Max(len + start, 0) else Min(start, len);
    var to := if end.None? then len else if end.value < 0 then Max(len + end.value, 0) else Min(end.value, len);
    if to < from {
      from, to := to, from;
    }
    r := WithoutHalves(input, from, to);
  }

  /** The adjustment of both bounds. */
  method WithoutHalves(input: seq<Unit>, start: nat, end: nat) returns (r: seq<Unit>)
    requires start <= end <= |input|
    ensures r == SliceWithoutHalves(input, start, end)
  {
    hide IsHighSurrogate, IsLowSurrogate;
    var from, to, len := start, end, |input|;
    if from > 0 && from < len {
      if IsLowSurrogate(input[from]) && IsHighSurrogate(input[from - 1]) {
        from := from + 1;
      }
    }
    if to > 0 && to < len {
      if IsHighSurrogate(input[to - 1]) && IsLowSurrogate(input[to]) {
        to := to - 1;
      }
    }
    return if from > to then [] else input[from..to];
  }

  function Max(a: int, b: int): int { if a > b then a else b }

  function Min(a: int, b: int): int { if a < b then a else b }

  /** `truncateUtf16Safe`. */
  function Truncate(s: seq<Unit>, maxLen: int): seq<Unit> {
    var limit := Max(0, maxLen);
    if |s| <= limit then s else Slice(s, 0, Some(limit))
  }

  // ---------------------------------------------------------------------------
  // Characters and their UTF-16 form (section 3.9 of the Unicode Standard)
  // ---------------------------------------------------------------------------

  newtype Scalar = c: int | 0 <= c < 0xD800 || 0xE000 <= c < 0x11_0000

  function EncodeOne(c: Scalar): (s: seq<Unit>) {
    if c < 0x1_0000 then [c as int as Unit]
    else
      var rest := c as int - 0x1_0000;
      [(0xD800 + rest / 0x400) as Unit, (0xDC00 + rest % 0x400) as Unit]
  }

  function Encode(cs: seq<Scalar>): seq<Unit> {
    if cs == [] then [] else EncodeOne(cs[0]) + Encode(cs[1..])
  }

  /** A unit that is half of a pair of which the other half is missing. */
  predicate IsLone(s: seq<Unit>, i: nat)
    requires i < |s|
  {
    || (IsHighSurrogate(s[i]) && !(i + 1 < |s| && IsLowSurrogate(s[i + 1])))
    || (IsLowSurrogate(s[i]) && !(i > 0 && IsHighSurrogate(s[i - 1])))
  }

  ghost predicate IsWellFormed(s: seq<Unit>) {
    forall i: nat | i < |s| :: !IsLone(s, i)
  }

  lemma EncodeOneMeaning(c: Scalar)
    ensures var s := EncodeOne(c);
      if |s| == 1 then !IsHighSurrogate(s[0]) && !IsLowSurrogate(s[0])
      else |s| == 2 && IsHighSurrogate(s[0]) && IsLowSurrogate(s[1])
    ensures var s := EncodeOne(c);
      c as int == if |s| == 1 then s[0] as int
                  else 0x1_0000 + (s[0] as int - 0xD800) * 0x400 + (s[1] as int - 0xDC00)
  {}

  lemma EncodeFirst(cs: seq<Scalar>)
    ensures Encode(cs) == if cs == [] then [] else EncodeOne(cs[0]) + Encode(cs[1..])
  {
    hide EncodeOne;
  }

  lemma {:induction false} EncodeConcat(a: seq<Scalar>, b: seq<Scalar>)
    ensures Encode(a + b) == Encode(a) + Encode(b)
  {
    hide Encode, EncodeOne;
    EncodeFirst(a);
    EncodeFirst(a + b);
    if a == [] {
      assert a + b == b;
    } else {
      TailOfConcat(a, b);
      EncodeConcat(a[1..], b);
    }
  }

  /** A sequence of units is well formed exactly when it encodes some characters. */
  lemma {:induction false} WellFormedExactlyWhenEncoded(s: seq<Unit>)
    ensures IsWellFormed(s) <==> exists cs :: Encode(cs) == s
  {
    if IsWellFormed(s) {
      var cs := Decoded(s);
      assert Encode(cs) == s;
    }
    if cs :| Encode(cs) == s {
      EncodedIsWellFormed(cs);
    }
  }

  lemma {:induction false} EncodedIsWellFormed(cs: seq<Scalar>)
    ensures IsWellFormed(Encode(cs))
  {
    hide EncodeOne;
    if cs != [] {
      EncodedIsWellFormed(cs[1..]);
      EncodeOneMeaning(cs[0]);
      WellFormedConcat(EncodeOne(cs[0]), Encode(cs[1..]));
    }
  }

  lemma WellFormedConcat(a: seq<Unit>, b: seq<Unit>)
    requires IsWellFormed(a) && IsWellFormed(b)
    ensures IsWellFormed(a + b)
  {
    var s := a + b;
    forall i: nat | i < |s|
      ensures !IsLone(s, i)
    {
      if i < |a| {
        assert !IsLone(a, i) && s[i] == a[i];
        if i + 1 < |a| { assert s[i + 1] == a[i + 1]; }
        if i > 0 { assert s[i - 1] == a[i - 1]; }
      } else {
        assert !IsLone(b, i - |a|) && s[i] == b[i - |a|];
        if i + 1 < |s| { assert s[i + 1] == b[i + 1 - |a|]; }
        if i > |a| { assert s[i - 1] == b[i - 1 - |a|]; }
      }
    }
  }

  function DecodePair(high: Unit, low: Unit): Scalar
    requires IsHighSurrogate(high) && IsLowSurrogate(low)
  {
    (0x1_0000 + (high as int - 0xD800) * 0x400 + (low as int - 0xDC00)) as Scalar
  }

  lemma PairIsEncoded(high: Unit, low: Unit)
    requires IsHighSurrogate(high) && IsLowSurrogate(low)
    ensures EncodeOne(DecodePair(high, low)) == [high, low]
  {}

  lemma WellFormedTail(s: seq<Unit>, n: nat)
    requires IsWellFormed(s) && s != [] && n == (if IsHighSurrogate(s[0]) then 2 else 1)
    ensures n <= |s| && IsWellFormed(s[n..])
    ensures if n == 2 then IsLowSurrogate(s[1]) else !IsLowSurrogate(s[0])
  {
    assert !IsLone(s, 0);
    forall i: nat | i < |s[n..]|
      ensures !IsLone(s[n..], i)
    {
      assert !IsLone(s, i + n);
      if i == 0 && n == 1 && n < |s| { assert !IsLone(s, 0); }
    }
  }

  /** The characters that a well-formed sequence encodes. */
  lemma {:induction false} Decoded(s: seq<Unit>) returns (cs: seq<Scalar>)
    requires IsWellFormed(s)
    ensures Encode(cs) == s
    decreases |s|
  {
    if s == [] {
      cs := [];
    } else {
      var n := if IsHighSurrogate(s[0]) then 2 else 1;
      WellFormedTail(s, n);
      var rest := Decoded(s[n..]);
      var c: Scalar;
      if n == 2 {
        c := DecodePair(s[0], s[1]);
        PairIsEncoded(s[0], s[1]);
      } else {
        c := s[0] as int as Scalar;
      }
      cs := [c] + rest;
      assert cs[1..] == rest && s == EncodeOne(c) + s[n..];
    }
  }

  // ---------------------------------------------------------------------------
  // What a slice is
  // ---------------------------------------------------------------------------

  /** A slice lies in the range, leaves out at most one unit at either end of it, and no unit in it has
      lost its other half. */
  lemma SliceLosesNoHalves(s: seq<Unit>, start: int, end: Option<int>) returns (at: nat)
    ensures var (from, to) := Range(|s|, start, end); var r := Slice(s, start, end);
      && (r != [] ==> from <= at <= from + 1 && to - 1 <= at + |r| <= to)
      && (r == [] ==> to - from <= 2 && at == 0)
      && at + |r| <= |s| && r == s[at..at + |r|]
      && forall i: nat | i < |r| :: IsLone(r, i) <==> IsLone(s, at + i)
  {
    hide Range, IsHighSurrogate, IsLowSurrogate, InsidePair;
    var (from, to) := Range(|s|, start, end);
    var from' := if InsidePair(s, from) then from + 1 else from;
    var to' := if InsidePair(s, to) then to - 1 else to;
    PairsDoNotTouch(s, from);
    at := 0;
    if from' < to' {
      at := from';
      EndsAreWhole(s, from);
      EndsAreWhole(s, to);
      LoneInside(s, from', to');
      assert Slice(s, start, end) == s[from'..to'];
    } else {
      assert Slice(s, start, end) == [];
    }
  }

  lemma PairsDoNotTouch(s: seq<Unit>, p: nat)
    ensures InsidePair(s, p) ==> 0 < p < |s| && !InsidePair(s, p + 1) && !InsidePair(s, p - 1)
    ensures p == 0 || p >= |s| ==> !InsidePair(s, p)
  {}

  lemma EndsAreWhole(s: seq<Unit>, p: nat)
    requires p <= |s|
    ensures InsidePair(s, p) ==> !InsidePair(s, p + 1) && !InsidePair(s, p - 1)
  {
    PairsDoNotTouch(s, p);
  }

  lemma LoneInside(s: seq<Unit>, from: nat, to: nat)
    requires from <= to <= |s| && !InsidePair(s, from) && !InsidePair(s, to)
    ensures forall i: nat | i < to - from :: IsLone(s[from..to], i) <==> IsLone(s, from + i)
  {
    hide IsHighSurrogate, IsLowSurrogate;
  }

  /** A slice of a well-formed sequence is well formed. */
  lemma SliceKeepsWellFormed(s: seq<Unit>, start: int, end: Option<int>)
    requires IsWellFormed(s)
    ensures IsWellFormed(Slice(s, start, end))
  {
    hide Slice, IsLone;
    var at := SliceLosesNoHalves(s, start, end);
  }

  /** A text that fits stays whole; another is cut to a prefix, one unit shorter if the cut would split a pair. */
  lemma TruncateMeaning(s: seq<Unit>, maxLen: int)
    ensures var limit := Max(0, maxLen); var r := Truncate(s, maxLen);
      if |s| <= limit then r == s
      else r <= s && |r| == (if InsidePair(s, limit) then limit - 1 else limit)
    ensures IsWellFormed(s) ==> IsWellFormed(Truncate(s, maxLen))
  {
    hide IsLone, IsHighSurrogate, IsLowSurrogate;
    if |s| > Max(0, maxLen) && IsWellFormed(s) {
      SliceKeepsWellFormed(s, 0, Some(Max(0, maxLen)));
    }
  }

  // ---------------------------------------------------------------------------
  // A slice of encoded text encodes a slice of the characters
  // ---------------------------------------------------------------------------

  function Width(cs: seq<Scalar>, i: nat): nat
    requires i <= |cs|
  {
    |Encode(cs[..i])|
  }

  lemma WidthStep(cs: seq<Scalar>, i: nat)
    requires i < |cs|
    ensures Width(cs, i + 1) == Width(cs, i) + |EncodeOne(cs[i])|
  {
    hide EncodeOne;
    assert cs[..i + 1] == cs[..i] + [cs[i]];
    EncodeConcat(cs[..i], [cs[i]]);
    assert [cs[i]][1..] == [];
  }

  lemma {:induction false} WidthGrows(cs: seq<Scalar>, i: nat, j: nat)
    requires i < j <= |cs|
    ensures Width(cs, i) < Width(cs, j)
  {
    hide Width, EncodeOne;
    WidthStep(cs, j - 1);
    EncodeOneMeaning(cs[j - 1]);
    if i < j - 1 { WidthGrows(cs, i, j - 1); }
  }

  /** The character that a position of the encoded text is before, or inside of. */
  lemma {:induction false} CharacterAt(cs: seq<Scalar>, p: nat) returns (i: nat)
    requires p <= |Encode(cs)|
    ensures i <= |cs|
    ensures if InsidePair(Encode(cs), p) then i < |cs| && Width(cs, i) == p - 1 && Width(cs, i + 1) == p + 1
            else Width(cs, i) == p
  {
    hide EncodeOne, IsHighSurrogate, IsLowSurrogate;
    i := 0;
    if p > 0 {
      var n := |EncodeOne(cs[0])|;
      EncodeOneMeaning(cs[0]);
      WidthStep(cs, 0);
      if p >= n {
        i := CharacterAt(cs[1..], p - n);
        FirstCharacter(cs, p);
        WidthOfTail(cs, i);
        i := i + 1;
        if i < |cs| { WidthOfTail(cs, i); }
      }
    }
  }

  lemma WidthOfTail(cs: seq<Scalar>, i: nat)
    requires cs != [] && i < |cs|
    ensures Width(cs, i + 1) == |EncodeOne(cs[0])| + Width(cs[1..], i)
  {
    hide EncodeOne;
    assert cs[..i + 1] == [cs[0]] + cs[1..][..i];
    EncodeConcat([cs[0]], cs[1..][..i]);
    assert [cs[0]][1..] == [];
  }

  lemma BehindWhole(a: seq<Unit>, b: seq<Unit>, p: nat)
    requires a != [] && !IsHighSurrogate(a[|a| - 1]) && |a| <= p <= |a| + |b|
    ensures InsidePair(a + b, p) == InsidePair(b, p - |a|)
  {
    hide IsHighSurrogate, IsLowSurrogate;
  }

  lemma FirstCharacter(cs: seq<Scalar>, p: nat)
    requires cs != [] && |EncodeOne(cs[0])| <= p <= |Encode(cs)|
    ensures InsidePair(Encode(cs), p) == InsidePair(Encode(cs[1..]), p - |EncodeOne(cs[0])|)
  {
    hide EncodeOne, InsidePair;
    EncodeOneMeaning(cs[0]);
    NotHighAndLow(EncodeOne(cs[0]));
    BehindWhole(EncodeOne(cs[0]), Encode(cs[1..]), p);
  }

  lemma NotHighAndLow(s: seq<Unit>)
    ensures |s| == 2 && IsLowSurrogate(s[1]) ==> !IsHighSurrogate(s[1])
  {}

  lemma EncodedSlice(cs: seq<Scalar>, i: nat, j: nat)
    requires i <= j <= |cs|
    ensures Width(cs, i) <= Width(cs, j) <= |Encode(cs)|
    ensures Encode(cs)[Width(cs, i)..Width(cs, j)] == Encode(cs[i..j])
  {
    assert cs == cs[..i] + cs[i..j] + cs[j..];
    EncodeConcat(cs[..i] + cs[i..j], cs[j..]);
    EncodeConcat(cs[..i], cs[i..j]);
    assert cs[..j] == cs[..i] + cs[i..j];
  }

  /** Does character number `k` lie wholly in the range? */
  predicate Inside(cs: seq<Scalar>, k: nat, from: nat, to: nat)
    requires k < |cs|
  {
    from <= Width(cs, k) && Width(cs, k + 1) <= to
  }

  /** A slice of encoded text encodes the characters that lie wholly in the range. */
  lemma SlicesCharacters(cs: seq<Scalar>, start: int, end: Option<int>) returns (i: nat, j: nat)
    ensures i <= j <= |cs|
    ensures Slice(Encode(cs), start, end) == Encode(cs[i..j])
    ensures var (from, to) := Range(|Encode(cs)|, start, end);
      forall k: nat | k < |cs| :: Inside(cs, k, from, to) <==> i <= k < j
  {
    hide Range, InsidePair, Encode, Width;
    var s := Encode(cs);
    var (from, to) := Range(|s|, start, end);
    i := CharacterAt(cs, from);
    j := CharacterAt(cs, to);
    if InsidePair(s, from) { i := i + 1; }
    if i > j {
      WidthGrows(cs, j, i);
      assert Slice(s, start, end) == [];
    } else {
      EncodedSlice(cs, i, j);
      if i < j { WidthGrows(cs, i, j); }
    }
    var low, high := i, j;
    forall k: nat | k < |cs|
      ensures Inside(cs, k, from, to) <==> low <= k < high
    {
      Bounds(cs, k, low, high, from, to);
    }
    if i > j { i, j := 0, 0; NothingEncoded(cs); }
  }

  lemma NothingEncoded(cs: seq<Scalar>)
    ensures Encode(cs[0..0]) == []
  {}

  /** Comparing widths is comparing indices. */
  lemma Bounds(cs: seq<Scalar>, k: nat, low: nat, high: nat, from: nat, to: nat)
    requires k < |cs| && low <= |cs| && high <= |cs|
    requires Width(cs, low) == from || (low > 0 && Width(cs, low) == from + 1 && Width(cs, low - 1) == from - 1)
    requires Width(cs, high) == to || (high < |cs| && Width(cs, high) == to - 1 && Width(cs, high + 1) == to + 1)
    ensures from <= Width(cs, k) <==> low <= k
    ensures Width(cs, k + 1) <= to <==> k < high
  {
    hide Width;
    if low < k { WidthGrows(cs, low, k); }
    if k < low { WidthGrows(cs, k, low); }
    if low > 0 && k < low - 1 { WidthGrows(cs, k, low - 1); }
    if high < k + 1 { WidthGrows(cs, high, k + 1); }
    if k + 1 < high { WidthGrows(cs, k + 1, high); }
    if high + 1 < k + 1 && high < |cs| { WidthGrows(cs, high + 1, k + 1); }
  }
}
