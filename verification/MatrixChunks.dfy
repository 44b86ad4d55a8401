/** Cutting outbound Matrix text into chunks of limited length. */
module MatrixChunks {
  import opened Sequences
  import opened Utf16
  import opened UnitText

  const NEWLINE: Unit := 0x0A
  const SPACE: Unit := 0x20

  predicate IsBreak(u: Unit) { u == NEWLINE || u == SPACE }

  lemma BreaksAreSpace(u: Unit)
    requires IsBreak(u)
    ensures IsSpace(u)
  {}

  /** `window.lastIndexOf`. */
  function LastIndexOf(window: Units, u: Unit): (r: int)
    ensures -1 <= r < |window| && (r >= 0 ==> window[r] == u)
    ensures forall i | r < i < |window| :: window[i] != u
  {
    if window == [] then -1
    else if window[|window| - 1] == u then |window| - 1
    else LastIndexOf(window[..|window| - 1], u)
  }

  /** Where a text that is too long is broken: at the last space or newline of the window, but not at
      its first character, or else at the end of the window. */
  function BreakAt(remaining: Units, limit: nat): (b: nat)
    requires 1 <= limit < |remaining|
    ensures 1 <= b <= limit
    ensures b < limit ==> remaining[b] == 0x0A || remaining[b] == 0x20
    ensures forall i | 0 < i < limit && (remaining[i] == 0x0A || remaining[i] == 0x20) :: i <= b < limit
  {
    var window := remaining[..limit];
    var newline, space := LastIndexOf(window, NEWLINE), LastIndexOf(window, SPACE);
    var splitAt := if newline > space then newline else space;
    assert forall i | 0 <= i < limit :: remaining[i] == window[i];
    if splitAt > 0 then splitAt else limit
  }

  /** The chunks of what remains. */
  function Rest(remaining: Units, limit: nat): seq<Units>
    requires limit >= 1
    decreases |remaining|
  {
    if remaining == [] then []
    else if |remaining| <= limit then [remaining]
    else
      var b := BreakAt(remaining, limit);
      [TrimEnd(remaining[..b])] + Rest(TrimStart(remaining[b..]), limit)
  }

  function Chunks(text: Units, limit: nat): seq<Units>
    requires limit >= 1
  {
    if text == [] then [[]] else Rest(text, limit)
  }

  /** `chunkTextForOutbound`. */
  method ChunkText(text: Units, limit: nat) returns (chunks: seq<Units>)
    requires limit >= 1
    ensures chunks == Chunks(text, limit)
  {
    hide Rest, BreakAt, TrimStart, TrimEnd;
    chunks := [];
    var remaining := text;
    RestEnds(text, limit);
    while |remaining| > limit
      invariant Rest(text, limit) == chunks + Rest(remaining, limit)
      decreases |remaining|
    {
      RestStep(chunks, remaining, limit);
      var breakAt := BreakAt(remaining, limit);
      chunks := chunks + [TrimEnd(remaining[..breakAt])];
      remaining := TrimStart(remaining[breakAt..]);
    }
    RestEnds(remaining, limit);
    if |remaining| > 0 || |text| == 0 {
      chunks := chunks + [remaining];
    }
  }

  lemma RestStep(before: seq<Units>, remaining: Units, limit: nat)
    requires 1 <= limit < |remaining|
    ensures var b := BreakAt(remaining, limit);
      before + Rest(remaining, limit)
        == before + [TrimEnd(remaining[..b])] + Rest(TrimStart(remaining[b..]), limit)
  {
    hide BreakAt, TrimStart, TrimEnd;
  }

  lemma RestEnds(remaining: Units, limit: nat)
    requires limit >= 1
    ensures [] + Rest(remaining, limit) == Rest(remaining, limit)
    ensures |remaining| <= limit ==> Rest(remaining, limit) == if remaining == [] then [] else [remaining]
  {}

  // ---------------------------------------------------------------------------
  // What the chunks are
  // ---------------------------------------------------------------------------

  /** The chunks with the text that stood after each of them. */
  ghost function Woven(chunks: seq<Units>, gaps: seq<Units>): Units
    requires |chunks| == |gaps|
  {
    if chunks == [] then [] else chunks[0] + gaps[0] + Woven(chunks[1..], gaps[1..])
  }

  ghost predicate AllGaps(gaps: seq<Units>) {
    forall gap <- gaps :: AllSpace(gap)
  }

  /** Where two chunks meet without white space between them, the first is as long as it may be and
      could not have been broken at a space or newline. */
  ghost predicate HardBreaksOnly(chunks: seq<Units>, gaps: seq<Units>, limit: nat)
    requires |chunks| == |gaps|
  {
    forall k | 0 <= k < |chunks| - 1 && gaps[k] == [] ::
      |chunks[k]| == limit && forall i | 0 < i < limit :: !IsBreak(chunks[k][i])
  }

  /** A chunk that is not the first is not empty. */
  ghost predicate NoneEmpty(chunks: seq<Units>) {
    forall c <- chunks :: c != []
  }

  lemma SpaceConcat(a: Units, b: Units)
    requires AllSpace(a) && AllSpace(b)
    ensures AllSpace(a + b)
  {
    hide IsSpace;
  }

  lemma Reassembled(remaining: Units, b: nat, chunk: Units, next: Units) returns (gap: Units)
    requires b <= |remaining| && |chunk| <= b && |next| <= |remaining| - b
    requires chunk == remaining[..b][..|chunk|] && next == remaining[b..][|remaining| - b - |next|..]
    ensures gap == remaining[..b][|chunk|..] + remaining[b..][..|remaining| - b - |next|]
    ensures remaining == chunk + gap + next
  {
    var head, tail := remaining[..b], remaining[b..];
    gap := head[|chunk|..] + tail[..|tail| - |next|];
    assert head == chunk + head[|chunk|..];
    assert tail == tail[..|tail| - |next|] + next;
    assert remaining == head + tail;
  }

  /** The cut of one chunk: what stands after it, up to the next one. */
  lemma OneCut(remaining: Units, limit: nat) returns (gap: Units)
    requires 1 <= limit < |remaining|
    ensures var b := BreakAt(remaining, limit);
      var chunk, next := TrimEnd(remaining[..b]), TrimStart(remaining[b..]);
      && AllSpace(gap) && remaining == chunk + gap + next
      && (gap == [] ==> |chunk| == limit && forall i | 0 < i < limit :: !IsBreak(chunk[i]))
  {
    hide BreakAt, TrimEnd, TrimStart, IsSpace, IsBreak, AllSpace;
    var b := BreakAt(remaining, limit);
    var head, tail := remaining[..b], remaining[b..];
    gap := Reassembled(remaining, b, TrimEnd(head), TrimStart(tail));
    SpaceConcat(head[|TrimEnd(head)|..], tail[..|tail| - |TrimStart(tail)|]);
    if gap == [] { HardCut(remaining, limit); }
  }

  lemma HardCut(remaining: Units, limit: nat)
    requires 1 <= limit < |remaining|
    requires var b := BreakAt(remaining, limit);
      TrimEnd(remaining[..b]) == remaining[..b] && TrimStart(remaining[b..]) == remaining[b..]
    ensures BreakAt(remaining, limit) == limit && forall i | 0 < i < limit :: !IsBreak(remaining[..limit][i])
  {
    hide BreakAt, TrimEnd, TrimStart, IsSpace, AllSpace;
    var b := BreakAt(remaining, limit);
    if b < limit { BreaksAreSpace(remaining[b]); }
    assert forall i | 0 <= i < limit :: remaining[..limit][i] == remaining[i];
  }

  /** A chunk of a text that starts with no white space is not empty. */
  lemma CutIsNotEmpty(remaining: Units, b: nat)
    requires 1 <= b <= |remaining| && !IsSpace(remaining[0])
    ensures TrimEnd(remaining[..b]) != []
  {
    hide IsSpace;
    if TrimEnd(remaining[..b]) == [] { NothingLeft(remaining[..b]); }
  }

  lemma NothingLeft(s: Units)
    requires s != [] && TrimEnd(s) == []
    ensures IsSpace(s[0])
  {
    assert s[0..] == s;
  }

  /** The chunks are the text, cut at white space that is dropped, or where there is none. */
  lemma {:induction false} RestMeaning(remaining: Units, limit: nat) returns (gaps: seq<Units>)
    requires limit >= 1
    ensures var chunks := Rest(remaining, limit);
      && |gaps| == |chunks| && remaining == Woven(chunks, gaps) && AllGaps(gaps)
      && HardBreaksOnly(chunks, gaps, limit)
    decreases |remaining|
  {
    hide AllSpace, IsSpace, IsBreak, BreakAt, TrimEnd, TrimStart;
    if remaining == [] {
      gaps := [];
    } else if |remaining| <= limit {
      gaps := [[]];
      NothingIsSpace();
      assert [remaining][1..] == [] && gaps[1..] == [];
    } else {
      hide Woven, AllGaps, HardBreaksOnly;
      var b := BreakAt(remaining, limit);
      var chunk, next := TrimEnd(remaining[..b]), TrimStart(remaining[b..]);
      var gap := OneCut(remaining, limit);
      var rest := RestMeaning(next, limit);
      gaps := [gap] + rest;
      WovenMeaning(chunk, gap, next, Rest(next, limit), rest, limit);
    }
  }

  lemma NothingIsSpace()
    ensures AllSpace([])
  {}

  lemma {:induction false} RestBounds(remaining: Units, limit: nat)
    requires limit >= 1
    ensures var chunks := Rest(remaining, limit);
      && (forall c <- chunks :: |c| <= limit)
      && (remaining != [] ==> chunks != [])
      && (remaining != [] && !IsSpace(remaining[0]) ==> NoneEmpty(chunks))
      && (chunks != [] ==> NoneEmpty(chunks[1..]))
    decreases |remaining|
  {
    hide IsSpace, IsBreak, BreakAt, TrimEnd, TrimStart;
    if |remaining| > limit {
      var b := BreakAt(remaining, limit);
      var chunk, next := TrimEnd(remaining[..b]), TrimStart(remaining[b..]);
      RestBounds(next, limit);
      if !IsSpace(remaining[0]) { CutIsNotEmpty(remaining, b); }
      assert Rest(remaining, limit)[1..] == Rest(next, limit);
      assert next != [] ==> NoneEmpty(Rest(next, limit));
    }
  }

  lemma WovenMeaning(chunk: Units, gap: Units, next: Units, chunks: seq<Units>, gaps: seq<Units>, limit: nat)
    requires |gaps| == |chunks| && next == Woven(chunks, gaps) && AllGaps(gaps) && HardBreaksOnly(chunks, gaps, limit)
    requires AllSpace(gap) && (gap == [] ==> |chunk| == limit && forall i | 0 < i < limit :: !IsBreak(chunk[i]))
    ensures var all, allGaps := [chunk] + chunks, [gap] + gaps;
      && Woven(all, allGaps) == chunk + gap + next && AllGaps(allGaps) && HardBreaksOnly(all, allGaps, limit)
  {
    hide AllSpace, IsBreak;
    var all, allGaps := [chunk] + chunks, [gap] + gaps;
    assert all[1..] == chunks && allGaps[1..] == gaps;
    forall k | 0 <= k < |all| - 1 && allGaps[k] == []
      ensures |all[k]| == limit && forall i | 0 < i < limit :: !IsBreak(all[k][i])
    {
      if k > 0 { assert all[k] == chunks[k - 1] && allGaps[k] == gaps[k - 1]; }
    }
  }

  /** Every chunk keeps the limit, only the first can be empty, and together, with the white space
      dropped between and after them, they are the text. */
  lemma ChunksMeaning(text: Units, limit: nat) returns (gaps: seq<Units>)
    requires limit >= 1
    ensures var chunks := Chunks(text, limit);
      && chunks != [] && |gaps| == |chunks| && text == Woven(chunks, gaps) && AllGaps(gaps)
      && HardBreaksOnly(chunks, gaps, limit)
      && (forall c <- chunks :: |c| <= limit)
      && NoneEmpty(chunks[1..])
      && (text != [] && !IsSpace(text[0]) ==> NoneEmpty(chunks))
  {
    hide Rest, IsSpace, IsBreak;
    if text == [] {
      gaps := [[]];
      assert gaps[1..] == [];
    } else {
      gaps := RestMeaning(text, limit);
      RestBounds(text, limit);
    }
  }

  /** The first chunk is empty exactly when the text is, or when all of it up to its first break is white space. */
  lemma FirstIsEmptyExactly(text: Units, limit: nat)
    requires limit >= 1
    ensures Chunks(text, limit) != []
    ensures Chunks(text, limit)[0] == []
       <==> text == [] || (|text| > limit && AllSpace(text[..BreakAt(text, limit)]))
  {
    hide IsSpace, BreakAt, TrimStart;
    if |text| > limit {
      var head := text[..BreakAt(text, limit)];
      if AllSpace(head) {
        TrimEndOfSpace(head);
      }
      if TrimEnd(head) == [] {
        assert head[0..] == head;
      }
    }
  }

  // ---------------------------------------------------------------------------
  // The chunks, told without the code
  // ---------------------------------------------------------------------------

  /** Where a window breaks: at its last space or newline past its first unit, or at its end if there is none. */
  predicate BreaksAt(remaining: Units, b: nat, limit: nat)
    requires limit < |remaining|
  {
    && 1 <= b <= limit
    && (b < limit ==> remaining[b] == 0x0A || remaining[b] == 0x20)
    && forall i | 0 < i < limit && (remaining[i] == 0x0A || remaining[i] == 0x20) :: i <= b < limit
  }

  /** One cut: a chunk without white space at its end, the white space around the break, and a rest that does not start
      with any. */
  ghost predicate IsCut(remaining: Units, chunk: Units, gap: Units, next: Units, limit: nat)
    requires limit < |remaining|
  {
    && remaining == chunk + gap + next && AllSpace(gap)
    && (chunk != [] ==> !IsSpace(chunk[|chunk| - 1]))
    && (next != [] ==> !IsSpace(next[0]))
    && exists b: nat :: BreaksAt(remaining, b, limit) && |chunk| <= b <= |chunk| + |gap|
  }

  /** A text within the limit is one chunk; a longer one is cut, and its rest is chunked. */
  ghost predicate AreChunks(chunks: seq<Units>, remaining: Units, limit: nat)
    decreases chunks
  {
    if |remaining| <= limit then chunks == if remaining == [] then [] else [remaining]
    else chunks != [] && exists gap, next ::
      IsCut(remaining, chunks[0], gap, next, limit) && AreChunks(chunks[1..], next, limit)
  }

  lemma BreakIsThere(remaining: Units, limit: nat, b: nat)
    requires 1 <= limit < |remaining|
    ensures BreaksAt(remaining, b, limit) <==> b == BreakAt(remaining, limit)
  {
    hide BreakAt;
  }

  lemma TrimStartOf(before: Units, rest: Units)
    requires AllSpace(before) && (rest != [] ==> !IsSpace(rest[0]))
    ensures TrimStart(before + rest) == rest
  {
    hide IsSpace;
    var s := before + rest;
    var k := FirstInk(s, 0);
    assert forall i | 0 <= i < |before| :: s[i] == before[i];
    assert rest != [] ==> s[|before|] == rest[0];
    assert k == |before|;
  }

  lemma TrimEndOf(rest: Units, after: Units)
    requires AllSpace(after) && (rest != [] ==> !IsSpace(rest[|rest| - 1]))
    ensures TrimEnd(rest + after) == rest
  {
    hide IsSpace;
    var s := rest + after;
    var k := LastInk(s, |s|);
    assert forall i | |rest| <= i < |s| :: s[i] == after[i - |rest|];
    assert rest != [] ==> s[|rest| - 1] == rest[|rest| - 1];
    assert k == |rest|;
  }

  lemma PartsOfSpace(gap: Units, n: nat)
    requires AllSpace(gap) && n <= |gap|
    ensures AllSpace(gap[..n]) && AllSpace(gap[n..])
  {
    hide IsSpace;
  }

  /** There is one cut, and it is the one that is made. */
  lemma CutExactly(remaining: Units, chunk: Units, next: Units, limit: nat)
    requires 1 <= limit < |remaining|
    ensures var b := BreakAt(remaining, limit);
      (exists gap :: IsCut(remaining, chunk, gap, next, limit))
        == (chunk == TrimEnd(remaining[..b]) && next == TrimStart(remaining[b..]))
  {
    hide BreakAt, TrimEnd, TrimStart, IsSpace, AllSpace, BreaksAt;
    var b := BreakAt(remaining, limit);
    BreakIsThere(remaining, limit, b);
    if gap :| IsCut(remaining, chunk, gap, next, limit) {
      CutIsMade(remaining, chunk, gap, next, limit);
    }
    if chunk == TrimEnd(remaining[..b]) && next == TrimStart(remaining[b..]) {
      var gap := OneCut(remaining, limit);
      EndsAreBare(remaining[..b], remaining[b..]);
      CutIsAround(remaining, b, chunk, gap, next);
      assert IsCut(remaining, chunk, gap, next, limit);
    }
  }

  lemma CutIsMade(remaining: Units, chunk: Units, gap: Units, next: Units, limit: nat)
    requires 1 <= limit < |remaining| && IsCut(remaining, chunk, gap, next, limit)
    ensures var b := BreakAt(remaining, limit); chunk == TrimEnd(remaining[..b]) && next == TrimStart(remaining[b..])
  {
    hide BreakAt, TrimEnd, TrimStart, IsSpace, AllSpace, BreaksAt;
    var b: nat :| BreaksAt(remaining, b, limit) && |chunk| <= b <= |chunk| + |gap|;
    BreakIsThere(remaining, limit, b);
    var n := b - |chunk|;
    PartsOfSpace(gap, n);
    assert remaining[..b] == chunk + gap[..n] && remaining[b..] == gap[n..] + next;
    TrimEndOf(chunk, gap[..n]);
    TrimStartOf(gap[n..], next);
  }

  lemma EndsAreBare(head: Units, tail: Units)
    ensures TrimEnd(head) != [] ==> !IsSpace(TrimEnd(head)[|TrimEnd(head)| - 1])
    ensures TrimStart(tail) != [] ==> !IsSpace(TrimStart(tail)[0])
  {}

  lemma CutIsAround(remaining: Units, b: nat, chunk: Units, gap: Units, next: Units)
    requires b <= |remaining| && remaining == chunk + gap + next
    requires chunk == TrimEnd(remaining[..b]) && next == TrimStart(remaining[b..])
    ensures |chunk| <= b <= |chunk| + |gap|
  {
    hide TrimEnd, TrimStart;
  }

  lemma ChunksStep(chunks: seq<Units>, remaining: Units, limit: nat)
    requires 1 <= limit < |remaining|
    ensures var b := BreakAt(remaining, limit);
      var next := TrimStart(remaining[b..]);
      AreChunks(chunks, remaining, limit)
        == (chunks != [] && chunks[0] == TrimEnd(remaining[..b]) && AreChunks(chunks[1..], next, limit))
  {
    hide BreakAt, TrimEnd, TrimStart, IsCut;
    if chunks != [] {
      var next := TrimStart(remaining[BreakAt(remaining, limit)..]);
      CutExactly(remaining, chunks[0], next, limit);
      if AreChunks(chunks, remaining, limit) {
        var gap, other :| IsCut(remaining, chunks[0], gap, other, limit) && AreChunks(chunks[1..], other, limit);
        CutExactly(remaining, chunks[0], other, limit);
      }
    }
  }

  lemma RestFirst(remaining: Units, limit: nat)
    requires 1 <= limit < |remaining|
    ensures var b := BreakAt(remaining, limit);
      var rest := Rest(remaining, limit);
      rest != [] && rest[0] == TrimEnd(remaining[..b]) && rest[1..] == Rest(TrimStart(remaining[b..]), limit)
  {
    hide BreakAt, TrimEnd, TrimStart;
  }

  lemma ShortChunks(chunks: seq<Units>, remaining: Units, limit: nat)
    requires 1 <= limit && |remaining| <= limit
    ensures AreChunks(chunks, remaining, limit) <==> chunks == Rest(remaining, limit)
  {}

  lemma {:induction false} RestExactly(chunks: seq<Units>, remaining: Units, limit: nat)
    requires limit >= 1
    ensures AreChunks(chunks, remaining, limit) <==> chunks == Rest(remaining, limit)
    decreases |remaining|
  {
    hide BreakAt, TrimEnd, TrimStart, AreChunks, Rest;
    if |remaining| <= limit {
      ShortChunks(chunks, remaining, limit);
    } else {
      ChunksStep(chunks, remaining, limit);
      RestFirst(remaining, limit);
      if chunks != [] {
        RestExactly(chunks[1..], TrimStart(remaining[BreakAt(remaining, limit)..]), limit);
        FirstAndRest(chunks, Rest(remaining, limit));
      }
    }
  }

  lemma FirstAndRest(a: seq<Units>, b: seq<Units>)
    requires a != [] && b != []
    ensures a == b <==> a[0] == b[0] && a[1..] == b[1..]
  {
    assert a == [a[0]] + a[1..] && b == [b[0]] + b[1..];
  }

  /** There is just one way to leave a text within the limit whole and to cut a longer one at the last space or newline
      of each window, with no white space left on either side of a cut: these chunks. */
  lemma ChunksExactly(chunks: seq<Units>, text: Units, limit: nat)
    requires limit >= 1
    ensures chunks == Chunks(text, limit) <==> if text == [] then chunks == [[]] else AreChunks(chunks, text, limit)
  {
    hide AreChunks, Rest;
    RestExactly(chunks, text, limit);
  }

  // ---------------------------------------------------------------------------
  // Without white space
  // ---------------------------------------------------------------------------

  function Ink(s: Units): Units {
    if s == [] then [] else (if IsSpace(s[0]) then [] else [s[0]]) + Ink(s[1..])
  }

  function Joined(chunks: seq<Units>): Units {
    if chunks == [] then [] else chunks[0] + Joined(chunks[1..])
  }

  lemma InkFirst(s: Units)
    ensures Ink(s) == if s == [] then [] else (if IsSpace(s[0]) then [] else [s[0]]) + Ink(s[1..])
  {
    hide IsSpace;
  }

  lemma {:induction false} InkConcat(a: Units, b: Units)
    ensures Ink(a + b) == Ink(a) + Ink(b)
  {
    hide Ink, IsSpace;
    InkFirst(a);
    InkFirst(a + b);
    if a == [] {
      assert a + b == b;
    } else {
      TailOfConcat(a, b);
      InkConcat(a[1..], b);
    }
  }

  lemma {:induction false} SpaceHasNoInk(s: Units)
    requires AllSpace(s)
    ensures Ink(s) == []
  {
    hide IsSpace;
    if s != [] { SpaceHasNoInk(s[1..]); }
  }

  lemma {:induction false} WovenInk(chunks: seq<Units>, gaps: seq<Units>)
    requires |chunks| == |gaps| && AllGaps(gaps)
    ensures Ink(Woven(chunks, gaps)) == Ink(Joined(chunks))
  {
    hide IsSpace, AllSpace, Ink;
    if chunks != [] {
      assert gaps == [gaps[0]] + gaps[1..];
      WovenInk(chunks[1..], gaps[1..]);
      InkConcat(chunks[0] + gaps[0], Woven(chunks[1..], gaps[1..]));
      InkConcat(chunks[0], gaps[0]);
      InkConcat(chunks[0], Joined(chunks[1..]));
      SpaceHasNoInk(gaps[0]);
    }
  }

  /** Nothing but white space gets lost. */
  lemma ChunksKeepTheInk(text: Units, limit: nat)
    requires limit >= 1
    ensures Ink(Joined(Chunks(text, limit))) == Ink(text)
  {
    hide Chunks, Ink, Joined, Woven, AllGaps, HardBreaksOnly;
    var gaps := ChunksMeaning(text, limit);
    WovenInk(Chunks(text, limit), gaps);
  }
}
