/** The tagged tool-call sections that Kimi writes into text blocks, and the message rewriter
    that turns them into structured tool calls. */
module KimiToolCalls {
  import opened Text

  const SECTION_BEGIN := "<|tool_calls_section_begin|>"
  const SECTION_END := "<|tool_calls_section_end|>"
  const CALL_BEGIN := "<|tool_call_begin|>"
  const ARGUMENT_BEGIN := "<|tool_call_argument_begin|>"
  const CALL_END := "<|tool_call_end|>"

  /** What `JSON.parse` makes of an argument text. */
  datatype JsonOutcome<+A> = Malformed | NotAnObject | AnObject(arguments: A)

  datatype ToolCall<+A> = ToolCall(id: string, name: string, arguments: A)

  // ---------------------------------------------------------------------------
  // Markers
  // ---------------------------------------------------------------------------

  /** A marker opens with `<` and has no other `<`. */
  predicate IsMarker(m: string) {
    m != "" && m[0] == '<' && forall i | 1 <= i < |m| :: m[i] != '<'
  }

  lemma Markers()
    ensures IsMarker(SECTION_BEGIN) && IsMarker(SECTION_END)
    ensures IsMarker(CALL_BEGIN) && IsMarker(ARGUMENT_BEGIN) && IsMarker(CALL_END)
  {}

  /** No marker overlaps a later marker, nor a later copy of itself. */
  lemma MarkersDoNotOverlap(t: string, m: string, i: nat, m': string, j: nat)
    requires IsMarker(m) && IsMarker(m')
    requires MatchAt(t, m, i) && MatchAt(t, m', j) && i < j
    ensures i + |m| <= j
  {
    assert t[j] == t[j..j + |m'|][0] == '<';
    assert forall k | 0 <= k < |m| :: t[i + k] == t[i..i + |m|][k] == m[k];
  }

  // ---------------------------------------------------------------------------
  // The parser
  // ---------------------------------------------------------------------------

  predicate IsDigit(c: char) { '0' <= c <= '9' }

  /** Where the digits at the end of `s` start. */
  function DigitsStart(s: string): (n: nat)
    ensures n <= |s| && (forall i | n <= i < |s| :: IsDigit(s[i]))
    ensures n > 0 ==> !IsDigit(s[n - 1])
  {
    if s == "" || !IsDigit(s[|s| - 1]) then |s| else DigitsStart(s[..|s| - 1])
  }

  /** Drops a counter such as `:12` from the end of a tool-call id. */
  function StripCounter(value: string): string {
    var s := Trim(value);
    var n := DigitsStart(s);
    if 0 < n < |s| && s[n - 1] == ':' then s[..n - 1] else s
  }

  predicate AllDigits(s: string) {
    forall i | 0 <= i < |s| :: '0' <= s[i] <= '9'
  }

  /** `id` is `name` followed by a counter. */
  ghost predicate HasCounter(id: string, name: string) {
    exists counter :: counter != "" && AllDigits(counter) && id == name + ":" + counter
  }

  /** White space around the id and the counter, and nothing else, is dropped. */
  lemma StripCounterMeaning(value: string, name: string)
    ensures var id := Trim(value);
      StripCounter(value) == name <==> HasCounter(id, name) || (name == id && forall x :: !HasCounter(id, x))
  {
    hide Trim;
    var id := Trim(value);
    forall x | HasCounter(id, x)
      ensures StripCounter(value) == x
    {
      var counter :| counter != "" && AllDigits(counter) && id == x + ":" + counter;
      CounterStart(id, x, counter);
    }
    var n := DigitsStart(id);
    if 0 < n < |id| && id[n - 1] == ':' {
      assert id == id[..n - 1] + ":" + id[n..] && AllDigits(id[n..]);
      assert HasCounter(id, id[..n - 1]);
    }
  }

  lemma CounterStart(id: string, x: string, counter: string)
    requires counter != "" && AllDigits(counter) && id == x + ":" + counter
    ensures DigitsStart(id) == |x| + 1 && id[|x|] == ':' && id[..|x|] == x
  {
    assert id[|x|] == ':';
    assert id[|x| + 1..] == counter;
    assert forall i | |x| < i < |id| :: id[i] == id[|x| + 1..][i - |x| - 1];
    assert id[..|x|] == x;
  }

  /** `t` is framed by the two section markers. */
  predicate IsSection(t: string) {
    && MatchAt(t, SECTION_BEGIN, 0)
    && MatchAt(t, SECTION_END, |t| - |SECTION_END|)
  }

  /** The two section markers of a section do not share a character. */
  lemma SectionHasRoom(t: string)
    requires IsSection(t)
    ensures |SECTION_BEGIN| <= |t| - |SECTION_END|
  {
    Markers();
    if |t| > |SECTION_END| {
      MarkersDoNotOverlap(t, SECTION_BEGIN, 0, SECTION_END, |t| - |SECTION_END|);
    }
  }

  function EndIndex(t: string): nat
    requires IsSection(t)
  {
    |t| - |SECTION_END|
  }

  function SkipSpace(t: string, cursor: nat, end: nat): (r: nat)
    requires cursor <= end <= |t|
    ensures cursor <= r <= end && AllSpace(t[cursor..r])
    ensures r < end ==> !IsSpace(t[r])
    decreases end - cursor
  {
    if cursor < end && IsSpace(t[cursor]) then SkipSpace(t, cursor + 1, end) else cursor
  }

  /** The two texts of a call, and the cursor behind it. */
  datatype Cut = Cut(idText: string, argsText: string, next: nat)

  /** Finds the markers of the call that starts at `c` in a section that ends at `end`. */
  function CutAt(t: string, c: nat, end: nat, begin: string, middle: string, close: string): (r: Option<Cut>)
    ensures r.Some? ==> c + |begin| + |middle| + |close| <= r.value.next
    ensures r.Some? ==> r.value.next <= end + |close| && MatchAt(t, close, r.value.next - |close|)
  {
    if !MatchAt(t, begin, c) then None else
    var nameStart := c + |begin|;
    var argMarker := IndexOf(t, middle, nameStart);
    if argMarker == -1 || argMarker >= end then None else
    var argsStart := argMarker + |middle|;
    var callEnd := IndexOf(t, close, argsStart);
    if callEnd == -1 || callEnd > end then None else
    Some(Cut(t[nameStart..argMarker], t[argsStart..callEnd], callEnd + |close|))
  }

  function CutCall(t: string, c: nat): (r: Option<Cut>)
    requires IsSection(t)
    ensures r.Some? ==> c < r.value.next <= EndIndex(t)
  {
    var r := CutAt(t, c, EndIndex(t), CALL_BEGIN, ARGUMENT_BEGIN, CALL_END);
    if r.Some? then
      CallEndsInside(t, r.value.next - |CALL_END|);
      r
    else
      None
  }

  /** Reads the id, the name and the arguments of a call. */
  function ReadCall<A>(idText: string, argsText: string, json: string -> JsonOutcome<A>): Option<ToolCall<A>> {
    var rawId := Trim(idText);
    var parsedArgs := json(Trim(argsText));
    var name := StripCounter(rawId);
    if rawId == "" || !parsedArgs.AnObject? || name == "" then None
    else Some(ToolCall(rawId, name, parsedArgs.arguments))
  }

  /** The call that the two texts stand for. */
  ghost predicate Denotes<A>(idText: string, argsText: string, call: ToolCall<A>, json: string -> JsonOutcome<A>) {
    && call.id == Trim(idText) && call.id != "" && call.name != ""
    && (HasCounter(call.id, call.name) || (call.name == call.id && forall x :: !HasCounter(call.id, x)))
    && json(Trim(argsText)) == AnObject(call.arguments)
  }

  lemma ReadCallMeaning<A>(idText: string, argsText: string, call: ToolCall<A>, json: string -> JsonOutcome<A>)
    ensures ReadCall(idText, argsText, json) == Some(call) <==> Denotes(idText, argsText, call, json)
  {
    hide Trim, StripCounter, HasCounter;
    var rawId := Trim(idText);
    StripCounterMeaning(rawId, call.name);
    TrimOfTrimmed(rawId);
  }

  /** A call that closes before the section does leaves the closing marker untouched. */
  lemma CallEndsInside(t: string, callEnd: nat)
    requires IsSection(t) && MatchAt(t, CALL_END, callEnd) && callEnd <= EndIndex(t)
    ensures callEnd + |CALL_END| <= EndIndex(t)
  {
    Markers();
    var end := EndIndex(t);
    assert t[callEnd + 11] == t[callEnd..callEnd + |CALL_END|][11] == '_';
    assert t[end + 11] == t[end..end + |SECTION_END|][11] == 's';
    MarkersDoNotOverlap(t, CALL_END, callEnd, SECTION_END, end);
  }

  /** The calls from the cursor to the end of the section. */
  function ParseCalls<A>(t: string, cursor: nat, json: string -> JsonOutcome<A>): Option<seq<ToolCall<A>>>
    requires IsSection(t) && cursor <= EndIndex(t)
    decreases |t| - cursor
  {
    var c := SkipSpace(t, cursor, EndIndex(t));
    if c >= EndIndex(t) then Some([]) else
    var cut := CutCall(t, c);
    if cut.None? then None else
    var call := ReadCall(cut.value.idText, cut.value.argsText, json);
    if call.None? then None else
    var rest := ParseCalls(t, cut.value.next, json);
    if rest.None? then None else Some([call.value] + rest.value)
  }

  function Parse<A>(text: string, json: string -> JsonOutcome<A>): Option<seq<ToolCall<A>>> {
    var t := Trim(text);
    if !IsSection(t) then None else
    SectionHasRoom(t);
    var calls := ParseCalls(t, |SECTION_BEGIN|, json);
    if calls.None? || calls.value == [] then None else calls
  }

  /** The calls read so far, in front of the outcome for the rest of the section. */
  ghost function Prepend<A>(calls: seq<ToolCall<A>>, rest: Option<seq<ToolCall<A>>>): Option<seq<ToolCall<A>>> {
    if rest.None? then None else Some(calls + rest.value)
  }

  lemma PrependNothing<A>(rest: Option<seq<ToolCall<A>>>)
    ensures Prepend([], rest) == rest
  {
    if rest.Some? { assert [] + rest.value == rest.value; }
  }

  lemma PrependTwice<A>(calls: seq<ToolCall<A>>, more: seq<ToolCall<A>>, rest: Option<seq<ToolCall<A>>>)
    ensures Prepend(calls, Prepend(more, rest)) == Prepend(calls + more, rest)
  {
    if rest.Some? { assert calls + (more + rest.value) == calls + more + rest.value; }
  }

  lemma PrependToNothing<A>(t: string, calls: seq<ToolCall<A>>, json: string -> JsonOutcome<A>)
    requires IsSection(t)
    ensures Prepend(calls, ParseCalls(t, EndIndex(t), json)) == Some(calls)
    ensures Prepend(calls, Some([])) == Some(calls)
  {
    assert calls + [] == calls;
  }

  method SkipWhitespace(trimmed: string, start: nat, end: nat) returns (cursor: nat)
    requires start <= end <= |trimmed|
    ensures cursor == SkipSpace(trimmed, start, end)
  {
    cursor := start;
    while cursor < end && IsSpace(trimmed[cursor])
      invariant start <= cursor <= end
      invariant SkipSpace(trimmed, start, end) == SkipSpace(trimmed, cursor, end)
    {
      cursor := cursor + 1;
    }
  }

  /** The cursor loop. The cursor moves forward in every round and never passes the section end. */
  method ParseTaggedToolCalls<A>(text: string, json: string -> JsonOutcome<A>)
    returns (r: Option<seq<ToolCall<A>>>)
    ensures r == Parse(text, json)
  {
    hide CutCall, ReadCall, Trim, ParseCalls, MatchAt, SkipSpace;
    var trimmed := Trim(text);
    if !MatchAt(trimmed, SECTION_BEGIN, 0) || !MatchAt(trimmed, SECTION_END, |trimmed| - |SECTION_END|) {
      return None;
    }
    SectionHasRoom(trimmed);
    var cursor := |SECTION_BEGIN|;
    var sectionEnd := |trimmed| - |SECTION_END|;
    var toolCalls: seq<ToolCall<A>> := [];
    ghost var outcome := ParseCalls(trimmed, cursor, json);
    PrependNothing(outcome);
    while cursor < sectionEnd
      invariant cursor <= sectionEnd
      invariant outcome == Prepend(toolCalls, ParseCalls(trimmed, cursor, json))
      decreases sectionEnd - cursor
    {
      ParseCallsUnfold(trimmed, cursor, json);
      cursor := SkipWhitespace(trimmed, cursor, sectionEnd);
      if cursor >= sectionEnd {
        break;
      }
      var call, next := ParseOneCall(trimmed, cursor, json);
      if call.None? {
        return None;
      }
      PrependTwice(toolCalls, [call.value], ParseCalls(trimmed, next, json));
      toolCalls := toolCalls + [call.value];
      cursor := next;
    }
    PrependToNothing(trimmed, toolCalls, json);
    r := if |toolCalls| > 0 then Some(toolCalls) else None;
  }

  /** What one round of the loop adds to the outcome. */
  lemma ParseCallsUnfold<A>(t: string, i: nat, json: string -> JsonOutcome<A>)
    requires IsSection(t) && i <= EndIndex(t)
    ensures var c := SkipSpace(t, i, EndIndex(t));
      && (c == EndIndex(t) ==> ParseCalls(t, i, json) == Some([]))
      && (c < EndIndex(t) ==>
            var cut := CutCall(t, c);
            && (cut.None? ==> ParseCalls(t, i, json) == None)
            && (cut.Some? ==>
                  var call := ReadCall(cut.value.idText, cut.value.argsText, json);
                  && (call.None? ==> ParseCalls(t, i, json) == None)
                  && (call.Some? ==>
                        ParseCalls(t, i, json) == Prepend([call.value], ParseCalls(t, cut.value.next, json)))))
  {
    hide CutCall, ReadCall;
  }

  /** One round of the loop: everything from the opening marker of a call to behind its closing marker. */
  method ParseOneCall<A>(trimmed: string, cursor: nat, json: string -> JsonOutcome<A>)
    returns (call: Option<ToolCall<A>>, next: nat)
    requires IsSection(trimmed) && cursor < EndIndex(trimmed)
    ensures CutCall(trimmed, cursor).None? ==> call == None
    ensures var cut := CutCall(trimmed, cursor); cut.Some? ==>
      && call == ReadCall(cut.value.idText, cut.value.argsText, json)
      && (call.Some? ==> cursor < next == cut.value.next <= EndIndex(trimmed))
  {
    hide IndexOf, Trim, StripCounter, IsSpace;
    next := cursor;
    var sectionEnd := |trimmed| - |SECTION_END|;
    if !MatchAt(trimmed, CALL_BEGIN, cursor) {
      return None, next;
    }
    var nameStart := cursor + |CALL_BEGIN|;
    var argMarker := IndexOf(trimmed, ARGUMENT_BEGIN, nameStart);
    if argMarker == -1 || argMarker >= sectionEnd {
      return None, next;
    }
    var rawId := Trim(trimmed[nameStart..argMarker]);
    if rawId == "" {
      return None, next;
    }
    var argsStart := argMarker + |ARGUMENT_BEGIN|;
    var callEnd := IndexOf(trimmed, CALL_END, argsStart);
    if callEnd == -1 || callEnd > sectionEnd {
      return None, next;
    }
    var parsedArgs := json(Trim(trimmed[argsStart..callEnd]));
    if !parsedArgs.AnObject? {
      return None, next;
    }
    var name := StripCounter(rawId);
    if name == "" {
      return None, next;
    }
    call, next := Some(ToolCall(rawId, name, parsedArgs.arguments)), callEnd + |CALL_END|;
  }

  // ---------------------------------------------------------------------------
  // The matching printer
  // ---------------------------------------------------------------------------

  /** One call as it is written: the white space before it and its two texts. */
  datatype Piece = Piece(gap: string, idText: string, argsText: string)

  /** A call as it is written, for any three markers, with the text behind it. */
  function Written(p: Piece, begin: string, middle: string, close: string, behind: string): string {
    p.gap + (begin + (p.idText + (middle + (p.argsText + (close + behind)))))
  }

  function PrintCall(p: Piece, behind: string): string {
    Written(p, "<|tool_call_begin|>", "<|tool_call_argument_begin|>", "<|tool_call_end|>", behind)
  }

  function PrintCalls(ps: seq<Piece>, behind: string): string {
    if ps == [] then behind else PrintCall(ps[0], PrintCalls(ps[1..], behind))
  }

  function PrintSection(ps: seq<Piece>, lastGap: string): string {
    "<|tool_calls_section_begin|>" + PrintCalls(ps, lastGap + "<|tool_calls_section_end|>")
  }

  /** The texts do not contain the marker that ends them, and they read as a call. */
  ghost predicate Printable<A>(p: Piece, json: string -> JsonOutcome<A>) {
    && AllSpace(p.gap)
    && !Contains(p.idText, ARGUMENT_BEGIN)
    && !Contains(p.argsText, CALL_END)
    && ReadCall(p.idText, p.argsText, json).Some?
  }

  ghost predicate AllPrintable<A>(ps: seq<Piece>, json: string -> JsonOutcome<A>) {
    ps != [] ==> Printable(ps[0], json) && AllPrintable(ps[1..], json)
  }

  ghost function CallsOf<A>(ps: seq<Piece>, json: string -> JsonOutcome<A>): seq<ToolCall<A>>
    requires AllPrintable(ps, json)
  {
    if ps == [] then [] else [ReadCall(ps[0].idText, ps[0].argsText, json).value] + CallsOf(ps[1..], json)
  }

  /** The pieces are well printed and stand, one by one, for the calls. */
  ghost predicate Prints<A>(ps: seq<Piece>, calls: seq<ToolCall<A>>, json: string -> JsonOutcome<A>) {
    && |ps| == |calls|
    && forall i | 0 <= i < |ps| ::
         && AllSpace(ps[i].gap)
         && !Contains(ps[i].idText, "<|tool_call_argument_begin|>")
         && !Contains(ps[i].argsText, "<|tool_call_end|>")
         && Denotes(ps[i].idText, ps[i].argsText, calls[i], json)
  }

  lemma {:induction false} PrintsMeaning<A>(ps: seq<Piece>, calls: seq<ToolCall<A>>, json: string -> JsonOutcome<A>)
    ensures Prints(ps, calls, json) <==> AllPrintable(ps, json) && CallsOf(ps, json) == calls
  {
    hide ReadCall, Denotes, Contains, AllSpace;
    if ps == [] || calls == [] {
      assert ps != [] && AllPrintable(ps, json) ==> CallsOf(ps, json) != [];
    } else {
      PrintsMeaning(ps[1..], calls[1..], json);
      ReadCallMeaning(ps[0].idText, ps[0].argsText, calls[0], json);
      PrintsCons(ps, calls, json);
      if AllPrintable(ps, json) {
        assert calls == [calls[0]] + calls[1..];
        assert CallsOf(ps, json)[1..] == CallsOf(ps[1..], json);
      }
    }
  }

  lemma PrintsCons<A>(ps: seq<Piece>, calls: seq<ToolCall<A>>, json: string -> JsonOutcome<A>)
    requires ps != [] && calls != []
    ensures Prints(ps, calls, json)
       <==> && AllSpace(ps[0].gap) && !Contains(ps[0].idText, ARGUMENT_BEGIN)
            && !Contains(ps[0].argsText, CALL_END) && Denotes(ps[0].idText, ps[0].argsText, calls[0], json)
            && Prints(ps[1..], calls[1..], json)
  {
    hide Denotes, Contains, AllSpace;
    var qs, ds := ps[1..], calls[1..];
    assert forall i | 0 <= i < |qs| :: qs[i] == ps[i + 1];
    assert forall i | 0 <= i < |ds| :: ds[i] == calls[i + 1];
    assert forall i | 0 < i < |ps| :: ps[i] == qs[i - 1];
    assert forall i | 0 < i < |calls| :: calls[i] == ds[i - 1];
  }

  /** `text` is a printed section of at least one call, possibly with white space around it. */
  ghost predicate IsPrinting<A>(text: string, before: string, ps: seq<Piece>, lastGap: string, after: string,
                                calls: seq<ToolCall<A>>, json: string -> JsonOutcome<A>)
  {
    && AllSpace(before) && AllSpace(lastGap) && AllSpace(after)
    && ps != [] && Prints(ps, calls, json)
    && text == before + PrintSection(ps, lastGap) + after
  }

  // ---------------------------------------------------------------------------
  // Parsing undoes printing
  // ---------------------------------------------------------------------------

  lemma MatchInSlice(t: string, m: string, from: nat, k: nat, i: nat)
    requires from <= k <= |t| && i + |m| <= k - from
    ensures MatchAt(t[from..k], m, i) <==> MatchAt(t, m, from + i)
  {
    var x, y := t[from..k][i..i + |m|], t[from + i..from + i + |m|];
    assert forall j | 0 <= j < |m| :: x[j] == y[j];
  }

  /** The search for a marker stops at the first place where it is written. */
  lemma FirstMatch(t: string, m: string, from: nat, k: nat)
    requires IsMarker(m) && from <= k && MatchAt(t, m, k) && !Contains(t[from..k], m)
    ensures IndexOf(t, m, from) == k
  {
    var r := IndexOf(t, m, from);
    if r < k {
      MarkersDoNotOverlap(t, m, r, m, k);
      MatchInSlice(t, m, from, k, r - from);
    }
  }

  lemma {:induction false} SkipSpaceTo(t: string, cursor: nat, c: nat, end: nat)
    requires cursor <= c <= end <= |t| && AllSpace(t[cursor..c])
    requires c < end ==> !IsSpace(t[c])
    ensures SkipSpace(t, cursor, end) == c
    decreases c - cursor
  {
    if cursor < c {
      assert IsSpace(t[cursor..c][0]);
      assert t[cursor + 1..c] == t[cursor..c][1..];
      SkipSpaceTo(t, cursor + 1, c, end);
    }
  }

  /** Takes the first part off a suffix of a text. */
  lemma Peel(t: string, i: nat, x: string, y: string)
    requires i <= |t| && t[i..] == x + y
    ensures i + |x| <= |t| && t[i..i + |x|] == x && t[i + |x|..] == y
  {
    assert |t[i..]| == |x| + |y|;
    assert t[i..i + |x|] == t[i..][..|x|] == x;
    assert t[i + |x|..] == t[i..][|x|..] == y;
  }

  lemma MatchMeans(t: string, m: string, i: nat)
    ensures MatchAt(t, m, i) <==> i + |m| <= |t| && t[i..i + |m|] == m
  {}

  /** Where the parts of a written call stand in a text. */
  lemma WrittenParts(t: string, i: nat, p: Piece, begin: string, middle: string, close: string, behind: string)
    requires i <= |t| && t[i..] == Written(p, begin, middle, close, behind)
    ensures var c := i + |p.gap|; var n := c + |begin|; var a := n + |p.idText|; var m := a + |middle|;
      && m + |p.argsText| + |close| + |behind| == |t|
      && t[i..c] == p.gap && MatchAt(t, begin, c) && t[n..a] == p.idText && MatchAt(t, middle, a)
      && t[m..m + |p.argsText|] == p.argsText && MatchAt(t, close, m + |p.argsText|)
      && t[|t| - |behind|..] == behind
  {
    var c := i + |p.gap|;
    var n := c + |begin|;
    var a := n + |p.idText|;
    var m := a + |middle|;
    var e := m + |p.argsText|;
    var y5 := close + behind;
    var y4 := p.argsText + y5;
    var y3 := middle + y4;
    var y2 := p.idText + y3;
    Peel(t, i, p.gap, begin + y2);
    Peel(t, c, begin, y2);
    Peel(t, n, p.idText, y3);
    Peel(t, a, middle, y4);
    Peel(t, m, p.argsText, y5);
    Peel(t, e, close, behind);
    hide MatchAt;
    MatchMeans(t, begin, c);
    MatchMeans(t, middle, a);
    MatchMeans(t, close, e);
  }

  lemma CutFound(t: string, c: nat, a: nat, e: nat, end: nat, begin: string, middle: string, close: string)
    requires IsMarker(begin) && IsMarker(middle) && IsMarker(close)
    requires c + |begin| <= a && a + |middle| <= e <= end
    requires MatchAt(t, begin, c) && MatchAt(t, middle, a) && MatchAt(t, close, e)
    requires !Contains(t[c + |begin|..a], middle) && !Contains(t[a + |middle|..e], close)
    ensures CutAt(t, c, end, begin, middle, close)
         == Some(Cut(t[c + |begin|..a], t[a + |middle|..e], e + |close|))
  {
    hide Contains;
    FirstMatch(t, middle, c + |begin|, a);
    FirstMatch(t, close, a + |middle|, e);
  }

  /** The parser reads a printed call and moves behind it. */
  lemma PrintedCallIsRead(t: string, i: nat, p: Piece, behind: string)
    requires IsSection(t) && i <= |t| && t[i..] == PrintCall(p, behind) && |behind| >= |SECTION_END|
    requires AllSpace(p.gap) && !Contains(p.idText, ARGUMENT_BEGIN) && !Contains(p.argsText, CALL_END)
    ensures i + |p.gap| < EndIndex(t) && SkipSpace(t, i, EndIndex(t)) == i + |p.gap|
    ensures CutCall(t, i + |p.gap|) == Some(Cut(p.idText, p.argsText, |t| - |behind|))
    ensures t[|t| - |behind|..] == behind
  {
    hide CutAt, SkipSpace, AllSpace, Contains, IsSection, IsMarker, MatchAt, Written;
    WrittenParts(t, i, p, CALL_BEGIN, ARGUMENT_BEGIN, CALL_END, behind);
    var c := i + |p.gap|;
    var a := c + |CALL_BEGIN| + |p.idText|;
    var e := a + |ARGUMENT_BEGIN| + |p.argsText|;
    Markers();
    CutFound(t, c, a, e, EndIndex(t), CALL_BEGIN, ARGUMENT_BEGIN, CALL_END);
    CallBeginIsNoSpace(t, c);
    SkipSpaceTo(t, i, c, EndIndex(t));
  }

  lemma CallBeginIsNoSpace(t: string, c: nat)
    requires MatchAt(t, CALL_BEGIN, c)
    ensures c < |t| && !IsSpace(t[c])
  {
    assert t[c] == t[c..c + |CALL_BEGIN|][0] == '<';
  }

  /** `s` ends with `x`. */
  predicate EndsWith(s: string, x: string) {
    |x| <= |s| && s[|s| - |x|..] == x
  }

  lemma EndsWithTransitive(s: string, x: string, y: string)
    requires EndsWith(s, x) && EndsWith(x, y)
    ensures EndsWith(s, y)
  {
    assert s[|s| - |y|..] == s[|s| - |x|..][|x| - |y|..];
  }

  lemma PrintedCallEndsWith(p: Piece, behind: string)
    ensures EndsWith(PrintCall(p, behind), behind)
  {
    WrittenParts(PrintCall(p, behind), 0, p, CALL_BEGIN, ARGUMENT_BEGIN, CALL_END, behind);
  }

  lemma {:induction false} PrintedSuffix(ps: seq<Piece>, behind: string)
    ensures EndsWith(PrintCalls(ps, behind), behind)
  {
    if ps != [] {
      var rest := PrintCalls(ps[1..], behind);
      PrintedCallEndsWith(ps[0], rest);
      PrintedSuffix(ps[1..], behind);
      EndsWithTransitive(PrintCall(ps[0], rest), rest, behind);
    }
  }

  lemma ParseCallsStep<A>(t: string, i: nat, c: nat, cut: Cut, call: ToolCall<A>, calls: seq<ToolCall<A>>,
                          json: string -> JsonOutcome<A>)
    requires IsSection(t) && i <= EndIndex(t)
    requires SkipSpace(t, i, EndIndex(t)) == c < EndIndex(t) && CutCall(t, c) == Some(cut)
    requires ReadCall(cut.idText, cut.argsText, json) == Some(call)
    requires ParseCalls(t, cut.next, json) == Some(calls)
    ensures ParseCalls(t, i, json) == Some([call] + calls)
  {
    hide ReadCall, CutCall;
  }

  lemma {:induction false} PrintedCallsParse<A>(t: string, i: nat, ps: seq<Piece>, lastGap: string,
                                                json: string -> JsonOutcome<A>)
    requires IsSection(t) && i <= EndIndex(t) && t[i..] == PrintCalls(ps, lastGap + SECTION_END)
    requires AllSpace(lastGap) && AllPrintable(ps, json)
    ensures ParseCalls(t, i, json) == Some(CallsOf(ps, json))
    decreases |ps|
  {
    hide PrintCall, ReadCall, CutCall, ParseCalls, SkipSpace, AllSpace, IsSection, Contains, EndsWith;
    if ps == [] {
      PrintedGapParses(t, i, lastGap, json);
    } else {
      var p := ps[0];
      var behind := PrintCalls(ps[1..], lastGap + SECTION_END);
      PrintedSuffix(ps[1..], lastGap + SECTION_END);
      PrintedCallIsRead(t, i, p, behind);
      var next := |t| - |behind|;
      PrintedCallsParse(t, next, ps[1..], lastGap, json);
      ParseCallsStep(t, i, i + |p.gap|, Cut(p.idText, p.argsText, next), ReadCall(p.idText, p.argsText, json).value,
                     CallsOf(ps[1..], json), json);
    }
  }

  lemma PrintedGapParses<A>(t: string, i: nat, lastGap: string, json: string -> JsonOutcome<A>)
    requires IsSection(t) && i <= EndIndex(t) && t[i..] == lastGap + SECTION_END && AllSpace(lastGap)
    ensures ParseCalls(t, i, json) == Some([])
  {
    Peel(t, i, lastGap, SECTION_END);
    SkipSpaceTo(t, i, EndIndex(t), EndIndex(t));
  }

  /** Round trip: parsing a printed section gives back the printed calls, in order. */
  lemma ParsingUndoesPrinting<A>(text: string, before: string, ps: seq<Piece>, lastGap: string, after: string,
                                 calls: seq<ToolCall<A>>, json: string -> JsonOutcome<A>)
    requires IsPrinting(text, before, ps, lastGap, after, calls, json)
    ensures Parse(text, json) == Some(calls)
  {
    hide ParseCalls, PrintCalls, Trim, Trimmed, IsSection, Prints;
    PrintsMeaning(ps, calls, json);
    var t := PrintSection(ps, lastGap);
    PrintedIsSection(ps, lastGap);
    TrimPadded(before, t, after);
    Peel(t, 0, SECTION_BEGIN, PrintCalls(ps, lastGap + SECTION_END));
    SectionHasRoom(t);
    PrintedCallsParse(t, |SECTION_BEGIN|, ps, lastGap, json);
  }

  lemma PrintedIsSection(ps: seq<Piece>, lastGap: string)
    ensures IsSection(PrintSection(ps, lastGap)) && Trimmed(PrintSection(ps, lastGap))
  {
    var calls := PrintCalls(ps, lastGap + SECTION_END);
    PrintedSuffix(ps, lastGap + SECTION_END);
    FramedIsSection(calls, lastGap);
  }

  lemma FramedIsSection(calls: string, lastGap: string)
    requires EndsWith(calls, lastGap + SECTION_END)
    ensures IsSection(SECTION_BEGIN + calls) && Trimmed(SECTION_BEGIN + calls)
  {
    Framed(SECTION_BEGIN, calls, lastGap, SECTION_END);
    assert (SECTION_BEGIN + calls)[0] == '<' && !IsSpace('<') && !IsSpace('>');
  }

  lemma Framed(begin: string, calls: string, lastGap: string, close: string)
    requires EndsWith(calls, lastGap + close) && close != ""
    ensures MatchAt(begin + calls, begin, 0) && MatchAt(begin + calls, close, |begin + calls| - |close|)
    ensures (begin + calls)[|begin + calls| - 1] == close[|close| - 1]
  {
    EndsWithSecond(lastGap, close);
    EndsWithSecond(begin, calls);
    EndsWithTransitive(calls, lastGap + close, close);
    EndsWithTransitive(begin + calls, calls, close);
    LastOfSuffix(begin + calls, close);
  }

  lemma EndsWithSecond(x: string, y: string)
    ensures EndsWith(x + y, y)
  {}

  lemma LastOfSuffix(s: string, x: string)
    requires EndsWith(s, x) && x != ""
    ensures s[|s| - 1] == x[|x| - 1]
  {
    assert s[|s| - |x|..][|x| - 1] == s[|s| - 1];
  }

  // ---------------------------------------------------------------------------
  // Whatever parses was printed
  // ---------------------------------------------------------------------------

  lemma CutAtParts(t: string, c: nat, end: nat, begin: string, middle: string, close: string)
    returns (a: nat, e: nat)
    requires end <= |t| && middle != "" && close != ""
    requires CutAt(t, c, end, begin, middle, close).Some?
    ensures c + |begin| <= a && a + |middle| <= e <= end
    ensures MatchAt(t, begin, c) && MatchAt(t, middle, a) && MatchAt(t, close, e)
    ensures !Contains(t[c + |begin|..a], middle) && !Contains(t[a + |middle|..e], close)
    ensures CutAt(t, c, end, begin, middle, close).value
         == Cut(t[c + |begin|..a], t[a + |middle|..e], e + |close|)
  {
    hide Contains, MatchAt;
    a := IndexOf(t, middle, c + |begin|);
    e := IndexOf(t, close, a + |middle|);
    NotInPrefix(t, middle, c + |begin|, a);
    NotInPrefix(t, close, a + |middle|, e);
  }

  lemma WrittenFromParts(t: string, i: nat, c: nat, a: nat, e: nat, begin: string, middle: string, close: string)
    requires i <= c && c + |begin| <= a && a + |middle| <= e
    requires MatchAt(t, begin, c) && MatchAt(t, middle, a) && MatchAt(t, close, e)
    ensures t[i..] == Written(Piece(t[i..c], t[c + |begin|..a], t[a + |middle|..e]), begin, middle, close,
                              t[e + |close|..])
  {
    hide MatchAt;
    MatchMeans(t, begin, c);
    MatchMeans(t, middle, a);
    MatchMeans(t, close, e);
    SplitInSeven(t, i, c, c + |begin|, a, a + |middle|, e, e + |close|);
  }

  lemma SplitInSeven(t: string, i: nat, c: nat, n: nat, a: nat, m: nat, e: nat, f: nat)
    requires i <= c <= n <= a <= m <= e <= f <= |t|
    ensures t[i..] == t[i..c] + (t[c..n] + (t[n..a] + (t[a..m] + (t[m..e] + (t[e..f] + t[f..])))))
  {
    Join(t, i, c);
    Join(t, c, n);
    Join(t, n, a);
    Join(t, a, m);
    Join(t, m, e);
    Join(t, e, f);
  }

  lemma Join(t: string, i: nat, j: nat)
    requires i <= j <= |t|
    ensures t[i..j] + t[j..] == t[i..]
  {}

  lemma NotInPrefix(t: string, m: string, from: nat, k: nat)
    requires from <= k <= |t| && forall i | from <= i < k :: !MatchAt(t, m, i)
    requires m != ""
    ensures !Contains(t[from..k], m)
  {
    forall i | MatchAt(t[from..k], m, i)
      ensures false
    {
      MatchInSlice(t, m, from, k, i);
    }
  }

  lemma ParsedCallWasPrinted(t: string, i: nat, c: nat)
    requires IsSection(t) && i <= c < EndIndex(t) && CutCall(t, c).Some?
    ensures var cut := CutCall(t, c).value;
      && !Contains(cut.idText, ARGUMENT_BEGIN) && !Contains(cut.argsText, CALL_END)
      && t[i..] == PrintCall(Piece(t[i..c], cut.idText, cut.argsText), t[cut.next..])
  {
    hide CutAt, IsSection, Contains, Written;
    var a, e := CutAtParts(t, c, EndIndex(t), CALL_BEGIN, ARGUMENT_BEGIN, CALL_END);
    WrittenFromParts(t, i, c, a, e, CALL_BEGIN, ARGUMENT_BEGIN, CALL_END);
  }

  lemma ParseCallsParts<A>(t: string, i: nat, json: string -> JsonOutcome<A>)
    requires IsSection(t) && i <= EndIndex(t) && SkipSpace(t, i, EndIndex(t)) < EndIndex(t)
    requires ParseCalls(t, i, json).Some?
    ensures var cut := CutCall(t, SkipSpace(t, i, EndIndex(t)));
      && cut.Some? && ReadCall(cut.value.idText, cut.value.argsText, json).Some?
      && ParseCalls(t, cut.value.next, json).Some?
      && ParseCalls(t, i, json).value
           == [ReadCall(cut.value.idText, cut.value.argsText, json).value] + ParseCalls(t, cut.value.next, json).value
  {
    hide ReadCall, CutCall;
  }

  lemma {:induction false} ParsedCallsWerePrinted<A>(t: string, i: nat, json: string -> JsonOutcome<A>)
    returns (ps: seq<Piece>, lastGap: string)
    requires IsSection(t) && i <= EndIndex(t) && ParseCalls(t, i, json).Some?
    ensures AllSpace(lastGap) && AllPrintable(ps, json)
    ensures t[i..] == PrintCalls(ps, lastGap + SECTION_END)
    ensures ParseCalls(t, i, json).value == CallsOf(ps, json)
    decreases |t| - i
  {
    var end := EndIndex(t);
    var c := SkipSpace(t, i, end);
    if c >= end {
      ps, lastGap := ParsedGapWasPrinted(t, i, json);
    } else {
      hide ReadCall, CutCall, PrintCall, ParseCalls, IsSection, Contains;
      ParseCallsParts(t, i, json);
      ParsedCallWasPrinted(t, i, c);
      var cut := CutCall(t, c).value;
      var p := Piece(t[i..c], cut.idText, cut.argsText);
      var rest;
      rest, lastGap := ParsedCallsWerePrinted(t, cut.next, json);
      ps := [p] + rest;
      assert ps[1..] == rest;
    }
  }

  lemma ParsedGapWasPrinted<A>(t: string, i: nat, json: string -> JsonOutcome<A>)
    returns (ps: seq<Piece>, lastGap: string)
    requires IsSection(t) && i <= EndIndex(t) && SkipSpace(t, i, EndIndex(t)) == EndIndex(t)
    ensures ps == [] && AllSpace(lastGap) && t[i..] == lastGap + SECTION_END
    ensures ParseCalls(t, i, json) == Some([])
  {
    ps, lastGap := [], t[i..EndIndex(t)];
    Join(t, i, EndIndex(t));
  }

  /** The parser accepts exactly the printed sections, and reads the calls that were printed. */
  lemma ParserAcceptsExactlyPrintedSections<A>(text: string, calls: seq<ToolCall<A>>, json: string -> JsonOutcome<A>)
    ensures Parse(text, json) == Some(calls)
       <==> exists before, ps, lastGap, after :: IsPrinting(text, before, ps, lastGap, after, calls, json)
  {
    forall before, ps, lastGap, after | IsPrinting(text, before, ps, lastGap, after, calls, json)
      ensures Parse(text, json) == Some(calls)
    {
      ParsingUndoesPrinting(text, before, ps, lastGap, after, calls, json);
    }
    if Parse(text, json) == Some(calls) {
      var before, ps, lastGap, after := ParsedWasPrinted(text, json);
    }
  }

  lemma ParsedWasPrinted<A>(text: string, json: string -> JsonOutcome<A>)
    returns (before: string, ps: seq<Piece>, lastGap: string, after: string)
    requires Parse(text, json).Some?
    ensures IsPrinting(text, before, ps, lastGap, after, Parse(text, json).value, json)
  {
    hide ParseCalls, PrintCalls, Trim, IsSpace, MatchAt, Prints;
    var t := Trim(text);
    before, after := TrimSplits(text);
    SectionHasRoom(t);
    ps, lastGap := ParsedCallsWerePrinted(t, |SECTION_BEGIN|, json);
    PrintsMeaning(ps, CallsOf(ps, json), json);
    SectionSplits(t);
  }

  lemma SectionSplits(t: string)
    requires IsSection(t)
    ensures |SECTION_BEGIN| <= |t| && t == SECTION_BEGIN + t[|SECTION_BEGIN|..]
  {
    Join(t, 0, |SECTION_BEGIN|);
  }
}
