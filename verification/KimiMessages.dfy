/** The in-place rewriting of assistant messages that carry tagged tool-call sections. */
module KimiMessages {
  import opened Sequences
  import opened Text
  import opened KimiToolCalls

  /** A content block. A text block whose text is no string counts as another block. */
  datatype Block<+A> = TextBlock(text: string) | CallBlock(call: ToolCall<A>) | OtherBlock(payload: string)

  // ---------------------------------------------------------------------------
  // What rewriting means
  // ---------------------------------------------------------------------------

  predicate Parses<A>(b: Block<A>, json: string -> JsonOutcome<A>) {
    b.TextBlock? && Parse(b.text, json).Some?
  }

  ghost predicate SomeParses<A>(bs: seq<Block<A>>, json: string -> JsonOutcome<A>) {
    exists b <- bs :: Parses(b, json)
  }

  function CallBlocks<A>(calls: seq<ToolCall<A>>): seq<Block<A>> {
    if calls == [] then [] else [CallBlock(calls[0])] + CallBlocks(calls[1..])
  }

  function RewriteBlock<A>(b: Block<A>, json: string -> JsonOutcome<A>): seq<Block<A>> {
    if Parses(b, json) then CallBlocks(Parse(b.text, json).value) else [b]
  }

  function RewriteContent<A>(bs: seq<Block<A>>, json: string -> JsonOutcome<A>): seq<Block<A>> {
    if bs == [] then [] else RewriteBlock(bs[0], json) + RewriteContent(bs[1..], json)
  }

  lemma RewriteFirst<A>(bs: seq<Block<A>>, json: string -> JsonOutcome<A>)
    ensures RewriteContent(bs, json) == if bs == [] then [] else RewriteBlock(bs[0], json) + RewriteContent(bs[1..], json)
  {
    hide RewriteBlock;
  }

  /** Rewriting works block by block: every block is replaced where it stands. */
  lemma {:induction false} RewriteConcat<A>(bs: seq<Block<A>>, cs: seq<Block<A>>, json: string -> JsonOutcome<A>)
    ensures RewriteContent(bs + cs, json) == RewriteContent(bs, json) + RewriteContent(cs, json)
  {
    hide RewriteContent, RewriteBlock;
    RewriteFirst(bs, json);
    RewriteFirst(bs + cs, json);
    if bs == [] {
      assert bs + cs == cs;
    } else {
      TailOfConcat(bs, cs);
      RewriteConcat(bs[1..], cs, json);
    }
  }

  /** Every block is rewritten where it stands, between the rewritten blocks before it and behind it. */
  lemma RewriteInPlace<A>(bs: seq<Block<A>>, i: nat, json: string -> JsonOutcome<A>)
    requires i < |bs|
    ensures RewriteContent(bs, json)
         == RewriteContent(bs[..i], json) + RewriteBlock(bs[i], json) + RewriteContent(bs[i + 1..], json)
  {
    hide RewriteBlock, RewriteContent;
    SplitAround(bs, i);
    RewriteConcat(bs[..i] + [bs[i]], bs[i + 1..], json);
    RewriteConcat(bs[..i], [bs[i]], json);
    RewriteOne(bs[i], json);
  }

  lemma RewriteOne<A>(b: Block<A>, json: string -> JsonOutcome<A>)
    ensures RewriteContent([b], json) == RewriteBlock(b, json)
  {
    hide RewriteBlock;
    assert [b][1..] == [];
  }

  lemma {:induction false} CallBlocksAreFixed<A>(calls: seq<ToolCall<A>>, json: string -> JsonOutcome<A>)
    ensures !SomeParses(CallBlocks(calls), json)
  {
    if calls != [] { CallBlocksAreFixed(calls[1..], json); }
  }

  lemma {:induction false} NothingParsesAfterwards<A>(bs: seq<Block<A>>, json: string -> JsonOutcome<A>)
    ensures !SomeParses(RewriteContent(bs, json), json)
  {
    if bs != [] {
      NothingParsesAfterwards(bs[1..], json);
      if Parses(bs[0], json) {
        CallBlocksAreFixed(Parse(bs[0].text, json).value, json);
      }
    }
  }

  lemma {:induction false} NothingToRewrite<A>(bs: seq<Block<A>>, json: string -> JsonOutcome<A>)
    requires !SomeParses(bs, json)
    ensures RewriteContent(bs, json) == bs
  {
    if bs != [] {
      assert bs[0] in bs && forall b <- bs[1..] :: b in bs;
      NothingToRewrite(bs[1..], json);
    }
  }

  /** Rewriting a second time changes nothing. */
  lemma RewriteIsIdempotent<A>(bs: seq<Block<A>>, json: string -> JsonOutcome<A>)
    ensures RewriteContent(RewriteContent(bs, json), json) == RewriteContent(bs, json)
  {
    NothingParsesAfterwards(bs, json);
    NothingToRewrite(RewriteContent(bs, json), json);
  }

  /** The content changes exactly when some block parses. */
  lemma ChangesExactlyWhenSomeParses<A>(bs: seq<Block<A>>, json: string -> JsonOutcome<A>)
    ensures SomeParses(bs, json) <==> RewriteContent(bs, json) != bs
  {
    if SomeParses(bs, json) {
      NothingParsesAfterwards(bs, json);
    } else {
      NothingToRewrite(bs, json);
    }
  }

  /** The blocks that do not parse, in order. */
  function Unparsed<A>(bs: seq<Block<A>>, json: string -> JsonOutcome<A>): seq<Block<A>> {
    if bs == [] then [] else (if Parses(bs[0], json) then [] else [bs[0]]) + Unparsed(bs[1..], json)
  }

  /** The blocks that are not tool calls, in order. */
  function WithoutCalls<A>(bs: seq<Block<A>>): seq<Block<A>> {
    if bs == [] then [] else (if bs[0].CallBlock? then [] else [bs[0]]) + WithoutCalls(bs[1..])
  }

  lemma WithoutCallsFirst<A>(bs: seq<Block<A>>)
    ensures WithoutCalls(bs) == if bs == [] then [] else (if bs[0].CallBlock? then [] else [bs[0]]) + WithoutCalls(bs[1..])
  {}

  lemma {:induction false} WithoutCallsConcat<A>(bs: seq<Block<A>>, cs: seq<Block<A>>)
    ensures WithoutCalls(bs + cs) == WithoutCalls(bs) + WithoutCalls(cs)
  {
    hide WithoutCalls;
    WithoutCallsFirst(bs);
    WithoutCallsFirst(bs + cs);
    if bs == [] {
      assert bs + cs == cs;
    } else {
      TailOfConcat(bs, cs);
      WithoutCallsConcat(bs[1..], cs);
      Associative(if bs[0].CallBlock? then [] else [bs[0]], WithoutCalls(bs[1..]), WithoutCalls(cs));
    }
  }

  lemma {:induction false} WithoutCallsOfCalls<A>(calls: seq<ToolCall<A>>)
    ensures WithoutCalls(CallBlocks(calls)) == []
  {
    if calls != [] {
      assert CallBlocks(calls)[1..] == CallBlocks(calls[1..]);
      WithoutCallsOfCalls(calls[1..]);
    }
  }

  /** Apart from tool calls, the rewritten content holds exactly the unparsed blocks, in order. */
  lemma {:induction false} UnparsedBlocksSurvive<A>(bs: seq<Block<A>>, json: string -> JsonOutcome<A>)
    ensures WithoutCalls(RewriteContent(bs, json)) == WithoutCalls(Unparsed(bs, json))
  {
    if bs != [] {
      UnparsedBlocksSurvive(bs[1..], json);
      WithoutCallsConcat(RewriteBlock(bs[0], json), RewriteContent(bs[1..], json));
      WithoutCallsConcat(if Parses(bs[0], json) then [] else [bs[0]], Unparsed(bs[1..], json));
      if Parses(bs[0], json) {
        WithoutCallsOfCalls(Parse(bs[0].text, json).value);
      }
    }
  }

  // ---------------------------------------------------------------------------
  // No call is lost
  // ---------------------------------------------------------------------------

  lemma {:induction false} CallBlocksAt<A>(calls: seq<ToolCall<A>>)
    ensures CallBlocks(calls) == seq(|calls|, i requires 0 <= i < |calls| => CallBlock(calls[i]))
  {
    if calls != [] { CallBlocksAt(calls[1..]); }
  }

  /** A text block that parses becomes one block for each of its calls, in order. Every other block stays. */
  lemma BlockMeaning<A>(b: Block<A>, json: string -> JsonOutcome<A>)
    ensures b.TextBlock? ==>
      match Parse(b.text, json)
      case Some(calls) =>
        RewriteContent([b], json) == seq(|calls|, i requires 0 <= i < |calls| => CallBlock(calls[i]))
      case None => RewriteContent([b], json) == [b]
    ensures !b.TextBlock? ==> RewriteContent([b], json) == [b]
  {
    hide Parse, CallBlocks, RewriteContent;
    RewriteOne(b, json);
    if Parses(b, json) { CallBlocksAt(Parse(b.text, json).value); }
  }

  /** The calls of a message before rewriting: those it has as blocks, and those that parse from its texts. */
  function CallsToMake<A>(bs: seq<Block<A>>, json: string -> JsonOutcome<A>): seq<ToolCall<A>> {
    if bs == [] then [] else
    (match bs[0]
     case CallBlock(call) => [call]
     case TextBlock(text) => (match Parse(text, json) case Some(calls) => calls case None => [])
     case OtherBlock(_) => [])
      + CallsToMake(bs[1..], json)
  }

  /** The calls that a message has as blocks. */
  function CallsIn<A>(bs: seq<Block<A>>): seq<ToolCall<A>> {
    if bs == [] then [] else (if bs[0].CallBlock? then [bs[0].call] else []) + CallsIn(bs[1..])
  }

  lemma CallsInFirst<A>(bs: seq<Block<A>>)
    ensures CallsIn(bs) == if bs == [] then [] else (if bs[0].CallBlock? then [bs[0].call] else []) + CallsIn(bs[1..])
  {}

  lemma {:induction false} CallsInConcat<A>(bs: seq<Block<A>>, cs: seq<Block<A>>)
    ensures CallsIn(bs + cs) == CallsIn(bs) + CallsIn(cs)
  {
    hide CallsIn;
    CallsInFirst(bs);
    CallsInFirst(bs + cs);
    if bs == [] {
      assert bs + cs == cs;
    } else {
      TailOfConcat(bs, cs);
      CallsInConcat(bs[1..], cs);
      Associative(if bs[0].CallBlock? then [bs[0].call] else [], CallsIn(bs[1..]), CallsIn(cs));
    }
  }

  lemma {:induction false} CallsInCallBlocks<A>(calls: seq<ToolCall<A>>)
    ensures CallsIn(CallBlocks(calls)) == calls
  {
    if calls != [] {
      assert CallBlocks(calls)[1..] == CallBlocks(calls[1..]);
      CallsInCallBlocks(calls[1..]);
    }
  }

  /** Rewritten content has all the calls, in order: the ones it had, and the parsed ones where their text stood. */
  lemma {:induction false} RewritingKeepsTheCalls<A>(bs: seq<Block<A>>, json: string -> JsonOutcome<A>)
    ensures CallsIn(RewriteContent(bs, json)) == CallsToMake(bs, json)
  {
    hide Parse, CallBlocks;
    if bs != [] {
      RewritingKeepsTheCalls(bs[1..], json);
      CallsInConcat(RewriteBlock(bs[0], json), RewriteContent(bs[1..], json));
      if Parses(bs[0], json) {
        CallsInCallBlocks(Parse(bs[0].text, json).value);
      } else {
        OneBlockCalls(bs[0]);
      }
    }
  }

  lemma OneBlockCalls<A>(b: Block<A>)
    ensures CallsIn([b]) == if b.CallBlock? then [b.call] else []
  {
    assert [b][1..] == [];
  }

  // ---------------------------------------------------------------------------
  // The message object
  // ---------------------------------------------------------------------------

  /** A message. Its content is `None` when it is no array. */
  class Message<A> {
    var content: Option<seq<Block<A>>>
    var stopReason: string

    constructor (content: Option<seq<Block<A>>>, stopReason: string)
      ensures this.content == content && this.stopReason == stopReason
    {
      this.content, this.stopReason := content, stopReason;
    }
  }

  /** `m` is the rewritten form of a message with the given content and stop reason. */
  ghost predicate IsRewritten<A>(m: Message<A>, content: Option<seq<Block<A>>>, stopReason: string,
                                 json: string -> JsonOutcome<A>)
    reads m
  {
    if content.Some? && SomeParses(content.value, json) then
      && m.content == Some(RewriteContent(content.value, json))
      && m.stopReason == (if stopReason == "stop" then "toolUse" else stopReason)
    else
      m.content == content && m.stopReason == stopReason
  }

  lemma NothingYet<A>(json: string -> JsonOutcome<A>)
    ensures RewriteContent<A>([], json) == [] && !SomeParses<A>([], json)
  {}

  /** One turn of the loop over the blocks. */
  lemma RewriteNext<A>(bs: seq<Block<A>>, i: nat, json: string -> JsonOutcome<A>)
    requires i < |bs|
    ensures RewriteContent(bs[..i + 1], json) == RewriteContent(bs[..i], json) + RewriteBlock(bs[i], json)
    ensures SomeParses(bs[..i + 1], json) == (SomeParses(bs[..i], json) || Parses(bs[i], json))
  {
    hide RewriteBlock, RewriteContent, Parses;
    assert bs[..i + 1] == bs[..i] + [bs[i]];
    RewriteConcat(bs[..i], [bs[i]], json);
    RewriteOne(bs[i], json);
  }

  method RewriteMessage<A>(m: Message?<A>, json: string -> JsonOutcome<A>)
    modifies m
    ensures m != null ==> IsRewritten(m, old(m.content), old(m.stopReason), json)
    ensures m != null && m.content != old(m.content) ==>
      m.stopReason == if old(m.stopReason) == "stop" then "toolUse" else old(m.stopReason)
    ensures m != null && m.content == old(m.content) ==> m.stopReason == old(m.stopReason)
  {
    hide Parse, CallBlocks, RewriteContent, SomeParses;
    if m == null || m.content.None? {
      return;
    }
    var content := m.content.value;
    var changed := false;
    var nextContent: seq<Block<A>> := [];
    NothingYet<A>(json);
    for i := 0 to |content|
      invariant m.content == old(m.content) && m.stopReason == old(m.stopReason)
      invariant nextContent == RewriteContent(content[..i], json)
      invariant changed <==> SomeParses(content[..i], json)
    {
      var block := content[i];
      RewriteNext(content, i, json);
      if !block.TextBlock? {
        nextContent := nextContent + [block];
        continue;
      }
      var parsed := ParseTaggedToolCalls(block.text, json);
      if parsed.None? {
        nextContent := nextContent + [block];
        continue;
      }
      nextContent := nextContent + CallBlocks(parsed.value);
      changed := true;
      assert Parses(block, json);
    }
    assert content[..|content|] == content;
    if !changed {
      NothingToRewrite(content, json);
      return;
    }
    m.content := Some(nextContent);
    if m.stopReason == "stop" {
      m.stopReason := "toolUse";
    }
    ChangesExactlyWhenSomeParses(content, json);
  }

  /** One stream event. The partial and the final message may be one object: it is still rewritten once. */
  method RewriteEvent<A>(partial: Message?<A>, message: Message?<A>, json: string -> JsonOutcome<A>)
    modifies partial, message
    ensures partial != null ==> IsRewritten(partial, old(partial.content), old(partial.stopReason), json)
    ensures message != null ==> IsRewritten(message, old(message.content), old(message.stopReason), json)
  {
    RewriteMessage(partial, json);
    if message != null && message == partial && message.content.Some? && old(message.content).Some? {
      NothingParsesAfterwards(old(message.content).value, json);
    }
    RewriteMessage(message, json);
  }
}
