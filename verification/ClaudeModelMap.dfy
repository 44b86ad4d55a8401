/** Moving the Anthropic entries of the model map to the Claude command line. */
module ClaudeModelMap {
  import opened Sequences
  import opened Text

  function Lower(c: char): char {
    if 'A' <= c <= 'Z' then (c as int + 32) as char else c
  }

  /** Does the text start with a prefix of lower-case letters, whatever its own case? */
  predicate LowerStartsWith(s: string, prefix: string): (r: bool)
    ensures r ==> |prefix| <= |s|
  {
    |prefix| <= |s| && forall i | 0 <= i < |prefix| :: Lower(s[i]) == prefix[i]
  }

  const ANTHROPIC_PREFIX := "anthropic/"
  const CLAUDE_PREFIX := "claude-"
  const CLAUDE_CLI_PREFIX := "claude-cli/"

  /** `toClaudeCliModelRef`. */
  function Convert(raw: string): Option<string> {
    var trimmed := Trim(raw);
    if !LowerStartsWith(trimmed, ANTHROPIC_PREFIX) then None else
    var modelId := Trim(trimmed[|ANTHROPIC_PREFIX|..]);
    if !LowerStartsWith(modelId, CLAUDE_PREFIX) then None else Some(CLAUDE_CLI_PREFIX + modelId)
  }

  /** `name` is the word in letters of either case. */
  predicate IsWord(name: string, lower: string, upper: string) {
    |name| == |lower| == |upper| && forall i | 0 <= i < |name| :: name[i] == lower[i] || name[i] == upper[i]
  }

  /** A reference is an Anthropic prefix and the id of a Claude model, in letters of either case and with white space
      around each. */
  ghost predicate RefersTo(raw: string, modelId: string) {
    exists before, prefix, gap, after ::
      && raw == before + prefix + gap + modelId + after && AllSpace(before) && AllSpace(gap) && AllSpace(after)
      && IsWord(prefix, "anthropic/", "ANTHROPIC/")
      && Trimmed(modelId) && |modelId| >= 7 && IsWord(modelId[..7], "claude-", "CLAUDE-")
  }

  lemma PrefixesAreWords(s: string)
    ensures LowerStartsWith(s, ANTHROPIC_PREFIX) <==> |s| >= 10 && IsWord(s[..10], "anthropic/", "ANTHROPIC/")
    ensures LowerStartsWith(s, CLAUDE_PREFIX) <==> |s| >= 7 && IsWord(s[..7], "claude-", "CLAUDE-")
  {
    LettersMatch(s, "anthropic/", "ANTHROPIC/");
    LettersMatch(s, "claude-", "CLAUDE-");
  }

  lemma LettersMatch(s: string, lower: string, upper: string)
    requires |lower| == |upper|
    requires forall i | 0 <= i < |lower| ::
      Lower(upper[i]) == lower[i] && forall c: char | Lower(c) == lower[i] :: c == lower[i] || c == upper[i]
    requires forall i | 0 <= i < |lower| :: Lower(lower[i]) == lower[i]
    ensures LowerStartsWith(s, lower) <==> |s| >= |lower| && IsWord(s[..|lower|], lower, upper)
  {
    hide Lower;
  }

  /** A reference is converted exactly when it refers to a Claude model of Anthropic, and the id of that model is
      kept behind the new prefix. */
  lemma ConvertedExactly(raw: string, ref: string)
    ensures Convert(raw) == Some(ref) <==> exists modelId :: RefersTo(raw, modelId) && ref == "claude-cli/" + modelId
  {
    hide Convert, RefersTo;
    if Convert(raw) == Some(ref) {
      var modelId := ConvertedRefers(raw, ref);
    }
    if modelId :| RefersTo(raw, modelId) && ref == "claude-cli/" + modelId {
      ReferenceIsConverted(raw, modelId);
    }
  }

  lemma ConvertedRefers(raw: string, ref: string) returns (modelId: string)
    requires Convert(raw) == Some(ref)
    ensures RefersTo(raw, modelId) && ref == "claude-cli/" + modelId
  {
    hide Trim, Trimmed, LowerStartsWith, IsWord, AllSpace;
    var core := Trim(raw);
    var before, after := TrimSplits(raw);
    var gap, behind := TrimSplits(core[10..]);
    modelId := Trim(core[10..]);
    PrefixesAreWords(core);
    PrefixesAreWords(modelId);
    assert core == core[..10] + core[10..];
    AllSpaceConcat(behind, after);
    assert raw == before + core[..10] + gap + modelId + (behind + after);
  }

  lemma AllSpaceConcat(s: string, t: string)
    requires AllSpace(s) && AllSpace(t)
    ensures AllSpace(s + t)
  {
    hide IsSpace;
  }

  lemma ReferenceIsConverted(raw: string, modelId: string)
    requires RefersTo(raw, modelId)
    ensures Convert(raw) == Some("claude-cli/" + modelId)
  {
    hide Trim, Trimmed, LowerStartsWith, IsWord, AllSpace;
    var before, prefix, gap, after :|
      && raw == before + prefix + gap + modelId + after && AllSpace(before) && AllSpace(gap) && AllSpace(after)
      && IsWord(prefix, "anthropic/", "ANTHROPIC/");
    var core := prefix + gap + modelId;
    assert raw == before + core + after;
    WordLength(prefix);
    assert core[..10] == prefix && core[10..] == gap + modelId;
    CoreIsTrimmed(prefix, gap, modelId);
    TrimPadded(before, core, after);
    assert gap + modelId == gap + modelId + "";
    NoSpaceInNothing();
    TrimPadded(gap, modelId, "");
    PrefixesAreWords(core);
    PrefixesAreWords(modelId);
  }

  lemma NoSpaceInNothing()
    ensures AllSpace("")
  {}

  lemma WordLength(name: string)
    requires IsWord(name, "anthropic/", "ANTHROPIC/")
    ensures |name| == 10 && (name[0] == 'a' || name[0] == 'A')
  {}

  lemma CoreIsTrimmed(prefix: string, gap: string, modelId: string)
    requires |prefix| == 10 && (prefix[0] == 'a' || prefix[0] == 'A') && modelId != "" && Trimmed(modelId)
    ensures Trimmed(prefix + gap + modelId)
  {
    assert !IsSpace(prefix[0]);
    hide IsSpace;
    var core := prefix + gap + modelId;
    assert core[0] == prefix[0] && core[|core| - 1] == modelId[|modelId| - 1];
  }

  /** A converted reference is not converted again. */
  lemma ConvertedStays(raw: string)
    ensures Convert(raw).Some? ==> Convert(Convert(raw).value).None?
  {
    hide Trim, Trimmed, LowerStartsWith;
    if Convert(raw).Some? {
      var modelId := Trim(Trim(raw)[|ANTHROPIC_PREFIX|..]);
      CliRefStays(modelId);
    }
  }

  lemma CliRefStays(modelId: string)
    requires Trimmed(modelId) && LowerStartsWith(modelId, CLAUDE_PREFIX)
    ensures Convert(CLAUDE_CLI_PREFIX + modelId).None?
  {
    hide Trim, Trimmed, LowerStartsWith, Convert;
    var ref := CLAUDE_CLI_PREFIX + modelId;
    NoSpaceBefore(modelId);
    TrimOfTrimmed(ref);
    NotConverted(ref);
  }

  lemma NotConverted(ref: string)
    requires ref != "" && ref[0] == 'c' && Trim(ref) == ref
    ensures Convert(ref).None?
  {
    hide Trim;
    assert ANTHROPIC_PREFIX[0] == 'a';
    assert !LowerStartsWith(ref, ANTHROPIC_PREFIX);
  }

  lemma NoSpaceBefore(modelId: string)
    requires Trimmed(modelId) && modelId != ""
    ensures var ref := CLAUDE_CLI_PREFIX + modelId; Trimmed(ref) && ref[0] == 'c'
  {
    var ref := CLAUDE_CLI_PREFIX + modelId;
    assert !IsSpace(CLAUDE_CLI_PREFIX[0]);
    hide IsSpace;
    assert ref[0] == CLAUDE_CLI_PREFIX[0] && ref[|ref| - 1] == modelId[|modelId| - 1];
  }

  // ---------------------------------------------------------------------------
  // Records in insertion order
  // ---------------------------------------------------------------------------

  datatype Entry<V> = Entry(key: string, value: V)

  function Lookup<V>(es: seq<Entry<V>>, key: string): Option<V> {
    if es == [] then None else if es[0].key == key then Some(es[0].value) else Lookup(es[1..], key)
  }

  function Delete<V>(es: seq<Entry<V>>, key: string): seq<Entry<V>> {
    if es == [] then [] else (if es[0].key == key then [] else [es[0]]) + Delete(es[1..], key)
  }

  lemma {:induction false} LookupInDeleted<V>(es: seq<Entry<V>>, key: string, other: string)
    ensures Lookup(Delete(es, key), other) == if other == key then None else Lookup(es, other)
  {
    if es != [] {
      LookupInDeleted(es[1..], key, other);
      var rest := Delete(es[1..], key);
      assert [] + rest == rest && ([es[0]] + rest)[1..] == rest;
    }
  }

  lemma {:induction false} LookupInConcat<V>(a: seq<Entry<V>>, b: seq<Entry<V>>, key: string)
    ensures Lookup(a + b, key) == if Lookup(a, key).Some? then Lookup(a, key) else Lookup(b, key)
  {
    if a == [] {
      assert a + b == b;
    } else {
      TailOfConcat(a, b);
      LookupInConcat(a[1..], b, key);
    }
  }

  lemma {:induction false} LookupMeaning<V>(es: seq<Entry<V>>, key: string)
    ensures Lookup(es, key).Some? <==> exists e <- es :: e.key == key
    ensures Lookup(es, key).Some? ==> Entry(key, Lookup(es, key).value) in es
  {
    if es != [] {
      LookupMeaning(es[1..], key);
      assert es == [es[0]] + es[1..];
    }
  }

  // ---------------------------------------------------------------------------
  // The rewriting
  // ---------------------------------------------------------------------------

  /** One turn of the loop of `rewriteModelEntryMap`. */
  function Turn<V>(next: seq<Entry<V>>, e: Entry<V>): seq<Entry<V>> {
    var converted := Convert(e.key);
    if converted.None? then next else
    var added := if Lookup(next, converted.value).Some? then next else next + [Entry(converted.value, e.value)];
    Delete(added, e.key)
  }

  function Turns<V>(models: seq<Entry<V>>, n: nat): seq<Entry<V>>
    requires n <= |models|
  {
    if n == 0 then models else Turn(Turns(models, n - 1), models[n - 1])
  }

  function Migrated<V>(models: seq<Entry<V>>): seq<string> {
    if models == [] then [] else
    var converted := Convert(models[|models| - 1].key);
    Migrated(models[..|models| - 1]) + if converted.Some? then [converted.value] else []
  }

  function Rewritten<V>(models: seq<Entry<V>>): seq<Entry<V>> {
    Turns(models, |models|)
  }

  /** `rewriteModelEntryMap`. */
  method RewriteModelEntryMap<V>(models: seq<Entry<V>>) returns (value: seq<Entry<V>>, migrated: seq<string>)
    ensures migrated == Migrated(models) && value == Rewritten(models)
  {
    hide Convert, Lookup, Delete;
    var next := models;
    migrated := [];
    for i := 0 to |models|
      invariant next == Turns(models, i)
      invariant migrated == Migrated(models[..i])
      invariant migrated == [] ==> next == models
    {
      assert models[..i + 1][..i] == models[..i];
      var rawKey := models[i].key;
      var converted := Convert(rawKey);
      if converted.None? {
        continue;
      }
      if Lookup(next, converted.value).None? {
        next := next + [Entry(converted.value, models[i].value)];
      }
      next := Delete(next, rawKey);
      migrated := migrated + [converted.value];
    }
    assert models[..|models|] == models;
    value := if |migrated| > 0 then next else models;
  }

  // ---------------------------------------------------------------------------
  // What stands in the rewritten map
  // ---------------------------------------------------------------------------

  /** The value of the first entry whose key is converted to this one. */
  function FirstConverted<V>(models: seq<Entry<V>>, key: string): Option<V> {
    if models == [] then None
    else if Convert(models[0].key) == Some(key) then Some(models[0].value)
    else FirstConverted(models[1..], key)
  }

  lemma {:induction false} FirstConvertedNext<V>(models: seq<Entry<V>>, e: Entry<V>, key: string)
    ensures FirstConverted(models + [e], key)
         == if FirstConverted(models, key).Some? then FirstConverted(models, key)
            else if Convert(e.key) == Some(key) then Some(e.value) else None
  {
    hide Convert;
    if models == [] {
      assert models + [e] == [e] && [e][1..] == [];
    } else {
      assert (models + [e])[1..] == models[1..] + [e];
      FirstConvertedNext(models[1..], e, key);
    }
  }

  lemma {:induction false} TurnsMeaning<V>(models: seq<Entry<V>>, n: nat, key: string)
    requires n <= |models|
    ensures Lookup(Turns(models, n), key)
         == if Convert(key).Some? && Lookup(models[..n], key).Some? then None
            else if Lookup(models, key).Some? then Lookup(models, key)
            else FirstConverted(models[..n], key)
  {
    hide Convert, Delete, Lookup, FirstConverted;
    if n == 0 {
      NothingThere<V>(key);
      assert models[..0] == [];
    } else {
      var before, e := Turns(models, n - 1), models[n - 1];
      assert models[..n] == models[..n - 1] + [e];
      TurnsMeaning(models, n - 1, key);
      FirstConvertedNext(models[..n - 1], e, key);
      LookupInConcat(models[..n - 1], [e], key);
      LookupOne(e, key);
      if Convert(e.key).Some? {
        var c := Convert(e.key).value;
        ConvertedStays(e.key);
        TurnsMeaning(models, n - 1, c);
        LookupInConcat(before, [Entry(c, e.value)], key);
        LookupOne(Entry(c, e.value), key);
        LookupInDeleted(if Lookup(before, c).Some? then before else before + [Entry(c, e.value)], e.key, key);
      }
      LookupPart(models, n, key);
    }
  }

  lemma NothingThere<V>(key: string)
    ensures Lookup<V>([], key) == None && FirstConverted<V>([], key) == None
  {}

  lemma LookupOne<V>(e: Entry<V>, key: string)
    ensures Lookup([e], key) == if e.key == key then Some(e.value) else None
  {
    assert [e][1..] == [];
  }

  lemma LookupPart<V>(models: seq<Entry<V>>, n: nat, key: string)
    requires n <= |models|
    ensures Lookup(models[..n], key).Some? ==> Lookup(models, key) == Lookup(models[..n], key)
  {
    assert models == models[..n] + models[n..];
    LookupInConcat(models[..n], models[n..], key);
  }

  /** No convertible key is left, every other entry stays, and a new entry has the value of the first
      key that was converted to its own. */
  lemma RewrittenMeaning<V>(models: seq<Entry<V>>, key: string)
    ensures Lookup(Rewritten(models), key)
         == if Convert(key).Some? then None
            else if Lookup(models, key).Some? then Lookup(models, key)
            else FirstConverted(models, key)
  {
    hide Convert, Turns, Lookup;
    assert models[..|models|] == models;
    TurnsMeaning(models, |models|, key);
    if Convert(key).Some? && Lookup(models, key).None? {
      NeverConvertedTo(models, key);
    }
  }

  lemma {:induction false} NeverConvertedTo<V>(models: seq<Entry<V>>, key: string)
    requires Convert(key).Some?
    ensures FirstConverted(models, key).None?
  {
    hide Convert;
    if models != [] {
      ConvertedStays(models[0].key);
      NeverConvertedTo(models[1..], key);
    }
  }

  /** What is migrated are the converted keys, in order. */
  lemma {:induction false} MigratedMeaning<V>(models: seq<Entry<V>>)
    ensures Migrated(models) == [] <==> forall e <- models :: Convert(e.key).None?
    ensures forall key :: key in Migrated(models) <==> exists e <- models :: Convert(e.key) == Some(key)
  {
    hide Convert;
    if models != [] {
      var front, last := models[..|models| - 1], models[|models| - 1];
      MigratedMeaning(front);
      assert models == front + [last];
    }
  }

  /** A second rewriting migrates nothing and changes nothing. */
  lemma RewritingTwice<V>(models: seq<Entry<V>>)
    ensures var once := Rewritten(models); Migrated(once) == [] && Rewritten(once) == once
  {
    hide Convert, Turns, Lookup;
    var once := Rewritten(models);
    forall e <- once
      ensures Convert(e.key).None?
    {
      LookupMeaning(once, e.key);
      RewrittenMeaning(models, e.key);
    }
    MigratedMeaning(once);
    NothingTurns(once, |once|);
  }

  lemma {:induction false} NothingTurns<V>(models: seq<Entry<V>>, n: nat)
    requires n <= |models| && forall e <- models :: Convert(e.key).None?
    ensures Turns(models, n) == models
  {
    hide Convert;
    if n > 0 { NothingTurns(models, n - 1); }
  }
}
