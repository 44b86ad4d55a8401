/** The arguments of the Claude command line: two passes that make its settings and permissions safe. */
module ClaudeArgs {
  import opened Sequences
  import opened Text

  const LEGACY_SKIP := "--dangerously-skip-permissions"
  const MODE := "--permission-mode"
  const BYPASS := "bypassPermissions"
  const SOURCES := "--setting-sources"
  const USER := "user"

  predicate StartsWith(s: string, prefix: string) {
    |prefix| <= |s| && s[..|prefix|] == prefix
  }

  predicate IsModeAssignment(arg: string) { StartsWith(arg, MODE + "=") }

  predicate IsSourcesAssignment(arg: string) { StartsWith(arg, SOURCES + "=") }

  /** Can this argument be the value of the option before it? */
  predicate IsValue(arg: string) {
    Trim(arg) != "" && arg[0] != '-'
  }

  lemma PrefixAt(s: string, prefix: string, i: nat)
    requires StartsWith(s, prefix) && i < |prefix|
    ensures |s| >= |prefix| && s[i] == prefix[i]
  {
    assert s[..|prefix|][i] == s[i];
  }

  lemma AssignmentsStart(arg: string)
    ensures IsModeAssignment(arg) ==> |arg| > 17 && arg[0] == '-' && arg[2] == 'p'
    ensures IsSourcesAssignment(arg) ==> |arg| > 17 && arg[0] == '-' && arg[2] == 's'
  {
    if IsModeAssignment(arg) {
      PrefixAt(arg, MODE + "=", 0);
      PrefixAt(arg, MODE + "=", 2);
    }
    if IsSourcesAssignment(arg) {
      PrefixAt(arg, SOURCES + "=", 0);
      PrefixAt(arg, SOURCES + "=", 2);
    }
  }

  /** The names of the options are no values, no assignments, and all different. */
  lemma NamesDiffer()
    ensures MODE != SOURCES && MODE != LEGACY_SKIP && SOURCES != LEGACY_SKIP
    ensures !IsValue(MODE) && !IsValue(SOURCES) && !IsValue(LEGACY_SKIP)
    ensures !IsModeAssignment(MODE) && !IsModeAssignment(SOURCES) && !IsModeAssignment(LEGACY_SKIP)
    ensures !IsSourcesAssignment(MODE) && !IsSourcesAssignment(SOURCES) && !IsSourcesAssignment(LEGACY_SKIP)
  {
    hide IsModeAssignment, IsSourcesAssignment, Trim;
    AssignmentsStart(MODE);
    AssignmentsStart(SOURCES);
    AssignmentsStart(LEGACY_SKIP);
    assert MODE[2] == 'p' && SOURCES[2] == 's' && LEGACY_SKIP[2] == 'd';
  }

  lemma UserIsValue()
    ensures IsValue(USER) && IsValue(BYPASS)
  {
    hide Trim;
    assert Trimmed(USER) && Trimmed(BYPASS);
    TrimOfTrimmed(USER);
    TrimOfTrimmed(BYPASS);
  }

  lemma UserAssignment()
    ensures var arg := SOURCES + "=" + USER;
      IsSourcesAssignment(arg) && !IsModeAssignment(arg) && !IsValue(arg) && arg !in {MODE, SOURCES, LEGACY_SKIP}
  {
    var arg := SOURCES + "=" + USER;
    assert arg[..|SOURCES + "="|] == SOURCES + "=";
    hide Trim;
    AssignmentsStart(arg);
    NamesDiffer();
  }

  /** A value is no option. */
  lemma ValuesAreWords(arg: string)
    ensures IsValue(arg) ==> arg !in {MODE, SOURCES, LEGACY_SKIP} && !IsModeAssignment(arg) && !IsSourcesAssignment(arg)
    ensures !(IsModeAssignment(arg) && IsSourcesAssignment(arg))
    ensures IsModeAssignment(arg) || IsSourcesAssignment(arg) ==> arg !in {MODE, SOURCES, LEGACY_SKIP}
  {
    hide IsModeAssignment, IsSourcesAssignment, Trim;
    AssignmentsStart(arg);
    NamesDiffer();
  }

  // ---------------------------------------------------------------------------
  // Arguments as options with values and single words
  // ---------------------------------------------------------------------------

  datatype Token = Word(arg: string) | Pair(option: string, value: string)

  predicate TakesValue(arg: string) { arg == MODE || arg == SOURCES }

  function Tokens(args: seq<string>): seq<Token> {
    if args == [] then []
    else if TakesValue(args[0]) && |args| > 1 && IsValue(args[1]) then [Pair(args[0], args[1])] + Tokens(args[2..])
    else [Word(args[0])] + Tokens(args[1..])
  }

  function PrintToken(t: Token): seq<string> {
    match t
    case Word(arg) => [arg]
    case Pair(option, value) => [option, value]
  }

  function Print(ts: seq<Token>): seq<string> {
    if ts == [] then [] else PrintToken(ts[0]) + Print(ts[1..])
  }

  lemma PrintFirst(ts: seq<Token>)
    ensures Print(ts) == if ts == [] then [] else PrintToken(ts[0]) + Print(ts[1..])
  {
    hide PrintToken;
  }

  lemma {:induction false} PrintConcat(a: seq<Token>, b: seq<Token>)
    ensures Print(a + b) == Print(a) + Print(b)
  {
    hide Print, PrintToken;
    PrintFirst(a);
    PrintFirst(a + b);
    if a == [] {
      assert a + b == b;
    } else {
      TailOfConcat(a, b);
      PrintConcat(a[1..], b);
    }
  }

  lemma {:induction false} PrintTokens(args: seq<string>)
    ensures Print(Tokens(args)) == args
  {
    hide IsValue;
    if args == [] {
    } else if TakesValue(args[0]) && |args| > 1 && IsValue(args[1]) {
      PrintTokens(args[2..]);
      assert args == [args[0], args[1]] + args[2..];
    } else {
      PrintTokens(args[1..]);
      assert args == [args[0]] + args[1..];
    }
  }

  predicate StartsNoValue(ts: seq<Token>) {
    ts != [] && ts[0].Word? ==> !IsValue(ts[0].arg)
  }

  /** Tokens that are read back from their print: an option without a value is not followed by one. */
  predicate Readable(ts: seq<Token>) {
    ts != [] ==>
      && (ts[0].Pair? ==> TakesValue(ts[0].option) && IsValue(ts[0].value))
      && (ts[0].Word? && TakesValue(ts[0].arg) ==> StartsNoValue(ts[1..]))
      && Readable(ts[1..])
  }

  lemma {:induction false} TokensAreReadable(args: seq<string>)
    ensures Readable(Tokens(args))
    ensures args != [] && !IsValue(args[0]) ==> StartsNoValue(Tokens(args))
  {
    hide IsValue;
    if args == [] {
    } else if TakesValue(args[0]) && |args| > 1 && IsValue(args[1]) {
      TokensAreReadable(args[2..]);
    } else {
      TokensAreReadable(args[1..]);
    }
  }

  predicate StartsPair(args: seq<string>) {
    |args| > 1 && TakesValue(args[0]) && IsValue(args[1])
  }

  lemma PairsStart(args: seq<string>)
    ensures StartsPair(args) <==> |args| > 1 && (args[0] == MODE || args[0] == SOURCES) && IsValue(args[1])
  {
    hide IsValue;
  }

  lemma TokensOfPair(args: seq<string>)
    requires StartsPair(args)
    ensures Tokens(args) == [Pair(args[0], args[1])] + Tokens(args[2..])
  {
    hide IsValue, TakesValue;
  }

  lemma TokensOfWord(args: seq<string>)
    requires args != [] && !StartsPair(args)
    ensures Tokens(args) == [Word(args[0])] + Tokens(args[1..])
  {
    hide IsValue, TakesValue;
  }

  /** The value of an option is no option itself. */
  lemma TokensOfValue(args: seq<string>)
    requires StartsPair(args)
    ensures Tokens(args[1..]) == [Word(args[1])] + Tokens(args[2..])
  {
    hide IsValue, Tokens;
    ValuesAreWords(args[1]);
    hide IsModeAssignment, IsSourcesAssignment;
    TokensOfWord(args[1..]);
    assert args[1..][1..] == args[2..];
  }

  lemma PrintStarts(ts: seq<Token>)
    requires Readable(ts) && StartsNoValue(ts) && ts != []
    ensures Print(ts) != [] && !IsValue(Print(ts)[0])
  {
    NamesDiffer();
    hide IsValue;
  }

  lemma {:induction false} TokensOfPrint(ts: seq<Token>)
    requires Readable(ts)
    ensures Tokens(Print(ts)) == ts
  {
    hide IsValue, Tokens, TakesValue;
    if ts == [] {
      NothingToRead();
    } else {
      var args, rest := Print(ts), Print(ts[1..]);
      TokensOfPrint(ts[1..]);
      assert ts == [ts[0]] + ts[1..];
      if ts[0].Pair? {
        assert args[2..] == rest;
        TokensOfPair(args);
      } else {
        assert args[1..] == rest;
        if TakesValue(ts[0].arg) && ts[1..] != [] { PrintStarts(ts[1..]); }
        TokensOfWord(args);
      }
    }
  }

  lemma NothingToRead()
    ensures Tokens([]) == [] && Print([]) == []
    ensures SourcesPass([]) == [] && !HasSources([]) && ModePass([]) == [] && !HasMode([])
  {}

  lemma Regroup(before: seq<string>, a: string, b: string, rest: seq<string>)
    ensures before + ([a, b] + rest) == before + [a, b] + rest == before + [a] + ([b] + rest)
  {
    assert [a, b] == [a] + [b];
  }

  // ---------------------------------------------------------------------------
  // The pass over the setting sources
  // ---------------------------------------------------------------------------

  function SourcesToken(t: Token): seq<Token> {
    if t == Word(SOURCES) then []
    else if t.Pair? && t.option == SOURCES then [Pair(SOURCES, USER)]
    else if t.Word? && IsSourcesAssignment(t.arg) then [Word(SOURCES + "=" + USER)]
    else [t]
  }

  function SourcesPass(ts: seq<Token>): seq<Token> {
    if ts == [] then [] else SourcesToken(ts[0]) + SourcesPass(ts[1..])
  }

  predicate SetsSources(t: Token) {
    if t.Pair? then t.option == SOURCES else IsSourcesAssignment(t.arg)
  }

  predicate HasSources(ts: seq<Token>) {
    exists t <- ts :: SetsSources(t)
  }

  function WithSources(ts: seq<Token>): seq<Token> {
    SourcesPass(ts) + if HasSources(ts) then [] else [Pair(SOURCES, USER)]
  }

  function SourcesWord(arg: string): seq<string> {
    if arg == SOURCES then [] else if IsSourcesAssignment(arg) then [SOURCES + "=" + USER] else [arg]
  }

  lemma SourcesStep(t: Token, rest: seq<Token>)
    ensures Print(SourcesPass([t] + rest))
         == (if t.Word? then SourcesWord(t.arg) else [t.option, if t.option == SOURCES then USER else t.value])
            + Print(SourcesPass(rest))
    ensures HasSources([t] + rest) == (SetsSources(t) || HasSources(rest))
  {
    hide IsSourcesAssignment;
    assert ([t] + rest)[1..] == rest;
    PrintConcat(SourcesToken(t), SourcesPass(rest));
  }

  /** One turn of the loop over the arguments. */
  lemma SourcesTurn(before: seq<string>, args: seq<string>)
    requires args != []
    ensures var arg, out := args[0], before + Print(SourcesPass(Tokens(args)));
      if arg == SOURCES && |args| > 1 && IsValue(args[1]) then
        && out == before + [arg, USER] + Print(SourcesPass(Tokens(args[2..])))
        && HasSources(Tokens(args))
      else
        && out == before + SourcesWord(arg) + Print(SourcesPass(Tokens(args[1..])))
        && HasSources(Tokens(args)) == (IsSourcesAssignment(arg) || HasSources(Tokens(args[1..])))
  {
    hide IsValue, IsSourcesAssignment, IsModeAssignment, Tokens, SourcesPass, HasSources, Print, SourcesWord, StartsPair;
    PairsStart(args);
    if StartsPair(args) {
      SourcesTurnOfPair(before, args);
    } else {
      SourcesTurnOfWord(before, args);
    }
  }

  lemma SourcesOfWords(arg: string, value: string)
    requires TakesValue(arg) && IsValue(value)
    ensures arg != SOURCES ==> SourcesWord(arg) == [arg] && !IsSourcesAssignment(arg)
    ensures SourcesWord(value) == [value] && !IsSourcesAssignment(value)
  {
    hide IsSourcesAssignment, IsValue;
    NamesDiffer();
    ValuesAreWords(value);
  }

  lemma SourcesTurnOfWord(before: seq<string>, args: seq<string>)
    requires args != [] && !StartsPair(args)
    ensures before + Print(SourcesPass(Tokens(args))) == before + SourcesWord(args[0]) + Print(SourcesPass(Tokens(args[1..])))
    ensures HasSources(Tokens(args)) == (IsSourcesAssignment(args[0]) || HasSources(Tokens(args[1..])))
  {
    hide IsValue, IsSourcesAssignment, IsModeAssignment, Tokens, SourcesPass, HasSources, Print, SourcesWord, StartsPair;
    TokensOfWord(args);
    SourcesStep(Word(args[0]), Tokens(args[1..]));
  }

  lemma SourcesTurnOfPair(before: seq<string>, args: seq<string>)
    requires StartsPair(args)
    ensures var out := before + Print(SourcesPass(Tokens(args)));
      if args[0] == SOURCES then
        && out == before + [args[0], USER] + Print(SourcesPass(Tokens(args[2..])))
        && HasSources(Tokens(args))
      else
        && out == before + SourcesWord(args[0]) + Print(SourcesPass(Tokens(args[1..])))
        && HasSources(Tokens(args)) == (IsSourcesAssignment(args[0]) || HasSources(Tokens(args[1..])))
  {
    hide IsValue, IsSourcesAssignment, IsModeAssignment, Tokens, SourcesPass, HasSources, Print, SourcesWord, TakesValue;
    TokensOfPair(args);
    TokensOfValue(args);
    SourcesOfWords(args[0], args[1]);
    SourcesStep(Pair(args[0], args[1]), Tokens(args[2..]));
    SourcesStep(Word(args[1]), Tokens(args[2..]));
    Regroup(before, args[0], if args[0] == SOURCES then USER else args[1], Print(SourcesPass(Tokens(args[2..]))));
  }

  /** `normalizeClaudeSettingSourcesArgs`. */
  method NormalizeSettingSources(args: seq<string>) returns (normalized: seq<string>)
    ensures normalized == Print(WithSources(Tokens(args)))
  {
    hide IsValue, IsSourcesAssignment, Tokens, SourcesPass, HasSources, Print;
    NamesDiffer();
    normalized := [];
    var hasSettingSources := false;
    var i := 0;
    ghost var all := Tokens(args);
    assert args[0..] == args && forall x: seq<string> :: [] + x == x;
    while i < |args|
      invariant 0 <= i <= |args|
      invariant Print(SourcesPass(all)) == normalized + Print(SourcesPass(Tokens(args[i..])))
      invariant HasSources(all) == (hasSettingSources || HasSources(Tokens(args[i..])))
    {
      var arg := args[i];
      SourcesTurn(normalized, args[i..]);
      assert args[i..][1..] == args[i + 1..];
      if arg == SOURCES {
        if i + 1 < |args| && IsValue(args[i + 1]) {
          assert args[i..][2..] == args[i + 2..];
          hasSettingSources := true;
          normalized := normalized + [arg, USER];
          i := i + 1;
        }
        i := i + 1;
        continue;
      }
      if IsSourcesAssignment(arg) {
        hasSettingSources := true;
        normalized := normalized + [SOURCES + "=" + USER];
        i := i + 1;
        continue;
      }
      normalized := normalized + [arg];
      i := i + 1;
    }
    NothingToRead();
    assert args[i..] == [] && normalized + [] == normalized;
    if !hasSettingSources {
      normalized := normalized + [SOURCES, USER];
    }
    PrintMore(SourcesPass(all), SOURCES, USER);
  }

  lemma PrintMore(ts: seq<Token>, option: string, value: string)
    ensures Print(ts + [Pair(option, value)]) == Print(ts) + [option, value]
    ensures ts + [] == ts
  {
    PrintConcat(ts, [Pair(option, value)]);
    assert [Pair(option, value)][1..] == [];
  }

  // ---------------------------------------------------------------------------
  // The pass over the permission mode
  // ---------------------------------------------------------------------------

  function ModeToken(t: Token): seq<Token> {
    if t == Word(LEGACY_SKIP) || t == Word(MODE) then [] else [t]
  }

  function ModePass(ts: seq<Token>): seq<Token> {
    if ts == [] then [] else ModeToken(ts[0]) + ModePass(ts[1..])
  }

  predicate SetsMode(t: Token) {
    if t.Pair? then t.option == MODE else IsModeAssignment(t.arg)
  }

  predicate HasMode(ts: seq<Token>) {
    exists t <- ts :: SetsMode(t)
  }

  function WithMode(ts: seq<Token>): seq<Token> {
    ModePass(ts) + if HasMode(ts) then [] else [Pair(MODE, BYPASS)]
  }

  function ModeWord(arg: string): seq<string> {
    if arg == LEGACY_SKIP || arg == MODE then [] else [arg]
  }

  lemma ModeStep(t: Token, rest: seq<Token>)
    ensures Print(ModePass([t] + rest))
         == (if t.Word? then ModeWord(t.arg) else [t.option, t.value]) + Print(ModePass(rest))
    ensures HasMode([t] + rest) == (SetsMode(t) || HasMode(rest))
  {
    hide IsModeAssignment;
    assert ([t] + rest)[1..] == rest;
    PrintConcat(ModeToken(t), ModePass(rest));
  }

  /** One turn of the loop over the arguments. */
  lemma ModeTurn(before: seq<string>, args: seq<string>)
    requires args != []
    ensures var arg, out := args[0], before + Print(ModePass(Tokens(args)));
      if arg == MODE && |args| > 1 && IsValue(args[1]) then
        && out == before + [arg, args[1]] + Print(ModePass(Tokens(args[2..])))
        && HasMode(Tokens(args))
      else
        && out == before + ModeWord(arg) + Print(ModePass(Tokens(args[1..])))
        && HasMode(Tokens(args)) == (IsModeAssignment(arg) || HasMode(Tokens(args[1..])))
  {
    hide IsValue, IsSourcesAssignment, IsModeAssignment, Tokens, ModePass, HasMode, Print, ModeWord, StartsPair;
    PairsStart(args);
    if StartsPair(args) {
      ModeTurnOfPair(before, args);
    } else {
      ModeTurnOfWord(before, args);
    }
  }

  lemma ModeOfWords(arg: string, value: string)
    requires TakesValue(arg) && IsValue(value)
    ensures arg != MODE ==> ModeWord(arg) == [arg] && !IsModeAssignment(arg)
    ensures ModeWord(value) == [value] && !IsModeAssignment(value)
  {
    hide IsModeAssignment, IsValue;
    NamesDiffer();
    ValuesAreWords(value);
  }

  lemma ModeTurnOfWord(before: seq<string>, args: seq<string>)
    requires args != [] && !StartsPair(args)
    ensures before + Print(ModePass(Tokens(args))) == before + ModeWord(args[0]) + Print(ModePass(Tokens(args[1..])))
    ensures HasMode(Tokens(args)) == (IsModeAssignment(args[0]) || HasMode(Tokens(args[1..])))
  {
    hide IsValue, IsSourcesAssignment, IsModeAssignment, Tokens, ModePass, HasMode, Print, ModeWord, StartsPair;
    TokensOfWord(args);
    ModeStep(Word(args[0]), Tokens(args[1..]));
  }

  lemma ModeTurnOfPair(before: seq<string>, args: seq<string>)
    requires StartsPair(args)
    ensures var out := before + Print(ModePass(Tokens(args)));
      if args[0] == MODE then
        && out == before + [args[0], args[1]] + Print(ModePass(Tokens(args[2..])))
        && HasMode(Tokens(args))
      else
        && out == before + ModeWord(args[0]) + Print(ModePass(Tokens(args[1..])))
        && HasMode(Tokens(args)) == (IsModeAssignment(args[0]) || HasMode(Tokens(args[1..])))
  {
    hide IsValue, IsSourcesAssignment, IsModeAssignment, Tokens, ModePass, HasMode, Print, ModeWord, TakesValue;
    TokensOfPair(args);
    TokensOfValue(args);
    ModeOfWords(args[0], args[1]);
    ModeStep(Pair(args[0], args[1]), Tokens(args[2..]));
    ModeStep(Word(args[1]), Tokens(args[2..]));
    Regroup(before, args[0], args[1], Print(ModePass(Tokens(args[2..]))));
  }

  /** `normalizeClaudePermissionArgs`. */
  method NormalizePermission(args: seq<string>) returns (normalized: seq<string>)
    ensures normalized == Print(WithMode(Tokens(args)))
  {
    hide IsValue, IsModeAssignment, Tokens, ModePass, HasMode, Print;
    NamesDiffer();
    normalized := [];
    var hasPermissionMode := false;
    var i := 0;
    ghost var all := Tokens(args);
    assert args[0..] == args && forall x: seq<string> :: [] + x == x;
    while i < |args|
      invariant 0 <= i <= |args|
      invariant Print(ModePass(all)) == normalized + Print(ModePass(Tokens(args[i..])))
      invariant HasMode(all) == (hasPermissionMode || HasMode(Tokens(args[i..])))
    {
      var arg := args[i];
      ModeTurn(normalized, args[i..]);
      assert args[i..][1..] == args[i + 1..];
      if arg == LEGACY_SKIP {
        i := i + 1;
        continue;
      }
      if arg == MODE {
        if i + 1 < |args| && IsValue(args[i + 1]) {
          assert args[i..][2..] == args[i + 2..];
          hasPermissionMode := true;
          normalized := normalized + [arg];
          normalized := normalized + [args[i + 1]];
          i := i + 1;
        }
        i := i + 1;
        continue;
      }
      if IsModeAssignment(arg) {
        hasPermissionMode := true;
      }
      normalized := normalized + [arg];
      i := i + 1;
    }
    NothingToRead();
    assert args[i..] == [] && normalized + [] == normalized;
    if !hasPermissionMode {
      normalized := normalized + [MODE, BYPASS];
    }
    PrintMore(ModePass(all), MODE, BYPASS);
  }

  /** `normalizeClaudeBackendConfig` on one list of arguments, if there is one. */
  function Normalize(args: seq<string>): seq<string> {
    Print(WithMode(Tokens(Print(WithSources(Tokens(args))))))
  }

  method NormalizeArgs(args: Option<seq<string>>) returns (normalized: Option<seq<string>>)
    ensures normalized == if args.None? then None else Some(Normalize(args.value))
  {
    if args.None? {
      return None;
    }
    var withSources := NormalizeSettingSources(args.value);
    var withMode := NormalizePermission(withSources);
    return Some(withMode);
  }

  // ---------------------------------------------------------------------------
  // The two passes together
  // ---------------------------------------------------------------------------

  lemma SourcesTokenMeaning(t: Token)
    requires t.Pair? ==> TakesValue(t.option) && IsValue(t.value)
    ensures var us := SourcesToken(t);
      if us == [] then t.Word? && TakesValue(t.arg) else us == [us[0]] && SourcesChanged(t, us[0])
  {
    hide IsValue, IsSourcesAssignment;
    if t.Pair? {
      UserIsValue();
    } else if t.arg != SOURCES && IsSourcesAssignment(t.arg) {
      AssignmentStays();
    }
  }

  lemma AssignmentStays()
    ensures !IsValue(SOURCES + "=" + USER) && !TakesValue(SOURCES + "=" + USER)
  {
    hide IsSourcesAssignment, IsModeAssignment, IsValue;
    UserAssignment();
  }

  /** A changed token is as readable as it was. */
  predicate SourcesChanged(t: Token, u: Token) {
    if t.Pair? then u.Pair? && u.option == t.option && IsValue(u.value)
    else u.Word? && (IsValue(u.arg) ==> IsValue(t.arg)) && (TakesValue(u.arg) ==> TakesValue(t.arg))
  }

  lemma {:induction false} SourcesPassIsReadable(ts: seq<Token>)
    requires Readable(ts)
    ensures Readable(SourcesPass(ts))
    ensures StartsNoValue(ts) ==> StartsNoValue(SourcesPass(ts))
  {
    hide IsValue, SourcesToken, TakesValue;
    if ts != [] {
      SourcesPassIsReadable(ts[1..]);
      SourcesTokenMeaning(ts[0]);
      var rest := SourcesPass(ts[1..]);
      if SourcesToken(ts[0]) == [] {
        assert SourcesPass(ts) == rest;
      } else {
        var u := SourcesToken(ts[0])[0];
        assert SourcesPass(ts) == [u] + rest;
        assert SourcesPass(ts)[1..] == rest;
      }
    }
  }

  lemma {:induction false} ReadableMore(ts: seq<Token>, option: string, value: string)
    requires Readable(ts) && TakesValue(option) && IsValue(value)
    ensures Readable(ts + [Pair(option, value)])
  {
    hide IsValue, TakesValue;
    var more := ts + [Pair(option, value)];
    if ts == [] {
      assert more == [Pair(option, value)] && more[1..] == [];
    } else {
      ReadableMore(ts[1..], option, value);
      assert more[1..] == ts[1..] + [Pair(option, value)];
    }
  }

  lemma WithSourcesIsReadable(ts: seq<Token>)
    requires Readable(ts)
    ensures Readable(WithSources(ts))
  {
    hide IsValue, HasSources, SourcesPass;
    SourcesPassIsReadable(ts);
    UserIsValue();
    ReadableMore(SourcesPass(ts), SOURCES, USER);
    assert SourcesPass(ts) + [] == SourcesPass(ts);
  }

  /** What is left of a token list that has been through both passes. */
  predicate Safe(t: Token) {
    if t.Pair? then TakesValue(t.option) && IsValue(t.value) && (t.option == SOURCES ==> t.value == USER)
    else t.arg !in {LEGACY_SKIP, MODE, SOURCES} && (IsSourcesAssignment(t.arg) ==> t.arg == SOURCES + "=" + USER)
  }

  predicate AllSafe(ts: seq<Token>) {
    forall t <- ts :: Safe(t)
  }

  lemma AllSafeSplit(ts: seq<Token>)
    requires ts != [] && AllSafe(ts)
    ensures Safe(ts[0]) && AllSafe(ts[1..])
  {}

  lemma {:induction false} SafeIsReadable(ts: seq<Token>)
    requires AllSafe(ts)
    ensures Readable(ts) && SourcesPass(ts) == ts && ModePass(ts) == ts
  {
    hide IsValue, IsSourcesAssignment, AllSafe;
    if ts != [] {
      AllSafeSplit(ts);
      SafeIsReadable(ts[1..]);
      assert ts == [ts[0]] + ts[1..];
    }
  }

  /** Both passes at once on one token. */
  function CleanToken(t: Token): seq<Token> {
    match t
    case Word(arg) =>
      if arg in {LEGACY_SKIP, MODE, SOURCES} then []
      else if IsSourcesAssignment(arg) then [Word(SOURCES + "=" + USER)] else [t]
    case Pair(option, value) =>
      if option == SOURCES then [Pair(SOURCES, USER)] else [t]
  }

  function Clean(ts: seq<Token>): seq<Token> {
    if ts == [] then [] else CleanToken(ts[0]) + Clean(ts[1..])
  }

  /** What both passes make of a list of tokens, in one pass. */
  function Cleaned(ts: seq<Token>): seq<Token> {
    Clean(ts)
      + (if HasSources(ts) then [] else [Pair(SOURCES, USER)])
      + (if HasMode(ts) then [] else [Pair(MODE, BYPASS)])
  }

  lemma ModePassFirst(ts: seq<Token>)
    ensures ModePass(ts) == if ts == [] then [] else ModeToken(ts[0]) + ModePass(ts[1..])
  {
    hide ModeToken;
  }

  lemma {:induction false} ModePassConcat(a: seq<Token>, b: seq<Token>)
    ensures ModePass(a + b) == ModePass(a) + ModePass(b)
  {
    hide ModePass, ModeToken;
    ModePassFirst(a);
    ModePassFirst(a + b);
    if a == [] {
      assert a + b == b;
    } else {
      TailOfConcat(a, b);
      ModePassConcat(a[1..], b);
    }
  }

  lemma OneToken(t: Token)
    ensures ModePass([t]) == ModeToken(t) && HasMode([t]) == SetsMode(t)
  {
    hide ModeToken, SetsMode;
    assert [t][1..] == [] && ModeToken(t) + [] == ModeToken(t);
  }

  lemma CleanTokenIsBoth(t: Token)
    ensures ModePass(SourcesToken(t)) == CleanToken(t)
    ensures HasMode(SourcesToken(t)) == SetsMode(t)
  {
    hide ModePass, HasMode, IsValue, IsSourcesAssignment, IsModeAssignment;
    NothingToRead();
    NamesDiffer();
    if t.Pair? {
      OneToken(if t.option == SOURCES then Pair(SOURCES, USER) else t);
    } else if IsSourcesAssignment(t.arg) {
      ValuesAreWords(t.arg);
      UserAssignment();
      OneToken(Word(SOURCES + "=" + USER));
    } else {
      OneToken(t);
    }
  }

  lemma {:induction false} CleanIsBoth(ts: seq<Token>)
    ensures ModePass(SourcesPass(ts)) == Clean(ts)
    ensures HasMode(SourcesPass(ts)) == HasMode(ts)
  {
    hide SourcesToken, ModeToken, CleanToken, SetsMode;
    if ts != [] {
      CleanIsBoth(ts[1..]);
      CleanTokenIsBoth(ts[0]);
      ModePassConcat(SourcesToken(ts[0]), SourcesPass(ts[1..]));
      assert ts == [ts[0]] + ts[1..];
    }
  }

  /** The two passes over the arguments do in effect one pass over the options and words. */
  lemma TwoPassesAreOne(args: seq<string>)
    ensures Tokens(Normalize(args)) == Cleaned(Tokens(args))
  {
    hide Tokens, Print, SourcesPass, ModePass, Clean, HasSources, HasMode;
    var ts := Tokens(args);
    TokensAreReadable(args);
    WithSourcesIsReadable(ts);
    TokensOfPrint(WithSources(ts));
    PassesTogether(ts);
    CleanedIsSafe(ts);
    SafeIsReadable(Cleaned(ts));
    TokensOfPrint(Cleaned(ts));
  }

  lemma PassesTogether(ts: seq<Token>)
    ensures WithMode(WithSources(ts)) == Cleaned(ts)
  {
    hide SourcesPass, ModePass, Clean, HasMode, HasSources;
    var added := if HasSources(ts) then [] else [Pair(SOURCES, USER)];
    CleanIsBoth(ts);
    ModePassConcat(SourcesPass(ts), added);
    HasModeConcat(SourcesPass(ts), added);
    NothingToRead();
    NamesDiffer();
    OneToken(Pair(SOURCES, USER));
  }

  lemma HasModeConcat(a: seq<Token>, b: seq<Token>)
    ensures HasMode(a + b) == (HasMode(a) || HasMode(b))
  {
    hide SetsMode;
    assert forall t <- a :: t in a + b;
    assert forall t <- b :: t in a + b;
  }

  lemma CleanTokenIsSafe(t: Token)
    requires t.Pair? ==> TakesValue(t.option) && IsValue(t.value)
    ensures var us := CleanToken(t);
      if us == [] then !SetsSources(t) && !SetsMode(t)
      else us == [us[0]] && Safe(us[0]) && SetsSources(us[0]) == SetsSources(t) && SetsMode(us[0]) == SetsMode(t)
  {
    hide IsValue, IsSourcesAssignment, IsModeAssignment;
    NamesDiffer();
    if t.Pair? {
      UserIsValue();
    } else {
      ValuesAreWords(t.arg);
      UserAssignment();
    }
  }

  lemma {:induction false} CleanIsSafe(ts: seq<Token>)
    requires Readable(ts)
    ensures AllSafe(Clean(ts)) && HasSources(Clean(ts)) == HasSources(ts) && HasMode(Clean(ts)) == HasMode(ts)
  {
    hide IsValue, TakesValue, CleanToken, Safe, SetsSources, SetsMode;
    if ts != [] {
      CleanIsSafe(ts[1..]);
      CleanTokenIsSafe(ts[0]);
      assert ts == [ts[0]] + ts[1..];
    }
  }

  lemma AddedAreSafe()
    ensures Safe(Pair(SOURCES, USER)) && Safe(Pair(MODE, BYPASS))
  {
    hide IsValue;
    UserIsValue();
    NamesDiffer();
  }

  lemma CleanedIsSafe(ts: seq<Token>)
    requires Readable(ts)
    ensures AllSafe(Cleaned(ts)) && HasSources(Cleaned(ts)) && HasMode(Cleaned(ts))
  {
    hide Clean, Safe;
    CleanIsSafe(ts);
    AddedAreSafe();
    var sources := if HasSources(ts) then [] else [Pair(SOURCES, USER)];
    var mode := if HasMode(ts) then [] else [Pair(MODE, BYPASS)];
    CleanedParts(Clean(ts), sources, mode);
    if !HasSources(ts) { assert SetsSources(Pair(SOURCES, USER)) && Pair(SOURCES, USER) in sources; }
    if !HasMode(ts) { assert SetsMode(Pair(MODE, BYPASS)) && Pair(MODE, BYPASS) in mode; }
  }

  lemma CleanedParts(a: seq<Token>, b: seq<Token>, c: seq<Token>)
    ensures HasSources(a + b + c) == (HasSources(a) || HasSources(b) || HasSources(c))
    ensures HasMode(a + b + c) == (HasMode(a) || HasMode(b) || HasMode(c))
    ensures AllSafe(a + b + c) == (AllSafe(a) && AllSafe(b) && AllSafe(c))
  {
    hide Safe, SetsSources, SetsMode;
    assert forall t :: t in a + b + c <==> t in a || t in b || t in c;
  }

  /** Normalising twice is normalising once. */
  lemma NormalizingTwice(args: seq<string>)
    ensures Normalize(Normalize(args)) == Normalize(args)
  {
    hide Tokens, Print, SourcesPass, ModePass, Clean, HasSources, HasMode, Cleaned;
    var ts := Cleaned(Tokens(args));
    TwoPassesAreOne(args);
    TokensAreReadable(args);
    CleanedIsSafe(Tokens(args));
    SafeIsReadable(ts);
    assert ts + [] == ts;
    TokensOfPrint(ts);
    PrintTokens(Normalize(args));
  }

  // ---------------------------------------------------------------------------
  // What the normalised arguments are like
  // ---------------------------------------------------------------------------

  /** No legacy flag, a value for every permission mode, and only the user's settings. */
  predicate SafeAt(args: seq<string>, i: nat)
    requires i < |args|
  {
    && args[i] != LEGACY_SKIP
    && (args[i] == MODE ==> i + 1 < |args| && IsValue(args[i + 1]))
    && (args[i] == SOURCES ==> i + 1 < |args| && args[i + 1] == USER)
    && (IsSourcesAssignment(args[i]) ==> args[i] == SOURCES + "=" + USER)
  }

  ghost predicate SafeArgs(args: seq<string>) {
    forall i: nat | i < |args| :: SafeAt(args, i)
  }

  lemma SafeFirst(t: Token)
    requires Safe(t)
    ensures SafeArgs(PrintToken(t))
  {
    hide IsSourcesAssignment, IsModeAssignment, IsValue;
    NamesDiffer();
    if t.Pair? { ValuesAreWords(t.value); }
  }

  lemma SafeArgsConcat(a: seq<string>, b: seq<string>)
    requires SafeArgs(a) && SafeArgs(b)
    ensures SafeArgs(a + b)
  {
    hide IsSourcesAssignment, IsValue;
    forall i: nat | i < |a + b|
      ensures SafeAt(a + b, i)
    {
      if i < |a| {
        assert SafeAt(a, i);
      } else {
        assert SafeAt(b, i - |a|);
      }
    }
  }

  lemma {:induction false} SafePrints(ts: seq<Token>)
    requires AllSafe(ts)
    ensures SafeArgs(Print(ts))
  {
    hide Safe, SafeArgs, AllSafe;
    if ts == [] {
      NothingIsSafe();
    } else {
      AllSafeSplit(ts);
      SafePrints(ts[1..]);
      SafeFirst(ts[0]);
      SafeArgsConcat(PrintToken(ts[0]), Print(ts[1..]));
    }
  }

  lemma NothingIsSafe()
    ensures SafeArgs([])
  {}

  lemma {:induction false} TokensArePrinted(ts: seq<Token>, t: Token)
    requires t in ts
    ensures forall arg <- PrintToken(t) :: arg in Print(ts)
  {
    if t != ts[0] {
      assert ts == [ts[0]] + ts[1..];
      TokensArePrinted(ts[1..], t);
    }
  }

  /** The normalised arguments are safe, and both options are there. */
  lemma NormalizedIsSafe(args: seq<string>)
    ensures var r := Normalize(args);
      && SafeArgs(r)
      && (exists arg <- r :: arg == MODE || IsModeAssignment(arg))
      && (exists arg <- r :: arg == SOURCES || IsSourcesAssignment(arg))
  {
    hide Tokens, Print, Normalize, Cleaned, SafeArgs, AllSafe, IsModeAssignment, IsSourcesAssignment;
    var ts := Cleaned(Tokens(args));
    TwoPassesAreOne(args);
    TokensAreReadable(args);
    CleanedIsSafe(Tokens(args));
    PrintTokens(Normalize(args));
    SafePrints(ts);
    var mode :| mode in ts && SetsMode(mode);
    var sources :| sources in ts && SetsSources(sources);
    TokensArePrinted(ts, mode);
    TokensArePrinted(ts, sources);
    assert PrintToken(mode)[0] in PrintToken(mode) && PrintToken(sources)[0] in PrintToken(sources);
  }

  /** The tokens that normalising leaves alone. */
  predicate Untouched(t: Token) {
    if t.Pair? then t.option != SOURCES
    else t.arg !in {LEGACY_SKIP, MODE, SOURCES} && !IsSourcesAssignment(t.arg)
  }

  function Others(ts: seq<Token>): seq<Token> {
    if ts == [] then [] else (if Untouched(ts[0]) then [ts[0]] else []) + Others(ts[1..])
  }

  lemma OthersFirst(ts: seq<Token>)
    ensures Others(ts) == if ts == [] then [] else (if Untouched(ts[0]) then [ts[0]] else []) + Others(ts[1..])
  {
    hide Untouched;
  }

  lemma {:induction false} OthersConcat(a: seq<Token>, b: seq<Token>)
    ensures Others(a + b) == Others(a) + Others(b)
  {
    hide Others, Untouched;
    OthersFirst(a);
    OthersFirst(a + b);
    if a == [] {
      assert a + b == b;
    } else {
      TailOfConcat(a, b);
      OthersConcat(a[1..], b);
    }
  }

  lemma OneOther(t: Token)
    ensures Others([t]) == if Untouched(t) then [t] else []
  {
    hide Untouched;
    assert [t][1..] == [];
  }

  lemma CleanTokenKeepsOthers(t: Token)
    ensures Others(CleanToken(t)) == if Untouched(t) then [t] else []
  {
    hide Others, IsSourcesAssignment, IsModeAssignment, IsValue;
    NoOthers();
    OneOther(t);
    if t.Word? && IsSourcesAssignment(t.arg) {
      UserAssignment();
      OneOther(Word(SOURCES + "=" + USER));
    }
    OneOther(Pair(SOURCES, USER));
  }

  lemma NoOthers()
    ensures Others([]) == []
  {}

  lemma {:induction false} CleanKeepsOthers(ts: seq<Token>)
    ensures Others(Clean(ts)) == Others(ts)
  {
    hide Untouched, CleanToken;
    if ts != [] {
      CleanKeepsOthers(ts[1..]);
      CleanTokenKeepsOthers(ts[0]);
      OthersConcat(CleanToken(ts[0]), Clean(ts[1..]));
    }
  }

  /** All other options and words stay, in order; only a missing permission mode is added at the end. */
  lemma OthersStay(args: seq<string>)
    ensures Others(Tokens(Normalize(args)))
         == Others(Tokens(args)) + if HasMode(Tokens(args)) then [] else [Pair(MODE, BYPASS)]
  {
    hide Tokens, Normalize, Clean, Others, HasMode, HasSources;
    var ts := Tokens(args);
    TwoPassesAreOne(args);
    CleanKeepsOthers(ts);
    var sources := if HasSources(ts) then [] else [Pair(SOURCES, USER)];
    var mode := if HasMode(ts) then [] else [Pair(MODE, BYPASS)];
    OthersConcat(Clean(ts) + sources, mode);
    OthersConcat(Clean(ts), sources);
    NoOthers();
    NamesDiffer();
    OneOther(Pair(SOURCES, USER));
    OneOther(Pair(MODE, BYPASS));
  }

  // ---------------------------------------------------------------------------
  // Permission modes that are assigned
  // ---------------------------------------------------------------------------

  lemma {:induction false} PrintedAssignment(ts: seq<Token>, arg: string)
    requires Readable(ts) && IsModeAssignment(arg)
    ensures arg in Print(ts) <==> Word(arg) in ts
  {
    hide IsModeAssignment, IsSourcesAssignment, IsValue;
    if ts != [] {
      PrintedAssignment(ts[1..], arg);
      ValuesAreWords(arg);
      assert ts == [ts[0]] + ts[1..];
    }
  }

  lemma {:induction false} OthersIn(ts: seq<Token>, t: Token)
    ensures t in Others(ts) <==> t in ts && Untouched(t)
  {
    hide Untouched;
    if ts != [] {
      OthersIn(ts[1..], t);
      assert ts == [ts[0]] + ts[1..];
    }
  }

  /** Arguments that assign a permission mode stay as they are, and no others are made: the assigned
      modes have proper values exactly when they had them before. */
  lemma AssignedModesStay(args: seq<string>, arg: string)
    requires IsModeAssignment(arg)
    ensures arg in Normalize(args) <==> arg in args
  {
    hide Tokens, Print, Normalize, Others, HasMode, IsModeAssignment, IsSourcesAssignment, IsValue, Readable;
    var before, after := Tokens(args), Tokens(Normalize(args));
    PrintTokens(args);
    PrintTokens(Normalize(args));
    TokensAreReadable(args);
    TokensAreReadable(Normalize(args));
    PrintedAssignment(before, arg);
    PrintedAssignment(after, arg);
    OthersStay(args);
    OthersIn(before, Word(arg));
    OthersIn(after, Word(arg));
    ValuesAreWords(arg);
  }

  /** Every permission mode has a proper value, whether it follows its option or is assigned. */
  ghost predicate ModesAreProper(args: seq<string>) {
    && (forall i: nat | i < |args| && args[i] == MODE :: i + 1 < |args| && IsValue(args[i + 1]))
    && AssignedModesAreProper(args)
  }

  ghost predicate AssignedModesAreProper(args: seq<string>) {
    forall arg <- args | IsModeAssignment(arg) :: IsValue(arg[|MODE + "="|..])
  }

  /** After normalising, every permission mode has a proper value exactly when all those that were assigned had one. */
  lemma ModesAreProperExactly(args: seq<string>)
    ensures ModesAreProper(Normalize(args)) <==> AssignedModesAreProper(args)
  {
    hide Normalize, IsModeAssignment, IsSourcesAssignment, IsValue;
    var r := Normalize(args);
    NormalizedIsSafe(args);
    assert forall i: nat | i < |r| && r[i] == MODE :: SafeAt(r, i);
    forall arg: string | IsModeAssignment(arg)
      ensures arg in r <==> arg in args
    {
      AssignedModesStay(args, arg);
    }
  }

  lemma AloneIsKept(arg: string)
    requires IsModeAssignment(arg)
    ensures Normalize([arg]) == [arg, SOURCES, USER]
  {
    hide Tokens, Print, Normalize, Cleaned, IsModeAssignment, TakesValue, PrintToken;
    var args, t, sources := [arg], Word(arg), Pair(SOURCES, USER);
    OneWord(arg);
    TwoPassesAreOne(args);
    OneCleaned(arg);
    PrintTokens(Normalize(args));
    PrintMore([t], SOURCES, USER);
    assert [t] + [sources] == [t, sources];
  }

  lemma OneWord(arg: string)
    requires IsModeAssignment(arg)
    ensures Tokens([arg]) == [Word(arg)] && Print([Word(arg)]) == [arg]
  {
    hide IsModeAssignment, IsSourcesAssignment, IsValue, TakesValue;
    TokensOfWord([arg]);
    NothingToRead();
    assert [arg][1..] == [] && [Word(arg)][1..] == [];
  }

  /** A permission mode that is assigned nothing counts as one, so that none is added. */
  lemma EmptyModeIsKept()
    ensures Normalize([MODE + "="]) == [MODE + "=", SOURCES, USER]
  {
    assert IsModeAssignment(MODE + "=");
    hide Normalize;
    AloneIsKept(MODE + "=");
  }

  lemma OneCleaned(arg: string)
    requires IsModeAssignment(arg)
    ensures Cleaned([Word(arg)]) == [Word(arg), Pair(SOURCES, USER)]
  {
    hide IsModeAssignment, IsSourcesAssignment;
    ValuesAreWords(arg);
    var ts := [Word(arg)];
    assert ts[1..] == [] && Clean(ts) == ts;
    assert Word(arg) in ts && SetsMode(Word(arg));
  }
}
