/** The safe arguments of the Claude command line, told on the arguments themselves. */
module ClaudeArgsPlain {
  import opened Sequences
  import opened Text
  import opened ClaudeArgs

  /** The argument behind number `i` is neither blank nor does it start with a dash. */
  predicate IsFollowed(args: seq<string>, i: nat) {
    i + 1 < |args| && Trim(args[i + 1]) != "" && args[i + 1][0] != '-'
  }

  predicate Assigns(arg: string, option: string) {
    |option| < |arg| && arg[..|option|] == option && arg[|option|] == '='
  }

  /** Argument `i` gives the option a value: behind it, or after an equals sign. */
  predicate GivesAt(args: seq<string>, i: nat, option: string)
    requires i < |args|
  {
    (args[i] == option && IsFollowed(args, i)) || Assigns(args[i], option)
  }

  ghost predicate Gives(args: seq<string>, option: string) {
    exists i: nat :: i < |args| && GivesAt(args, i, option)
  }

  /** The safe form of one argument after another: the flag that skips all permissions goes, and so do the two
      options where no value follows; the sources become those of the user. */
  function Plain(args: seq<string>): seq<string> {
    if args == [] then []
    else if args[0] == "--setting-sources" && IsFollowed(args, 0) then
      ["--setting-sources", "user"] + Plain(args[2..])
    else if args[0] == "--permission-mode" && IsFollowed(args, 0) then
      ["--permission-mode", args[1]] + Plain(args[2..])
    else
      (if args[0] in ["--dangerously-skip-permissions", "--permission-mode", "--setting-sources"] then []
       else if Assigns(args[0], "--setting-sources") then ["--setting-sources=user"]
       else [args[0]])
        + Plain(args[1..])
  }

  // ---------------------------------------------------------------------------
  // The two passes and the safe form
  // ---------------------------------------------------------------------------

  lemma AssignsIsAssignment(arg: string)
    ensures Assigns(arg, "--setting-sources") == IsSourcesAssignment(arg)
    ensures Assigns(arg, "--permission-mode") == IsModeAssignment(arg)
  {
    AssignsIsPrefix(arg, SOURCES);
    AssignsIsPrefix(arg, MODE);
  }

  lemma AssignsIsPrefix(arg: string, option: string)
    ensures Assigns(arg, option) == StartsWith(arg, option + "=")
  {
    var n := |option|;
    if n < |arg| {
      assert arg[..n + 1] == arg[..n] + [arg[n]];
      assert (option + "=")[..n] == option && (option + "=")[n] == '=';
      assert arg[..n + 1][..n] == arg[..n] && arg[..n + 1][n] == arg[n];
    }
  }

  lemma FollowedIsValue(args: seq<string>)
    ensures IsFollowed(args, 0) <==> |args| > 1 && IsValue(args[1])
  {
    hide Trim;
  }

  lemma CleanFirst(ts: seq<Token>)
    ensures Clean(ts) == if ts == [] then [] else CleanToken(ts[0]) + Clean(ts[1..])
  {
    hide CleanToken;
  }

  lemma PrintOne(t: Token)
    ensures Print([t]) == PrintToken(t) && Print([]) == []
  {
    hide PrintToken;
    assert [t][1..] == [];
  }

  lemma CleanStep(t: Token, rest: seq<Token>)
    ensures Print(Clean([t] + rest)) == Print(CleanToken(t)) + Print(Clean(rest))
  {
    hide Print, CleanToken, Clean;
    CleanFirst([t] + rest);
    assert ([t] + rest)[1..] == rest;
    PrintConcat(CleanToken(t), Clean(rest));
  }

  lemma CleanWord(arg: string)
    ensures Print(CleanToken(Word(arg)))
         == if arg in ["--dangerously-skip-permissions", "--permission-mode", "--setting-sources"] then []
            else if Assigns(arg, "--setting-sources") then ["--setting-sources=user"] else [arg]
  {
    hide Print, IsSourcesAssignment, IsModeAssignment, Assigns;
    AssignsIsAssignment(arg);
    PrintOne(Word(arg));
    PrintOne(Word("--setting-sources=user"));
    assert SOURCES + "=" + USER == "--setting-sources=user";
  }

  lemma CleanPair(option: string, value: string)
    ensures Print(CleanToken(Pair(option, value))) == [option, if option == "--setting-sources" then "user" else value]
  {
    hide Print;
    PrintOne(Pair(option, value));
    PrintOne(Pair("--setting-sources", "user"));
  }

  lemma PlainPair(args: seq<string>)
    requires StartsPair(args)
    ensures Plain(args) == [args[0], if args[0] == "--setting-sources" then "user" else args[1]] + Plain(args[2..])
  {
    hide IsValue, IsFollowed, Assigns;
    FollowedIsValue(args);
    PairsStart(args);
    NamesDiffer();
  }

  lemma PlainWord(args: seq<string>)
    requires args != [] && !StartsPair(args)
    ensures Plain(args) == Print(CleanToken(Word(args[0]))) + Plain(args[1..])
  {
    hide IsValue, IsFollowed, Assigns, Print, CleanToken;
    FollowedIsValue(args);
    PairsStart(args);
    CleanWord(args[0]);
  }

  lemma {:induction false} CleanIsPlain(args: seq<string>)
    ensures Print(Clean(Tokens(args))) == Plain(args)
  {
    hide StartsPair, Print, Clean, CleanToken, Plain, Tokens, IsValue;
    if args == [] {
      NothingIsPlain();
    } else if StartsPair(args) {
      PairsStart(args);
      TokensOfPair(args);
      CleanStep(Pair(args[0], args[1]), Tokens(args[2..]));
      CleanPair(args[0], args[1]);
      PlainPair(args);
      CleanIsPlain(args[2..]);
    } else {
      TokensOfWord(args);
      CleanStep(Word(args[0]), Tokens(args[1..]));
      PlainWord(args);
      CleanIsPlain(args[1..]);
    }
  }

  lemma NothingIsPlain()
    ensures Plain([]) == [] && Print(Clean(Tokens([]))) == []
  {}

  // ---------------------------------------------------------------------------
  // What is given
  // ---------------------------------------------------------------------------

  lemma GivesFirst(args: seq<string>, option: string)
    requires args != []
    ensures Gives(args, option) == (GivesAt(args, 0, option) || Gives(args[1..], option))
  {
    hide Assigns;
    var rest := args[1..];
    forall i: nat | i < |rest|
      ensures GivesAt(rest, i, option) == GivesAt(args, i + 1, option)
    {
      assert rest[i] == args[i + 1];
      assert IsFollowed(rest, i) == IsFollowed(args, i + 1);
    }
    if i: nat :| i < |args| && GivesAt(args, i, option) && i > 0 {
      assert GivesAt(rest, i - 1, option);
    }
  }

  lemma FirstGives(args: seq<string>)
    requires args != [] && !StartsPair(args)
    ensures GivesAt(args, 0, "--permission-mode") == SetsMode(Word(args[0]))
    ensures GivesAt(args, 0, "--setting-sources") == SetsSources(Word(args[0]))
  {
    hide IsValue, IsFollowed, Assigns, IsSourcesAssignment, IsModeAssignment;
    FollowedIsValue(args);
    PairsStart(args);
    AssignsIsAssignment(args[0]);
  }

  lemma PairGives(args: seq<string>)
    requires StartsPair(args)
    ensures GivesAt(args, 0, "--permission-mode") == SetsMode(Pair(args[0], args[1]))
    ensures GivesAt(args, 0, "--setting-sources") == SetsSources(Pair(args[0], args[1]))
    ensures !GivesAt(args[1..], 0, "--permission-mode") && !GivesAt(args[1..], 0, "--setting-sources")
  {
    hide IsValue, IsFollowed, Assigns, IsSourcesAssignment, IsModeAssignment;
    FollowedIsValue(args);
    PairsStart(args);
    NamesDiffer();
    ValuesAreWords(args[1]);
    AssignsIsAssignment(args[0]);
    AssignsIsAssignment(args[1]);
  }

  lemma HasFirst(t: Token, rest: seq<Token>)
    ensures HasSources([t] + rest) == (SetsSources(t) || HasSources(rest))
    ensures HasMode([t] + rest) == (SetsMode(t) || HasMode(rest))
  {
    hide IsSourcesAssignment, IsModeAssignment, Print, SourcesPass, ModePass;
    SourcesStep(t, rest);
    ModeStep(t, rest);
  }

  lemma {:induction false} GivenExactly(args: seq<string>)
    ensures HasSources(Tokens(args)) == Gives(args, "--setting-sources")
    ensures HasMode(Tokens(args)) == Gives(args, "--permission-mode")
  {
    hide StartsPair, Tokens, IsValue, Gives, GivesAt, HasSources, HasMode, SetsSources, SetsMode;
    if args == [] {
      NothingIsGiven();
    } else {
      GivesFirst(args, "--setting-sources");
      GivesFirst(args, "--permission-mode");
      if StartsPair(args) {
        PairsStart(args);
        TokensOfPair(args);
        PairGives(args);
        HasFirst(Pair(args[0], args[1]), Tokens(args[2..]));
        GivesFirst(args[1..], "--setting-sources");
        GivesFirst(args[1..], "--permission-mode");
        assert args[1..][1..] == args[2..];
        GivenExactly(args[2..]);
      } else {
        TokensOfWord(args);
        FirstGives(args);
        HasFirst(Word(args[0]), Tokens(args[1..]));
        GivenExactly(args[1..]);
      }
    }
  }

  lemma NothingIsGiven()
    ensures !Gives([], "--setting-sources") && !Gives([], "--permission-mode")
    ensures !HasSources(Tokens([])) && !HasMode(Tokens([]))
  {}

  /** The arguments in full: the safe form of those that were given, then the sources of the user if none were
      given, then the mode that bypasses permissions, exactly if no mode was given. */
  lemma NormalizedExactly(args: seq<string>)
    ensures Normalize(args)
         == Plain(args)
            + (if Gives(args, "--setting-sources") then [] else ["--setting-sources", "user"])
            + (if Gives(args, "--permission-mode") then [] else ["--permission-mode", "bypassPermissions"])
  {
    hide Tokens, Print, Normalize, Clean, HasSources, HasMode, Plain, Gives;
    var ts := Tokens(args);
    TwoPassesAreOne(args);
    PrintTokens(Normalize(args));
    CleanIsPlain(args);
    GivenExactly(args);
    var sources := if HasSources(ts) then [] else [Pair(SOURCES, USER)];
    var mode := if HasMode(ts) then [] else [Pair(MODE, BYPASS)];
    PrintConcat(Clean(ts) + sources, mode);
    PrintConcat(Clean(ts), sources);
    PrintOne(Pair(SOURCES, USER));
    PrintOne(Pair(MODE, BYPASS));
  }

  // ---------------------------------------------------------------------------
  // Every mode that was given stays
  // ---------------------------------------------------------------------------

  lemma PlainOfPair(args: seq<string>)
    requires StartsPair(args)
    ensures Plain(args) == Plain([args[0], args[1]]) + Plain(args[2..])
  {
    hide IsValue, Plain, TakesValue;
    PlainPair(args);
    PlainPair([args[0], args[1]]);
    assert [args[0], args[1]][2..] == [];
    NothingIsPlain();
  }

  lemma PlainOfWord(args: seq<string>)
    requires args != [] && !StartsPair(args)
    ensures Plain(args) == Plain([args[0]]) + Plain(args[1..])
  {
    hide IsValue, Plain, Print, CleanToken, TakesValue;
    PlainWord(args);
    PlainWord([args[0]]);
    assert [args[0]][1..] == [];
    NothingIsPlain();
  }

  lemma PlainFirst(args: seq<string>)
    requires args != []
    ensures var step := if StartsPair(args) then 2 else 1;
      step <= |args| && Plain(args) == Plain(args[..step]) + Plain(args[step..])
  {
    hide IsValue, Plain, TakesValue;
    if StartsPair(args) {
      PlainOfPair(args);
      assert args[..2] == [args[0], args[1]];
    } else {
      PlainOfWord(args);
      assert args[..1] == [args[0]];
    }
  }

  lemma StartsAlike(args: seq<string>, more: seq<string>)
    requires args != [] && more != [] && !IsValue(more[0])
    ensures StartsPair(args + more) == StartsPair(args)
  {
    hide IsValue, TakesValue;
    var all := args + more;
    assert all[0] == args[0] && all[1] == if |args| == 1 then more[0] else args[1];
  }

  /** Where the arguments can be cut, their safe form can be cut too. */
  lemma {:induction false} PlainConcat(args: seq<string>, more: seq<string>)
    requires more != [] && !IsValue(more[0])
    ensures Plain(args + more) == Plain(args) + Plain(more)
  {
    hide Plain, IsValue, TakesValue;
    if args == [] {
      assert args + more == more;
      NothingIsPlain();
    } else {
      var all, step := args + more, if StartsPair(args) then 2 else 1;
      PlainFirst(args);
      PlainFirst(all);
      StartsAlike(args, more);
      assert all[..step] == args[..step] && all[step..] == args[step..] + more;
      PlainConcat(args[step..], more);
    }
  }

  /** Every permission mode that stands behind its option is still there, at a place that can be told. */
  lemma GivenModeStays(args: seq<string>, i: nat)
    requires i + 1 < |args| && args[i] == "--permission-mode" && Trim(args[i + 1]) != "" && args[i + 1][0] != '-'
    ensures var k, r := |Plain(args[..i])|, Normalize(args);
      k + 1 < |r| && r[k] == "--permission-mode" && r[k + 1] == args[i + 1]
  {
    hide Plain, Gives, Normalize, Trim;
    assert args == args[..i] + args[i..];
    NamesDiffer();
    PlainConcat(args[..i], args[i..]);
    PlainMode(args[i..]);
    NormalizedExactly(args);
  }

  lemma PlainMode(args: seq<string>)
    requires |args| > 1 && args[0] == "--permission-mode" && Trim(args[1]) != "" && args[1][0] != '-'
    ensures Plain(args) == ["--permission-mode", args[1]] + Plain(args[2..])
  {
    hide Trim;
  }

  /** A user who gives only a mode gets that mode, and no other. */
  lemma OnlyModeIsKept(mode: string)
    requires Trim(mode) != "" && mode[0] != '-'
    ensures Normalize(["--permission-mode", mode]) == ["--permission-mode", mode, "--setting-sources", "user"]
  {
    hide Normalize, Trim, Plain;
    var args := ["--permission-mode", mode];
    NormalizedExactly(args);
    PlainMode(args);
    assert args[2..] == [];
    NothingIsPlain();
    assert GivesAt(args, 0, "--permission-mode");
    assert !GivesAt(args, 0, "--setting-sources");
    assert !GivesAt(args, 1, "--setting-sources");
  }
}
