/** How the Anthropic plugin signs in: what the profiles, their order and the environment say. */
module AnthropicAuth {
  import opened Text

  const CLAUDE_CLI := "claude-cli"
  const ANTHROPIC := "anthropic"

  datatype AuthMode = ApiKey | OAuth | NoAuth

  datatype Profile = Profile(provider: string, mode: string)

  /** The profiles by id, and the ids in order: those listed for Anthropic, then those for the command line. */
  datatype Auth = Auth(profiles: map<string, Profile>, order: seq<string>)

  /** The two variables of the environment that count. */
  datatype Environment = Environment(oauthToken: Option<string>, apiKey: Option<string>)

  predicate IsOurs(p: Profile) { p.provider == ANTHROPIC || p.provider == CLAUDE_CLI }

  predicate IsTokenMode(mode: string) { mode == "oauth" || mode == "token" }

  predicate IsSet(variable: Option<string>) { NormalizeOptional(variable).Some? }

  /** `resolveAnthropicDefaultAuthMode`. */
  method ResolveAuthMode(auth: Auth, env: Environment) returns (mode: AuthMode)
    ensures mode == Resolved(auth, env)
  {
    for i := 0 to |auth.order|
      invariant Ordered(auth.profiles, auth.order) == Ordered(auth.profiles, auth.order[i..])
    {
      var profileId := auth.order[i];
      assert auth.order[i..] == [profileId] + auth.order[i + 1..];
      if profileId !in auth.profiles || !IsOurs(auth.profiles[profileId]) {
        continue;
      }
      var entry := auth.profiles[profileId];
      if entry.provider == CLAUDE_CLI {
        return OAuth;
      }
      if entry.mode == "api_key" {
        return ApiKey;
      }
      if IsTokenMode(entry.mode) {
        return OAuth;
      }
    }
    var ours := set id | id in auth.profiles && IsOurs(auth.profiles[id]) :: auth.profiles[id];
    var hasApiKey := exists p <- ours :: p.provider == ANTHROPIC && p.mode == "api_key";
    var hasOauth := exists p <- ours :: p.provider == CLAUDE_CLI || IsTokenMode(p.mode);
    SomeVote(auth.profiles, ours);
    if hasApiKey && !hasOauth {
      return ApiKey;
    }
    if hasOauth && !hasApiKey {
      return OAuth;
    }
    if IsSet(env.oauthToken) {
      return OAuth;
    }
    if IsSet(env.apiKey) {
      return ApiKey;
    }
    return NoAuth;
  }

  /** What one profile says. */
  function Vote(p: Profile): AuthMode {
    if p.provider == CLAUDE_CLI || (p.provider == ANTHROPIC && IsTokenMode(p.mode)) then OAuth
    else if p.provider == ANTHROPIC && p.mode == "api_key" then ApiKey
    else NoAuth
  }

  /** What the first profile in the order that says anything says. */
  function Ordered(profiles: map<string, Profile>, order: seq<string>): AuthMode {
    if order == [] then NoAuth
    else if order[0] in profiles && Vote(profiles[order[0]]) != NoAuth then Vote(profiles[order[0]])
    else Ordered(profiles, order[1..])
  }

  ghost predicate SomeoneSays(profiles: map<string, Profile>, mode: AuthMode) {
    exists id <- profiles :: Vote(profiles[id]) == mode
  }

  /** The order decides, or else all profiles if they agree, or else the environment. */
  ghost function Resolved(auth: Auth, env: Environment): AuthMode {
    if Ordered(auth.profiles, auth.order) != NoAuth then Ordered(auth.profiles, auth.order)
    else if SomeoneSays(auth.profiles, ApiKey) != SomeoneSays(auth.profiles, OAuth)
    then (if SomeoneSays(auth.profiles, ApiKey) then ApiKey else OAuth)
    else if IsSet(env.oauthToken) then OAuth
    else if IsSet(env.apiKey) then ApiKey
    else NoAuth
  }

  lemma SomeVote(profiles: map<string, Profile>, ours: set<Profile>)
    requires ours == set id | id in profiles && IsOurs(profiles[id]) :: profiles[id]
    ensures SomeoneSays(profiles, ApiKey) <==> exists p <- ours :: p.provider == ANTHROPIC && p.mode == "api_key"
    ensures SomeoneSays(profiles, OAuth) <==> exists p <- ours :: p.provider == CLAUDE_CLI || IsTokenMode(p.mode)
  {
    VotesDiffer();
    if id :| id in profiles && Vote(profiles[id]) == ApiKey { assert profiles[id] in ours; }
    if id :| id in profiles && Vote(profiles[id]) == OAuth { assert profiles[id] in ours; }
    if p :| p in ours && p.provider == ANTHROPIC && p.mode == "api_key" {
      var id :| id in profiles && IsOurs(profiles[id]) && profiles[id] == p;
      assert Vote(profiles[id]) == ApiKey;
    }
    if p :| p in ours && (p.provider == CLAUDE_CLI || IsTokenMode(p.mode)) {
      var id :| id in profiles && IsOurs(profiles[id]) && profiles[id] == p;
      assert Vote(profiles[id]) == OAuth;
    }
  }

  lemma VotesDiffer()
    ensures ANTHROPIC != CLAUDE_CLI && !IsTokenMode("api_key")
  {
    assert ANTHROPIC[0] != CLAUDE_CLI[0];
    assert |"api_key"| == 7 && |"oauth"| == 5 && |"token"| == 5;
  }

  // ---------------------------------------------------------------------------
  // What the answer means
  // ---------------------------------------------------------------------------

  predicate UsesKey(p: Profile) { p.provider == "anthropic" && p.mode == "api_key" }

  predicate UsesToken(p: Profile) {
    p.provider == "claude-cli" || (p.provider == "anthropic" && (p.mode == "oauth" || p.mode == "token"))
  }

  /** Id number `i` of the order belongs to a profile with a key or with a token. */
  predicate SpeaksAt(auth: Auth, i: nat)
    requires i < |auth.order|
  {
    auth.order[i] in auth.profiles && (UsesKey(auth.profiles[auth.order[i]]) || UsesToken(auth.profiles[auth.order[i]]))
  }

  predicate IsNotBlank(variable: Option<string>) { variable.Some? && Trim(variable.value) != "" }

  lemma VoteMeaning(p: Profile)
    ensures Vote(p) == if UsesToken(p) then OAuth else if UsesKey(p) then ApiKey else NoAuth
    ensures !(UsesKey(p) && UsesToken(p))
  {
    VotesDiffer();
  }

  lemma {:induction false} FirstSpeaks(auth: Auth, order: seq<string>, i: nat)
    requires i < |order| && SpeaksAt(auth.(order := order), i)
    requires forall j: nat | j < i :: !SpeaksAt(auth.(order := order), j)
    ensures Ordered(auth.profiles, order) == if UsesToken(auth.profiles[order[i]]) then OAuth else ApiKey
  {
    if order[0] in auth.profiles { VoteMeaning(auth.profiles[order[0]]); }
    hide Vote, UsesKey, UsesToken;
    if i > 0 {
      var rest := order[1..];
      assert !SpeaksAt(auth.(order := order), 0);
      assert forall j: nat | j < |rest| :: SpeaksAt(auth.(order := rest), j) == SpeaksAt(auth.(order := order), j + 1);
      FirstSpeaks(auth, rest, i - 1);
    }
  }

  lemma {:induction false} NoneSpeaks(auth: Auth, order: seq<string>)
    requires forall j: nat | j < |order| :: !SpeaksAt(auth.(order := order), j)
    ensures Ordered(auth.profiles, order) == NoAuth
  {
    if order != [] {
      if order[0] in auth.profiles { VoteMeaning(auth.profiles[order[0]]); }
      hide Vote, UsesKey, UsesToken;
      var rest := order[1..];
      assert !SpeaksAt(auth.(order := order), 0);
      assert forall j: nat | j < |rest| :: SpeaksAt(auth.(order := rest), j) == SpeaksAt(auth.(order := order), j + 1);
      NoneSpeaks(auth, rest);
    }
  }

  /** The first id in the order whose profile has a key or a token decides. */
  lemma FirstInOrderDecides(auth: Auth, env: Environment, i: nat)
    requires i < |auth.order| && SpeaksAt(auth, i) && forall j: nat | j < i :: !SpeaksAt(auth, j)
    ensures Resolved(auth, env) == if UsesToken(auth.profiles[auth.order[i]]) then OAuth else ApiKey
  {
    hide UsesKey, UsesToken;
    assert auth.(order := auth.order) == auth;
    FirstSpeaks(auth, auth.order, i);
  }

  /** When no id in the order decides, all profiles do if they agree: only keys, or only tokens. If there are both,
      or neither, a token in the environment comes before a key, and without either there is no way to sign in. */
  lemma OtherwiseAllDecide(auth: Auth, env: Environment)
    requires forall j: nat | j < |auth.order| :: !SpeaksAt(auth, j)
    ensures var key, token := exists id <- auth.profiles :: UsesKey(auth.profiles[id]),
                              exists id <- auth.profiles :: UsesToken(auth.profiles[id]);
      Resolved(auth, env)
        == if key && !token then ApiKey
           else if token && !key then OAuth
           else if IsNotBlank(env.oauthToken) then OAuth
           else if IsNotBlank(env.apiKey) then ApiKey
           else NoAuth
  {
    assert auth.(order := auth.order) == auth;
    NoneSpeaks(auth, auth.order);
    forall id <- auth.profiles
      ensures var p := auth.profiles[id]; (Vote(p) == ApiKey) == UsesKey(p) && (Vote(p) == OAuth) == UsesToken(p)
    {
      VoteMeaning(auth.profiles[id]);
    }
    hide Vote, UsesKey, UsesToken, Ordered, Trim;
    assert SomeoneSays(auth.profiles, ApiKey) == exists id <- auth.profiles :: UsesKey(auth.profiles[id]);
    assert SomeoneSays(auth.profiles, OAuth) == exists id <- auth.profiles :: UsesToken(auth.profiles[id]);
  }
}
