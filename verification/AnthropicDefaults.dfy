/** The defaults that the Anthropic plugin adds to the configuration of the agents. */
module AnthropicDefaults {
  import opened Text
  import opened JsonRecords
  import opened AnthropicAuth

  /** How names are normalised: providers by `normalizeProviderId`, others to lower case without white space around. */
  datatype Naming = Naming(provider: string -> string, lower: string -> string)

  const CLAUDE_CLI_DEFAULT_ALLOWLIST_REFS := [
    "claude-cli/claude-sonnet-4-6", "claude-cli/claude-opus-4-6", "claude-cli/claude-opus-4-5",
    "claude-cli/claude-sonnet-4-5", "claude-cli/claude-haiku-4-5"
  ]

  // ---------------------------------------------------------------------------
  // References to models
  // ---------------------------------------------------------------------------

  datatype Ref = Ref(provider: string, model: string)

  /** `parseProviderModelRef` with the default provider `anthropic`. */
  function Parse(raw: string, names: Naming): Option<Ref> {
    var trimmed := Trim(raw);
    if trimmed == "" then None else
    var slash := IndexOf(trimmed, "/", 0);
    if slash <= 0 then Some(Ref("anthropic", trimmed)) else
    var provider, model := Trim(trimmed[..slash]), Trim(trimmed[slash + 1..]);
    if provider == "" || model == "" then None else Some(Ref(names.provider(provider), model))
  }

  /** `isAnthropicCacheRetentionTarget`. */
  predicate IsTarget(ref: Option<Ref>, names: Naming) {
    ref.Some? && (ref.value.provider == "anthropic"
      || (ref.value.provider == "amazon-bedrock" && IndexOf(names.lower(ref.value.model), "anthropic.claude", 0) >= 0))
  }

  /** `resolveModelPrimaryValue`. */
  function PrimaryValue(model: Json): Option<string> {
    match model
    case Text(text) => NormalizeOptional(Some(text))
    case Rec(_) => if Get(model, "primary").Text? then NormalizeOptional(Some(Get(model, "primary").text)) else None
    case _ => None
  }

  /** `resolveAnthropicPrimaryModelRef`. */
  function PrimaryRef(model: Json, names: Naming): Option<string> {
    var primary := PrimaryValue(model);
    if primary.None? then None
    else if names.lower(primary.value) == "opus" then Some("anthropic/claude-opus-4-6")
    else if names.lower(primary.value) == "sonnet" then Some("anthropic/claude-sonnet-4-6")
    else primary
  }

  /** The entry of the primary model, if its cache is to be kept. */
  function PrimaryKey(model: Json, names: Naming): Option<string> {
    var primary := PrimaryRef(model, names);
    var ref := if primary.Some? then Parse(primary.value, names) else None;
    if IsTarget(ref, names) then Some(ref.value.provider + "/" + ref.value.model) else None
  }

  predicate IsCliRef(raw: string, names: Naming) {
    var ref := Parse(raw, names);
    ref.Some? && ref.value.provider == CLAUDE_CLI
  }

  /** `usesClaudeCliModelSelection`. */
  predicate UsesCli(models: Json, model: Json, names: Naming) {
    var primary := PrimaryValue(model);
    (primary.Some? && IsCliRef(primary.value, names)) || exists key <- RecordOr(models).fields :: IsCliRef(key, names)
  }

  // ---------------------------------------------------------------------------
  // The three fields
  // ---------------------------------------------------------------------------

  const NULL := Other("null")

  predicate IsNullish(j: Json) { j == Undefined || j == NULL }

  /** The context pruning with its defaults. */
  function Pruning(j: Json): Json {
    var r := RecordOr(j);
    if Get(r, "mode") != Undefined then j else
    Put(Put(r, "mode", Text("cache-ttl")), "ttl", if IsNullish(Get(r, "ttl")) then Text("1h") else Get(r, "ttl"))
  }

  /** The heartbeat with its default. */
  function Heartbeat(j: Json, mode: AuthMode): Json {
    var r := RecordOr(j);
    if Get(r, "every") != Undefined then j else Put(r, "every", Text(if mode == OAuth then "1h" else "30m"))
  }

  function Retention(entry: Json): Json {
    Get(RecordOr(Get(RecordOr(entry), "params")), "cacheRetention")
  }

  /** A model's entry with its cache kept for a short time, unless it says how long. */
  function Retained(entry: Json): Json {
    if Retention(entry).Text? then entry else
    var r := RecordOr(entry);
    Put(r, "params", Put(RecordOr(Get(r, "params")), "cacheRetention", Text("short")))
  }

  function RetainedModels(models: Record, names: Naming): Record {
    Rec(map key | key in models.fields ::
      if IsTarget(Parse(key, names), names) then Retained(models.fields[key]) else models.fields[key])
  }

  function RetainedPrimary(models: Record, primary: Option<string>): Record {
    if primary.None? || Retention(Get(models, primary.value)).Text? then models
    else Put(models, primary.value, Retained(Get(models, primary.value)))
  }

  function Allowed(models: Record, refs: seq<string>): Record {
    if refs == [] then models else
    var front, last := Allowed(models, refs[..|refs| - 1]), refs[|refs| - 1];
    if last in front.fields then front else Put(front, last, Rec(map[]))
  }

  /** The model entries with their defaults. */
  function Models(models: Json, model: Json, mode: AuthMode, names: Naming): Json {
    var r := RecordOr(models);
    var next := match mode
      case ApiKey => RetainedPrimary(RetainedModels(r, names), PrimaryKey(model, names))
      case OAuth => if UsesCli(models, model, names) then Allowed(r, CLAUDE_CLI_DEFAULT_ALLOWLIST_REFS) else r
      case NoAuth => r;
    if next == r then models else next
  }

  /** Assigns a field if that changes it. */
  function Adjust(r: Record, key: string, value: Json): Record {
    if value == Get(r, key) then r else Put(r, key, value)
  }

  /** The agents' defaults after `applyAnthropicConfigDefaults`. */
  function Applied(d: Record, mode: AuthMode, names: Naming): Record {
    if mode == NoAuth then d else
    Adjust(Adjust(Adjust(d,
      "contextPruning", Pruning(Get(d, "contextPruning"))),
      "heartbeat", Heartbeat(Get(d, "heartbeat"), mode)),
      "models", Models(Get(d, "models"), Get(d, "model"), mode, names))
  }

  function AppliedToConfig(config: Record, mode: AuthMode, names: Naming): Record {
    var agents := Get(config, "agents");
    if !agents.Rec? || !Get(agents, "defaults").Rec? then config
    else Adjust(config, "agents", Adjust(agents, "defaults", Applied(Get(agents, "defaults"), mode, names)))
  }

  /** `applyAnthropicConfigDefaults`, for any way to read the `auth` field. */
  ghost function WithDefaults(config: Record, env: Environment, readAuth: Json -> Auth, names: Naming): Record {
    AppliedToConfig(config, Resolved(readAuth(Get(config, "auth")), env), names)
  }

  // ---------------------------------------------------------------------------
  // Once is enough
  // ---------------------------------------------------------------------------

  lemma AdjustMeaning(r: Record, key: string, value: Json, other: string)
    ensures Get(Adjust(r, key, value), other) == if other == key then value else Get(r, other)
  {
    hide Inherited;
  }

  lemma FieldsDiffer()
    ensures "contextPruning" != "heartbeat" && "contextPruning" != "models" && "heartbeat" != "models"
    ensures "model" != "models" && "model" != "heartbeat" && "model" != "contextPruning"
    ensures "mode" != "ttl"
  {
    assert |"contextPruning"| == 14 && |"heartbeat"| == 9 && |"models"| == 6 && |"model"| == 5;
    assert |"mode"| == 4 && |"ttl"| == 3;
  }

  lemma AppliedFields(d: Record, mode: AuthMode, names: Naming)
    requires mode != NoAuth
    ensures var a := Applied(d, mode, names);
      && Get(a, "contextPruning") == Pruning(Get(d, "contextPruning"))
      && Get(a, "heartbeat") == Heartbeat(Get(d, "heartbeat"), mode)
      && Get(a, "models") == Models(Get(d, "models"), Get(d, "model"), mode, names)
      && Get(a, "model") == Get(d, "model")
  {
    hide Adjust, Pruning, Heartbeat, Models, Get;
    FieldsDiffer();
    var p := Pruning(Get(d, "contextPruning"));
    var h := Heartbeat(Get(d, "heartbeat"), mode);
    var m := Models(Get(d, "models"), Get(d, "model"), mode, names);
    var d1 := Adjust(d, "contextPruning", p);
    var d2 := Adjust(d1, "heartbeat", h);
    forall key | key in {"contextPruning", "heartbeat", "models", "model"}
      ensures Get(Adjust(d2, "models", m), key) == if key == "models" then m else Get(d2, key)
      ensures Get(d2, key) == if key == "heartbeat" then h else Get(d1, key)
      ensures Get(d1, key) == if key == "contextPruning" then p else Get(d, key)
    {
      AdjustMeaning(d, "contextPruning", p, key);
      AdjustMeaning(d1, "heartbeat", h, key);
      AdjustMeaning(d2, "models", m, key);
    }
  }

  lemma PruningTwice(j: Json)
    ensures Pruning(Pruning(j)) == Pruning(j)
  {
    hide Inherited;
    FieldsDiffer();
  }

  lemma HeartbeatTwice(j: Json, mode: AuthMode)
    ensures Heartbeat(Heartbeat(j, mode), mode) == Heartbeat(j, mode)
  {
    hide Inherited;
  }

  lemma RetainedIsText(entry: Json)
    ensures Retention(Retained(entry)).Text?
  {
    hide Inherited;
  }

  lemma RetainedModelsTwice(models: Record, primary: Option<string>, names: Naming)
    ensures var once := RetainedPrimary(RetainedModels(models, names), primary);
      RetainedPrimary(RetainedModels(once, names), primary) == once
  {
    hide Inherited, Retention, Retained, IsTarget, Parse;
    var once := RetainedPrimary(RetainedModels(models, names), primary);
    forall key | key in once.fields && IsTarget(Parse(key, names), names)
      ensures Retained(once.fields[key]) == once.fields[key]
    {
      if key in models.fields { RetainedIsText(models.fields[key]); }
      RetainedIsText(Get(RetainedModels(models, names), key));
      TextIsRetained(once.fields[key]);
    }
    assert RetainedModels(once, names).fields == once.fields;
    if primary.Some? { RetainedIsText(Get(RetainedModels(models, names), primary.value)); }
  }

  lemma TextIsRetained(entry: Json)
    ensures Retention(entry).Text? <==> Retained(entry) == entry
  {
    hide Inherited;
    RetainedIsText(entry);
  }

  lemma {:induction false} AllowedMeaning(models: Record, refs: seq<string>)
    ensures var a := Allowed(models, refs);
      && (forall key :: key in a.fields <==> key in models.fields || key in refs)
      && (forall key | key in models.fields :: a.fields[key] == models.fields[key])
      && (forall key | key in refs && key !in models.fields :: a.fields[key] == Rec(map[]))
  {
    if refs != [] {
      var front, last := refs[..|refs| - 1], refs[|refs| - 1];
      assert refs == front + [last];
      AllowedMeaning(models, front);
    }
  }

  lemma {:induction false} AllowedTwice(models: Record, refs: seq<string>)
    requires forall ref <- refs :: ref in models.fields
    ensures Allowed(models, refs) == models
  {
    if refs != [] {
      var front := refs[..|refs| - 1];
      assert forall ref <- front :: ref in refs;
      AllowedTwice(models, front);
      assert refs[|refs| - 1] in refs;
    }
  }

  lemma StillUsesCli(models: Json, next: Record, model: Json, names: Naming)
    requires UsesCli(models, model, names) && RecordOr(models).fields.Keys <= next.fields.Keys
    ensures UsesCli(next, model, names)
  {
    hide IsCliRef, PrimaryValue;
  }

  lemma ModelsTwice(models: Json, model: Json, mode: AuthMode, names: Naming)
    ensures var once := Models(models, model, mode, names);
      Models(once, model, mode, names) == once
  {
    hide PrimaryKey, RetainedPrimary, RetainedModels, Allowed, UsesCli;
    var r := RecordOr(models);
    match mode
    case ApiKey =>
      RetainedModelsTwice(r, PrimaryKey(model, names), names);
    case OAuth =>
      AllowedMeaning(r, CLAUDE_CLI_DEFAULT_ALLOWLIST_REFS);
      var next := Allowed(r, CLAUDE_CLI_DEFAULT_ALLOWLIST_REFS);
      AllowedTwice(next, CLAUDE_CLI_DEFAULT_ALLOWLIST_REFS);
      if UsesCli(models, model, names) { StillUsesCli(models, next, model, names); }
    case NoAuth =>
  }

  lemma AppliedTwice(d: Record, mode: AuthMode, names: Naming)
    ensures Applied(Applied(d, mode, names), mode, names) == Applied(d, mode, names)
  {
    hide Pruning, Heartbeat, Models, Get;
    if mode != NoAuth {
      AppliedFields(d, mode, names);
      PruningTwice(Get(d, "contextPruning"));
      HeartbeatTwice(Get(d, "heartbeat"), mode);
      ModelsTwice(Get(d, "models"), Get(d, "model"), mode, names);
    }
  }

  lemma AppliedToConfigTwice(config: Record, mode: AuthMode, names: Naming)
    ensures var once := AppliedToConfig(config, mode, names);
      AppliedToConfig(once, mode, names) == once && Get(once, "auth") == Get(config, "auth")
  {
    hide Applied, Inherited;
    var agents := Get(config, "agents");
    assert |"agents"| == 6 && |"auth"| == 4;
    if agents.Rec? && Get(agents, "defaults").Rec? {
      AppliedTwice(Get(agents, "defaults"), mode, names);
    }
  }

  /** Applying the defaults again changes nothing, whatever the configuration, the environment and the way to sign in. */
  lemma ApplyingTwice(config: Record, env: Environment, readAuth: Json -> Auth, names: Naming)
    ensures var once := WithDefaults(config, env, readAuth, names);
      WithDefaults(once, env, readAuth, names) == once
  {
    hide AppliedToConfig, Resolved, Get;
    AppliedToConfigTwice(config, Resolved(readAuth(Get(config, "auth")), env), names);
  }

  // ---------------------------------------------------------------------------
  // What is set stays, and what is missing is set
  // ---------------------------------------------------------------------------

  /** Where a null counts as nothing: in the place of a record, or of the time to live. */
  predicate NullIsNothing(p: Path) {
    || p in {["contextPruning"], ["contextPruning", "ttl"], ["heartbeat"], ["models"]}
    || (|p| == 2 && p[0] == "models") || (|p| == 3 && p[0] == "models" && p[2] == "params")
  }

  /** A value that no default replaces: no record, no null that counts as nothing, and text where a cache
      retention stands. */
  predicate IsFixed(j: Json, p: Path) {
    && IsLeaf(At(j, p)) && (At(j, p) == NULL ==> !NullIsNothing(p))
    && (|p| >= 4 && p[0] == "models" && p[2] == "params" && p[3] == "cacheRetention" ==> |p| == 4 && At(j, p).Text?)
  }

  /** Records stand where records are expected, or nothing. */
  predicate IsShaped(d: Record) {
    && IsRecordOrNothing(Get(d, "contextPruning")) && IsRecordOrNothing(Get(d, "heartbeat"))
    && IsRecordOrNothing(Get(d, "models"))
    && forall key <- RecordOr(Get(d, "models")).fields :: IsShapedEntry(RecordOr(Get(d, "models")).fields[key])
  }

  predicate IsRecordOrNothing(j: Json) { j.Rec? || IsNullish(j) }

  predicate IsShapedEntry(entry: Json) {
    IsRecordOrNothing(entry) && IsRecordOrNothing(Get(RecordOr(entry), "params"))
  }

  lemma PruningKeeps(j: Json, p: Path)
    requires IsRecordOrNothing(j) && IsLeaf(At(j, p)) && (At(j, p) == NULL ==> p != [] && p != ["ttl"])
    ensures At(Pruning(j), p) == At(j, p)
  {
    hide Inherited, At;
    FieldsDiffer();
    AtStep(j, p);
    AtStep(Pruning(j), p);
    if p != [] {
      var r := RecordOr(j);
      if p[0] in r.fields { AtStep(r.fields[p[0]], p[1..]); }
      AtStep(Undefined, p[1..]);
    }
  }

  lemma AtStep(j: Json, p: Path)
    ensures At(j, p) == if p == [] then j else if j.Rec? && p[0] in j.fields then At(j.fields[p[0]], p[1..]) else Undefined
    ensures !j.Rec? && p != [] ==> At(j, p) == Undefined
  {}

  lemma HeartbeatKeeps(j: Json, mode: AuthMode, p: Path)
    requires IsRecordOrNothing(j) && IsLeaf(At(j, p)) && (At(j, p) == NULL ==> p != [])
    ensures At(Heartbeat(j, mode), p) == At(j, p)
  {
    hide Inherited, At;
    AtStep(j, p);
    AtStep(Heartbeat(j, mode), p);
    AtStep(Undefined, if p == [] then [] else p[1..]);
  }

  /** A leaf of an entry stays, unless it is a retention that is no text. */
  lemma RetainedKeeps(entry: Json, p: Path)
    requires IsShapedEntry(entry) && IsLeaf(At(entry, p)) && (At(entry, p) == NULL ==> p != [] && p != ["params"])
    requires |p| >= 2 && p[0] == "params" && p[1] == "cacheRetention" ==> |p| == 2 && At(entry, p).Text?
    ensures At(Retained(entry), p) == At(entry, p)
  {
    hide Inherited, At;
    if Retained(entry) != entry {
      var r := RecordOr(entry);
      var params := RecordOr(Get(r, "params"));
      var params' := Put(params, "cacheRetention", Text("short"));
      AtStep(entry, p);
      AtStep(Put(r, "params", params'), p);
      if p != [] && p[0] == "params" {
        var rest := p[1..];
        AtStep(r.fields["params"], rest);
        AtStep(params', rest);
        if rest != [] && rest[0] == "cacheRetention" {
          AtStep(params.fields["cacheRetention"], rest[1..]);
        }
      }
    }
  }

  /** What becomes of one entry of the models. */
  lemma RetainedEntry(models: Record, primary: Option<string>, names: Naming, key: string)
    requires key in models.fields
    ensures var next := RetainedPrimary(RetainedModels(models, names), primary).fields;
      key in next && next[key] in {models.fields[key], Retained(models.fields[key])}
  {
    hide Inherited, Retention, Retained, IsTarget, Parse;
    TextIsRetained(Retained(models.fields[key]));
    RetainedIsText(models.fields[key]);
  }

  lemma ModelsKeep(models: Json, model: Json, mode: AuthMode, names: Naming, p: Path)
    requires IsRecordOrNothing(models) && IsLeaf(At(models, p))
    requires At(models, p) == NULL ==> |p| > 1 && !(|p| == 2 && p[1] == "params")
    requires forall key <- RecordOr(models).fields :: IsShapedEntry(RecordOr(models).fields[key])
    requires |p| >= 3 && p[1] == "params" && p[2] == "cacheRetention" ==> |p| == 3 && At(models, p).Text?
    ensures At(Models(models, model, mode, names), p) == At(models, p)
  {
    hide Inherited, At, PrimaryKey, RetainedPrimary, RetainedModels, Allowed, UsesCli, Retained, IsShapedEntry, IsLeaf;
    var r, next := RecordOr(models), Models(models, model, mode, names);
    AtStep(models, p);
    AtStep(next, p);
    AtIsNoLeaf(models, p);
    var entry := models.fields[p[0]];
    match mode
    case ApiKey =>
      RetainedEntry(r, PrimaryKey(model, names), names, p[0]);
      RetainedKeeps(entry, p[1..]);
    case OAuth => AllowedMeaning(r, CLAUDE_CLI_DEFAULT_ALLOWLIST_REFS);
    case NoAuth =>
  }

  lemma AtIsNoLeaf(j: Json, p: Path)
    requires IsRecordOrNothing(j) && IsLeaf(At(j, p)) && (At(j, p) == NULL ==> p != [])
    ensures p != [] && j.Rec? && p[0] in j.fields && At(j, p) == At(j.fields[p[0]], p[1..])
  {
    hide At;
    AtStep(j, p);
  }

  /** Whatever is set stays set as it is, everywhere in the agents' defaults. */
  lemma SetValuesStay(d: Record, mode: AuthMode, names: Naming, p: Path)
    requires IsShaped(d) && IsFixed(d, p)
    ensures At(Applied(d, mode, names), p) == At(d, p)
  {
    if mode != NoAuth {
      hide Inherited, At, Pruning, Heartbeat, Models, IsShapedEntry, IsLeaf, Adjust, NullIsNothing;
      AtStep(d, p);
      LeafIsUnder(d, p);
      if At(d, p) == NULL { NullPlaces(p); }
      AppliedFields(d, mode, names);
      OtherFields(d, mode, names, p[0]);
      var a, key, rest := Applied(d, mode, names), p[0], p[1..];
      AtStep(a, p);
      if key == "contextPruning" {
        PruningKeeps(d.fields[key], rest);
      } else if key == "heartbeat" {
        HeartbeatKeeps(d.fields[key], mode, rest);
      } else if key == "models" {
        ModelsKeep(d.fields[key], Get(d, "model"), mode, names, rest);
      }
    }
  }

  lemma NullPlaces(p: Path)
    requires !NullIsNothing(p) && p != []
    ensures p[0] == "contextPruning" ==> p[1..] != [] && p[1..] != ["ttl"]
    ensures p[0] == "heartbeat" || p[0] == "models" ==> p[1..] != []
    ensures p[0] == "models" ==> |p[1..]| > 1 && !(|p[1..]| == 2 && p[1..][1] == "params")
  {
    assert p == [p[0]] + p[1..];
    assert p[1..] == [] ==> p == [p[0]];
    assert p[1..] == ["ttl"] ==> p == [p[0], "ttl"];
  }

  lemma LeafIsUnder(d: Record, p: Path)
    requires IsLeaf(At(d, p))
    ensures p != [] && p[0] in d.fields && At(d, p) == At(d.fields[p[0]], p[1..])
  {}

  lemma OtherFields(d: Record, mode: AuthMode, names: Naming, key: string)
    requires key in d.fields
    ensures key in Applied(d, mode, names).fields
    ensures key !in {"contextPruning", "heartbeat", "models"} ==> Applied(d, mode, names).fields[key] == d.fields[key]
  {
    hide Inherited, Pruning, Heartbeat, Models;
  }

  /** Once the way to sign in is known, what is missing is set: the pruning mode and its time to live, the
      heartbeat, the cache retention of every Anthropic model and of the primary one, and the models of the
      command line where that is used. */
  lemma DefaultsAreSet(d: Record, mode: AuthMode, names: Naming)
    requires mode != NoAuth
    ensures var before, after := RecordOr(Get(d, "contextPruning")), RecordOr(Get(Applied(d, mode, names), "contextPruning"));
      Get(before, "mode") == Undefined ==>
        && Get(after, "mode") == Text("cache-ttl")
        && Get(after, "ttl") == if Get(before, "ttl") in {Undefined, Other("null")} then Text("1h") else Get(before, "ttl")
    ensures var before, after := RecordOr(Get(d, "heartbeat")), RecordOr(Get(Applied(d, mode, names), "heartbeat"));
      Get(before, "every") == Undefined ==> Get(after, "every") == Text(if mode == OAuth then "1h" else "30m")
    ensures var before, after := RecordOr(Get(d, "models")), RecordOr(Get(Applied(d, mode, names), "models"));
      ModelDefaultsAreSet(before, after, Get(d, "models"), Get(d, "model"), mode, names)
  {
    hide Inherited, Models, Get, ModelDefaultsAreSet;
    AppliedFields(d, mode, names);
    PruningIsSet(Get(d, "contextPruning"));
    HeartbeatIsSet(Get(d, "heartbeat"), mode);
    ModelsAreSet(Get(d, "models"), Get(d, "model"), mode, names);
  }

  /** The retention that an entry has, or else a short one. */
  function RetentionOr(entry: Json): Json {
    if Retention(entry).Text? then Retention(entry) else Text("short")
  }

  /** What the model entries have to be after the defaults are applied. */
  ghost predicate ModelDefaultsAreSet(before: Record, after: Record, models: Json, model: Json, mode: AuthMode,
                                      names: Naming)
  {
    && (mode == ApiKey ==>
         && after.fields.Keys == before.fields.Keys + PrimaryKeys(model, names)
         && forall key <- after.fields | IsTarget(Parse(key, names), names) || key in PrimaryKeys(model, names) ::
              Retention(after.fields[key]) == RetentionOr(Get(before, key)))
    && (mode == OAuth && UsesCli(models, model, names) ==>
         forall ref <- CLAUDE_CLI_DEFAULT_ALLOWLIST_REFS ::
           ref in after.fields && after.fields[ref] == if ref in before.fields then before.fields[ref] else Rec(map[]))
  }

  function PrimaryKeys(model: Json, names: Naming): set<string> {
    if PrimaryKey(model, names).Some? then {PrimaryKey(model, names).value} else {}
  }

  lemma PruningIsSet(j: Json)
    ensures var before, after := RecordOr(j), RecordOr(Pruning(j));
      Get(before, "mode") == Undefined ==>
        && Get(after, "mode") == Text("cache-ttl")
        && Get(after, "ttl") == if IsNullish(Get(before, "ttl")) then Text("1h") else Get(before, "ttl")
  {
    hide Inherited;
    FieldsDiffer();
  }

  lemma HeartbeatIsSet(j: Json, mode: AuthMode)
    ensures Get(RecordOr(j), "every") == Undefined ==>
      Get(RecordOr(Heartbeat(j, mode)), "every") == Text(if mode == OAuth then "1h" else "30m")
  {
    hide Inherited;
  }

  lemma RetainedSays(entry: Json)
    ensures Retention(Retained(entry)) == RetentionOr(entry)
  {
    hide Inherited;
  }

  lemma ModelsAreSet(models: Json, model: Json, mode: AuthMode, names: Naming)
    ensures ModelDefaultsAreSet(RecordOr(models), RecordOr(Models(models, model, mode, names)), models, model, mode, names)
  {
    hide Inherited, Retention, Retained, RetentionOr, IsTarget, Parse, PrimaryKey, UsesCli, Allowed, RetainedPrimary, RetainedModels;
    var r := RecordOr(models);
    match mode
    case ApiKey => RetainedAreSet(r, PrimaryKey(model, names), names);
    case OAuth => AllowedMeaning(r, CLAUDE_CLI_DEFAULT_ALLOWLIST_REFS);
    case NoAuth =>
  }

  lemma RetainedAreSet(models: Record, primary: Option<string>, names: Naming)
    ensures var after := RetainedPrimary(RetainedModels(models, names), primary);
      && after.fields.Keys == models.fields.Keys + (if primary.Some? then {primary.value} else {})
      && forall key <- after.fields | IsTarget(Parse(key, names), names) || primary == Some(key) ::
           Retention(after.fields[key]) == RetentionOr(Get(models, key))
  {
    hide Inherited, Retention, Retained, IsTarget, Parse;
    var swept := RetainedModels(models, names);
    var after := RetainedPrimary(swept, primary);
    forall key <- after.fields | IsTarget(Parse(key, names), names) || primary == Some(key)
      ensures Retention(after.fields[key]) == RetentionOr(Get(models, key))
    {
      RetainedSays(Get(models, key));
      RetainedSays(Get(swept, key));
    }
    if primary.Some? { TextIsOwn(swept, primary.value); }
  }

  lemma TextIsOwn(models: Record, key: string)
    ensures Retention(Get(models, key)).Text? ==> key in models.fields
  {
    hide Inherited;
  }

  // ---------------------------------------------------------------------------
  // The code
  // ---------------------------------------------------------------------------

  ghost function RetainedPartly(models: Record, done: set<string>, names: Naming): Record {
    Rec(map key | key in models.fields ::
      if key in done && IsTarget(Parse(key, names), names) then Retained(models.fields[key]) else models.fields[key])
  }

  lemma RetainStep(models: Record, done: set<string>, names: Naming, key: string)
    requires key in models.fields && key !in done
    ensures var now, next := RetainedPartly(models, done, names), RetainedPartly(models, done + {key}, names);
      && now.fields.Keys == models.fields.Keys && now.fields[key] == models.fields[key]
      && next == if IsTarget(Parse(key, names), names) then Put(now, key, Retained(models.fields[key])) else now
  {
    hide IsTarget, Parse, Retained;
    var now, next := RetainedPartly(models, done, names), RetainedPartly(models, done + {key}, names);
    assert next.fields
        == if IsTarget(Parse(key, names), names) then now.fields[key := Retained(models.fields[key])] else now.fields;
  }

  lemma RetainEnds(models: Record, names: Naming)
    ensures RetainedPartly(models, {}, names) == models
    ensures RetainedPartly(models, models.fields.Keys, names) == RetainedModels(models, names)
  {
    hide IsTarget, Parse, Retained;
    assert RetainedPartly(models, {}, names).fields == models.fields;
    assert RetainedPartly(models, models.fields.Keys, names).fields == RetainedModels(models, names).fields;
  }

  /** A touched entry shows. */
  lemma RetainShows(models: Record, done: set<string>, names: Naming, key: string)
    requires key in done && key in models.fields && IsTarget(Parse(key, names), names)
    requires !Retention(models.fields[key]).Text?
    ensures RetainedPartly(models, done, names) != models
  {
    hide IsTarget, Parse, Retained, Retention;
    TextIsRetained(models.fields[key]);
    assert RetainedPartly(models, done, names).fields[key] != models.fields[key];
  }

  /** The loop over the model entries and the entry of the primary model. */
  method RetainModels(models: Record, model: Json, names: Naming) returns (next: Record, mutated: bool)
    ensures next == RetainedPrimary(RetainedModels(models, names), PrimaryKey(model, names))
    ensures !mutated ==> next == models
    ensures mutated ==> next != models
  {
    hide IsTarget, Parse, Retained, Retention, RetainedPartly, RetainedModels, PrimaryKey, Inherited;
    next, mutated := models, false;
    ghost var touched := "";
    RetainEnds(models, names);
    var todo := models.fields.Keys;
    ghost var done: set<string> := {};
    while todo != {}
      invariant done + todo == models.fields.Keys && done !! todo
      invariant next == RetainedPartly(models, done, names)
      invariant !mutated ==> next == models
      invariant mutated ==> touched in done && touched in models.fields
      invariant mutated ==> IsTarget(Parse(touched, names), names) && !Retention(models.fields[touched]).Text?
      decreases |todo|
    {
      var key :| key in todo;
      todo := todo - {key};
      RetainStep(models, done, names, key);
      TextIsRetained(models.fields[key]);
      done := done + {key};
      if !IsTarget(Parse(key, names), names) || Retention(next.fields[key]).Text? {
        if IsTarget(Parse(key, names), names) { PutSame(next, key); }
        continue;
      }
      next := Put(next, key, Retained(next.fields[key]));
      mutated, touched := true, key;
    }
    assert done == models.fields.Keys;
    if mutated { RetainShows(models, done, names, touched); }
    var primary := PrimaryKey(model, names);
    if primary.Some? {
      var entry := Get(next, primary.value);
      if !Retention(entry).Text? {
        ghost var swept := next;
        next := Put(next, primary.value, Retained(entry));
        PrimaryShows(models, swept, primary.value, names);
        mutated := true;
      }
    }
  }

  lemma PutSame(r: Record, key: string)
    requires key in r.fields
    ensures Put(r, key, r.fields[key]) == r
  {
    assert r.fields[key := r.fields[key]] == r.fields;
  }

  /** The primary model's entry shows too. */
  lemma PrimaryShows(models: Record, swept: Record, key: string, names: Naming)
    requires swept == RetainedModels(models, names) && !Retention(Get(swept, key)).Text?
    ensures Put(swept, key, Retained(Get(swept, key))) != models
  {
    hide IsTarget, Parse, Retained, Retention, Inherited;
    RetainedIsText(Get(swept, key));
    if key in models.fields {
      RetainedIsText(models.fields[key]);
      assert swept.fields[key] == models.fields[key];
    }
  }

  /** The loop over the models of the command line. */
  method AllowModels(models: Record, refs: seq<string>) returns (next: Record, mutated: bool)
    ensures next == Allowed(models, refs)
    ensures !mutated ==> next == models
    ensures mutated ==> next != models
  {
    next, mutated := models, false;
    for i := 0 to |refs|
      invariant next == Allowed(models, refs[..i])
      invariant models.fields.Keys <= next.fields.Keys
      invariant !mutated ==> next == models
      invariant mutated ==> next.fields.Keys != models.fields.Keys
    {
      assert refs[..i + 1][..i] == refs[..i];
      AllowedMeaning(models, refs[..i]);
      if refs[i] in next.fields {
        continue;
      }
      next := Put(next, refs[i], Rec(map[]));
      mutated := true;
    }
    assert refs[..|refs|] == refs;
  }

  /** `applyAnthropicConfigDefaults`. */
  method ApplyAnthropicConfigDefaults(config: Record, env: Environment, readAuth: Json -> Auth, names: Naming)
    returns (applied: Record)
    ensures applied == WithDefaults(config, env, readAuth, names)
  {
    hide Inherited, UsesCli, PrimaryKey, RetainedModels, RetainedPrimary, Allowed, Resolved;
    var agents := Get(config, "agents");
    if !agents.Rec? || !Get(agents, "defaults").Rec? {
      return config;
    }
    var mode := ResolveAuthMode(readAuth(Get(config, "auth")), env);
    if mode == NoAuth {
      return config;
    }
    var defaults := Get(agents, "defaults");
    var next, mutated := ApplyToDefaults(defaults, mode, names);
    return if mutated then Put(config, "agents", Put(agents, "defaults", next)) else config;
  }

  method ApplyToDefaults(defaults: Record, mode: AuthMode, names: Naming) returns (next: Record, mutated: bool)
    requires mode != NoAuth
    ensures next == Applied(defaults, mode, names)
    ensures mutated == (next != defaults)
  {
    hide Inherited, UsesCli, PrimaryKey, RetainedModels, RetainedPrimary, Allowed, Pruning, Heartbeat;
    FieldsDiffer();
    next, mutated := defaults, false;
    PruningShows(Get(defaults, "contextPruning"));
    if Get(RecordOr(Get(defaults, "contextPruning")), "mode") == Undefined {
      next, mutated := Put(next, "contextPruning", Pruning(Get(defaults, "contextPruning"))), true;
    }
    HeartbeatShows(Get(defaults, "heartbeat"), mode);
    if Get(RecordOr(Get(defaults, "heartbeat")), "every") == Undefined {
      next, mutated := Put(next, "heartbeat", Heartbeat(Get(defaults, "heartbeat"), mode)), true;
    }
    var models, model := Get(defaults, "models"), Get(defaults, "model");
    var nextModels, modelsMutated := RecordOr(models), false;
    if mode == ApiKey {
      nextModels, modelsMutated := RetainModels(RecordOr(models), model, names);
    } else if UsesCli(models, model, names) {
      nextModels, modelsMutated := AllowModels(RecordOr(models), CLAUDE_CLI_DEFAULT_ALLOWLIST_REFS);
    }
    if modelsMutated {
      next, mutated := Put(next, "models", nextModels), true;
    }
    ChangedFields(defaults, mode, names);
  }

  lemma PruningShows(j: Json)
    ensures Pruning(j) != j <==> Get(RecordOr(j), "mode") == Undefined
  {
    hide Inherited;
    FieldsDiffer();
  }

  lemma HeartbeatShows(j: Json, mode: AuthMode)
    ensures Heartbeat(j, mode) != j <==> Get(RecordOr(j), "every") == Undefined
  {
    hide Inherited;
  }

  lemma ChangedFields(d: Record, mode: AuthMode, names: Naming)
    requires mode != NoAuth
    ensures (Applied(d, mode, names) != d)
         == (|| Pruning(Get(d, "contextPruning")) != Get(d, "contextPruning")
             || Heartbeat(Get(d, "heartbeat"), mode) != Get(d, "heartbeat")
             || Models(Get(d, "models"), Get(d, "model"), mode, names) != Get(d, "models"))
  {
    AppliedFields(d, mode, names);
    hide Pruning, Heartbeat, Models, Get;
  }
}
