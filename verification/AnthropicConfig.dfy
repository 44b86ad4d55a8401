/** The Anthropic defaults seen from the whole configuration, and what the references to models mean. */
module AnthropicConfig {
  import opened Text
  import opened JsonRecords
  import opened AnthropicAuth
  import opened AnthropicDefaults

  // ---------------------------------------------------------------------------
  // References to models
  // ---------------------------------------------------------------------------

  lemma FirstSlash(provider: string, rest: string)
    requires '/' !in provider
    ensures IndexOf(provider + "/" + rest, "/", 0) == |provider|
  {
    var s := provider + "/" + rest;
    forall i | 0 <= i < |s|
      ensures MatchAt(s, "/", i) <==> s[i] == '/'
    {
      assert s[i..i + 1] == [s[i]];
    }
    assert s[|provider|] == '/' && forall i | 0 <= i < |provider| :: s[i] == provider[i];
  }

  lemma NoSlash(s: string)
    requires '/' !in s
    ensures IndexOf(s, "/", 0) == -1
  {
    forall i | 0 <= i < |s|
      ensures !MatchAt(s, "/", i)
    {
      assert s[i..i + 1] == [s[i]];
    }
  }

  /** A provider and a model with a slash between them, with white space around each, are read as they stand; a model
      without a provider is one of Anthropic. */
  lemma ReferenceIsRead(provider: string, model: string, a: string, b: string, c: string, d: string, names: Naming)
    requires AllSpace(a) && AllSpace(b) && AllSpace(c) && AllSpace(d)
    requires Trimmed(provider) && provider != "" && '/' !in provider && Trimmed(model) && model != ""
    ensures Parse(a + provider + b + "/" + c + model + d, names) == Some(Ref(names.provider(provider), model))
    ensures '/' !in model ==> Parse(c + model + d, names) == Some(Ref("anthropic", model))
  {
    hide IsSpace, Trim, Trimmed, AllSpace;
    var before, behind := provider + b, c + model;
    var core := before + "/" + behind;
    CoreIsTrimmed(provider, b + "/" + c, model);
    assert core == provider + (b + "/" + c) + model;
    assert a + provider + b + "/" + c + model + d == a + core + d;
    TrimPadded(a, core, d);
    SpaceHasNoSlash(b);
    FirstSlash(before, behind);
    PartsAround(before, behind);
    TrimBehind(provider, b);
    TrimBefore(c, model);
    TrimPadded(c, model, d);
    if '/' !in model { NoSlash(model); }
  }

  lemma PartsAround(before: string, behind: string)
    ensures var core := before + "/" + behind; core[..|before|] == before && core[|before| + 1..] == behind
  {}

  lemma TrimBehind(core: string, after: string)
    requires Trimmed(core) && AllSpace(after)
    ensures Trim(core + after) == core
  {
    hide Trim, Trimmed, AllSpace;
    NothingIsSpace();
    TrimPadded("", core, after);
    assert "" + core + after == core + after;
  }

  lemma TrimBefore(before: string, core: string)
    requires Trimmed(core) && AllSpace(before)
    ensures Trim(before + core) == core
  {
    hide Trim, Trimmed, AllSpace;
    NothingIsSpace();
    TrimPadded(before, core, "");
    assert before + core + "" == before + core;
  }

  /** A blank text is no reference, nor is a provider with only white space behind its slash. A text that starts with a
      slash is a model of Anthropic. */
  lemma OtherReferences(provider: string, rest: string, a: string, b: string, c: string, names: Naming)
    requires AllSpace(a) && AllSpace(b) && AllSpace(c) && Trimmed(provider) && provider != "" && '/' !in provider
    requires rest == "" || (Trimmed(rest) && rest[0] == '/')
    ensures Parse(a, names) == None
    ensures Parse(a + provider + b + "/" + c, names) == None
    ensures rest != "" ==> Parse(a + rest + b, names) == Some(Ref("anthropic", rest))
  {
    hide IsSpace, Trim, AllSpace;
    TrimOfSpace(a);
    TrimPadded(a, rest, b);
    if rest != "" { LeadingSlash(rest); }
    var before := provider + b;
    SlashIsInk();
    CoreIsTrimmed(provider, b, "/");
    assert a + (before + "/") + c == a + provider + b + "/" + c;
    TrimPadded(a, before + "/", c);
    SpaceHasNoSlash(b);
    FirstSlash(before, "");
    assert before + "/" + "" == before + "/" && (before + "/")[|before| + 1..] == "";
    NothingIsSpace();
    TrimOfSpace("");
  }

  lemma SlashIsInk()
    ensures Trimmed("/")
  {}

  lemma LeadingSlash(s: string)
    requires s != "" && s[0] == '/'
    ensures IndexOf(s, "/", 0) == 0
  {
    assert s[0..1] == [s[0]];
  }

  /** The entry of the primary model, where its cache is to be kept, is called by its provider and its name. */
  lemma PrimaryEntry(model: Json, provider: string, name: string, names: Naming)
    requires PrimaryRef(model, names).Some?
    requires Parse(PrimaryRef(model, names).value, names) == Some(Ref(provider, name))
    requires IsTarget(Some(Ref(provider, name)), names)
    ensures PrimaryKey(model, names) == Some(provider + "/" + name)
  {
    hide Parse, IsTarget;
  }

  lemma SpaceHasNoSlash(b: string)
    requires AllSpace(b)
    ensures '/' !in b
  {
    assert !IsSpace('/');
  }

  lemma CoreIsTrimmed(provider: string, middle: string, model: string)
    requires Trimmed(provider) && provider != "" && Trimmed(model) && model != ""
    ensures Trimmed(provider + middle + model)
  {
    hide IsSpace;
    var core := provider + middle + model;
    assert core[0] == provider[0] && core[|core| - 1] == model[|model| - 1];
  }

  /** The caches to keep are those of Anthropic's models, there and on Bedrock. */
  lemma TargetsExactly(provider: string, model: string, names: Naming)
    ensures IsTarget(Some(Ref(provider, model)), names)
       <==> provider == "anthropic" || (provider == "amazon-bedrock" && Contains(names.lower(model), "anthropic.claude"))
  {
    assert Contains(names.lower(model), "anthropic.claude")
      <==> IndexOf(names.lower(model), "anthropic.claude", 0) >= 0;
  }

  /** The primary model stands as a text or in the field `primary`; two of them have short names. */
  lemma PrimaryIsRead(text: string, before: string, after: string, others: Record, names: Naming)
    requires AllSpace(before) && AllSpace(after) && Trimmed(text) && text != ""
    ensures var padded, lower := Text(before + text + after), names.lower(text);
      var name := if lower == "opus" then "anthropic/claude-opus-4-6"
                  else if lower == "sonnet" then "anthropic/claude-sonnet-4-6" else text;
      PrimaryRef(padded, names) == Some(name) == PrimaryRef(Put(others, "primary", padded), names)
  {
    hide Trim;
    TrimPadded(before, text, after);
  }

  /** The command line is in use when the primary model or a key of the models names it as the provider. */
  lemma CliIsUsedExactly(models: Record, model: Json, names: Naming)
    ensures UsesCli(models, model, names)
       <==> exists raw, name :: (PrimaryValue(model) == Some(raw) || raw in models.fields)
              && Parse(raw, names) == Some(Ref("claude-cli", name))
  {
    hide Parse, PrimaryValue;
    if key :| key in models.fields && IsCliRef(key, names) {
      assert Parse(key, names) == Some(Ref("claude-cli", Parse(key, names).value.model));
    }
    if PrimaryValue(model).Some? && IsCliRef(PrimaryValue(model).value, names) {
      var raw := PrimaryValue(model).value;
      assert Parse(raw, names) == Some(Ref("claude-cli", Parse(raw, names).value.model));
    }
  }

  // ---------------------------------------------------------------------------
  // What stays as it is
  // ---------------------------------------------------------------------------

  /** The model entries that the defaults are not for stay, and none are made but the primary one, or those of the
      command line. */
  ghost predicate OtherModelsStay(before: Record, after: Record, models: Json, model: Json, mode: AuthMode, names: Naming)
  {
    && (mode == ApiKey ==>
         forall key | key in before.fields && !IsTarget(Parse(key, names), names) && PrimaryKey(model, names) != Some(key) ::
           key in after.fields && after.fields[key] == before.fields[key])
    && (mode == OAuth && UsesCli(models, model, names) ==>
         && (forall key :: key in after.fields <==> key in before.fields || key in CLAUDE_CLI_DEFAULT_ALLOWLIST_REFS)
         && forall key | key in before.fields :: after.fields[key] == before.fields[key])
    && (mode == OAuth && !UsesCli(models, model, names) ==> after == before)
  }

  /** What the defaults are not for stays: pruning with a mode, a heartbeat with an interval, other models, and all
      other fields. */
  lemma NothingElseChanges(d: Record, mode: AuthMode, names: Naming, key: string)
    ensures var a := Applied(d, mode, names);
      && (Get(RecordOr(Get(d, "contextPruning")), "mode") != Undefined ==> Get(a, "contextPruning") == Get(d, "contextPruning"))
      && (Get(RecordOr(Get(d, "heartbeat")), "every") != Undefined ==> Get(a, "heartbeat") == Get(d, "heartbeat"))
      && OtherModelsStay(RecordOr(Get(d, "models")), RecordOr(Get(a, "models")), Get(d, "models"), Get(d, "model"), mode, names)
      && (key !in {"contextPruning", "heartbeat", "models"} ==> Get(a, key) == Get(d, key))
      && (mode == NoAuth ==> a == d)
  {
    hide Inherited, Models, OtherModelsStay, Pruning, Heartbeat, Get;
    if mode != NoAuth {
      AppliedFields(d, mode, names);
      PruningShows(Get(d, "contextPruning"));
      HeartbeatShows(Get(d, "heartbeat"), mode);
      if key !in {"contextPruning", "heartbeat", "models"} { OtherFieldsStay(d, mode, names, key); }
    }
    OtherModels(Get(d, "models"), Get(d, "model"), mode, names);
  }

  lemma OtherFieldsStay(d: Record, mode: AuthMode, names: Naming, key: string)
    requires key !in {"contextPruning", "heartbeat", "models"}
    ensures Get(Applied(d, mode, names), key) == Get(d, key)
  {
    hide Inherited, Pruning, Heartbeat, Models;
  }

  lemma OtherModels(models: Json, model: Json, mode: AuthMode, names: Naming)
    ensures OtherModelsStay(RecordOr(models), RecordOr(Models(models, model, mode, names)), models, model, mode, names)
    ensures mode == NoAuth ==> Models(models, model, mode, names) == models
  {
    hide Inherited, Retention, Retained, IsTarget, Parse, PrimaryKey, UsesCli, Allowed;
    AllowedMeaning(RecordOr(models), CLAUDE_CLI_DEFAULT_ALLOWLIST_REFS);
  }

  /** The models that the command line is allowed by default. */
  lemma AllowedByDefault(key: string)
    ensures key in CLAUDE_CLI_DEFAULT_ALLOWLIST_REFS
       <==> || key == "claude-cli/claude-sonnet-4-6" || key == "claude-cli/claude-opus-4-6"
            || key == "claude-cli/claude-opus-4-5" || key == "claude-cli/claude-sonnet-4-5"
            || key == "claude-cli/claude-haiku-4-5"
  {}

  // ---------------------------------------------------------------------------
  // The whole configuration
  // ---------------------------------------------------------------------------

  lemma FieldIsAt(r: Record, key: string)
    requires !Inherited(key)
    ensures At(r, [key]) == Get(r, key)
  {
    assert [key][1..] == [];
  }

  lemma DefaultsAt(config: Record)
    ensures Get(config, "agents").Rec? ==> At(config, ["agents", "defaults"]) == Get(Get(config, "agents"), "defaults")
    ensures !Get(config, "agents").Rec? ==> At(config, ["agents", "defaults"]) == Undefined
  {
    NamesAreOrdinary();
    hide Inherited, At;
    var p := ["agents", "defaults"];
    assert p[1..] == ["defaults"];
    AtTop(config, p);
    if Get(config, "agents").Rec? { FieldIsAt(Get(config, "agents"), "defaults"); }
    AtStep(Undefined, p[1..]);
    if "agents" in config.fields { AtStep(config.fields["agents"], p[1..]); }
  }

  lemma NamesAreOrdinary()
    ensures !Inherited("agents") && !Inherited("defaults")
  {
    hide Inherited;
    InheritedShape("agents");
    InheritedShape("defaults");
  }

  /** The defaults of the agents become those for the way to sign in that the profiles and the environment give.
      Nothing else in the configuration changes, and without such defaults nothing does. */
  lemma ConfigWithDefaults(config: Record, env: Environment, readAuth: Json -> Auth, names: Naming, p: Path)
    ensures var after := WithDefaults(config, env, readAuth, names);
      var mode := Resolved(readAuth(Get(config, "auth")), env);
      if At(config, ["agents", "defaults"]).Rec? then
        && At(after, ["agents", "defaults"]) == Applied(At(config, ["agents", "defaults"]), mode, names)
        && (!(["agents", "defaults"] <= p) && !(p <= ["agents", "defaults"]) ==> At(after, p) == At(config, p))
      else
        after == config
  {
    hide Applied, Resolved, At, Inherited;
    DefaultsAt(config);
    var mode := Resolved(readAuth(Get(config, "auth")), env);
    if At(config, ["agents", "defaults"]).Rec? {
      var d := Applied(At(config, ["agents", "defaults"]), mode, names);
      AdjustedIsPut(config, d);
      PutAtMeaning(config, ["agents", "defaults"], d, p);
      PutAtMeaning(config, ["agents", "defaults"], d, ["agents", "defaults"]);
      assert ["agents", "defaults"][2..] == [];
      AtStep(d, []);
    }
  }

  lemma AdjustedIsPut(config: Record, d: Record)
    requires Get(config, "agents").Rec? && Get(Get(config, "agents"), "defaults").Rec?
    ensures Adjust(config, "agents", Adjust(Get(config, "agents"), "defaults", d)) == PutAt(config, ["agents", "defaults"], d)
  {
    hide Inherited;
    var p, agents := ["agents", "defaults"], Get(config, "agents");
    assert p[1..] == ["defaults"] && p[1..][1..] == [];
    assert PutAt(config, p, d) == Put(config, "agents", PutAt(agents, ["defaults"], d));
    assert PutAt(agents, ["defaults"], d) == Put(agents, "defaults", d);
    AdjustIsPut(agents, "defaults", d);
    AdjustIsPut(config, "agents", Adjust(agents, "defaults", d));
  }

  lemma AdjustIsPut(r: Record, key: string, value: Record)
    ensures Adjust(r, key, value) == Put(r, key, value)
  {
    if value == Get(r, key) { assert r.fields[key := value] == r.fields; }
  }
}
