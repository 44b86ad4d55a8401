/** The migration of the Bedrock discovery settings from `models` to the plugin entry. */
module BedrockMigration {
  import opened Text
  import opened JsonRecords

  const LEGACY_PATH: Path := ["models", "bedrockDiscovery"]
  const TARGET_PATH: Path := ["plugins", "entries", "amazon-bedrock", "config", "discovery"]

  /** What the migration reports. */
  datatype Change = Nothing | RemovedEmpty | Moved | Filled | AlreadySet

  function Legacy(raw: Record): Option<Record> {
    var models := Get(raw, "models");
    if models.Rec? && Get(models, "bedrockDiscovery").Rec? then Some(Get(models, "bedrockDiscovery")) else None
  }

  /** The configuration without the legacy settings, and without `models` if nothing else is there. */
  function WithoutLegacy(raw: Record): Record {
    var models := Drop(RecordOr(Get(raw, "models")), {"bedrockDiscovery"});
    if models.fields == map[] then Drop(raw, {"models"}) else Put(raw, "models", models)
  }

  /** What `JSON.stringify` shows of a value: no undefined fields. */
  function Shown(j: Json): Json
    decreases j
  {
    if !j.Rec? then j else Rec(map key | key in j.fields && j.fields[key] != Undefined :: Shown(j.fields[key]))
  }

  /** The plugin's settings after the merge. The migration has copied only their outermost record, so
      the records inside it have been merged as well. */
  function SharedAfterMerge(existing: Record, merged: Record): Record
    requires existing.fields.Keys <= merged.fields.Keys
  {
    Rec(map key | key in existing.fields ::
      if existing.fields[key].Rec? then merged.fields[key] else existing.fields[key])
  }

  function Migrated(raw: Json): (Json, Change) {
    if !raw.Rec? || Legacy(raw).None? then (raw, Nothing) else
    var legacy, root := Legacy(raw).value, WithoutLegacy(raw);
    if legacy.fields == map[] then (root, RemovedEmpty) else
    var existing := At(root, TARGET_PATH);
    if !existing.Rec? then (PutAt(root, TARGET_PATH, legacy), Moved) else
    var merged := Merge(existing, legacy);
    (PutAt(root, TARGET_PATH, merged),
     if Shown(merged) != Shown(SharedAfterMerge(existing, merged)) then Filled else AlreadySet)
  }

  /** `migrateAmazonBedrockLegacyConfig`. */
  method Migrate(raw: Json) returns (config: Json, change: Change)
    ensures (config, change) == Migrated(raw)
  {
    hide Merge, Shown, SharedAfterMerge, Inherited;
    if !raw.Rec? || Legacy(raw).None? {
      return raw, Nothing;
    }
    var legacy := Legacy(raw).value;
    var nextRoot := new RecordCell(raw);
    var models := Drop(RecordOr(Get(nextRoot.record, "models")), {"bedrockDiscovery"});
    nextRoot.record := Put(nextRoot.record, "models", models);
    if models.fields == map[] {
      nextRoot.record := Drop(nextRoot.record, {"models"});
      assert nextRoot.record.fields == Drop(raw, {"models"}).fields;
    }
    if legacy.fields == map[] {
      return nextRoot.record, RemovedEmpty;
    }
    var existing := At(nextRoot.record, TARGET_PATH);
    if !existing.Rec? {
      return PutAt(nextRoot.record, TARGET_PATH, legacy), Moved;
    }
    var merged := new RecordCell(existing);
    merged.MergeMissing(legacy);
    change := if Shown(merged.record) != Shown(SharedAfterMerge(existing, merged.record)) then Filled else AlreadySet;
    return PutAt(nextRoot.record, TARGET_PATH, merged.record), change;
  }

  // ---------------------------------------------------------------------------
  // Everything else stays
  // ---------------------------------------------------------------------------

  lemma WithoutLegacyFields(raw: Record)
    requires Legacy(raw).Some?
    ensures "models" in raw.fields && raw.fields["models"].Rec?
    ensures var root, models := WithoutLegacy(raw), raw.fields["models"];
      && (forall key | key != "models" :: key in root.fields <==> key in raw.fields)
      && (forall key | key != "models" && key in raw.fields :: root.fields[key] == raw.fields[key])
      && ("models" in root.fields <==> models.fields.Keys != {"bedrockDiscovery"})
      && ("models" in root.fields ==> root.fields["models"] == Drop(models, {"bedrockDiscovery"}))
  {
    hide Inherited;
    var models := raw.fields["models"].fields;
    var rest := models - {"bedrockDiscovery"};
    assert "bedrockDiscovery" in models && rest.Keys == models.Keys - {"bedrockDiscovery"};
    if models.Keys == {"bedrockDiscovery"} {
      assert rest.Keys == {} && rest == map[];
    }
    if rest == map[] {
      assert rest.Keys == {} && models.Keys == {"bedrockDiscovery"};
    }
  }

  lemma AtOtherTop(raw: Record, p: Path)
    requires Legacy(raw).Some? && p != [] && p[0] != "models"
    ensures At(WithoutLegacy(raw), p) == At(raw, p)
  {
    hide WithoutLegacy, Legacy, At;
    WithoutLegacyFields(raw);
    AtTop(raw, p);
    AtTop(WithoutLegacy(raw), p);
  }

  lemma AtModels(raw: Record)
    requires Legacy(raw).Some?
    ensures var models := At(raw, ["models"]);
      models.Rec? && At(WithoutLegacy(raw), ["models"])
        == if models.fields.Keys == {"bedrockDiscovery"} then Undefined else Drop(models, {"bedrockDiscovery"})
  {
    hide WithoutLegacy, Legacy;
    WithoutLegacyFields(raw);
    AtTop(raw, ["models"]);
    AtTop(WithoutLegacy(raw), ["models"]);
  }

  lemma AtUnderModels(raw: Record, key: string, rest: Path)
    requires Legacy(raw).Some?
    ensures At(WithoutLegacy(raw), ["models", key] + rest)
         == if key == "bedrockDiscovery" then Undefined else At(raw, ["models", key] + rest)
  {
    hide WithoutLegacy, Legacy, At;
    WithoutLegacyFields(raw);
    var p, q := ["models", key] + rest, [key] + rest;
    assert p[1..] == q && q[1..] == rest;
    var root, models := WithoutLegacy(raw), raw.fields["models"];
    AtTop(raw, p);
    AtTop(root, p);
    AtTop(models, q);
    if "models" in root.fields {
      AtTop(root.fields["models"], q);
    } else {
      assert key in models.fields ==> key in {"bedrockDiscovery"};
    }
  }

  lemma TopNamesDiffer()
    ensures "models" != "plugins"
  {
    assert "models"[0] != "plugins"[0];
  }

  /** Outside the two places the migration changes nothing. */
  lemma RestIsKept(raw: Record, p: Path)
    requires Legacy(raw).Some?
    requires p != [] && p != ["models"] && !(LEGACY_PATH <= p) && !(TARGET_PATH <= p) && !(p <= TARGET_PATH)
    ensures At(Migrated(raw).0, p) == At(raw, p)
  {
    hide Merge, Shown, At, Legacy, WithoutLegacy;
    WrittenElsewhere(raw, p);
    if p[0] != "models" {
      AtOtherTop(raw, p);
    } else {
      assert p != [p[0]] ==> |p| > 1;
      assert p == ["models", p[1]] + p[2..];
      AtUnderModels(raw, p[1], p[2..]);
    }
  }

  lemma WrittenElsewhere(raw: Record, p: Path)
    requires Legacy(raw).Some? && !(TARGET_PATH <= p) && !(p <= TARGET_PATH)
    ensures At(Migrated(raw).0, p) == At(WithoutLegacy(raw), p)
  {
    hide Merge, Shown, Legacy, WithoutLegacy, At, PutAt, SharedAfterMerge;
    var root, legacy := WithoutLegacy(raw), Legacy(raw).value;
    PutAtMeaning(root, TARGET_PATH, legacy, p);
    if At(root, TARGET_PATH).Rec? {
      PutAtMeaning(root, TARGET_PATH, Merge(At(root, TARGET_PATH), legacy), p);
    }
  }

  lemma LegacyIsWithin(p: Path)
    requires p != [] && p[0] == "models"
    ensures !(TARGET_PATH <= p) && !(p <= TARGET_PATH)
  {
    TopNamesDiffer();
  }

  /** `models` loses the legacy settings, and goes exactly when they were all it had. */
  lemma ModelsIsPruned(raw: Record)
    requires Legacy(raw).Some?
    ensures var models := At(raw, ["models"]);
      models.Rec? && At(Migrated(raw).0, ["models"])
        == if models.fields.Keys == {"bedrockDiscovery"} then Undefined else Drop(models, {"bedrockDiscovery"})
  {
    hide Merge, Shown, Legacy, WithoutLegacy, Migrated;
    LegacyIsWithin(["models"]);
    WrittenElsewhere(raw, ["models"]);
    AtModels(raw);
  }

  lemma LegacyIsGone(raw: Record)
    requires Legacy(raw).Some?
    ensures At(Migrated(raw).0, LEGACY_PATH) == Undefined
  {
    hide Merge, Shown, Legacy, WithoutLegacy, Migrated;
    LegacyIsWithin(LEGACY_PATH);
    WrittenElsewhere(raw, LEGACY_PATH);
    AtUnderModels(raw, "bedrockDiscovery", []);
    assert ["models", "bedrockDiscovery"] + [] == LEGACY_PATH;
  }

  lemma LegacyAt(raw: Record)
    ensures Legacy(raw) == (if At(raw, LEGACY_PATH).Rec? then Some(At(raw, LEGACY_PATH)) else None)
  {
    hide Inherited;
    var p := LEGACY_PATH;
    assert p[1..] == ["bedrockDiscovery"] && p[1..][1..] == [];
    AtTop(raw, p);
    if "models" in raw.fields && raw.fields["models"].Rec? {
      AtTop(raw.fields["models"], p[1..]);
    }
  }

  lemma MigratedIsRecord(raw: Record)
    ensures Migrated(raw).0.Rec?
  {}

  /** A second migration changes and reports nothing. */
  lemma MigratingTwice(raw: Json)
    ensures var config := Migrated(raw).0; Migrated(config) == (config, if raw.Rec? then Nothing else Migrated(raw).1)
  {
    hide Merge, Shown, WithoutLegacy, Legacy, SharedAfterMerge;
    if raw.Rec? && Legacy(raw).Some? {
      MigratedIsRecord(raw);
      LegacyIsGone(raw);
      LegacyAt(Migrated(raw).0);
    }
  }

  // ---------------------------------------------------------------------------
  // The settings in effect
  // ---------------------------------------------------------------------------

  /** The discovery settings in effect: the plugin's, over the legacy ones. */
  function Effective(root: Record): Record {
    Rec(RecordOr(At(root, LEGACY_PATH)).fields + RecordOr(At(root, TARGET_PATH)).fields)
  }

  function Setting(r: Record, key: string): Json {
    if key in r.fields then r.fields[key] else Undefined
  }

  ghost predicate SameSettings(a: Record, b: Record) {
    forall key :: Setting(a, key) == Setting(b, key)
  }

  /** Does the merge leave the effective value of this legacy setting as it is? Not if the plugin sets
      it to nothing explicitly, if its name is reserved, or if it is a record with more to offer. */
  ghost predicate Kept(plugin: Record, legacy: Record, key: string)
    requires key in legacy.fields
  {
    || legacy.fields[key] == Undefined
    || (key !in plugin.fields && !Blocked(key) && !Inherited(key))
    || (key in plugin.fields && (Blocked(key) ||
        (plugin.fields[key] != Undefined
         && (plugin.fields[key].Rec? && legacy.fields[key].Rec? ==> Covers(plugin.fields[key], legacy.fields[key])))))
  }

  lemma KeptExactly(plugin: Record, legacy: Record, key: string)
    requires key in legacy.fields
    ensures Kept(plugin, legacy, key)
       <==> Setting(Merge(plugin, legacy), key) == Setting(Rec(legacy.fields + plugin.fields), key)
  {
    hide Merge, Blocked, Inherited, Covers;
    MergeField(plugin, legacy, key);
    if key in plugin.fields && plugin.fields[key].Rec? && legacy.fields[key].Rec? {
      MergeChangesNothingExactly(plugin.fields[key], legacy.fields[key]);
    }
  }

  lemma OthersAreKept(plugin: Record, legacy: Record, key: string)
    requires key !in legacy.fields
    ensures Setting(Merge(plugin, legacy), key) == Setting(Rec(legacy.fields + plugin.fields), key)
  {
    hide Merge, Blocked, Inherited;
    MergeField(plugin, legacy, key);
  }

  lemma AfterMigration(raw: Record)
    requires Legacy(raw).Some?
    ensures var p, l := At(raw, TARGET_PATH), Legacy(raw).value;
      SameSettings(Effective(Migrated(raw).0),
        if l.fields != map[] && p.Rec? then Merge(p, l) else Rec(l.fields + RecordOr(p).fields))
  {
    hide Merge, Shown, WithoutLegacy, Legacy, SharedAfterMerge, At, PutAt;
    MigratedIsRecord(raw);
    LegacyIsGone(raw);
    TopNamesDiffer();
    AtOtherTop(raw, TARGET_PATH);
    var root, l := WithoutLegacy(raw), Legacy(raw).value;
    assert TARGET_PATH[|TARGET_PATH|..] == [];
    PutAtMeaning(root, TARGET_PATH, l, TARGET_PATH);
    AtHere(l);
    if At(root, TARGET_PATH).Rec? {
      PutAtMeaning(root, TARGET_PATH, Merge(At(root, TARGET_PATH), l), TARGET_PATH);
      AtHere(Merge(At(root, TARGET_PATH), l));
    }
  }

  lemma SameAfterMergeExactly(plugin: Record, legacy: Record)
    ensures SameSettings(Merge(plugin, legacy), Rec(legacy.fields + plugin.fields))
       <==> forall key | key in legacy.fields :: Kept(plugin, legacy, key)
  {
    hide Merge, Kept, Setting;
    forall key
      ensures key in legacy.fields ==> (Kept(plugin, legacy, key)
        <==> Setting(Merge(plugin, legacy), key) == Setting(Rec(legacy.fields + plugin.fields), key))
      ensures key !in legacy.fields ==>
        Setting(Merge(plugin, legacy), key) == Setting(Rec(legacy.fields + plugin.fields), key)
    {
      if key in legacy.fields { KeptExactly(plugin, legacy, key); } else { OthersAreKept(plugin, legacy, key); }
    }
  }

  /** The migration keeps the settings in effect exactly when every legacy setting is kept. */
  lemma EffectiveSettingsAreKeptExactly(raw: Record)
    ensures Migrated(raw).0.Rec?
    ensures SameSettings(Effective(Migrated(raw).0), Effective(raw))
       <==> (Legacy(raw).Some? && At(raw, TARGET_PATH).Rec? ==>
               forall key | key in Legacy(raw).value.fields :: Kept(At(raw, TARGET_PATH), Legacy(raw).value, key))
  {
    hide Setting;
    MigratedIsRecord(raw);
    if Legacy(raw).Some? {
      hide Merge, Kept, Migrated, Legacy, At;
      LegacyAt(raw);
      AfterMigration(raw);
      if At(raw, TARGET_PATH).Rec? {
        SameAfterMergeExactly(At(raw, TARGET_PATH), Legacy(raw).value);
      }
    }
  }

  /** Flat settings, none of them set to nothing or named by a reserved word, stay in effect as they are. */
  lemma FlatSettingsAreKept(raw: Record)
    requires forall key, at | at in {LEGACY_PATH, TARGET_PATH} && At(raw, at).Rec? && key in At(raw, at).fields ::
      IsLeaf(At(raw, at).fields[key]) && !Blocked(key) && !Inherited(key)
    ensures Migrated(raw).0.Rec? && SameSettings(Effective(Migrated(raw).0), Effective(raw))
  {
    hide Merge, Migrated, Effective, Legacy, At, Blocked, Inherited;
    EffectiveSettingsAreKeptExactly(raw);
    LegacyAt(raw);
    assert LEGACY_PATH in {LEGACY_PATH, TARGET_PATH} && TARGET_PATH in {LEGACY_PATH, TARGET_PATH};
  }

  // ---------------------------------------------------------------------------
  // The report
  // ---------------------------------------------------------------------------

  /** The migration reports filled settings exactly when it has copied one as a whole. */
  lemma FilledIsReportedExactly(raw: Record)
    requires Legacy(raw).Some? && At(raw, TARGET_PATH).Rec?
    ensures Migrated(raw).1 == Filled
       <==> exists key :: Fills(At(raw, TARGET_PATH), Legacy(raw).value, key)
  {
    hide Merge, WithoutLegacy, Legacy, At, PutAt, Shown, Fills, SharedAfterMerge;
    TopNamesDiffer();
    AtOtherTop(raw, TARGET_PATH);
    var t, s := At(raw, TARGET_PATH), Legacy(raw).value;
    ShownDiffersExactly(t, s);
    if s.fields == map[] {
      NothingFillsFromEmpty(t, s);
    }
  }

  lemma NothingFillsFromEmpty(t: Record, s: Record)
    requires s.fields == map[]
    ensures forall key :: !Fills(t, s, key)
  {}

  lemma ShownKeys(r: Record, key: string)
    ensures Shown(r).Rec?
    ensures key in Shown(r).fields <==> key in r.fields && r.fields[key] != Undefined
  {}

  lemma ShownDiffersExactly(t: Record, s: Record)
    ensures var m := Merge(t, s);
      Shown(m) != Shown(SharedAfterMerge(t, m)) <==> exists key :: Fills(t, s, key)
  {
    hide Merge, Blocked, Inherited, Shown, Fills;
    var m := Merge(t, s);
    var shared := SharedAfterMerge(t, m);
    if key :| Fills(t, s, key) {
      FilledKey(t, s, key);
      ShownKeys(m, key);
      ShownKeys(shared, key);
    } else {
      forall key
        ensures key in m.fields <==> key in shared.fields
        ensures key in m.fields ==> m.fields[key] == shared.fields[key]
      {
        MergeField(t, s, key);
      }
      assert m.fields == shared.fields;
    }
  }

  lemma FilledKey(t: Record, s: Record, key: string)
    requires Fills(t, s, key)
    ensures var m := Merge(t, s); var shared := SharedAfterMerge(t, m);
      && key in m.fields && m.fields[key] != Undefined
      && (key in shared.fields ==> shared.fields[key] == Undefined)
  {
    hide Merge, Blocked;
    MergeField(t, s, key);
  }

  /** The report, told on the two places: nothing without legacy settings, an empty record that was removed, settings
      that were moved because the plugin had none, or merged ones, with one filled or with all set already. */
  lemma ReportedExactly(raw: Record)
    ensures var legacy := At(raw, ["models", "bedrockDiscovery"]);
      var plugin := At(raw, ["plugins", "entries", "amazon-bedrock", "config", "discovery"]);
      Migrated(raw).1
        == if !legacy.Rec? then Nothing
           else if legacy == Rec(map[]) then RemovedEmpty
           else if !plugin.Rec? then Moved
           else if exists key :: Fills(plugin, legacy, key) then Filled
           else AlreadySet
  {
    hide Merge, WithoutLegacy, Legacy, At, PutAt, Shown, Fills, SharedAfterMerge;
    LegacyAt(raw);
    if Legacy(raw).Some? {
      TopNamesDiffer();
      AtOtherTop(raw, TARGET_PATH);
      if At(raw, TARGET_PATH).Rec? { FilledIsReportedExactly(raw); }
    }
  }

  /** A setting is filled when it is set, has no reserved name, and is unset in the plugin. */
  lemma FilledExactly(plugin: Record, legacy: Record, key: string)
    requires key !in INHERITED_KEYS
    ensures Fills(plugin, legacy, key)
       <==> && key in legacy.fields && legacy.fields[key] != Undefined
            && key != "__proto__" && key != "prototype" && key != "constructor"
            && (key !in plugin.fields || plugin.fields[key] == Undefined)
  {}

  /** What the plugin's settings become: as they were, those that were moved, or the merged ones. */
  lemma PluginAfter(raw: Record)
    ensures var target := ["plugins", "entries", "amazon-bedrock", "config", "discovery"];
      var legacy, plugin := At(raw, ["models", "bedrockDiscovery"]), At(raw, target);
      At(Migrated(raw).0, target)
        == if !legacy.Rec? || legacy == Rec(map[]) then plugin
           else if !plugin.Rec? then legacy
           else Merge(plugin, legacy)
  {
    hide Merge, WithoutLegacy, Legacy, At, PutAt, Shown, SharedAfterMerge;
    LegacyAt(raw);
    if Legacy(raw).Some? {
      TopNamesDiffer();
      AtOtherTop(raw, TARGET_PATH);
      var root, l := WithoutLegacy(raw), Legacy(raw).value;
      assert TARGET_PATH[|TARGET_PATH|..] == [];
      PutAtMeaning(root, TARGET_PATH, l, TARGET_PATH);
      AtHere(l);
      if At(root, TARGET_PATH).Rec? {
        PutAtMeaning(root, TARGET_PATH, Merge(At(root, TARGET_PATH), l), TARGET_PATH);
        AtHere(Merge(At(root, TARGET_PATH), l));
      }
    }
  }

  /** A configuration with these two records of settings. */
  function Configured(legacy: Record, plugin: Record): Record {
    PutAt(PutAt(Rec(map[]), LEGACY_PATH, legacy), TARGET_PATH, plugin)
  }

  lemma ConfiguredParts(legacy: Record, plugin: Record)
    ensures var raw := Configured(legacy, plugin); Legacy(raw) == Some(legacy) && At(raw, TARGET_PATH) == plugin
  {
    hide Legacy, At, PutAt;
    var root := PutAt(Rec(map[]), LEGACY_PATH, legacy);
    LegacyIsWithin(LEGACY_PATH);
    PutAtMeaning(Rec(map[]), LEGACY_PATH, legacy, LEGACY_PATH);
    PutAtMeaning(root, TARGET_PATH, plugin, LEGACY_PATH);
    PutAtMeaning(root, TARGET_PATH, plugin, TARGET_PATH);
    assert LEGACY_PATH[|LEGACY_PATH|..] == [] && TARGET_PATH[|TARGET_PATH|..] == [];
    AtHere(legacy);
    AtHere(plugin);
    LegacyAt(Configured(legacy, plugin));
  }

  /** A setting that the plugin sets to undefined changes: the legacy value comes into effect. */
  lemma UndefinedSettingIsFilled(name: string, value: string)
    requires !Blocked(name)
    ensures var raw := Configured(Rec(map[name := Text(value)]), Rec(map[name := Undefined]));
      !SameSettings(Effective(Migrated(raw).0), Effective(raw))
  {
    hide Merge, Migrated, Legacy, At, PutAt, Blocked, Inherited, Effective, Covers, Configured;
    var legacy, plugin := Rec(map[name := Text(value)]), Rec(map[name := Undefined]);
    ConfiguredParts(legacy, plugin);
    EffectiveSettingsAreKeptExactly(Configured(legacy, plugin));
    assert !Kept(plugin, legacy, name);
  }

  /** A legacy setting with a reserved or inherited name gets lost. */
  lemma SpecialNameIsLost(name: string, value: string)
    requires Blocked(name) || Inherited(name)
    ensures var raw := Configured(Rec(map[name := Text(value)]), Rec(map[]));
      !SameSettings(Effective(Migrated(raw).0), Effective(raw))
  {
    hide Merge, Migrated, Legacy, At, PutAt, Blocked, Inherited, Effective, Covers, Configured;
    var legacy, plugin := Rec(map[name := Text(value)]), Rec(map[]);
    ConfiguredParts(legacy, plugin);
    EffectiveSettingsAreKeptExactly(Configured(legacy, plugin));
    assert !Kept(plugin, legacy, name);
  }

  /** So does a setting that is called like a method of every record. */
  lemma MethodNameIsLost(value: string)
    ensures var raw := Configured(Rec(map["toString" := Text(value)]), Rec(map[]));
      !SameSettings(Effective(Migrated(raw).0), Effective(raw))
  {
    hide Migrated, Effective, Configured;
    SpecialNameIsLost("toString", value);
  }

  /** Fields that are filled inside a record are not reported: the settings change, and the report says
      that they were set already. */
  lemma InnerFillIsReportedAsSet(name: string, inner: string, value: string)
    requires !Blocked(name) && !Inherited(name) && !Blocked(inner) && !Inherited(inner)
    ensures var raw := Configured(Rec(map[name := Rec(map[inner := Text(value)])]), Rec(map[name := Rec(map[])]));
      Migrated(raw).1 == AlreadySet && !SameSettings(Effective(Migrated(raw).0), Effective(raw))
  {
    hide Merge, Migrated, Legacy, At, PutAt, Blocked, Inherited, Effective, Covers, Configured;
    var legacy, plugin := Rec(map[name := Rec(map[inner := Text(value)])]), Rec(map[name := Rec(map[])]);
    var raw := Configured(legacy, plugin);
    ConfiguredParts(legacy, plugin);
    EffectiveSettingsAreKeptExactly(raw);
    FilledIsReportedExactly(raw);
    NotCovered(inner, value);
    assert !Kept(plugin, legacy, name);
    ReportsOneOfTwo(raw);
  }

  lemma AtHere(j: Json)
    ensures At(j, []) == j
  {}

  lemma NotCovered(inner: string, value: string)
    requires !Blocked(inner) && !Inherited(inner)
    ensures !Covers(Rec(map[]), Rec(map[inner := Text(value)]))
  {
    hide Blocked, Inherited;
    assert Offered(Rec(map[inner := Text(value)]), inner);
  }

  lemma ReportsOneOfTwo(raw: Record)
    requires Legacy(raw).Some? && Legacy(raw).value.fields != map[] && At(raw, TARGET_PATH).Rec?
    ensures Migrated(raw).1 in {Filled, AlreadySet}
  {
    hide Merge, Shown, SharedAfterMerge, WithoutLegacy, Legacy;
    TopNamesDiffer();
    AtOtherTop(raw, TARGET_PATH);
  }
}
