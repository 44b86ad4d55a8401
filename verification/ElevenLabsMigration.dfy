/** The migration of the ElevenLabs fields of `talk` to the record of one provider. */
module ElevenLabsMigration {
  import opened Text
  import opened JsonRecords

  const ELEVENLABS_TALK_PROVIDER_ID := "elevenlabs"
  const LEGACY_TALK_FIELD_KEYS := ["voiceId", "voiceAliases", "modelId", "outputFormat", "apiKey"]

  /** What the migration reports. */
  datatype Change = Nothing | Skipped | Moved(keys: seq<string>, provider: string)

  function ProviderPath(id: string): Path { ["talk", "providers", id] }

  // ---------------------------------------------------------------------------
  // The provider that takes the fields
  // ---------------------------------------------------------------------------

  lemma HasOnlyOne(s: set<string>)
    requires |s| == 1
    ensures exists x <- s :: forall y <- s :: x == y
  {
    var x :| x in s;
    assert |s - {x}| == 0;
    assert forall y <- s :: y == x || y in s - {x};
  }

  function TheOnly(s: set<string>): (x: string)
    requires |s| == 1
    ensures s == {x}
  {
    HasOnlyOne(s);
    var x :| x in s && forall y <- s :: x == y;
    x
  }

  /** The explicit provider, if a usable one is named. */
  function ExplicitProvider(talk: Record): string {
    if Get(talk, "provider").Text? then Trim(Get(talk, "provider").text) else ""
  }

  function ProviderIds(providers: Record): set<string> {
    set id | id in providers.fields && !Blocked(id)
  }

  /** `resolveTalkMigrationTargetProviderId`. */
  function TargetProvider(talk: Record): Option<string> {
    var explicitProvider, providers := ExplicitProvider(talk), Get(talk, "providers");
    if explicitProvider != "" then (if Blocked(explicitProvider) then None else Some(explicitProvider))
    else if !providers.Rec? then Some(ELEVENLABS_TALK_PROVIDER_ID)
    else if |ProviderIds(providers)| == 0 then Some(ELEVENLABS_TALK_PROVIDER_ID)
    else if |ProviderIds(providers)| == 1 then Some(TheOnly(ProviderIds(providers)))
    else None
  }

  // ---------------------------------------------------------------------------
  // The migration
  // ---------------------------------------------------------------------------

  function Owned(talk: Record, keys: seq<string>): seq<string> {
    if keys == [] then [] else
    Owned(talk, keys[..|keys| - 1])
      + if keys[|keys| - 1] in talk.fields then [keys[|keys| - 1]] else []
  }

  function LegacyFields(talk: Record, keys: seq<string>): Record {
    Rec(map key | key in talk.fields && key in keys :: talk.fields[key])
  }

  function WithoutKeys(talk: Record, keys: seq<string>): Record {
    Rec(map key | key in talk.fields && key !in keys :: talk.fields[key])
  }

  function Migrated(raw: Json): (Json, Change) {
    if !raw.Rec? || !Get(raw, "talk").Rec? then (raw, Nothing) else
    var talk := Get(raw, "talk");
    if Owned(talk, LEGACY_TALK_FIELD_KEYS) == [] then (raw, Nothing) else
    var id := TargetProvider(talk);
    if id.None? || id.value == "" then (raw, Skipped) else
    var existing := RecordOr(Get(RecordOr(Get(talk, "providers")), id.value));
    var merged := Merge(existing, LegacyFields(talk, LEGACY_TALK_FIELD_KEYS));
    var root := Put(raw, "talk", WithoutKeys(talk, LEGACY_TALK_FIELD_KEYS));
    (PutAt(root, ProviderPath(id.value), merged), Moved(Owned(talk, LEGACY_TALK_FIELD_KEYS), id.value))
  }

  /** The loop over the legacy keys. */
  method TakeLegacyFields(talk: RecordCell, keys: seq<string>) returns (legacy: Record, movedKeys: seq<string>)
    requires forall i, j | 0 <= i < j < |keys| :: keys[i] != keys[j]
    modifies talk
    ensures legacy == LegacyFields(old(talk.record), keys)
    ensures talk.record == WithoutKeys(old(talk.record), keys)
    ensures movedKeys == Owned(old(talk.record), keys)
  {
    ghost var before := talk.record;
    legacy, movedKeys := Rec(map[]), [];
    assert WithoutKeys(before, []).fields == before.fields;
    for i := 0 to |keys|
      invariant legacy == LegacyFields(before, keys[..i])
      invariant talk.record == WithoutKeys(before, keys[..i])
      invariant movedKeys == Owned(before, keys[..i])
    {
      var key := keys[i];
      TakeStep(before, keys, i);
      if key !in talk.record.fields {
        continue;
      }
      legacy := Put(legacy, key, talk.record.fields[key]);
      talk.record := Drop(talk.record, {key});
      movedKeys := movedKeys + [key];
    }
    assert keys[..|keys|] == keys;
  }

  lemma TakeStep(talk: Record, keys: seq<string>, i: nat)
    requires i < |keys| && forall i, j | 0 <= i < j < |keys| :: keys[i] != keys[j]
    ensures keys[i] in WithoutKeys(talk, keys[..i]).fields <==> keys[i] in talk.fields
    ensures var key := keys[i];
      if key in talk.fields then
        && LegacyFields(talk, keys[..i + 1]) == Put(LegacyFields(talk, keys[..i]), key, talk.fields[key])
        && WithoutKeys(talk, keys[..i + 1]) == Drop(WithoutKeys(talk, keys[..i]), {key})
        && Owned(talk, keys[..i + 1]) == Owned(talk, keys[..i]) + [key]
      else
        && LegacyFields(talk, keys[..i + 1]) == LegacyFields(talk, keys[..i])
        && WithoutKeys(talk, keys[..i + 1]) == WithoutKeys(talk, keys[..i])
        && Owned(talk, keys[..i + 1]) == Owned(talk, keys[..i])
  {
    var key := keys[i];
    var front, next := keys[..i], keys[..i + 1];
    assert next == front + [key] && next[..|next| - 1] == front;
    assert forall k :: k in next <==> k in front || k == key;
    assert key !in front;
    assert Owned(talk, next) == Owned(talk, front) + if key in talk.fields then [key] else [];
    hide Owned;
    assert LegacyFields(talk, next).fields
        == if key in talk.fields then LegacyFields(talk, front).fields[key := talk.fields[key]]
           else LegacyFields(talk, front).fields;
    assert WithoutKeys(talk, next).fields == WithoutKeys(talk, front).fields - {key};
    if key !in talk.fields {
      assert WithoutKeys(talk, front).fields - {key} == WithoutKeys(talk, front).fields;
    }
  }

  /** `migrateElevenLabsLegacyTalkConfig`. */
  method Migrate(raw: Json) returns (config: Json, change: Change)
    ensures (config, change) == Migrated(raw)
  {
    hide Merge, Inherited, Trim, LegacyFields, WithoutKeys, Owned, TargetProvider;
    if !raw.Rec? || !Get(raw, "talk").Rec? {
      return raw, Nothing;
    }
    var talk := Get(raw, "talk");
    if Owned(talk, LEGACY_TALK_FIELD_KEYS) == [] {
      return raw, Nothing;
    }
    var id := TargetProvider(talk);
    if id.None? || id.value == "" {
      return raw, Skipped;
    }
    var providers := RecordOr(Get(talk, "providers"));
    var nextTalk := new RecordCell(talk);
    LegacyKeysDiffer();
    var legacyFields, movedKeys := TakeLegacyFields(nextTalk, LEGACY_TALK_FIELD_KEYS);
    var migratedProvider := new RecordCell(RecordOr(Get(providers, id.value)));
    migratedProvider.MergeMissing(legacyFields);
    var nextRoot := Put(raw, "talk", nextTalk.record);
    return PutAt(nextRoot, ProviderPath(id.value), migratedProvider.record), Moved(movedKeys, id.value);
  }

  lemma LegacyKeysDiffer()
    ensures forall i, j | 0 <= i < j < |LEGACY_TALK_FIELD_KEYS| ::
      LEGACY_TALK_FIELD_KEYS[i] != LEGACY_TALK_FIELD_KEYS[j]
  {
    var keys := LEGACY_TALK_FIELD_KEYS;
    assert keys[0][0] != keys[2][0];
    assert keys[1][0] != keys[3][0];
    assert |keys[0]| == 7 && |keys[1]| == 12 && |keys[2]| == 7 && |keys[3]| == 12 && |keys[4]| == 6;
  }

  // ---------------------------------------------------------------------------
  // Which provider takes the fields
  // ---------------------------------------------------------------------------

  predicate HasLegacyFields(talk: Record) {
    exists key <- ["voiceId", "voiceAliases", "modelId", "outputFormat", "apiKey"] :: key in talk.fields
  }

  lemma {:induction false} OwnedMeaning(talk: Record, keys: seq<string>)
    ensures forall key :: key in Owned(talk, keys) <==> key in keys && key in talk.fields
  {
    if keys != [] {
      var front, last := keys[..|keys| - 1], keys[|keys| - 1];
      OwnedMeaning(talk, front);
      assert keys == front + [last];
    }
  }

  lemma MigratesExactly(raw: Record)
    ensures Migrated(raw).1 == Nothing <==> !Get(raw, "talk").Rec? || !HasLegacyFields(Get(raw, "talk"))
  {
    hide Merge, Trim, TargetProvider, Inherited;
    if Get(raw, "talk").Rec? {
      var talk := Get(raw, "talk");
      OwnedMeaning(talk, LEGACY_TALK_FIELD_KEYS);
      var owned := Owned(talk, LEGACY_TALK_FIELD_KEYS);
      assert owned != [] ==> owned[0] in owned;
    }
  }

  /** `talk` names the provider with this id. */
  predicate Names(talk: Record, id: string) {
    At(talk, ["provider"]).Text? && Trim(At(talk, ["provider"]).text) == id && id != ""
  }

  predicate Reserved(id: string) { id == "__proto__" || id == "prototype" || id == "constructor" }

  /** Is the provider that takes the fields in doubt? Its name is reserved, or there is no name and
      several providers, or one with an empty id. */
  ghost predicate InDoubt(talk: Record) {
    if exists id :: Names(talk, id) then exists id :: Names(talk, id) && Reserved(id) else
    var providers := Get(talk, "providers");
    providers.Rec? && exists a, b ::
      && a in providers.fields && b in providers.fields && !Reserved(a) && !Reserved(b)
      && (a != b || (a == "" && forall c | c in providers.fields && !Reserved(c) :: c == ""))
  }

  lemma NamedIsExplicit(talk: Record, id: string)
    ensures Names(talk, id) <==> ExplicitProvider(talk) == id && id != ""
  {
    hide Trim, Inherited, At;
    FieldNames();
    AtOf(talk, "provider");
  }

  lemma FieldNames()
    ensures !Inherited("provider") && !Inherited("providers") && !Inherited("talk")
  {
    hide Inherited;
    InheritedShape("provider");
    InheritedShape("providers");
    InheritedShape("talk");
  }

  lemma ReservedIsBlocked(id: string)
    ensures Reserved(id) == Blocked(id)
  {}

  lemma TwoOf(s: set<string>) returns (a: string, b: string)
    requires |s| > 1
    ensures a in s && b in s && a != b
  {
    a :| a in s;
    assert |s - {a}| > 0;
    b :| b in s - {a};
  }

  /** The fields stay where they are exactly when the provider is in doubt. */
  lemma SkippedExactly(raw: Record)
    requires Get(raw, "talk").Rec? && HasLegacyFields(Get(raw, "talk"))
    ensures Migrated(raw).1 == Skipped <==> InDoubt(Get(raw, "talk"))
  {
    hide Merge, Trim, TargetProvider, Inherited, Blocked, InDoubt, HasLegacyFields;
    MigratesExactly(raw);
    DoubtMeansNoTarget(Get(raw, "talk"));
  }

  lemma NamedDoubt(talk: Record)
    requires ExplicitProvider(talk) != ""
    ensures InDoubt(talk) <==> Reserved(ExplicitProvider(talk))
  {
    hide Names, ExplicitProvider, Reserved;
    forall id
      ensures Names(talk, id) <==> ExplicitProvider(talk) == id && id != ""
    {
      NamedIsExplicit(talk, id);
    }
    assert Names(talk, ExplicitProvider(talk));
  }

  lemma UnnamedDoubt(talk: Record)
    requires ExplicitProvider(talk) == ""
    ensures var providers := Get(talk, "providers");
      InDoubt(talk) <==> providers.Rec? && exists a, b ::
        && a in providers.fields && b in providers.fields && !Reserved(a) && !Reserved(b)
        && (a != b || (a == "" && forall c | c in providers.fields && !Reserved(c) :: c == ""))
  {
    hide Names, ExplicitProvider, Reserved;
    forall id
      ensures !Names(talk, id)
    {
      NamedIsExplicit(talk, id);
    }
  }

  lemma DoubtMeansNoTarget(talk: Record)
    ensures InDoubt(talk) <==> TargetProvider(talk) == None || TargetProvider(talk) == Some("")
  {
    hide Trim, Inherited, Blocked, Reserved, ExplicitProvider, InDoubt;
    forall id
      ensures Reserved(id) == Blocked(id)
    {
      ReservedIsBlocked(id);
    }
    if ExplicitProvider(talk) != "" {
      NamedDoubt(talk);
    } else {
      UnnamedDoubt(talk);
      if Get(talk, "providers").Rec? { UnnamedTarget(talk); }
    }
  }

  lemma UnnamedTarget(talk: Record)
    requires ExplicitProvider(talk) == "" && Get(talk, "providers").Rec?
    ensures var providers := Get(talk, "providers");
      (TargetProvider(talk) == None || TargetProvider(talk) == Some("")) <==> exists a, b ::
        && a in providers.fields && b in providers.fields && !Reserved(a) && !Reserved(b)
        && (a != b || (a == "" && forall c | c in providers.fields && !Reserved(c) :: c == ""))
  {
    hide Trim, Inherited, Blocked, Reserved, ExplicitProvider;
    var providers := Get(talk, "providers");
    var ids := ProviderIds(providers);
    forall id
      ensures Reserved(id) == Blocked(id)
    {
      ReservedIsBlocked(id);
    }
    assert forall c :: c in ids <==> c in providers.fields && !Reserved(c);
    if |ids| > 1 {
      var a, b := TwoOf(ids);
      assert a in providers.fields && b in providers.fields && !Reserved(a) && !Reserved(b) && a != b;
    } else if |ids| == 1 {
      var id := TheOnly(ids);
      assert forall c :: c in ids <==> c == id;
    } else {
      assert ids == {};
    }
  }

  /** The fields stay where they are when the only provider has an empty id. */
  lemma EmptyProviderIdIsSkipped(voice: Json)
    ensures var raw := Rec(map["talk" := Rec(map["voiceId" := voice, "providers" := Rec(map["" := Rec(map[])])])]);
      Migrated(raw) == (raw, Skipped)
  {
    hide Merge, Trim, TargetProvider, Inherited, Migrated;
    var providers := Rec(map["" := Rec(map[])]);
    var talk := Rec(map["voiceId" := voice, "providers" := providers]);
    assert |"voiceId"| == 7 && |"providers"| == 9 && |"provider"| == 8;
    assert LEGACY_TALK_FIELD_KEYS[0] in LEGACY_TALK_FIELD_KEYS && "voiceId" in talk.fields;
    assert HasLegacyFields(talk);
    assert Get(talk, "providers") == providers && !Get(talk, "provider").Text?;
    assert !Reserved("");
    forall name
      ensures !Names(talk, name)
    {
      NamedIsExplicit(talk, name);
    }
    hide Names;
    assert InDoubt(talk);
    var raw := Rec(map["talk" := talk]);
    SkippedExactly(raw);
    SkippedChangesNothing(raw);
  }

  lemma SkippedChangesNothing(raw: Record)
    requires Migrated(raw).1.Skipped?
    ensures Migrated(raw).0 == raw
  {
    hide Merge, Trim, TargetProvider, Inherited;
  }

  /** The provider that takes the fields: the named one, or the only usable one, or ElevenLabs if there is none. */
  lemma TargetMeaning(talk: Record)
    requires TargetProvider(talk).Some?
    ensures var id, providers := TargetProvider(talk).value, Get(talk, "providers");
      && !Reserved(id)
      && (forall name | Names(talk, name) :: id == name)
      && ((forall name :: !Names(talk, name)) && providers.Rec? ==>
            forall other | other in providers.fields && !Reserved(other) :: other == id)
      && ((forall name :: !Names(talk, name)) && (!providers.Rec? || forall other <- providers.fields :: Reserved(other)) ==>
            id == "elevenlabs")
  {
    hide Trim, Inherited, Blocked, Reserved, ExplicitProvider, Names;
    ElevenLabsIsNotBlocked();
    forall name
      ensures Names(talk, name) <==> ExplicitProvider(talk) == name && name != ""
      ensures Reserved(name) == Blocked(name)
    {
      NamedIsExplicit(talk, name);
      ReservedIsBlocked(name);
    }
    var providers := Get(talk, "providers");
    if ExplicitProvider(talk) == "" && providers.Rec? {
      assert forall other | other in providers.fields && !Reserved(other) :: other in ProviderIds(providers);
      if forall other <- providers.fields :: Reserved(other) {
        assert ProviderIds(providers) == {};
      }
    }
  }

  lemma ElevenLabsIsNotBlocked()
    ensures !Blocked(ELEVENLABS_TALK_PROVIDER_ID)
  {
    assert |ELEVENLABS_TALK_PROVIDER_ID| == 10 && |"__proto__"| == 9 && |"prototype"| == 9 && |"constructor"| == 11;
  }

  // ---------------------------------------------------------------------------
  // What the migration does to the configuration
  // ---------------------------------------------------------------------------

  /** The provider's record before the migration. */
  function ProviderBefore(raw: Record, id: string): Record {
    RecordOr(At(raw, ProviderPath(id)))
  }

  lemma MovedParts(raw: Record)
    requires Migrated(raw).1.Moved?
    ensures var id := Migrated(raw).1.provider;
      && "talk" in raw.fields && raw.fields["talk"].Rec?
      && var talk := raw.fields["talk"];
      && HasLegacyFields(talk) && Migrated(raw).1.keys == Owned(talk, LEGACY_TALK_FIELD_KEYS)
      && Migrated(raw).0 == PutAt(Put(raw, "talk", WithoutKeys(talk, LEGACY_TALK_FIELD_KEYS)), ProviderPath(id),
           Merge(ProviderBefore(raw, id), LegacyFields(talk, LEGACY_TALK_FIELD_KEYS)))
  {
    hide Merge, Trim, TargetProvider, Inherited, PutAt, WithoutKeys, LegacyFields, HasLegacyFields, Owned, ProviderBefore;
    MigratesExactly(raw);
    ProviderFound(raw, Migrated(raw).1.provider);
  }

  lemma ProviderFound(raw: Record, id: string)
    requires "talk" in raw.fields && raw.fields["talk"].Rec?
    ensures ProviderBefore(raw, id) == RecordOr(Get(RecordOr(Get(raw.fields["talk"], "providers")), id))
  {
    hide Inherited, At;
    var p, talk := ProviderPath(id), raw.fields["talk"];
    assert p[1..] == ["providers", id] && p[1..][1..] == [id] && p[1..][1..][1..] == [];
    AtTop(raw, p);
    AtTop(talk, p[1..]);
    AtOf(Get(talk, "providers"), id);
    AtOf(Undefined, id);
  }

  lemma AtOf(j: Json, id: string)
    ensures At(j, [id]) == if j.Rec? && id in j.fields then j.fields[id] else Undefined
  {}

  /** In the provider's record an explicit value wins, and the legacy fields fill only what is unset. */
  lemma ProviderAfter(raw: Record, p: Path)
    requires Migrated(raw).1.Moved? && Ordinary(p)
    ensures var place := ["talk", "providers", Migrated(raw).1.provider];
      var before, after := RecordOr(At(raw, place)), At(Migrated(raw).0, place + p);
      && (IsLeaf(At(before, p)) ==> after == At(before, p))
      && (At(before, p) == Undefined ==>
            after == if !Shadowed(before, p) && p[0] in ["voiceId", "voiceAliases", "modelId", "outputFormat", "apiKey"]
                     then At(raw, ["talk"] + p) else Undefined)
      && (At(before, p).Rec? ==> after.Rec?)
  {
    hide Merge, PutAt, WithoutKeys, LegacyFields, HasLegacyFields, Owned, Migrated, At, Ordinary, Shadowed, Inherited;
    MovedParts(raw);
    var id, talk := Migrated(raw).1.provider, raw.fields["talk"];
    var before, legacy := ProviderBefore(raw, id), LegacyFields(talk, LEGACY_TALK_FIELD_KEYS);
    var q := ProviderPath(id) + p;
    PutAtMeaning(Put(raw, "talk", WithoutKeys(talk, LEGACY_TALK_FIELD_KEYS)), ProviderPath(id), Merge(before, legacy), q);
    assert q[|ProviderPath(id)|..] == p;
    MergeAt(before, legacy, p);
    if p == [] { RecordHere(before); } else { LegacyFieldAt(raw, p); }
  }

  lemma RecordHere(r: Record)
    ensures At(r, []) == r
  {}

  lemma LegacyFieldAt(raw: Record, p: Path)
    requires "talk" in raw.fields && raw.fields["talk"].Rec? && p != []
    ensures At(LegacyFields(raw.fields["talk"], LEGACY_TALK_FIELD_KEYS), p)
         == if p[0] in ["voiceId", "voiceAliases", "modelId", "outputFormat", "apiKey"] then At(raw, ["talk"] + p)
            else Undefined
  {
    hide At;
    var talk := raw.fields["talk"];
    AtTop(LegacyFields(talk, LEGACY_TALK_FIELD_KEYS), p);
    AtTop(talk, p);
    AtTop(raw, ["talk"] + p);
    assert (["talk"] + p)[1..] == p;
  }

  lemma TalkAfter(root: Record, talk: Record, id: string, value: Json)
    ensures var after := PutAt(Put(root, "talk", talk), ProviderPath(id), value);
      after.Rec? && "talk" in after.fields && after.fields["talk"].Rec?
      && after.fields["talk"].fields.Keys == talk.fields.Keys + {"providers"}
  {
    hide Inherited;
    var p := ProviderPath(id);
    assert p[1..] == ["providers", id];
  }

  /** The five legacy fields leave `talk`. */
  lemma LegacyFieldsLeave(raw: Record)
    requires Migrated(raw).1.Moved?
    ensures Migrated(raw).0.Rec? && Get(Migrated(raw).0, "talk").Rec?
    ensures !HasLegacyFields(Get(Migrated(raw).0, "talk"))
  {
    hide Merge, PutAt, LegacyFields, HasLegacyFields, Owned, Migrated, At, ProviderBefore;
    MovedParts(raw);
    var id, talk := Migrated(raw).1.provider, raw.fields["talk"];
    var left := WithoutKeys(talk, LEGACY_TALK_FIELD_KEYS);
    TalkAfter(raw, left, id, Merge(ProviderBefore(raw, id), LegacyFields(talk, LEGACY_TALK_FIELD_KEYS)));
    NotALegacyKey();
    NoneOwned(Get(Migrated(raw).0, "talk"));
  }

  lemma NoneOwned(talk: Record)
    requires forall key | key in talk.fields :: key !in LEGACY_TALK_FIELD_KEYS
    ensures !HasLegacyFields(talk)
  {}

  lemma NotALegacyKey()
    ensures "providers" !in LEGACY_TALK_FIELD_KEYS && "provider" !in LEGACY_TALK_FIELD_KEYS
  {
    var keys := LEGACY_TALK_FIELD_KEYS;
    assert |"providers"| == 9 && |"provider"| == 8;
    assert |keys[0]| == 7 && |keys[1]| == 12 && |keys[2]| == 7 && |keys[3]| == 12 && |keys[4]| == 6;
    assert forall i | 0 <= i < |keys| :: |keys[i]| != 8 && |keys[i]| != 9;
  }

  /** The report lists the legacy fields that were there, in this order. */
  lemma ReportedKeys(raw: Record)
    requires Migrated(raw).1.Moved?
    ensures Get(raw, "talk").Rec?
    ensures var talk := Get(raw, "talk");
      Migrated(raw).1.keys
        == (if "voiceId" in talk.fields then ["voiceId"] else [])
           + (if "voiceAliases" in talk.fields then ["voiceAliases"] else [])
           + (if "modelId" in talk.fields then ["modelId"] else [])
           + (if "outputFormat" in talk.fields then ["outputFormat"] else [])
           + (if "apiKey" in talk.fields then ["apiKey"] else [])
  {
    hide Migrated, HasLegacyFields, ProviderBefore, Owned, PutAt, Merge;
    MovedParts(raw);
    var talk := raw.fields["talk"];
    OwnedInOrder(talk, "voiceId", "voiceAliases", "modelId", "outputFormat", "apiKey");
  }

  lemma OwnedInOrder(talk: Record, a: string, b: string, c: string, d: string, e: string)
    ensures Owned(talk, [a, b, c, d, e])
         == (if a in talk.fields then [a] else []) + (if b in talk.fields then [b] else [])
            + (if c in talk.fields then [c] else []) + (if d in talk.fields then [d] else [])
            + (if e in talk.fields then [e] else [])
  {
    hide Owned;
    NoneListed(talk);
    OwnedNext(talk, [], a);
    OwnedNext(talk, [a], b);
    OwnedNext(talk, [a, b], c);
    OwnedNext(talk, [a, b, c], d);
    OwnedNext(talk, [a, b, c, d], e);
    assert [] + [a] == [a] && [a] + [b] == [a, b] && [a, b] + [c] == [a, b, c];
    assert [a, b, c] + [d] == [a, b, c, d] && [a, b, c, d] + [e] == [a, b, c, d, e];
  }

  lemma NoneListed(talk: Record)
    ensures Owned(talk, []) == []
  {}

  lemma OwnedNext(talk: Record, keys: seq<string>, key: string)
    ensures Owned(talk, keys + [key]) == Owned(talk, keys) + if key in talk.fields then [key] else []
  {
    assert (keys + [key])[..|keys|] == keys;
  }

  /** Everything else in the configuration stays. */
  lemma RestIsKept(raw: Record, p: Path)
    requires Migrated(raw).1.Moved?
    requires var target := ProviderPath(Migrated(raw).1.provider); !(target <= p) && !(p <= target)
    requires |p| > 1 && p[0] == "talk" ==> p[1] !in LEGACY_TALK_FIELD_KEYS
    ensures At(Migrated(raw).0, p) == At(raw, p)
  {
    hide Merge, PutAt, LegacyFields, HasLegacyFields, Owned, Migrated, At, ProviderBefore;
    MovedParts(raw);
    var id, talk := Migrated(raw).1.provider, raw.fields["talk"];
    var left := WithoutKeys(talk, LEGACY_TALK_FIELD_KEYS);
    var root := Put(raw, "talk", left);
    PutAtMeaning(root, ProviderPath(id),
                 Merge(ProviderBefore(raw, id), LegacyFields(talk, LEGACY_TALK_FIELD_KEYS)), p);
    AtTop(raw, p);
    AtTop(root, p);
    if p[0] == "talk" {
      assert |p| == 1 ==> p <= ProviderPath(id);
      AtTop(talk, p[1..]);
      AtTop(left, p[1..]);
    }
  }

  /** A second migration changes nothing; it repeats only the report that the provider is in doubt. */
  lemma MigratingTwice(raw: Json)
    ensures var (config, change) := Migrated(raw);
      Migrated(config) == (config, if change.Moved? then Nothing else change)
  {
    hide Merge, PutAt, LegacyFields, HasLegacyFields, Owned, At, WithoutKeys, TargetProvider, Inherited;
    if raw.Rec? && Migrated(raw).1.Moved? {
      LegacyFieldsLeave(raw);
      MigratesExactly(Migrated(raw).0);
    }
  }
}
