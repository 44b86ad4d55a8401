/** Configuration records, and the merge that fills what is missing. */
module JsonRecords {

  /** A value in a configuration. `Other` is any value that is neither text nor a record. */
  datatype Json =
    | Undefined
    | Text(text: string)
    | Other(literal: string)
    | Rec(fields: map<string, Json>)

  type Record = j: Json | j.Rec? witness Rec(map[])

  type Path = seq<string>

  const BLOCKED_OBJECT_KEYS := {"__proto__", "prototype", "constructor"}

  /** What every record inherits: reading such a field that the record does not own gives a function. */
  const INHERITED_KEYS := {
    "toString", "toLocaleString", "valueOf", "hasOwnProperty", "isPrototypeOf", "propertyIsEnumerable",
    "__defineGetter__", "__defineSetter__", "__lookupGetter__", "__lookupSetter__"
  }

  predicate Blocked(key: string) { key in BLOCKED_OBJECT_KEYS }

  predicate Inherited(key: string) { key in INHERITED_KEYS }

  /** Short names are not inherited, and the only one with eight letters starts with a `t`. */
  lemma InheritedShape(key: string)
    ensures Inherited(key) ==> |key| >= 7 && |key| != 9 && |key| != 15 && (|key| == 8 ==> key[0] == 't')
  {}

  /** Reading a field. */
  function Get(r: Record, key: string): Json {
    if key in r.fields then r.fields[key] else if Inherited(key) then Other("function") else Undefined
  }

  function Put(r: Record, key: string, value: Json): Record {
    Rec(r.fields[key := value])
  }

  function Drop(r: Record, keys: set<string>): Record {
    Rec(r.fields - keys)
  }

  /** The record itself, or a fresh one in the place of anything else: `ensureRecord`. */
  function RecordOr(j: Json): Record {
    if j.Rec? then j else Rec(map[])
  }

  /** A value that is neither missing nor a record. */
  predicate IsLeaf(j: Json) { j.Text? || j.Other? }

  // ---------------------------------------------------------------------------
  // Filling what is missing
  // ---------------------------------------------------------------------------

  /** Is this field of the source one that the loop of `mergeMissing` considers? */
  predicate Offered(s: Record, key: string) {
    key in s.fields && s.fields[key] != Undefined && !Blocked(key)
  }

  /** Is it copied as a whole? */
  predicate Fills(t: Record, s: Record, key: string) {
    Offered(s, key) && Get(t, key) == Undefined
  }

  /** The target after `mergeMissing(target, source)`. */
  function Merge(t: Record, s: Record): (m: Record)
    ensures t.fields.Keys <= m.fields.Keys
    decreases s
  {
    Rec(map key | key in t.fields.Keys + s.fields.Keys && (key in t.fields || Fills(t, s, key)) ::
      if Fills(t, s, key) then s.fields[key]
      else if Offered(s, key) && t.fields[key].Rec? && s.fields[key].Rec? then Merge(t.fields[key], s.fields[key])
      else t.fields[key])
  }

  /** One field of the merged record. */
  lemma MergeField(t: Record, s: Record, key: string)
    ensures var m := Merge(t, s).fields;
      && (key in m <==> key in t.fields || Fills(t, s, key))
      && (Fills(t, s, key) ==> m[key] == s.fields[key])
      && (Offered(s, key) && Get(t, key).Rec? && s.fields[key].Rec?
          ==> m[key] == Merge(t.fields[key], s.fields[key]))
      && (key in t.fields && !Fills(t, s, key) && !(Offered(s, key) && t.fields[key].Rec? && s.fields[key].Rec?)
          ==> m[key] == t.fields[key])
  {
    hide Blocked, Inherited;
  }

  /** Reserved names are not merged. */
  lemma ReservedNamesStay(t: Record, s: Record, key: string)
    requires key == "__proto__" || key == "prototype" || key == "constructor"
    ensures var m := Merge(t, s).fields; (key in m <==> key in t.fields) && (key in m ==> m[key] == t.fields[key])
  {
    hide Merge, Inherited;
    MergeField(t, s, key);
  }

  /** A record that is changed in place. */
  class RecordCell {
    var record: Record

    constructor (r: Record)
      ensures record == r
    {
      record := r;
    }

    /** `mergeMissing`, in whatever order the fields of the source come. */
    method MergeMissing(source: Record)
      modifies this
      ensures record == Merge(old(record), source)
      decreases source
    {
      hide Partly, Merge, Inherited;
      ghost var before := record;
      PartlyAll(before, source);
      var todo := source.fields.Keys;
      ghost var done: set<string> := {};
      while todo != {}
        invariant done + todo == source.fields.Keys && done !! todo
        invariant record == Partly(before, source, done)
        decreases |todo|
      {
        var key :| key in todo;
        todo := todo - {key};
        PartlyStep(before, source, done, key);
        done := done + {key};
        var value := source.fields[key];
        if value == Undefined || Blocked(key) {
          continue;
        }
        var existing := Get(record, key);
        if existing == Undefined {
          record := Put(record, key, value);
        } else if existing.Rec? && value.Rec? {
          var inner := new RecordCell(existing);
          inner.MergeMissing(value);
          record := Put(record, key, inner.record);
        }
      }
      assert done == source.fields.Keys;
    }
  }

  /** The target when the loop has gone through some fields of the source. */
  ghost function Partly(t: Record, s: Record, done: set<string>): Record
    requires done <= s.fields.Keys
  {
    Rec(map key | key in t.fields.Keys + done && (key in t.fields || Fills(t, s, key)) ::
      if key in done then Merge(t, s).fields[key] else t.fields[key])
  }

  lemma PartlyStep(t: Record, s: Record, done: set<string>, key: string)
    requires done <= s.fields.Keys && key in s.fields && key !in done
    ensures Get(Partly(t, s, done), key) == Get(t, key)
    ensures var now, next := Partly(t, s, done), Partly(t, s, done + {key});
      if Fills(t, s, key) then next == Put(now, key, s.fields[key])
      else if Offered(s, key) && Get(t, key).Rec? && s.fields[key].Rec?
      then next == Put(now, key, Merge(t.fields[key], s.fields[key]))
      else next == now
  {
    hide Merge, Blocked, Inherited;
    MergeField(t, s, key);
    var now, next := Partly(t, s, done).fields, Partly(t, s, done + {key}).fields;
    assert forall k | k != key :: k in now <==> k in next;
    assert forall k | k in now && k != key :: now[k] == next[k];
  }

  lemma PartlyAll(t: Record, s: Record)
    ensures Partly(t, s, {}) == t && Partly(t, s, s.fields.Keys) == Merge(t, s)
  {
    assert Partly(t, s, {}).fields == t.fields;
    assert Partly(t, s, s.fields.Keys).fields == Merge(t, s).fields;
  }

  // ---------------------------------------------------------------------------
  // What a merge means, path by path
  // ---------------------------------------------------------------------------

  /** The value at the end of a path of own fields. */
  function At(j: Json, p: Path): Json {
    if p == [] then j else if j.Rec? && p[0] in j.fields then At(j.fields[p[0]], p[1..]) else Undefined
  }

  lemma AtTop(r: Record, p: Path)
    requires p != []
    ensures At(r, p) == if p[0] in r.fields then At(r.fields[p[0]], p[1..]) else Undefined
  {}

  /** Does the path lead through a value that is no record? */
  predicate Shadowed(j: Json, p: Path) {
    p != [] && (IsLeaf(j) || (j.Rec? && p[0] in j.fields && Shadowed(j.fields[p[0]], p[1..])))
  }

  predicate Ordinary(p: Path) {
    forall key <- p :: key !in {"__proto__", "prototype", "constructor"} && !Inherited(key)
  }

  lemma BlockedNames(key: string)
    ensures Blocked(key) <==> key == "__proto__" || key == "prototype" || key == "constructor"
  {}

  /** An explicit value wins, a missing one is taken from the source, records stay records. */
  lemma {:induction false} MergeAt(t: Record, s: Record, p: Path)
    requires Ordinary(p)
    ensures IsLeaf(At(t, p)) ==> At(Merge(t, s), p) == At(t, p)
    ensures At(t, p) == Undefined ==> At(Merge(t, s), p) == if Shadowed(t, p) then Undefined else At(s, p)
    ensures At(t, p).Rec? ==> At(Merge(t, s), p).Rec?
    decreases p
  {
    hide Merge, Blocked, Inherited;
    if p != [] {
      var key, rest := p[0], p[1..];
      assert p[0] in p && forall k <- rest :: k in p;
      assert At(Undefined, rest) == Undefined && !Shadowed(Undefined, rest);
      MergeField(t, s, key);
      BlockedNames(key);
      if Offered(s, key) && Get(t, key).Rec? && s.fields[key].Rec? {
        MergeAt(t.fields[key], s.fields[key], rest);
      }
    }
  }

  /** Whatever stands at a path of the merged record stood there before, in one of the two or as records in both. */
  lemma {:induction false} NothingInvented(t: Record, s: Record, p: Path)
    ensures var m := At(Merge(t, s), p);
      m == At(t, p) || m == At(s, p) || (m.Rec? && At(t, p).Rec? && At(s, p).Rec?)
    decreases p
  {
    hide Merge, Blocked, Inherited;
    if p != [] {
      var key := p[0];
      MergeField(t, s, key);
      if Offered(s, key) && Get(t, key).Rec? && s.fields[key].Rec? {
        NothingInvented(t.fields[key], s.fields[key], p[1..]);
      }
    }
  }

  /** Everything that the source offers, at every depth, is set in the target. */
  ghost predicate Covers(t: Record, s: Record)
    decreases s
  {
    forall key | key in s.fields && Offered(s, key) ::
      && Get(t, key) != Undefined
      && (Get(t, key).Rec? && s.fields[key].Rec? ==> Covers(Get(t, key), s.fields[key]))
  }

  /** A merge changes nothing exactly when everything on offer is set. */
  lemma {:induction false} MergeChangesNothingExactly(t: Record, s: Record)
    ensures Merge(t, s) == t <==> Covers(t, s)
    decreases s
  {
    hide Merge, Blocked, Inherited;
    if Covers(t, s) {
      forall key
        ensures key in Merge(t, s).fields <==> key in t.fields
        ensures key in t.fields ==> Merge(t, s).fields[key] == t.fields[key]
      {
        MergeField(t, s, key);
        if Offered(s, key) && Get(t, key).Rec? && s.fields[key].Rec? {
          MergeChangesNothingExactly(t.fields[key], s.fields[key]);
        }
      }
      assert Merge(t, s).fields == t.fields;
    }
    if Merge(t, s) == t {
      forall key | key in s.fields && Offered(s, key)
        ensures Get(t, key) != Undefined
        ensures Get(t, key).Rec? && s.fields[key].Rec? ==> Covers(Get(t, key), s.fields[key])
      {
        MergeField(t, s, key);
        if Get(t, key).Rec? && s.fields[key].Rec? {
          MergeChangesNothingExactly(t.fields[key], s.fields[key]);
        }
      }
    }
  }

  lemma {:induction false} CoversItself(r: Record)
    ensures Covers(r, r)
    decreases r
  {
    hide Blocked, Inherited;
    forall key | key in r.fields && r.fields[key].Rec?
      ensures Covers(r.fields[key], r.fields[key])
    {
      CoversItself(r.fields[key]);
    }
  }

  lemma {:induction false} MergeCovers(t: Record, s: Record)
    ensures Covers(Merge(t, s), s)
    decreases s
  {
    hide Merge, Blocked, Inherited;
    var m := Merge(t, s);
    forall key | key in s.fields && Offered(s, key)
      ensures Get(m, key) != Undefined
      ensures Get(m, key).Rec? && s.fields[key].Rec? ==> Covers(Get(m, key), s.fields[key])
    {
      MergeField(t, s, key);
      if s.fields[key].Rec? {
        CoversItself(s.fields[key]);
        if Get(t, key).Rec? {
          MergeCovers(t.fields[key], s.fields[key]);
        }
      }
    }
  }

  /** Merging the same source again changes nothing. */
  lemma MergeTwice(t: Record, s: Record)
    ensures Merge(Merge(t, s), s) == Merge(t, s)
  {
    MergeCovers(t, s);
    MergeChangesNothingExactly(Merge(t, s), s);
  }

  // ---------------------------------------------------------------------------
  // Writing at a path
  // ---------------------------------------------------------------------------

  /** Assigns the value at a path, with records made on the way where there are none. */
  function PutAt(j: Json, p: Path, value: Json): Json
    ensures p != [] ==> PutAt(j, p, value).Rec?
    decreases p
  {
    if p == [] then value else
    var r := RecordOr(j);
    Put(r, p[0], PutAt(Get(r, p[0]), p[1..], value))
  }

  lemma PrefixTails(p: Path, q: Path)
    requires p != [] && q != [] && p[0] == q[0]
    ensures p <= q <==> p[1..] <= q[1..]
    ensures p <= q ==> q[1..][|p| - 1..] == q[|p|..]
  {
    assert p == [p[0]] + p[1..] && q == [q[0]] + q[1..];
  }

  /** At and under the path stands the new value, above it are records, and all else is as before. */
  lemma {:induction false} PutAtMeaning(j: Json, p: Path, value: Json, q: Path)
    ensures p <= q ==> At(PutAt(j, p, value), q) == At(value, q[|p|..])
    ensures q <= p && p != q ==> At(PutAt(j, p, value), q).Rec?
    ensures !(p <= q) && !(q <= p) ==> At(PutAt(j, p, value), q) == At(j, q)
    decreases p
  {
    hide Inherited;
    if p != [] && q != [] && p[0] == q[0] {
      PrefixTails(p, q);
      PrefixTails(q, p);
      PutAtMeaning(Get(RecordOr(j), p[0]), p[1..], value, q[1..]);
    }
  }
}
