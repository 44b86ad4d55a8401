/** Recalls by what was asked for: which results a query is served in a run of the cache. */
module RecallQueries {
  import opened Text
  import opened RecallCache

  // ---------------------------------------------------------------------------
  // Keys and queries
  // ---------------------------------------------------------------------------

  /** The session of a query: its key, or else its id, or else none. */
  function SessionOf(q: Query): string {
    match (q.sessionKey, q.sessionId)
    case (Some(key), _) => key
    case (None, Some(id)) => id
    case (None, None) => "none"
  }

  /** Do two queries ask the same of the same agent in the same session? */
  predicate SameQuery(p: Query, q: Query) {
    p.agentId == q.agentId && SessionOf(p) == SessionOf(q) && p.hash == q.hash
  }

  lemma KeyParts(q: Query)
    ensures BuildCacheKey(q) == q.agentId + ":" + (SessionOf(q) + ":" + q.hash)
  {
    assert q.agentId + ":" + SessionOf(q) + ":" + q.hash == q.agentId + ":" + (SessionOf(q) + ":" + q.hash);
  }

  lemma ColonBehind(a: string, x: string)
    ensures var s := a + ":" + x; s[|a|] == ':' && s[..|a|] == a && s[|a| + 1..] == x
    ensures ':' !in a ==> forall i | 0 <= i < |a| :: (a + ":" + x)[i] != ':'
    ensures ':' !in x ==> forall i | |a| < i < |a| + 1 + |x| :: (a + ":" + x)[i] != ':'
  {}

  lemma FirstColon(a: string, x: string, b: string, y: string)
    requires ':' !in a && ':' !in b && a + ":" + x == b + ":" + y
    ensures a == b && x == y
  {
    ColonBehind(a, x);
    ColonBehind(b, y);
  }

  lemma LastColon(x: string, a: string, y: string, b: string)
    requires ':' !in a && ':' !in b && x + ":" + a == y + ":" + b
    ensures x == y && a == b
  {
    ColonBehind(x, a);
    ColonBehind(y, b);
  }

  /** A text with one colon is cut there. */
  lemma OneColon(x: string, y: string, b: string, t: string)
    requires ':' !in b && ':' !in t && x + ":" + y == b + ":" + t
    ensures x == b && y == t
  {
    ColonBehind(x, y);
    ColonBehind(b, t);
  }

  /** Two queries of agents whose ids have no colon share a key exactly when they ask the same. The hash is written
      in hexadecimal digits, so that it has no colon; the session may have some. */
  lemma SharedKeyExactly(p: Query, q: Query)
    requires ':' !in p.agentId && ':' !in q.agentId && ':' !in p.hash && ':' !in q.hash
    ensures BuildCacheKey(p) == BuildCacheKey(q) <==> SameQuery(p, q)
  {
    hide SessionOf, BuildCacheKey;
    KeyParts(p);
    KeyParts(q);
    if BuildCacheKey(p) == BuildCacheKey(q) {
      FirstColon(p.agentId, SessionOf(p) + ":" + p.hash, q.agentId, SessionOf(q) + ":" + q.hash);
      LastColon(SessionOf(p), p.hash, SessionOf(q), q.hash);
    }
  }

  lemma ColonAt(s: string) returns (i: nat)
    requires ':' in s
    ensures i < |s| && s[i] == ':' && s == s[..i] + ":" + s[i + 1..]
  {
    i :| i < |s| && s[i] == ':';
  }

  /** Another query under the key of one whose agent or session has a colon. */
  lemma OtherQuery(q: Query) returns (p: Query)
    requires ':' in q.agentId || ':' in SessionOf(q)
    ensures p.hash == q.hash && BuildCacheKey(p) == BuildCacheKey(q) && !SameQuery(p, q)
  {
    hide BuildCacheKey, SessionOf;
    var a, s := q.agentId, SessionOf(q);
    KeyParts(q);
    if ':' in a {
      var i := ColonAt(a);
      p := Query(a[..i], Some(a[i + 1..] + ":" + s), None, q.hash);
      MovedColon(a[..i], a[i + 1..], s, q.hash);
    } else {
      var i := ColonAt(s);
      p := Query(a + ":" + s[..i], Some(s[i + 1..]), None, q.hash);
      MovedColon(a, s[..i], s[i + 1..], q.hash);
    }
    KeySession(p);
    KeyParts(p);
  }

  lemma KeySession(p: Query)
    ensures p.sessionKey.Some? ==> SessionOf(p) == p.sessionKey.value
  {}

  lemma MovedColon(a: string, b: string, c: string, hash: string)
    ensures a + ":" + ((b + ":" + c) + ":" + hash) == (a + ":" + b) + ":" + (c + ":" + hash)
  {}

  /** When agents may be named with colons, a key stands for one query exactly if there is no colon in its agent
      and in its session. */
  lemma KeyStandsForOneQueryExactly(q: Query)
    requires ':' !in q.hash
    ensures (forall p: Query | ':' !in p.hash && BuildCacheKey(p) == BuildCacheKey(q) :: SameQuery(p, q))
       <==> ':' !in q.agentId && ':' !in SessionOf(q)
  {
    hide BuildCacheKey, SessionOf, SameQuery;
    if ':' in q.agentId || ':' in SessionOf(q) {
      var p := OtherQuery(q);
    } else {
      KeyParts(q);
      forall p: Query | ':' !in p.hash && BuildCacheKey(p) == BuildCacheKey(q)
        ensures SameQuery(p, q)
      {
        KeyParts(p);
        OneQueryOfKey(p, q);
      }
    }
  }

  lemma OneQueryOfKey(p: Query, q: Query)
    requires ':' !in q.agentId && ':' !in SessionOf(q) && ':' !in q.hash && ':' !in p.hash
    requires p.agentId + ":" + (SessionOf(p) + ":" + p.hash) == q.agentId + ":" + (SessionOf(q) + ":" + q.hash)
    ensures SameQuery(p, q)
  {
    hide SessionOf;
    var a, s, b, t := p.agentId, SessionOf(p), q.agentId, SessionOf(q);
    assert a + ":" + (s + ":" + p.hash) == (a + ":" + s) + ":" + p.hash;
    assert b + ":" + (t + ":" + q.hash) == (b + ":" + t) + ":" + q.hash;
    LastColon(a + ":" + s, p.hash, b + ":" + t, q.hash);
    OneColon(a, s, b, t);
  }

  // ---------------------------------------------------------------------------
  // Writes and sets
  // ---------------------------------------------------------------------------

  /** Every set is a write, at the place that counts the sets before it. */
  lemma {:induction false} SetIsWrite<V>(evs: seq<Event<V>>, i: nat)
    requires i < |evs| && evs[i].Set?
    ensures var w := |Writes(evs[..i])|; w < |Writes(evs)| && Writes(evs)[w] == Written(evs[i])
    decreases |evs|
  {
    hide Written;
    var n := |evs| - 1;
    if i < n {
      assert evs[..n][..i] == evs[..i];
      SetIsWrite(evs[..n], i);
    }
  }

  lemma {:induction false} WriteIsSet<V>(evs: seq<Event<V>>, w: nat) returns (i: nat)
    requires w < |Writes(evs)|
    ensures i < |evs| && evs[i].Set? && |Writes(evs[..i])| == w && Writes(evs)[w] == Written(evs[i])
  {
    hide Written;
    var n := |evs| - 1;
    if w < |Writes(evs[..n])| {
      i := WriteIsSet(evs[..n], w);
      assert evs[..n][..i] == evs[..i];
    } else {
      i := n;
    }
  }

  lemma WritesAreInOrder<V>(evs: seq<Event<V>>, i: nat, k: nat)
    requires i < k < |evs| && evs[i].Set?
    ensures |Writes(evs[..i])| < |Writes(evs[..k])|
  {
    assert evs[..k][..i] == evs[..i];
    SetIsWrite(evs[..k], i);
  }

  // ---------------------------------------------------------------------------
  // What a query is served
  // ---------------------------------------------------------------------------

  predicate IsPlain(q: Query) { ':' !in q.agentId && ':' !in q.hash }

  /** Event `i` is the latest one before event `j` that sets a result for the query. */
  ghost predicate IsLatestSet<V>(evs: seq<Event<V>>, i: nat, j: nat, q: Query)
    requires j <= |evs|
  {
    && i < j && evs[i].Set? && SameQuery(evs[i].query, q)
    && forall k | i < k < j && evs[k].Set? :: !SameQuery(evs[k].query, q)
  }

  /** The keys that are set between events `i` and `j`. */
  ghost function KeysBetween<V>(evs: seq<Event<V>>, i: nat, j: nat): set<string>
    requires j <= |evs|
  {
    set k | i < k < j && evs[k].Set? :: BuildCacheKey(evs[k].query)
  }

  /** The latest write of a key is the latest set of its query. */
  lemma LatestWriteIsLatestSet<V>(evs: seq<Event<V>>, w: nat, q: Query) returns (i: nat)
    requires (forall ev <- evs :: IsPlain(ev.query)) && IsPlain(q)
    requires IsLatest(Writes(evs), w) && Writes(evs)[w].key == BuildCacheKey(q)
    ensures IsLatestSet(evs, i, |evs|, q) && Writes(evs)[w] == Written(evs[i])
    ensures KeysAfter(Writes(evs), w) <= KeysBetween(evs, i, |evs|)
  {
    hide Writes, BuildCacheKey, SameQuery;
    i := WriteIsSet(evs, w);
    SharedKeyExactly(evs[i].query, q);
    forall k | i < k < |evs| && evs[k].Set?
      ensures !SameQuery(evs[k].query, q)
    {
      SetIsWrite(evs, k);
      WritesAreInOrder(evs, i, k);
      SharedKeyExactly(evs[k].query, q);
    }
    forall key <- KeysAfter(Writes(evs), w)
      ensures key in KeysBetween(evs, i, |evs|)
    {
      var v :| w < v < |Writes(evs)| && Writes(evs)[v].key == key;
      var k := WriteIsSet(evs, v);
      if k < i { WritesAreInOrder(evs, k, i); }
      assert BuildCacheKey(evs[k].query) == key;
    }
  }

  lemma NeverWrittenIsNeverSet<V>(evs: seq<Event<V>>, q: Query)
    requires (forall ev <- evs :: IsPlain(ev.query)) && IsPlain(q)
    requires forall e <- Writes(evs) :: e.key != BuildCacheKey(q)
    ensures forall i | 0 <= i < |evs| && evs[i].Set? :: !SameQuery(evs[i].query, q)
  {
    hide Writes, BuildCacheKey, SameQuery;
    forall i | 0 <= i < |evs| && evs[i].Set?
      ensures !SameQuery(evs[i].query, q)
    {
      SetIsWrite(evs, i);
      assert Writes(evs)[|Writes(evs[..i])|] in Writes(evs);
      SharedKeyExactly(evs[i].query, q);
    }
  }

  /** In every run of agents without colons, a get is served the result of the latest set for the same agent, the same
      session and the same query, as long as its time to live has not passed. It is served nothing only when there
      was no such set, when that has expired, or when at least a thousand other keys were set since. */
  lemma GetsSeeTheLatestSet<V>(evs: seq<Event<V>>, j: nat)
    requires IsTimed(evs) && j < |evs| && evs[j].Get? && forall ev <- evs :: IsPlain(ev.query)
    ensures var q, now := evs[j].query, evs[j].now;
      match Answer(evs, j)
      case Some(v) =>
        exists i: nat :: IsLatestSet(evs, i, j, q) && evs[i].result == v && now < evs[i].now + evs[i].ttl
      case None =>
        || (forall i | 0 <= i < j && evs[i].Set? :: !SameQuery(evs[i].query, q))
        || exists i: nat :: IsLatestSet(evs, i, j, q)
             && (evs[i].now + evs[i].ttl <= now
                 || (|KeysBetween(evs, i, j)| >= 1000 && BuildCacheKey(q) !in KeysBetween(evs, i, j)))
  {
    hide Answer, IsTimed, Writes, BuildCacheKey, SameQuery, KeysBetween, KeysAfter, IsPlain;
    var q, front := evs[j].query, evs[..j];
    GetsSeeTheLatestWrite(evs, j);
    assert evs[j] in evs && forall ev <- front :: ev in evs;
    assert forall i | 0 <= i < j :: front[i] == evs[i];
    var latest := LatestWrite(Writes(front), BuildCacheKey(q));
    if latest.None? {
      NeverWrittenIsNeverSet(front, q);
    } else {
      var i := LatestWriteIsLatestSet(front, latest.value, q);
      assert IsLatestSet(evs, i, j, q);
      BetweenInFront(evs, i, j);
      OwnKeyIsNotBetween(evs, i, j, q);
      FewerWithout(KeysAfter(Writes(front), latest.value), KeysBetween(evs, i, j), BuildCacheKey(q));
    }
  }

  lemma BetweenInFront<V>(evs: seq<Event<V>>, i: nat, j: nat)
    requires j <= |evs|
    ensures KeysBetween(evs[..j], i, j) == KeysBetween(evs, i, j)
  {}

  lemma OwnKeyIsNotBetween<V>(evs: seq<Event<V>>, i: nat, j: nat, q: Query)
    requires j <= |evs| && IsLatestSet(evs, i, j, q) && IsPlain(q) && forall ev <- evs :: IsPlain(ev.query)
    ensures BuildCacheKey(q) !in KeysBetween(evs, i, j)
  {
    hide BuildCacheKey, SameQuery;
    forall k | i < k < j && evs[k].Set?
      ensures BuildCacheKey(evs[k].query) != BuildCacheKey(q)
    {
      assert evs[k] in evs;
      SharedKeyExactly(evs[k].query, q);
    }
  }

  lemma FewerWithout(a: set<string>, b: set<string>, x: string)
    requires a <= b
    ensures |a - {x}| <= |b|
  {
    SubsetIsSmaller(a - {x}, b);
  }

  /** Two agents that ask the same in no session do not share a result. */
  lemma AgentsDoNotShare<V>(result: V, hash: string, ttl: int)
    requires ':' !in hash && ttl > 1
    ensures var p, q := Query("main", None, None, hash), Query("work", None, None, hash);
      var set0 := Set(p, result, ttl, 0, 0);
      Answer([set0, Get(p, 1)], 1) == Some(result) && Answer([set0, Get(q, 1)], 1) == None
  {
    hide BuildCacheKey;
    var p, q := Query("main", None, None, hash), Query("work", None, None, hash);
    SharedKeyExactly(p, q);
    assert !SameQuery(p, q);
    AfterOneSet(p, p, result, ttl);
    AfterOneSet(p, q, result, ttl);
  }

  lemma AfterOneSet<V>(p: Query, q: Query, result: V, ttl: int)
    requires ttl > 1
    ensures Answer([Set(p, result, ttl, 0, 0), Get(q, 1)], 1)
         == if BuildCacheKey(p) == BuildCacheKey(q) then Some(result) else None
  {
    hide BuildCacheKey;
    var set0 := Set(p, result, ttl, 0, 0);
    assert [set0, Get(q, 1)][..1] == [set0] && [set0][..0] == [];
    assert After([set0]) == [Written(set0)];
  }
}
