/** The cache of active-memory recalls: insertion-ordered, with a time to live and a cap. */
module RecallCache {
  import opened Text

  const MAX_CACHE_ENTRIES := 1000

  datatype Entry<+V> = Entry(key: string, expiresAt: int, result: V)

  /** A call of `setCachedResult`: what it stored and until when. */
  type Write<V> = Entry<V>

  // ---------------------------------------------------------------------------
  // The insertion-ordered map
  // ---------------------------------------------------------------------------

  ghost predicate DistinctKeys<V>(es: seq<Entry<V>>) {
    forall i, j | 0 <= i < j < |es| :: es[i].key != es[j].key
  }

  /** Where a key is, or the length when it is absent. */
  function IndexOfKey<V>(es: seq<Entry<V>>, key: string): (i: nat)
    ensures i <= |es| && (i < |es| ==> es[i].key == key)
    ensures forall j | 0 <= j < i :: es[j].key != key
  {
    if es == [] || es[0].key == key then 0 else 1 + IndexOfKey(es[1..], key)
  }

  function RemoveAt<V>(es: seq<Entry<V>>, i: nat): seq<Entry<V>>
    requires i < |es|
  {
    es[..i] + es[i + 1..]
  }

  function Delete<V>(es: seq<Entry<V>>, key: string): seq<Entry<V>> {
    var i := IndexOfKey(es, key);
    if i < |es| then RemoveAt(es, i) else es
  }

  // ---------------------------------------------------------------------------
  // The operations on the cache
  // ---------------------------------------------------------------------------

  /** The entries that are still alive. */
  function Swept<V>(es: seq<Entry<V>>, now: int): seq<Entry<V>> {
    if es == [] then [] else (if es[0].expiresAt <= now then [] else [es[0]]) + Swept(es[1..], now)
  }

  /** Removes oldest entries down to the cap. As in the code, an empty oldest key stops the removal. */
  function Evicted<V>(es: seq<Entry<V>>): (r: seq<Entry<V>>)
    ensures |r| <= |es| && r == es[|es| - |r|..]
    ensures |r| <= MAX_CACHE_ENTRIES || r[0].key == ""
    ensures |r| < |es| ==> |r| >= MAX_CACHE_ENTRIES
  {
    if |es| > MAX_CACHE_ENTRIES && es[0].key != "" then Evicted(es[1..]) else es
  }

  /** What a read returns. */
  function Hit<V>(es: seq<Entry<V>>, key: string, now: int): Option<V> {
    var i := IndexOfKey(es, key);
    if i < |es| && now < es[i].expiresAt then Some(es[i].result) else None
  }

  /** What a read leaves behind: an expired entry is dropped. */
  function AfterGet<V>(es: seq<Entry<V>>, key: string, now: int): seq<Entry<V>> {
    var i := IndexOfKey(es, key);
    if i < |es| && es[i].expiresAt <= now then RemoveAt(es, i) else es
  }

  /** What a write leaves behind. The clock is read once for the sweep and once for the new entry. */
  function AfterSet<V>(es: seq<Entry<V>>, sweptAt: int, e: Entry<V>): seq<Entry<V>> {
    Evicted(Delete(Swept(es, sweptAt), e.key) + [e])
  }

  // ---------------------------------------------------------------------------
  // The history of writes
  // ---------------------------------------------------------------------------

  /** Write `i` is the latest one of its key. */
  ghost predicate IsLatest<V>(history: seq<Entry<V>>, i: nat) {
    i < |history| && forall j | i < j < |history| :: history[j].key != history[i].key
  }

  /** The keys written after write `i`. */
  ghost function KeysAfter<V>(history: seq<Entry<V>>, i: nat): set<string> {
    set j | i < j < |history| :: history[j].key
  }

  /** Entry `p` is write `at[p]`, the latest of its key, and the entries are in the order of their writes. */
  ghost predicate Tracks<V>(es: seq<Entry<V>>, at: seq<nat>, history: seq<Entry<V>>) {
    && |at| == |es|
    && (forall p | 0 <= p < |es| :: IsLatest(history, at[p]) && history[at[p]] == es[p])
    && (forall p, q | 0 <= p < q < |at| :: at[p] < at[q])
  }

  /** A latest write is in the cache, or expired, or was pushed out by a thousand other keys. */
  ghost predicate NothingLost<V>(at: seq<nat>, history: seq<Entry<V>>, clock: int) {
    forall i: nat | IsLatest(history, i) ::
      i in at || history[i].expiresAt <= clock || |KeysAfter(history, i)| >= MAX_CACHE_ENTRIES
  }

  /** The cache agrees with the writes so far. */
  ghost predicate Agrees<V>(es: seq<Entry<V>>, at: seq<nat>, history: seq<Entry<V>>, clock: int) {
    Tracks(es, at, history) && NothingLost(at, history, clock)
  }

  lemma KeysAreDistinct<V>(es: seq<Entry<V>>, at: seq<nat>, history: seq<Entry<V>>)
    requires Tracks(es, at, history)
    ensures DistinctKeys(es)
  {
    forall p, q | 0 <= p < q < |es|
      ensures es[p].key != es[q].key
    {
      assert at[p] < at[q];
    }
  }

  // ---------------------------------------------------------------------------
  // Every operation keeps the agreement
  // ---------------------------------------------------------------------------

  lemma TracksPart<V>(es: seq<Entry<V>>, at: seq<nat>, history: seq<Entry<V>>, i: nat)
    requires Tracks(es, at, history) && i < |es|
    ensures Tracks(RemoveAt(es, i), at[..i] + at[i + 1..], history)
    ensures Tracks(es[i + 1..], at[i + 1..], history)
  {}

  lemma {:induction false} SweptTracks<V>(es: seq<Entry<V>>, at: seq<nat>, history: seq<Entry<V>>, now: int)
    returns (kept: seq<nat>)
    requires Tracks(es, at, history)
    ensures Tracks(Swept(es, now), kept, history)
    ensures forall i <- kept :: i in at
    ensures forall i <- at :: i in kept || history[i].expiresAt <= now
  {
    hide IsLatest;
    kept := [];
    if es != [] {
      TracksPart(es, at, history, 0);
      kept := SweptTracks(es[1..], at[1..], history, now);
      InTail(at);
      if es[0].expiresAt > now {
        PrependTracks(es[0], at[0], Swept(es[1..], now), kept, at[1..], history);
        kept := [at[0]] + kept;
      }
    }
  }

  lemma InTail<T>(s: seq<T>)
    requires s != []
    ensures forall x :: x in s <==> x == s[0] || x in s[1..]
  {
    assert s == [s[0]] + s[1..];
  }

  lemma PrependTracks<V>(e: Entry<V>, i: nat, es: seq<Entry<V>>, kept: seq<nat>, behind: seq<nat>,
                         history: seq<Entry<V>>)
    requires IsLatest(history, i) && history[i] == e && Tracks(es, kept, history)
    requires (forall k <- kept :: k in behind) && forall k <- behind :: i < k
    ensures Tracks([e] + es, [i] + kept, history)
  {
    var at := [i] + kept;
    assert forall q | 0 < q < |at| :: at[q] == kept[q - 1] && at[q] in kept;
  }

  lemma LatestAfterWrite<V>(history: seq<Entry<V>>, e: Entry<V>, i: nat)
    ensures IsLatest(history + [e], i)
       <==> i == |history| || (IsLatest(history, i) && history[i].key != e.key)
  {
    var h := history + [e];
    if i < |history| {
      assert h[i] == history[i] && h[|history|] == e;
      if IsLatest(history, i) && history[i].key != e.key {
        assert forall j | i < j < |h| :: h[j] == if j < |history| then history[j] else e;
      }
      if IsLatest(h, i) {
        assert forall j | i < j < |history| :: history[j] == h[j];
      }
    }
  }

  lemma KeysAfterGrow<V>(history: seq<Entry<V>>, e: Entry<V>, i: nat)
    requires i < |history|
    ensures KeysAfter(history + [e], i) == KeysAfter(history, i) + {e.key}
    ensures |KeysAfter(history + [e], i)| >= |KeysAfter(history, i)|
  {
    var h := history + [e];
    assert forall j | i < j < |history| :: h[j] == history[j];
    assert h[|history|] == e;
    SubsetIsSmaller(KeysAfter(history, i), KeysAfter(h, i));
  }

  lemma {:induction false} SubsetIsSmaller<T>(a: set<T>, b: set<T>)
    requires a <= b
    ensures |a| <= |b|
  {
    if a != {} {
      var x :| x in a;
      SubsetIsSmaller(a - {x}, b - {x});
    }
  }

  /** Every key behind entry `p` was written after it. */
  lemma KeysBehind<V>(es: seq<Entry<V>>, at: seq<nat>, history: seq<Entry<V>>, p: nat)
    requires Tracks(es, at, history) && p < |es|
    ensures |KeysAfter(history, at[p])| >= |es| - 1 - p
  {
    var behind := set q | p < q < |es| :: es[q].key;
    forall key <- behind
      ensures key in KeysAfter(history, at[p])
    {
      var q :| p < q < |es| && es[q].key == key;
      assert at[p] < at[q] && history[at[q]].key == key;
    }
    KeysAreDistinct(es, at, history);
    CountKeys(es, p + 1);
    assert behind == set q | p + 1 <= q < |es| :: es[q].key;
    SubsetIsSmaller(behind, KeysAfter(history, at[p]));
  }

  lemma {:induction false} CountKeys<V>(es: seq<Entry<V>>, n: nat)
    requires DistinctKeys(es) && n <= |es|
    ensures |set q | n <= q < |es| :: es[q].key| == |es| - n
    decreases |es| - n
  {
    var keys := set q | n <= q < |es| :: es[q].key;
    if n < |es| {
      CountKeys(es, n + 1);
      var rest := set q | n + 1 <= q < |es| :: es[q].key;
      assert es[n].key !in rest;
      assert keys == {es[n].key} + rest;
    } else {
      assert keys == {};
    }
  }

  lemma {:induction false} EvictedTracks<V>(es: seq<Entry<V>>, at: seq<nat>, history: seq<Entry<V>>)
    returns (kept: seq<nat>)
    requires Tracks(es, at, history)
    ensures Tracks(Evicted(es), kept, history)
    ensures forall i <- at :: i in kept || |KeysAfter(history, i)| >= MAX_CACHE_ENTRIES
  {
    if |es| > MAX_CACHE_ENTRIES && es[0].key != "" {
      KeysBehind(es, at, history, 0);
      TracksPart(es, at, history, 0);
      kept := EvictedTracks(es[1..], at[1..], history);
    } else {
      kept := at;
    }
  }

  lemma DeleteTracks<V>(es: seq<Entry<V>>, at: seq<nat>, history: seq<Entry<V>>, key: string)
    returns (kept: seq<nat>)
    requires Tracks(es, at, history)
    ensures Tracks(Delete(es, key), kept, history)
    ensures forall x <- Delete(es, key) :: x.key != key
    ensures forall i <- at :: i in kept || (i < |history| && history[i].key == key)
  {
    KeysAreDistinct(es, at, history);
    kept := at;
    var k := IndexOfKey(es, key);
    if k < |es| {
      TracksPart(es, at, history, k);
      kept := at[..k] + at[k + 1..];
      InRemainder(at, k);
      AbsentInRemainder(es, k);
    }
  }

  lemma InRemainder<T>(s: seq<T>, k: nat)
    requires k < |s|
    ensures forall x <- s :: x in s[..k] + s[k + 1..] || x == s[k]
  {
    forall i | 0 <= i < |s|
      ensures s[i] in s[..k] + s[k + 1..] || s[i] == s[k]
    {
      if i < k {
        assert (s[..k] + s[k + 1..])[i] == s[i];
      } else if i > k {
        assert (s[..k] + s[k + 1..])[i - 1] == s[i];
      }
    }
  }

  lemma AbsentInRemainder<V>(es: seq<Entry<V>>, k: nat)
    requires k < |es| && DistinctKeys(es)
    ensures forall x <- RemoveAt(es, k) :: x.key != es[k].key
  {
    var r := RemoveAt(es, k);
    forall i | 0 <= i < |r|
      ensures r[i].key != es[k].key
    {
      assert r[i] == if i < k then es[i] else es[i + 1];
    }
  }

  lemma AppendTracks<V>(es: seq<Entry<V>>, at: seq<nat>, history: seq<Entry<V>>, e: Entry<V>)
    requires Tracks(es, at, history) && forall x <- es :: x.key != e.key
    ensures Tracks(es + [e], at + [|history|], history + [e])
  {
    forall p | 0 <= p < |es|
      ensures IsLatest(history + [e], at[p])
    {
      assert es[p] in es;
      LatestAfterWrite(history, e, at[p]);
    }
    LatestAfterWrite(history, e, |history|);
  }

  /** A write keeps the cache in agreement with the history that it extends. */
  lemma SetKeepsAgreement<V>(es: seq<Entry<V>>, at: seq<nat>, history: seq<Entry<V>>, clock: int, sweptAt: int,
                             e: Entry<V>, now: int)
    returns (next: seq<nat>)
    requires Agrees(es, at, history, clock) && clock <= sweptAt <= now
    ensures Agrees(AfterSet(es, sweptAt, e), next, history + [e], now)
  {
    var swept := SweptTracks(es, at, history, sweptAt);
    var without := DeleteTracks(Swept(es, sweptAt), swept, history, e.key);
    AppendTracks(Delete(Swept(es, sweptAt), e.key), without, history, e);
    next := EvictedTracks(Delete(Swept(es, sweptAt), e.key) + [e], without + [|history|], history + [e]);
    NothingLostBySet(at, history, clock, without, e, now, next);
  }

  lemma NothingLostBySet<V>(at: seq<nat>, history: seq<Entry<V>>, clock: int, without: seq<nat>, e: Entry<V>, now: int,
                            next: seq<nat>)
    requires NothingLost(at, history, clock) && clock <= now
    requires forall i <- at :: i in without || (i < |history| && (history[i].key == e.key || history[i].expiresAt <= now))
    requires forall i <- without + [|history|] :: i in next || |KeysAfter(history + [e], i)| >= MAX_CACHE_ENTRIES
    ensures NothingLost(next, history + [e], now)
  {
    var h := history + [e];
    forall i: nat | IsLatest(h, i)
      ensures i in next || h[i].expiresAt <= now || |KeysAfter(h, i)| >= MAX_CACHE_ENTRIES
    {
      LatestAfterWrite(history, e, i);
      if i < |history| {
        KeysAfterGrow(history, e, i);
        if i in without { assert i in without + [|history|]; }
      } else {
        assert (without + [|history|])[|without|] == i;
      }
    }
  }

  /** A read keeps the cache in agreement with the history. */
  lemma GetKeepsAgreement<V>(es: seq<Entry<V>>, at: seq<nat>, history: seq<Entry<V>>, clock: int,
                             key: string, now: int)
    returns (next: seq<nat>)
    requires Agrees(es, at, history, clock) && clock <= now
    ensures Agrees(AfterGet(es, key, now), next, history, now)
  {
    next := at;
    var i := IndexOfKey(es, key);
    if i < |es| && es[i].expiresAt <= now {
      TracksPart(es, at, history, i);
      next := at[..i] + at[i + 1..];
      InRemainder(at, i);
    }
  }

  // ---------------------------------------------------------------------------
  // What a read means
  // ---------------------------------------------------------------------------

  /** The latest write of the key, if the key was ever written. */
  function LatestWrite<V>(history: seq<Entry<V>>, key: string): (i: Option<nat>)
    ensures i.Some? ==> IsLatest(history, i.value) && history[i.value].key == key
    ensures i.None? ==> forall e <- history :: e.key != key
  {
    if history == [] then None
    else if history[|history| - 1].key == key then Some(|history| - 1)
    else LatestWrite(history[..|history| - 1], key)
  }

  /** A hit is the latest write of the key, still within its time to live. A miss means that there is no
      write, or that the latest one has expired, or that at least a thousand other keys were written since. */
  lemma ReadsSeeTheLatestWrite<V>(es: seq<Entry<V>>, at: seq<nat>, history: seq<Entry<V>>, clock: int,
                                  key: string, now: int)
    requires Agrees(es, at, history, clock) && clock <= now
    ensures var latest := LatestWrite(history, key);
      match Hit(es, key, now)
      case Some(v) =>
        latest.Some? && history[latest.value].result == v && now < history[latest.value].expiresAt
      case None =>
        || latest.None?
        || history[latest.value].expiresAt <= now
        || |KeysAfter(history, latest.value) - {key}| >= MAX_CACHE_ENTRIES
  {
    var i := IndexOfKey(es, key);
    var latest := LatestWrite(history, key);
    if i < |es| {
      assert IsLatest(history, at[i]) && history[at[i]] in history;
      assert latest.value == at[i];
    } else if latest.Some? {
      forall p | 0 <= p < |at|
        ensures at[p] != latest.value
      {
        assert es[p].key != key;
      }
      assert key !in KeysAfter(history, latest.value);
      assert KeysAfter(history, latest.value) - {key} == KeysAfter(history, latest.value);
    }
  }

  // ---------------------------------------------------------------------------
  // The cap
  // ---------------------------------------------------------------------------

  /** No key of the surplus oldest entries is empty. */
  ghost predicate SurplusHasKeys<V>(es: seq<Entry<V>>) {
    forall p | 0 <= p < |es| - MAX_CACHE_ENTRIES :: es[p].key != ""
  }

  lemma SurplusOfTail<V>(es: seq<Entry<V>>)
    requires |es| > MAX_CACHE_ENTRIES
    ensures SurplusHasKeys(es) <==> es[0].key != "" && SurplusHasKeys(es[1..])
  {
    var rest := es[1..];
    assert forall p | 0 <= p < |rest| :: rest[p] == es[p + 1];
    assert forall p | 0 < p < |es| :: es[p] == rest[p - 1];
  }

  lemma {:induction false} EvictedCap<V>(es: seq<Entry<V>>)
    ensures |Evicted(es)| <= MAX_CACHE_ENTRIES <==> SurplusHasKeys(es)
  {
    hide SurplusHasKeys;
    if |es| > MAX_CACHE_ENTRIES {
      SurplusOfTail(es);
      if es[0].key != "" { EvictedCap(es[1..]); }
    } else {
      NoSurplus(es);
    }
  }

  lemma NoSurplus<V>(es: seq<Entry<V>>)
    requires |es| <= MAX_CACHE_ENTRIES
    ensures SurplusHasKeys(es)
  {}

  /** A write leaves at most a thousand entries exactly when none of the surplus oldest keys is empty. */
  lemma SetRespectsTheCap<V>(es: seq<Entry<V>>, sweptAt: int, e: Entry<V>)
    ensures |AfterSet(es, sweptAt, e)| <= MAX_CACHE_ENTRIES
       <==> SurplusHasKeys(Delete(Swept(es, sweptAt), e.key) + [e])
  {
    hide SurplusHasKeys, Swept, Delete, Evicted;
    EvictedCap(Delete(Swept(es, sweptAt), e.key) + [e]);
  }

  /** A cache that an empty key keeps from shrinking. */
  lemma EmptyKeyBreaksTheCap(result: int)
    ensures exists es: seq<Entry<int>>, e: Entry<int> ::
      |es| == MAX_CACHE_ENTRIES && DistinctKeys(es) && |AfterSet(es, 0, e)| == MAX_CACHE_ENTRIES + 1
  {
    var es := seq(MAX_CACHE_ENTRIES, i requires 0 <= i < MAX_CACHE_ENTRIES => Entry(Stars(i), 1, result));
    var e := Entry(Stars(MAX_CACHE_ENTRIES), 1, result);
    NothingSwept(es, 0);
    assert IndexOfKey(es, e.key) == |es|;
    assert (es + [e])[0].key == "";
    assert |AfterSet(es, 0, e)| == MAX_CACHE_ENTRIES + 1;
    assert DistinctKeys(es);
  }

  /** Keys that differ from one another. */
  ghost function Stars(n: nat): string { seq(n, _ => '*') }

  lemma {:induction false} NothingSwept<V>(es: seq<Entry<V>>, now: int)
    requires forall e <- es :: now < e.expiresAt
    ensures Swept(es, now) == es
  {
    if es != [] {
      assert es[0] in es && forall e <- es[1..] :: e in es;
      NothingSwept(es[1..], now);
    }
  }

  /** What a recall is asked for: the agent, its session and the hash of the query. */
  datatype Query = Query(agentId: string, sessionKey: Option<string>, sessionId: Option<string>, hash: string)

  /** `buildCacheKey`. */
  function BuildCacheKey(q: Query): (key: string)
    ensures key != ""
  {
    var session :=
      if q.sessionKey.Some? then q.sessionKey.value else if q.sessionId.Some? then q.sessionId.value else "none";
    q.agentId + ":" + session + ":" + q.hash
  }

  // ---------------------------------------------------------------------------
  // Every run
  // ---------------------------------------------------------------------------

  /** A read, or a write of a result, for a query. */
  datatype Event<+V> =
    | Get(query: Query, now: int)
    | Set(query: Query, result: V, ttl: int, sweptAt: int, now: int)

  function Written<V>(ev: Event<V>): (e: Entry<V>)
    requires ev.Set?
    ensures e.key != ""
  {
    Entry(BuildCacheKey(ev.query), ev.now + ev.ttl, ev.result)
  }

  function Step<V>(es: seq<Entry<V>>, ev: Event<V>): seq<Entry<V>> {
    if ev.Get? then AfterGet(es, BuildCacheKey(ev.query), ev.now) else AfterSet(es, ev.sweptAt, Written(ev))
  }

  /** The cache after some events, from empty. */
  function After<V>(evs: seq<Event<V>>): seq<Entry<V>> {
    if evs == [] then [] else Step(After(evs[..|evs| - 1]), evs[|evs| - 1])
  }

  function Writes<V>(evs: seq<Event<V>>): seq<Entry<V>> {
    if evs == [] then [] else
    var last := evs[|evs| - 1];
    Writes(evs[..|evs| - 1]) + if last.Set? then [Written(last)] else []
  }

  /** The clock never goes back. */
  ghost predicate IsTimed<V>(evs: seq<Event<V>>) {
    && (forall ev <- evs :: ev.Set? ==> ev.sweptAt <= ev.now)
    && (forall i, j | 0 <= i < j < |evs| :: evs[i].now <= if evs[j].Set? then evs[j].sweptAt else evs[j].now)
  }

  function ClockOf<V>(evs: seq<Event<V>>, default: int): int {
    if evs == [] then default else evs[|evs| - 1].now
  }

  /** When an event first reads the clock. */
  function StartOf<V>(ev: Event<V>): int {
    if ev.Set? then ev.sweptAt else ev.now
  }

  lemma TimedFront<V>(evs: seq<Event<V>>)
    requires IsTimed(evs) && evs != []
    ensures var front, ev := evs[..|evs| - 1], evs[|evs| - 1];
      IsTimed(front) && ClockOf(front, StartOf(ev)) <= StartOf(ev) <= ev.now
  {
    var front := evs[..|evs| - 1];
    assert evs[|evs| - 1] in evs && forall ev <- front :: ev in evs;
    assert forall i | 0 <= i < |front| :: front[i] == evs[i];
  }

  /** One more event keeps the cache in agreement with the writes, and within the cap. */
  lemma StepAgrees<V>(es: seq<Entry<V>>, at: seq<nat>, history: seq<Entry<V>>, clock: int, ev: Event<V>)
    returns (next: seq<nat>)
    requires Agrees(es, at, history, clock) && clock <= StartOf(ev) <= ev.now
    requires |es| <= MAX_CACHE_ENTRIES && forall e <- es :: e.key != ""
    ensures Agrees(Step(es, ev), next, history + (if ev.Set? then [Written(ev)] else []), ev.now)
    ensures |Step(es, ev)| <= MAX_CACHE_ENTRIES && forall e <- Step(es, ev) :: e.key != ""
  {
    hide Agrees, AfterSet, Written;
    if ev.Get? {
      next := GetKeepsAgreement(es, at, history, clock, BuildCacheKey(ev.query), ev.now);
      assert history + [] == history;
    } else {
      next := SetKeepsAgreement(es, at, history, clock, ev.sweptAt, Written(ev), ev.now);
      NonEmptyKeysKept(es, ev.sweptAt, Written(ev));
    }
  }

  /** After every run the cache agrees with the writes, and holds at most a thousand entries. */
  lemma {:induction false} RunsAgree<V>(evs: seq<Event<V>>, start: int) returns (at: seq<nat>)
    requires IsTimed(evs)
    ensures Agrees(After(evs), at, Writes(evs), ClockOf(evs, start))
    ensures |After(evs)| <= 1000 && forall e <- After(evs) :: e.key != ""
  {
    hide Agrees, Step, Written, IsTimed;
    if evs == [] {
      at := [];
      NothingLostInitially<V>(start);
    } else {
      var front, ev := evs[..|evs| - 1], evs[|evs| - 1];
      TimedFront(evs);
      at := RunsAgree(front, StartOf(ev));
      at := StepAgrees(After(front), at, Writes(front), ClockOf(front, StartOf(ev)), ev);
    }
  }

  /** What event `j` of a run, a read, returns. */
  function Answer<V>(evs: seq<Event<V>>, j: nat): Option<V>
    requires j < |evs| && evs[j].Get?
  {
    Hit(After(evs[..j]), BuildCacheKey(evs[j].query), evs[j].now)
  }

  /** In every run, a get hits with the latest write under its key, if that is still within its time to live. It
      misses when there is no such write, when that has expired, or when at least a thousand other keys were
      written since. */
  lemma GetsSeeTheLatestWrite<V>(evs: seq<Event<V>>, j: nat)
    requires IsTimed(evs) && j < |evs| && evs[j].Get?
    ensures var history, key, now := Writes(evs[..j]), BuildCacheKey(evs[j].query), evs[j].now;
      var latest := LatestWrite(history, key);
      match Answer(evs, j)
      case Some(v) =>
        latest.Some? && history[latest.value].result == v && now < history[latest.value].expiresAt
      case None =>
        || latest.None?
        || history[latest.value].expiresAt <= now
        || |KeysAfter(history, latest.value) - {key}| >= 1000
  {
    hide Hit, Writes, After, Agrees, BuildCacheKey;
    var front, now, key := evs[..j], evs[j].now, BuildCacheKey(evs[j].query);
    assert forall ev <- front :: ev in evs;
    assert forall i | 0 <= i < j :: front[i] == evs[i];
    var at := RunsAgree(front, now);
    ReadsSeeTheLatestWrite(After(front), at, Writes(front), ClockOf(front, now), key, now);
  }

  lemma NothingLostInitially<V>(clock: int)
    ensures Agrees<V>([], [], [], clock)
  {}

  lemma NonEmptyKeysKept<V>(es: seq<Entry<V>>, sweptAt: int, e: Entry<V>)
    requires e.key != "" && forall x <- es :: x.key != ""
    ensures |AfterSet(es, sweptAt, e)| <= MAX_CACHE_ENTRIES
    ensures forall x <- AfterSet(es, sweptAt, e) :: x.key != ""
  {
    SweptIsPart(es, sweptAt);
    DeleteIsPart(Swept(es, sweptAt), e.key);
    var full := Delete(Swept(es, sweptAt), e.key) + [e];
    EvictedCap(full);
    EvictedIsPart(full);
  }

  lemma DeleteIsPart<V>(es: seq<Entry<V>>, key: string)
    ensures forall x <- Delete(es, key) :: x in es
  {}

  lemma EvictedIsPart<V>(es: seq<Entry<V>>)
    ensures forall x <- Evicted(es) :: x in es
  {}

  lemma {:induction false} SweptIsPart<V>(es: seq<Entry<V>>, now: int)
    ensures forall x :: x in Swept(es, now) <==> x in es && now < x.expiresAt
  {
    if es != [] {
      InTail(es);
      SweptIsPart(es[1..], now);
    }
  }

  // ---------------------------------------------------------------------------
  // The cache object
  // ---------------------------------------------------------------------------

  /** One turn of the sweep: what is kept so far, and what is still to be swept. */
  lemma SweepStep<V>(es: seq<Entry<V>>, i: nat, now: int)
    requires i < |es|
    ensures |RemoveAt(es, i)| == |es| - 1
    ensures var before := es[..i] + Swept(es[i..], now);
      if es[i].expiresAt <= now then RemoveAt(es, i)[..i] + Swept(RemoveAt(es, i)[i..], now) == before
      else es[..i + 1] + Swept(es[i + 1..], now) == before
  {
    assert es[i..][1..] == es[i + 1..];
    if es[i].expiresAt <= now {
      assert RemoveAt(es, i)[..i] == es[..i] && RemoveAt(es, i)[i..] == es[i + 1..];
    } else {
      assert es[..i + 1] == es[..i] + [es[i]];
    }
  }

  lemma SweepEnds<V>(es: seq<Entry<V>>, now: int)
    ensures es[..|es|] + Swept(es[|es|..], now) == es
  {}

  class Cache<V> {
    var entries: seq<Entry<V>>
    ghost var history: seq<Entry<V>>
    ghost var at: seq<nat>
    ghost var clock: int

    ghost predicate Valid()
      reads this
    {
      Agrees(entries, at, history, clock)
    }

    constructor ()
      ensures Valid() && entries == [] && history == []
    {
      entries, history, at, clock := [], [], [], 0;
      new;
      NothingLostInitially<V>(clock);
    }

    /** `getCachedResult`. */
    method GetCachedResult(cacheKey: string, now: int) returns (r: Option<V>)
      requires Valid() && clock <= now
      modifies this
      ensures Valid() && history == old(history) && clock == now
      ensures r == Hit(old(entries), cacheKey, now) && entries == AfterGet(old(entries), cacheKey, now)
      ensures var latest := LatestWrite(history, cacheKey);
        match r
        case Some(v) =>
          latest.Some? && history[latest.value].result == v && now < history[latest.value].expiresAt
        case None =>
          || latest.None?
          || history[latest.value].expiresAt <= now
          || |KeysAfter(history, latest.value) - {cacheKey}| >= MAX_CACHE_ENTRIES
    {
      ReadsSeeTheLatestWrite(entries, at, history, clock, cacheKey, now);
      var next := GetKeepsAgreement(entries, at, history, clock, cacheKey, now);
      at, clock := next, now;
      var i := IndexOfKey(entries, cacheKey);
      if i == |entries| {
        return None;
      }
      var cached := entries[i];
      if cached.expiresAt <= now {
        entries := RemoveAt(entries, i);
        return None;
      }
      return Some(cached.result);
    }

    /** `sweepExpiredCacheEntries`: a pass over the map that deletes as it goes. */
    method Sweep(now: int)
      modifies this`entries
      ensures entries == Swept(old(entries), now)
    {
      hide Swept, RemoveAt;
      var i := 0;
      assert entries[..0] + Swept(entries[0..], now) == Swept(entries, now);
      while i < |entries|
        invariant i <= |entries|
        invariant entries[..i] + Swept(entries[i..], now) == Swept(old(entries), now)
        decreases |entries| - i
      {
        SweepStep(entries, i, now);
        if entries[i].expiresAt <= now {
          entries := RemoveAt(entries, i);
        } else {
          i := i + 1;
        }
      }
      SweepEnds(entries, now);
    }

    method DeleteKey(key: string)
      modifies this`entries
      ensures entries == Delete(old(entries), key)
    {
      var i := IndexOfKey(entries, key);
      if i < |entries| {
        entries := RemoveAt(entries, i);
      }
    }

    /** The loop of `setCachedResult` that enforces the cap. */
    method EvictOldest()
      modifies this`entries
      ensures entries == Evicted(old(entries))
    {
      while |entries| > MAX_CACHE_ENTRIES
        invariant Evicted(entries) == Evicted(old(entries))
      {
        var oldestKey := entries[0].key;
        if oldestKey == "" {
          break;
        }
        entries := entries[1..];
      }
    }

    /** `setCachedResult`. */
    method SetCachedResult(cacheKey: string, result: V, ttlMs: int, sweptAt: int, now: int)
      requires Valid() && clock <= sweptAt <= now
      modifies this
      ensures Valid() && clock == now
      ensures history == old(history) + [Entry(cacheKey, now + ttlMs, result)]
      ensures entries == AfterSet(old(entries), sweptAt, Entry(cacheKey, now + ttlMs, result))
      ensures |entries| <= MAX_CACHE_ENTRIES || entries[0].key == ""
    {
      hide Agrees, Swept, Evicted, Delete;
      ghost var e := Entry(cacheKey, now + ttlMs, result);
      var next := SetKeepsAgreement(entries, at, history, clock, sweptAt, e, now);
      Sweep(sweptAt);
      DeleteKey(cacheKey);
      entries := entries + [Entry(cacheKey, now + ttlMs, result)];
      EvictOldest();
      at, history, clock := next, history + [e], now;
    }
  }
}
