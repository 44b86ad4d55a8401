/** The cache of Bedrock model discovery: a stored list within its refresh interval, and at most one
    fetch in flight for a key. */
module BedrockDiscovery {
  import opened Text

  // ---------------------------------------------------------------------------
  // The state
  // ---------------------------------------------------------------------------

  /** What a cache key is built from. Its JSON text, the key in the code, is one to one with this record. */
  datatype Key = Key(region: string, providerFilter: seq<string>, refreshSeconds: nat,
                     defaultContextWindow: int, defaultMaxTokens: int)

  /** A cache entry: `value` after a successful fetch, `inFlight` while fetch number `inFlight` is pending. */
  datatype Entry<+M> = Entry(expiresAt: int, value: Option<M>, inFlight: Option<nat>)

  datatype Outcome<+M> = Fetched(models: M) | Rejected

  /** A fetch, started by its owner. It settles, and later its owner resumes and updates the cache. */
  datatype Progress<+M> = Pending | Settled(outcome: Outcome<M>) | Resumed(outcome: Outcome<M>)
  datatype Fetch<+M> = Fetch(key: Key, startedAt: int, progress: Progress<M>)

  /** How a call was answered. */
  datatype Answer<+M> = Served(models: M) | Joined(fetch: nat) | Owner(fetch: nat)
  datatype CallRecord<+M> = CallRecord(key: Key, now: int, answer: Answer<M>)

  datatype State<+M> = State(cache: map<Key, Entry<M>>, fetches: seq<Fetch<M>>, calls: seq<CallRecord<M>>)

  datatype Step<+M> =
    | Call(key: Key, now: int)
    | Settle(fetch: nat, outcome: Outcome<M>)
    | Resume(fetch: nat)

  predicate Enabled<M>(s: State<M>, step: Step<M>) {
    match step
    case Call(_, _) => true
    case Settle(f, _) => f < |s.fetches| && s.fetches[f].progress.Pending?
    case Resume(f) => f < |s.fetches| && s.fetches[f].progress.Settled?
  }

  function ExpiresAt(key: Key, startedAt: int): int {
    startedAt + key.refreshSeconds * 1000
  }

  /** How the cache answers a call, if it can. */
  function FromCache<M>(s: State<M>, key: Key, now: int): Option<Answer<M>> {
    if key.refreshSeconds == 0 || key !in s.cache then None else
    var cached := s.cache[key];
    if cached.value.Some? && cached.expiresAt > now then Some(Served(cached.value.value))
    else if cached.inFlight.Some? then Some(Joined(cached.inFlight.value))
    else None
  }

  function Next<M>(s: State<M>, step: Step<M>): State<M>
    requires Enabled(s, step)
  {
    match step
    case Call(key, now) =>
      var answer := FromCache(s, key, now);
      if answer.Some? then
        s.(calls := s.calls + [CallRecord(key, now, answer.value)])
      else
        var f := |s.fetches|;
        State(
          if key.refreshSeconds > 0 then s.cache[key := Entry(ExpiresAt(key, now), None, Some(f))] else s.cache,
          s.fetches + [Fetch(key, now, Pending)],
          s.calls + [CallRecord(key, now, Owner(f))])
    case Settle(f, outcome) =>
      s.(fetches := s.fetches[f := s.fetches[f].(progress := Settled(outcome))])
    case Resume(f) =>
      var fetch := s.fetches[f];
      var outcome := fetch.progress.outcome;
      State(
        if fetch.key.refreshSeconds == 0 then s.cache
        else if outcome.Fetched? then
          s.cache[fetch.key := Entry(ExpiresAt(fetch.key, fetch.startedAt), Some(outcome.models), None)]
        else s.cache - {fetch.key},
        s.fetches[f := fetch.(progress := Resumed(outcome))],
        s.calls)
  }

  ghost predicate IsRun<M>(s: State<M>, steps: seq<Step<M>>)
    decreases |steps|
  {
    steps != [] ==> Enabled(s, steps[0]) && IsRun(Next(s, steps[0]), steps[1..])
  }

  ghost function After<M>(s: State<M>, steps: seq<Step<M>>): State<M>
    requires IsRun(s, steps)
    decreases |steps|
  {
    if steps == [] then s else After(Next(s, steps[0]), steps[1..])
  }

  function Initial<M>(): State<M> { State(map[], [], []) }

  /** What the caller of call `c` gets, once its fetch is far enough. The owner of a failed fetch gets
      an empty list; the callers that joined it see the rejection. */
  datatype Reply<+M> = Models(models: M) | NoModels | Rejection

  function ReplyTo<M>(s: State<M>, c: nat): Option<Reply<M>>
    requires c < |s.calls|
  {
    match s.calls[c].answer
    case Served(models) => Some(Models(models))
    case Joined(f) =>
      if f >= |s.fetches| || s.fetches[f].progress.Pending? then None
      else if s.fetches[f].progress.outcome.Fetched? then Some(Models(s.fetches[f].progress.outcome.models))
      else Some(Rejection)
    case Owner(f) =>
      if f >= |s.fetches| || !s.fetches[f].progress.Resumed? then None
      else if s.fetches[f].progress.outcome.Fetched? then Some(Models(s.fetches[f].progress.outcome.models))
      else Some(NoModels)
  }

  // ---------------------------------------------------------------------------
  // The invariant
  // ---------------------------------------------------------------------------

  /** The owner of the fetch has not resumed yet. */
  predicate IsOpen<M>(fetch: Fetch<M>) { !fetch.progress.Resumed? }

  /** The last fetch of a key. */
  function LastFetch<M>(fetches: seq<Fetch<M>>, key: Key): (f: Option<nat>)
    ensures f.Some? ==> f.value < |fetches| && fetches[f.value].key == key
    ensures f.Some? ==> forall g | f.value < g < |fetches| :: fetches[g].key != key
    ensures f.None? ==> forall g | 0 <= g < |fetches| :: fetches[g].key != key
  {
    if fetches == [] then None
    else if fetches[|fetches| - 1].key == key then Some(|fetches| - 1)
    else LastFetch(fetches[..|fetches| - 1], key)
  }

  /** The entry that belongs in the cache: the last fetch of the key alone determines it. */
  ghost function EntryFor<M>(fetches: seq<Fetch<M>>, key: Key): Option<Entry<M>> {
    var last := LastFetch(fetches, key);
    if key.refreshSeconds == 0 || last.None? then None else
    var expiresAt := ExpiresAt(key, fetches[last.value].startedAt);
    match fetches[last.value].progress
    case Resumed(Fetched(models)) => Some(Entry(expiresAt, Some(models), None))
    case Resumed(Rejected) => None
    case _ => Some(Entry(expiresAt, None, last))
  }

  function Cached<M>(s: State<M>, key: Key): Option<Entry<M>> {
    if key in s.cache then Some(s.cache[key]) else None
  }

  ghost predicate CacheDetermined<M>(s: State<M>) {
    forall key :: Cached(s, key) == EntryFor(s.fetches, key)
  }

  /** Only the last fetch of a cached key can be open. */
  ghost predicate OnlyLastOpen<M>(s: State<M>) {
    forall f, g | 0 <= f < g < |s.fetches| && s.fetches[f].key == s.fetches[g].key
      && s.fetches[f].key.refreshSeconds > 0 :: !IsOpen(s.fetches[f])
  }

  /** No fetch of the key between two fetches of it. */
  ghost predicate AreConsecutive<M>(fetches: seq<Fetch<M>>, f: nat, g: nat) {
    && f < g < |fetches| && fetches[f].key == fetches[g].key
    && forall h | f < h < g :: fetches[h].key != fetches[f].key
  }

  /** After a successful fetch the next one starts no earlier than one interval later. */
  ghost predicate SuccessesSpaced<M>(s: State<M>) {
    forall f: nat, g: nat | AreConsecutive(s.fetches, f, g) && s.fetches[f].key.refreshSeconds > 0
      && s.fetches[f].progress.Resumed? && s.fetches[f].progress.outcome.Fetched? ::
      ExpiresAt(s.fetches[f].key, s.fetches[f].startedAt) <= s.fetches[g].startedAt
  }

  /** The fetch that stands behind an answer. */
  ghost predicate IsBehind<M>(s: State<M>, call: CallRecord<M>, f: nat) {
    && f < |s.fetches| && s.fetches[f].key == call.key
    && match call.answer
       case Served(models) =>
         && call.key.refreshSeconds > 0
         && s.fetches[f].progress == Resumed(Fetched(models))
         && call.now < ExpiresAt(call.key, s.fetches[f].startedAt)
       case Joined(g) => f == g && call.key.refreshSeconds > 0
       case Owner(g) => f == g && s.fetches[f].startedAt == call.now
  }

  ghost predicate IsBacked<M>(s: State<M>, call: CallRecord<M>) {
    exists f: nat :: IsBehind(s, call, f)
  }

  ghost predicate AnswersBacked<M>(s: State<M>) {
    forall call <- s.calls :: IsBacked(s, call)
  }

  /** The fetches that calls own, in call order. */
  ghost function Owned<M>(calls: seq<CallRecord<M>>): seq<nat> {
    if calls == [] then [] else
    var last := calls[|calls| - 1];
    Owned(calls[..|calls| - 1]) + if last.answer.Owner? then [last.answer.fetch] else []
  }

  /** Every fetch has exactly one owner, in the order of the fetches. */
  ghost predicate OwnersMatch<M>(s: State<M>) {
    Owned(s.calls) == seq(|s.fetches|, i => i)
  }

  ghost predicate Inv<M>(s: State<M>) {
    CacheDetermined(s) && OnlyLastOpen(s) && SuccessesSpaced(s) && AnswersBacked(s) && OwnersMatch(s)
  }

  // ---------------------------------------------------------------------------
  // Every step keeps the invariant
  // ---------------------------------------------------------------------------

  lemma LastFetchIs<M>(fetches: seq<Fetch<M>>, key: Key, f: nat)
    requires f < |fetches| && fetches[f].key == key && forall g | f < g < |fetches| :: fetches[g].key != key
    ensures LastFetch(fetches, key) == Some(f)
  {}

  lemma LastFetchSame<M>(fs: seq<Fetch<M>>, gs: seq<Fetch<M>>, key: Key)
    requires |fs| == |gs| && forall i | 0 <= i < |fs| :: fs[i].key == gs[i].key
    ensures LastFetch(fs, key) == LastFetch(gs, key)
  {
    var f := LastFetch(fs, key);
    if f.Some? {
      LastFetchIs(gs, key, f.value);
    }
  }

  lemma LastFetchAfterStart<M>(fetches: seq<Fetch<M>>, fetch: Fetch<M>, key: Key)
    ensures LastFetch(fetches + [fetch], key)
         == if fetch.key == key then Some(|fetches|) else LastFetch(fetches, key)
  {
    assert (fetches + [fetch])[..|fetches|] == fetches;
  }

  lemma CacheAfterCall<M>(s: State<M>, key: Key, now: int, k: Key)
    requires Cached(s, k) == EntryFor(s.fetches, k)
    ensures var s' := Next(s, Call(key, now)); Cached(s', k) == EntryFor(s'.fetches, k)
  {
    LastFetchAfterStart(s.fetches, Fetch(key, now, Pending), k);
  }

  lemma CacheAfterSettle<M>(s: State<M>, f: nat, outcome: Outcome<M>, k: Key)
    requires Cached(s, k) == EntryFor(s.fetches, k) && Enabled(s, Settle(f, outcome))
    ensures var s' := Next(s, Settle(f, outcome)); Cached(s', k) == EntryFor(s'.fetches, k)
  {
    LastFetchSame(s.fetches, Next(s, Settle(f, outcome)).fetches, k);
  }

  lemma CacheAfterResume<M>(s: State<M>, f: nat, k: Key)
    requires Cached(s, k) == EntryFor(s.fetches, k) && OnlyLastOpen(s) && Enabled(s, Resume(f))
    ensures var s' := Next(s, Resume(f)); Cached(s', k) == EntryFor(s'.fetches, k)
  {
    LastFetchSame(s.fetches, Next(s, Resume(f)).fetches, k);
    if s.fetches[f].key.refreshSeconds > 0 {
      OpenIsLast(s, f);
    }
  }

  lemma CacheKept<M>(s: State<M>, step: Step<M>)
    requires CacheDetermined(s) && OnlyLastOpen(s) && Enabled(s, step)
    ensures CacheDetermined(Next(s, step))
  {
    hide Cached, EntryFor, OnlyLastOpen;
    forall k
      ensures Cached(Next(s, step), k) == EntryFor(Next(s, step).fetches, k)
    {
      match step
      case Call(key, now) => CacheAfterCall(s, key, now, k);
      case Settle(f, outcome) => CacheAfterSettle(s, f, outcome, k);
      case Resume(f) => CacheAfterResume(s, f, k);
    }
  }

  lemma OpenIsLast<M>(s: State<M>, f: nat)
    requires OnlyLastOpen(s) && f < |s.fetches| && IsOpen(s.fetches[f]) && s.fetches[f].key.refreshSeconds > 0
    ensures LastFetch(s.fetches, s.fetches[f].key) == Some(f)
  {
    LastFetchIs(s.fetches, s.fetches[f].key, f);
  }

  lemma OnlyLastOpenKept<M>(s: State<M>, step: Step<M>)
    requires CacheDetermined(s) && OnlyLastOpen(s) && Enabled(s, step)
    ensures OnlyLastOpen(Next(s, step))
  {
    if step.Call? && FromCache(s, step.key, step.now).None? && step.key.refreshSeconds > 0 {
      NothingOpen(s, step.key, step.now);
    }
  }

  /** A call that starts a fetch finds no open fetch of its key; a successful last fetch has expired. */
  lemma NothingOpen<M>(s: State<M>, key: Key, now: int)
    requires CacheDetermined(s) && OnlyLastOpen(s)
    requires FromCache(s, key, now).None? && key.refreshSeconds > 0
    ensures forall f | 0 <= f < |s.fetches| && s.fetches[f].key == key :: !IsOpen(s.fetches[f])
    ensures var last := LastFetch(s.fetches, key);
      last.Some? && s.fetches[last.value].progress.Resumed? && s.fetches[last.value].progress.outcome.Fetched? ==>
        ExpiresAt(key, s.fetches[last.value].startedAt) <= now
  {
    assert Cached(s, key) == EntryFor(s.fetches, key);
    var last := LastFetch(s.fetches, key);
    if last.Some? {
      assert !IsOpen(s.fetches[last.value]);
    }
  }

  lemma SpacedKept<M>(s: State<M>, step: Step<M>)
    requires CacheDetermined(s) && OnlyLastOpen(s) && SuccessesSpaced(s) && Enabled(s, step)
    ensures SuccessesSpaced(Next(s, step))
  {
    var s' := Next(s, step);
    forall f: nat, g: nat | AreConsecutive(s'.fetches, f, g) && s'.fetches[f].key.refreshSeconds > 0
      && s'.fetches[f].progress.Resumed? && s'.fetches[f].progress.outcome.Fetched?
      ensures ExpiresAt(s'.fetches[f].key, s'.fetches[f].startedAt) <= s'.fetches[g].startedAt
    {
      if g < |s.fetches| {
        assert forall h | f <= h <= g :: s'.fetches[h].key == s.fetches[h].key;
        assert AreConsecutive(s.fetches, f, g);
      } else {
        NothingOpen(s, step.key, step.now);
        assert forall h | f <= h < g :: s'.fetches[h] == s.fetches[h];
        LastFetchIs(s.fetches, step.key, f);
      }
    }
  }

  lemma AnswersKept<M>(s: State<M>, step: Step<M>)
    requires CacheDetermined(s) && AnswersBacked(s) && Enabled(s, step)
    ensures AnswersBacked(Next(s, step))
  {
    var s' := Next(s, step);
    forall call <- s'.calls
      ensures IsBacked(s', call)
    {
      if call in s.calls {
        assert IsBacked(s, call);
        var f: nat :| IsBehind(s, call, f);
        assert IsBehind(s', call, f);
      } else {
        AnswerBacked(s, step.key, step.now);
      }
    }
  }

  lemma AnswerBacked<M>(s: State<M>, key: Key, now: int)
    requires CacheDetermined(s)
    ensures var s' := Next(s, Call(key, now)); IsBacked(s', s'.calls[|s.calls|])
  {
    var s' := Next(s, Call(key, now));
    assert Cached(s, key) == EntryFor(s.fetches, key);
    var f := if FromCache(s, key, now).Some? then LastFetch(s.fetches, key).value else |s.fetches|;
    assert IsBehind(s', s'.calls[|s.calls|], f);
  }

  lemma OwnersKept<M>(s: State<M>, step: Step<M>)
    requires CacheDetermined(s) && OwnersMatch(s) && Enabled(s, step)
    ensures OwnersMatch(Next(s, step))
  {
    var s' := Next(s, step);
    if step.Call? {
      assert s'.calls[..|s.calls|] == s.calls;
      assert Cached(s, step.key) == EntryFor(s.fetches, step.key);
    }
  }

  lemma InvKept<M>(s: State<M>, step: Step<M>)
    requires Inv(s) && Enabled(s, step)
    ensures Inv(Next(s, step))
  {
    hide Next, CacheDetermined, OnlyLastOpen, SuccessesSpaced, AnswersBacked, OwnersMatch;
    CacheKept(s, step);
    OnlyLastOpenKept(s, step);
    SpacedKept(s, step);
    AnswersKept(s, step);
    OwnersKept(s, step);
  }

  lemma {:induction false} InvHolds<M>(s: State<M>, steps: seq<Step<M>>)
    requires Inv(s) && IsRun(s, steps)
    ensures Inv(After(s, steps))
    decreases |steps|
  {
    hide Inv, Next;
    if steps != [] {
      InvKept(s, steps[0]);
      InvHolds(Next(s, steps[0]), steps[1..]);
    }
  }

  lemma InitHolds<M>()
    ensures Inv(Initial<M>())
  {}

  // ---------------------------------------------------------------------------
  // Every run
  // ---------------------------------------------------------------------------

  lemma RunsKeepInv<M>(steps: seq<Step<M>>)
    requires IsRun(Initial<M>(), steps)
    ensures Inv(After(Initial<M>(), steps))
  {
    InitHolds<M>();
    InvHolds(Initial<M>(), steps);
  }

  /** In every run, a key with a refresh interval has at most one fetch whose owner has not resumed,
      and its entry is in flight exactly while there is one. */
  lemma SingleFlight<M>(steps: seq<Step<M>>, key: Key)
    requires IsRun(Initial<M>(), steps) && key.refreshSeconds > 0
    ensures var s := After(Initial<M>(), steps);
      && (forall f, g | 0 <= f < g < |s.fetches| && s.fetches[f].key == s.fetches[g].key == key ::
            !(IsOpen(s.fetches[f]) && IsOpen(s.fetches[g])))
      && (forall f: nat ::
            (key in s.cache && s.cache[key].inFlight == Some(f))
              <==> (f < |s.fetches| && s.fetches[f].key == key && IsOpen(s.fetches[f])))
  {
    RunsKeepInv(steps);
    var s := After(Initial<M>(), steps);
    assert Cached(s, key) == EntryFor(s.fetches, key);
    forall f: nat
      ensures (key in s.cache && s.cache[key].inFlight == Some(f))
         <==> (f < |s.fetches| && s.fetches[f].key == key && IsOpen(s.fetches[f]))
    {
      if f < |s.fetches| && s.fetches[f].key == key && IsOpen(s.fetches[f]) {
        OpenIsLast(s, f);
      }
    }
  }

  /** In every run, a list served from the cache was fetched by a call that started less than one
      interval before. Clocks may jump. */
  lemma ServedListsAreFresh<M>(steps: seq<Step<M>>, c: nat)
    requires IsRun(Initial<M>(), steps)
    requires var s := After(Initial<M>(), steps); c < |s.calls| && s.calls[c].answer.Served?
    ensures var s := After(Initial<M>(), steps);
      var call := s.calls[c];
      exists f: nat ::
        && f < |s.fetches| && s.fetches[f].key == call.key
        && s.fetches[f].progress == Resumed(Fetched(call.answer.models))
        && call.now < s.fetches[f].startedAt + call.key.refreshSeconds * 1000
  {
    RunsKeepInv(steps);
    var s := After(Initial<M>(), steps);
    assert IsBacked(s, s.calls[c]);
    var f: nat :| IsBehind(s, s.calls[c], f);
  }

  /** In every run, after a successful fetch the next fetch of the key starts at least one interval later. */
  lemma FetchesAreSpaced<M>(steps: seq<Step<M>>, f: nat, g: nat)
    requires IsRun(Initial<M>(), steps)
    requires var s := After(Initial<M>(), steps);
      && AreConsecutive(s.fetches, f, g) && s.fetches[f].key.refreshSeconds > 0
      && s.fetches[f].progress.Resumed? && s.fetches[f].progress.outcome.Fetched?
    ensures var s := After(Initial<M>(), steps);
      s.fetches[f].startedAt + s.fetches[f].key.refreshSeconds * 1000 <= s.fetches[g].startedAt
  {
    RunsKeepInv(steps);
  }

  /** A fetch that fails leaves no entry behind, and the next call of its key fetches again. */
  lemma FailureIsForgotten<M>(steps: seq<Step<M>>, f: nat, now: int)
    requires IsRun(Initial<M>(), steps)
    requires var s := After(Initial<M>(), steps); Enabled(s, Resume(f)) && s.fetches[f].progress == Settled(Rejected)
    ensures var s := After(Initial<M>(), steps);
      var s' := Next(s, Resume(f));
      && s.fetches[f].key !in s'.cache
      && Next(s', Call(s.fetches[f].key, now)).calls[|s.calls|].answer == Owner(|s.fetches|)
  {
    RunsKeepInv(steps);
    var s := After(Initial<M>(), steps);
    assert Cached(s, s.fetches[f].key) == EntryFor(s.fetches, s.fetches[f].key);
  }

  /** A list that was fetched is served until one interval after the start of its fetch, and no longer. */
  lemma SuccessIsServed<M>(steps: seq<Step<M>>, f: nat, now: int)
    requires IsRun(Initial<M>(), steps)
    requires var s := After(Initial<M>(), steps);
      Enabled(s, Resume(f)) && s.fetches[f].progress.outcome.Fetched? && s.fetches[f].key.refreshSeconds > 0
    ensures var s := After(Initial<M>(), steps);
      var fetch := s.fetches[f];
      var s' := Next(Next(s, Resume(f)), Call(fetch.key, now));
      (s'.calls[|s.calls|].answer == Served(fetch.progress.outcome.models))
        == (now < fetch.startedAt + fetch.key.refreshSeconds * 1000)
  {}

  /** While a fetch is open, every further call of its key joins it and starts nothing. */
  lemma CallsJoinTheOpenFetch<M>(steps: seq<Step<M>>, f: nat, now: int)
    requires IsRun(Initial<M>(), steps)
    requires var s := After(Initial<M>(), steps);
      f < |s.fetches| && IsOpen(s.fetches[f]) && s.fetches[f].key.refreshSeconds > 0
    ensures var s := After(Initial<M>(), steps);
      var s' := Next(s, Call(s.fetches[f].key, now));
      s'.calls[|s.calls|].answer == Joined(f) && s'.fetches == s.fetches && s'.cache == s.cache
  {
    RunsKeepInv(steps);
    var s := After(Initial<M>(), steps);
    OpenIsLast(s, f);
    assert Cached(s, s.fetches[f].key) == EntryFor(s.fetches, s.fetches[f].key);
  }

  /** Without a refresh interval, every call fetches for itself and the cache is neither read nor written. */
  lemma NoIntervalNoCache<M>(steps: seq<Step<M>>, key: Key)
    requires IsRun(Initial<M>(), steps) && key.refreshSeconds == 0
    ensures var s := After(Initial<M>(), steps);
      && key !in s.cache
      && forall c | 0 <= c < |s.calls| && s.calls[c].key == key :: s.calls[c].answer.Owner?
  {
    RunsKeepInv(steps);
    var s := After(Initial<M>(), steps);
    assert Cached(s, key) == EntryFor(s.fetches, key);
    forall c | 0 <= c < |s.calls| && s.calls[c].key == key
      ensures s.calls[c].answer.Owner?
    {
      assert IsBacked(s, s.calls[c]);
      var f: nat :| IsBehind(s, s.calls[c], f);
    }
  }

  /** In every run, each fetch was started by exactly one call: the owners are the fetches, in order. */
  lemma EveryFetchHasOneOwner<M>(steps: seq<Step<M>>)
    requires IsRun(Initial<M>(), steps)
    ensures var s := After(Initial<M>(), steps);
      |Owned(s.calls)| == |s.fetches| && forall f | 0 <= f < |s.fetches| :: Owned(s.calls)[f] == f
  {
    RunsKeepInv(steps);
  }

  /** What a fetch brings is what its callers get: the list, or, if it fails, nothing for its owner and the rejection for
      those who joined it. Before it settles nobody gets anything. */
  lemma CallersGetTheOutcome<M>(s: State<M>, f: nat, outcome: Outcome<M>, c: nat)
    requires Enabled(s, Settle(f, outcome)) && c < |s.calls| && s.calls[c].answer in {Owner(f), Joined(f)}
    ensures ReplyTo(s, c) == None
    ensures var settled := Next(s, Settle(f, outcome));
      Enabled(settled, Resume(f)) && ReplyTo(Next(settled, Resume(f)), c) == Some(
        match outcome
        case Fetched(models) => Models(models)
        case Rejected => if s.calls[c].answer.Owner? then NoModels else Rejection)
  {}

  /** All callers of one fetch get the same list when it succeeds; when it fails, its owner gets an
      empty list and those who joined it see the rejection. */
  lemma OneFetchOneAnswer<M>(steps: seq<Step<M>>, f: nat, c: nat)
    requires IsRun(Initial<M>(), steps)
    requires var s := After(Initial<M>(), steps);
      && f < |s.fetches| && s.fetches[f].progress.Resumed? && c < |s.calls|
      && (s.calls[c].answer == Owner(f) || s.calls[c].answer == Joined(f))
    ensures var s := After(Initial<M>(), steps);
      && s.calls[c].key == s.fetches[f].key
      && ReplyTo(s, c) == Some(
           match s.fetches[f].progress.outcome
           case Fetched(models) => Models(models)
           case Rejected => if s.calls[c].answer.Owner? then NoModels else Rejection)
  {
    RunsKeepInv(steps);
    var s := After(Initial<M>(), steps);
    assert IsBacked(s, s.calls[c]);
    var g: nat :| IsBehind(s, s.calls[c], g);
  }
}
