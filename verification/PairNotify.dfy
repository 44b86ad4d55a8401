/** Pairing notifications: the subscribers, the marks of notified requests, one poll, and the commands. */
module PairNotify {
  import opened Text

  const NOTIFY_MAX_SEEN_AGE_MS := 24 * 60 * 60 * 1000

  // ---------------------------------------------------------------------------
  // Subscribers
  // ---------------------------------------------------------------------------

  datatype Mode = Persistent | Once

  /** A message thread: a name or a number. */
  datatype Thread = Name(name: string) | Number(number: int)

  datatype Target = Target(to: string, accountId: Option<string>, threadId: Option<Thread>)

  datatype Subscriber = Subscriber(target: Target, mode: Mode, addedAtMs: int)

  function Digits(n: nat): string {
    (if n < 10 then "" else Digits(n / 10)) + ["0123456789"[n % 10]]
  }

  function Decimal(n: int): string {
    if n < 0 then "-" + Digits(-n) else Digits(n)
  }

  function ThreadText(t: Option<Thread>): string {
    match t
    case None => ""
    case Some(Name(name)) => name
    case Some(Number(n)) => Decimal(n)
  }

  /** `notifySubscriberKey`. */
  function Key(t: Target): string {
    t.to + "|" + (if t.accountId.Some? then t.accountId.value else "") + "|" + ThreadText(t.threadId)
  }

  ghost predicate DistinctKeys(subs: seq<Subscriber>) {
    forall i, j | 0 <= i < j < |subs| :: Key(subs[i].target) != Key(subs[j].target)
  }

  /** The first subscriber with a key, or the length. */
  function IndexOfKey(subs: seq<Subscriber>, key: string): (i: nat)
    ensures i <= |subs| && (i < |subs| ==> Key(subs[i].target) == key)
    ensures forall j | 0 <= j < i :: Key(subs[j].target) != key
  {
    if subs == [] || Key(subs[0].target) == key then 0 else 1 + IndexOfKey(subs[1..], key)
  }

  /** `upsertNotifySubscriber`; the flag says whether the list has changed. */
  function Upsert(subs: seq<Subscriber>, target: Target, mode: Mode, now: int): (seq<Subscriber>, bool) {
    var i := IndexOfKey(subs, Key(target));
    if i == |subs| then (subs + [Subscriber(target, mode, now)], true)
    else if subs[i].mode == mode then (subs, false)
    else (subs[i := Subscriber(target, mode, now)], true)
  }

  /** The `off` command. */
  function Remove(subs: seq<Subscriber>, target: Target): (seq<Subscriber>, bool) {
    var i := IndexOfKey(subs, Key(target));
    if i == |subs| then (subs, false) else (subs[..i] + subs[i + 1..], true)
  }

  // ---------------------------------------------------------------------------
  // Marks: which requests were notified, and when
  // ---------------------------------------------------------------------------

  datatype Mark = Mark(id: string, at: int)

  ghost predicate DistinctIds(marks: seq<Mark>) {
    forall i, j | 0 <= i < j < |marks| :: marks[i].id != marks[j].id
  }

  function Lookup(marks: seq<Mark>, id: string): Option<int> {
    if marks == [] then None else if marks[0].id == id then Some(marks[0].at) else Lookup(marks[1..], id)
  }

  /** Assigns a property of the marks record: in place, or at the end. */
  function SetMark(marks: seq<Mark>, id: string, at: int): seq<Mark> {
    if marks == [] then [Mark(id, at)]
    else if marks[0].id == id then [Mark(id, at)] + marks[1..]
    else [marks[0]] + SetMark(marks[1..], id, at)
  }

  lemma {:induction false} LookupAfterSet(marks: seq<Mark>, id: string, at: int, other: string)
    ensures Lookup(SetMark(marks, id, at), other) == if other == id then Some(at) else Lookup(marks, other)
  {
    if marks != [] && marks[0].id != id {
      LookupAfterSet(marks[1..], id, at, other);
      assert SetMark(marks, id, at)[1..] == SetMark(marks[1..], id, at);
    } else if marks != [] {
      assert SetMark(marks, id, at)[1..] == marks[1..];
    }
  }

  // ---------------------------------------------------------------------------
  // One poll
  // ---------------------------------------------------------------------------

  datatype Request = Request(id: string, ts: Option<int>)

  /** One attempt to send request number `request` to subscriber number `subscriber`. */
  datatype Send = Send(request: nat, subscriber: nat, ok: bool)

  ghost predicate IsPending(pending: seq<Request>, id: string) {
    exists r <- pending :: r.id == id
  }

  function PendingIds(pending: seq<Request>): set<string> {
    set r <- pending :: r.id
  }

  /** Marks of requests that are gone or that are too old are dropped. */
  function Pruned(marks: seq<Mark>, ids: set<string>, now: int): seq<Mark> {
    if marks == [] then [] else
    (if marks[0].id !in ids || now - marks[0].at > NOTIFY_MAX_SEEN_AGE_MS then [] else [marks[0]])
      + Pruned(marks[1..], ids, now)
  }

  /** A zero mark counts as none. */
  predicate IsMarked(marks: seq<Mark>, id: string) {
    Lookup(marks, id).Some? && Lookup(marks, id).value != 0
  }

  /** `requestTimestampMs` and `shouldNotifySubscriberForRequest`. */
  predicate ShouldNotify(s: Subscriber, r: Request) {
    s.mode == Once ==> r.ts.Some? && r.ts.value > 0 && r.ts.value >= s.addedAtMs
  }

  /** The attempts for request `k`, subscriber by subscriber. */
  function SendAll(subs: seq<Subscriber>, r: Request, k: nat, j: nat, outcome: (nat, nat) -> bool): (log: seq<Send>)
    requires j <= |subs|
    ensures forall x <- log :: x.request == k && j <= x.subscriber < |subs|
    ensures forall x <- log :: ShouldNotify(subs[x.subscriber], r) && x.ok == outcome(k, x.subscriber)
    ensures forall i | j <= i < |subs| && ShouldNotify(subs[i], r) :: Send(k, i, outcome(k, i)) in log
    decreases |subs| - j
  {
    if j == |subs| then [] else
    (if ShouldNotify(subs[j], r) then [Send(k, j, outcome(k, j))] else [])
      + SendAll(subs, r, k, j + 1, outcome)
  }

  predicate AnyOk(log: seq<Send>) {
    exists x <- log :: x.ok
  }

  /** The requests from number `k` on: the marks afterwards, and the attempts. */
  function Notify(subs: seq<Subscriber>, pending: seq<Request>, k: nat, marks: seq<Mark>, now: int,
                  outcome: (nat, nat) -> bool): (seq<Mark>, seq<Send>)
    requires k <= |pending|
    decreases |pending| - k
  {
    if k == |pending| then (marks, [])
    else if IsMarked(marks, pending[k].id) then Notify(subs, pending, k + 1, marks, now, outcome)
    else
      var log := SendAll(subs, pending[k], k, 0, outcome);
      var marks' := if AnyOk(log) then SetMark(marks, pending[k].id, now) else marks;
      var (last, rest) := Notify(subs, pending, k + 1, marks', now, outcome);
      (last, log + rest)
  }

  /** The keys of one-shot subscribers that some attempt has reached. */
  function Delivered(subs: seq<Subscriber>, log: seq<Send>): set<string>
    requires forall x <- log :: x.subscriber < |subs|
  {
    set x <- log | x.ok && subs[x.subscriber].mode == Once :: Key(subs[x.subscriber].target)
  }

  function Without(subs: seq<Subscriber>, keys: set<string>): seq<Subscriber> {
    if subs == [] then [] else
    (if Key(subs[0].target) in keys then [] else [subs[0]]) + Without(subs[1..], keys)
  }

  lemma {:induction false} NotifyLog(subs: seq<Subscriber>, pending: seq<Request>, k: nat, marks: seq<Mark>, now: int,
                                     outcome: (nat, nat) -> bool)
    requires k <= |pending|
    ensures forall x <- Notify(subs, pending, k, marks, now, outcome).1 ::
      && k <= x.request < |pending| && x.subscriber < |subs|
      && ShouldNotify(subs[x.subscriber], pending[x.request]) && x.ok == outcome(x.request, x.subscriber)
    decreases |pending| - k
  {
    if k < |pending| {
      if IsMarked(marks, pending[k].id) {
        NotifyLog(subs, pending, k + 1, marks, now, outcome);
      } else {
        var log := SendAll(subs, pending[k], k, 0, outcome);
        NotifyLog(subs, pending, k + 1, if AnyOk(log) then SetMark(marks, pending[k].id, now) else marks, now, outcome);
      }
    }
  }

  datatype State = State(subscribers: seq<Subscriber>, marks: seq<Mark>)

  datatype Ticked = Ticked(state: State, log: seq<Send>, changed: bool)

  /** `notifyPendingPairingRequests` on the state that was read, with the outcome of every attempt. */
  function Tick(s: State, pending: seq<Request>, now: int, outcome: (nat, nat) -> bool): Ticked {
    var pruned := Pruned(s.marks, PendingIds(pending), now);
    var changed := |pruned| < |s.marks|;
    if s.subscribers == [] then Ticked(State([], pruned), [], changed) else
    var (marks, log) := Notify(s.subscribers, pending, 0, pruned, now, outcome);
    NotifyLog(s.subscribers, pending, 0, pruned, now, outcome);
    var subs := Without(s.subscribers, Delivered(s.subscribers, log));
    Ticked(State(subs, marks), log, changed || AnyOk(log) || |subs| < |s.subscribers|)
  }

  // ---------------------------------------------------------------------------
  // What one poll sends and marks
  // ---------------------------------------------------------------------------

  /** Request `k` gets through to some subscriber. */
  ghost predicate Reached(subs: seq<Subscriber>, pending: seq<Request>, k: nat, outcome: (nat, nat) -> bool)
    requires k < |pending|
  {
    exists j: nat :: j < |subs| && ShouldNotify(subs[j], pending[k]) && outcome(k, j)
  }

  /** An earlier copy of request `k`, from number `from` on, gets through. */
  ghost predicate ReachedBefore(subs: seq<Subscriber>, pending: seq<Request>, from: nat, k: nat,
                                outcome: (nat, nat) -> bool)
    requires k < |pending|
  {
    exists q: nat :: from <= q < k && pending[q].id == pending[k].id && Reached(subs, pending, q, outcome)
  }

  lemma SendAllReaches(subs: seq<Subscriber>, pending: seq<Request>, k: nat, outcome: (nat, nat) -> bool)
    requires k < |pending|
    ensures AnyOk(SendAll(subs, pending[k], k, 0, outcome)) <==> Reached(subs, pending, k, outcome)
  {
    var log := SendAll(subs, pending[k], k, 0, outcome);
    if j: nat :| j < |subs| && ShouldNotify(subs[j], pending[k]) && outcome(k, j) {
      assert Send(k, j, true) in log;
    }
  }

  ghost predicate IsAttempt(subs: seq<Subscriber>, pending: seq<Request>, from: nat, marks: seq<Mark>,
                            outcome: (nat, nat) -> bool, x: Send)
  {
    && from <= x.request < |pending| && x.subscriber < |subs|
    && ShouldNotify(subs[x.subscriber], pending[x.request])
    && x.ok == outcome(x.request, x.subscriber)
    && !IsMarked(marks, pending[x.request].id)
    && !ReachedBefore(subs, pending, from, x.request, outcome)
  }

  /** The attempts of a poll: every request without a mark goes to every subscriber that is due, once,
      unless a copy of it has already got through. */
  lemma {:induction false} AttemptsExactly(subs: seq<Subscriber>, pending: seq<Request>, k: nat, marks: seq<Mark>,
                                           now: int, outcome: (nat, nat) -> bool, x: Send)
    requires k <= |pending| && now > 0
    ensures x in Notify(subs, pending, k, marks, now, outcome).1
       <==> IsAttempt(subs, pending, k, marks, outcome, x)
    decreases |pending| - k
  {
    hide Lookup, SetMark;
    if k < |pending| {
      var id := pending[k].id;
      var log := SendAll(subs, pending[k], k, 0, outcome);
      SendAllReaches(subs, pending, k, outcome);
      var marks' := if !IsMarked(marks, id) && AnyOk(log) then SetMark(marks, id, now) else marks;
      AttemptsExactly(subs, pending, k + 1, marks', now, outcome, x);
      if k < x.request < |pending| {
        LookupAfterSet(marks, id, now, pending[x.request].id);
        ReachedBeforeStep(subs, pending, k, x.request, outcome);
      }
    }
  }

  lemma ReachedBeforeStep(subs: seq<Subscriber>, pending: seq<Request>, k: nat, q: nat, outcome: (nat, nat) -> bool)
    requires k < q < |pending|
    ensures ReachedBefore(subs, pending, k, q, outcome)
         == ((pending[k].id == pending[q].id && Reached(subs, pending, k, outcome))
             || ReachedBefore(subs, pending, k + 1, q, outcome))
  {}

  /** Some copy of `id`, from number `k` on, gets through. */
  ghost predicate ReachedId(subs: seq<Subscriber>, pending: seq<Request>, k: nat, id: string,
                            outcome: (nat, nat) -> bool)
  {
    exists q: nat :: k <= q < |pending| && pending[q].id == id && Reached(subs, pending, q, outcome)
  }

  /** The marks of a poll: a request without a mark that got through is marked with the time of the poll. */
  lemma {:induction false} MarksExactly(subs: seq<Subscriber>, pending: seq<Request>, k: nat, marks: seq<Mark>,
                                        now: int, outcome: (nat, nat) -> bool, id: string)
    requires k <= |pending| && now > 0
    ensures Lookup(Notify(subs, pending, k, marks, now, outcome).0, id)
         == if !IsMarked(marks, id) && ReachedId(subs, pending, k, id, outcome) then Some(now) else Lookup(marks, id)
    decreases |pending| - k
  {
    hide Lookup, SetMark, Reached;
    if k < |pending| {
      var log := SendAll(subs, pending[k], k, 0, outcome);
      SendAllReaches(subs, pending, k, outcome);
      var marks' := if !IsMarked(marks, pending[k].id) && AnyOk(log) then SetMark(marks, pending[k].id, now) else marks;
      LookupAfterSet(marks, pending[k].id, now, id);
      MarksExactly(subs, pending, k + 1, marks', now, outcome, id);
      assert ReachedId(subs, pending, k, id, outcome)
          == ((pending[k].id == id && Reached(subs, pending, k, outcome))
              || ReachedId(subs, pending, k + 1, id, outcome));
    }
  }

  /** Attempts follow one another request by request, and subscriber by subscriber: none is made twice. */
  ghost predicate InOrder(log: seq<Send>) {
    forall p, q | 0 <= p < q < |log| ::
      || log[p].request < log[q].request
      || (log[p].request == log[q].request && log[p].subscriber < log[q].subscriber)
  }

  lemma {:induction false} SendAllInOrder(subs: seq<Subscriber>, r: Request, k: nat, j: nat,
                                          outcome: (nat, nat) -> bool)
    requires j <= |subs|
    ensures InOrder(SendAll(subs, r, k, j, outcome))
    decreases |subs| - j
  {
    if j < |subs| {
      SendAllInOrder(subs, r, k, j + 1, outcome);
      var rest := SendAll(subs, r, k, j + 1, outcome);
      assert forall x <- rest :: x.subscriber > j && x.request == k;
    }
  }

  lemma {:induction false} NotifyInOrder(subs: seq<Subscriber>, pending: seq<Request>, k: nat, marks: seq<Mark>,
                                         now: int, outcome: (nat, nat) -> bool)
    requires k <= |pending|
    ensures InOrder(Notify(subs, pending, k, marks, now, outcome).1)
    decreases |pending| - k
  {
    if k < |pending| {
      if IsMarked(marks, pending[k].id) {
        NotifyInOrder(subs, pending, k + 1, marks, now, outcome);
      } else {
        var log := SendAll(subs, pending[k], k, 0, outcome);
        var marks' := if AnyOk(log) then SetMark(marks, pending[k].id, now) else marks;
        var rest := Notify(subs, pending, k + 1, marks', now, outcome).1;
        SendAllInOrder(subs, pending[k], k, 0, outcome);
        NotifyInOrder(subs, pending, k + 1, marks', now, outcome);
        NotifyLog(subs, pending, k + 1, marks', now, outcome);
        InOrderConcat(log, rest, k);
      }
    }
  }

  lemma InOrderConcat(log: seq<Send>, rest: seq<Send>, k: nat)
    requires InOrder(log) && InOrder(rest)
    requires (forall x <- log :: x.request == k) && forall x <- rest :: x.request > k
    ensures InOrder(log + rest)
  {
    assert forall p | 0 <= p < |log| :: log[p] in log;
    assert forall p | 0 <= p < |rest| :: rest[p] in rest;
  }

  lemma {:induction false} LookupIsFirst(marks: seq<Mark>, id: string)
    ensures Lookup(marks, id).Some? ==> Mark(id, Lookup(marks, id).value) in marks
    ensures Lookup(marks, id).None? ==> forall m <- marks :: m.id != id
  {
    if marks != [] {
      assert marks == [marks[0]] + marks[1..];
      LookupIsFirst(marks[1..], id);
    }
  }

  lemma {:induction false} PrunedIsPart(marks: seq<Mark>, ids: set<string>, now: int)
    ensures forall m <- Pruned(marks, ids, now) :: m in marks && m.id in ids
  {
    if marks != [] {
      assert marks == [marks[0]] + marks[1..];
      PrunedIsPart(marks[1..], ids, now);
    }
  }

  lemma DistinctTail(marks: seq<Mark>)
    requires DistinctIds(marks) && marks != []
    ensures DistinctIds(marks[1..]) && forall m <- marks[1..] :: m.id != marks[0].id
  {}

  lemma DistinctCons(m: Mark, marks: seq<Mark>)
    requires DistinctIds(marks) && forall x <- marks :: x.id != m.id
    ensures DistinctIds([m] + marks)
  {}

  lemma {:induction false} PrunedDistinct(marks: seq<Mark>, ids: set<string>, now: int)
    requires DistinctIds(marks)
    ensures DistinctIds(Pruned(marks, ids, now))
  {
    if marks != [] {
      hide DistinctIds;
      DistinctTail(marks);
      PrunedDistinct(marks[1..], ids, now);
      PrunedIsPart(marks[1..], ids, now);
      DistinctCons(marks[0], Pruned(marks[1..], ids, now));
    }
  }

  lemma {:induction false} PrunedExactly(marks: seq<Mark>, ids: set<string>, now: int, id: string)
    requires DistinctIds(marks)
    ensures var before := Lookup(marks, id);
      Lookup(Pruned(marks, ids, now), id)
        == if before.Some? && id in ids && now - before.value <= 86_400_000 then before else None
  {
    if marks != [] {
      hide DistinctIds;
      DistinctTail(marks);
      var rest := Pruned(marks[1..], ids, now);
      PrunedExactly(marks[1..], ids, now, id);
      PrunedIsPart(marks[1..], ids, now);
      assert [] + rest == rest;
      LookupIsFirst(rest, id);
      LookupCons(marks[0], rest, id);
    }
  }

  lemma LookupCons(m: Mark, marks: seq<Mark>, id: string)
    ensures Lookup([m] + marks, id) == if m.id == id then Some(m.at) else Lookup(marks, id)
  {}

  // ---------------------------------------------------------------------------
  // Who is left after one poll
  // ---------------------------------------------------------------------------

  /** The one-shot subscribers that some attempt has reached. */
  ghost function Fired(subs: seq<Subscriber>, log: seq<Send>): set<nat>
    requires forall x <- log :: x.subscriber < |subs|
  {
    set x <- log | x.ok && subs[x.subscriber].mode == Once :: x.subscriber
  }

  /** The subscribers from number `j` on that have not fired, in order. */
  ghost function Remaining(subs: seq<Subscriber>, j: nat, fired: set<nat>): seq<Subscriber>
    requires j <= |subs|
    decreases |subs| - j
  {
    if j == |subs| then [] else (if j in fired then [] else [subs[j]]) + Remaining(subs, j + 1, fired)
  }

  lemma {:induction false} WithoutExactly(subs: seq<Subscriber>, j: nat, keys: set<string>, fired: set<nat>)
    requires j <= |subs|
    requires forall i: nat | j <= i < |subs| :: Key(subs[i].target) in keys <==> i in fired
    ensures Without(subs[j..], keys) == Remaining(subs, j, fired)
    decreases |subs| - j
  {
    hide Key;
    if j < |subs| {
      WithoutExactly(subs, j + 1, keys, fired);
      assert subs[j..][1..] == subs[j + 1..];
    }
  }

  lemma DeliveredAreFired(subs: seq<Subscriber>, log: seq<Send>)
    requires DistinctKeys(subs) && forall x <- log :: x.subscriber < |subs|
    ensures forall i: nat | i < |subs| :: Key(subs[i].target) in Delivered(subs, log) <==> i in Fired(subs, log)
  {
    hide Key;
    forall i: nat | i < |subs|
      ensures Key(subs[i].target) in Delivered(subs, log) <==> i in Fired(subs, log)
    {
      if Key(subs[i].target) in Delivered(subs, log) {
        var x :| x in log && x.ok && subs[x.subscriber].mode == Once
          && Key(subs[x.subscriber].target) == Key(subs[i].target);
        assert x.subscriber == i;
      }
    }
  }

  // ---------------------------------------------------------------------------
  // The meaning of one poll
  // ---------------------------------------------------------------------------

  /** Has request `id` a mark that this poll keeps? */
  ghost predicate StaysMarked(s: State, pending: seq<Request>, now: int, id: string) {
    && IsMarked(s.marks, id) && IsPending(pending, id)
    && now - Lookup(s.marks, id).value <= 86_400_000
  }

  /** A poll attempts, once and in order, every pending request without a live mark at every persistent subscriber,
      and at every one-shot subscriber if the request has a positive stamp at or after the time it was added.
      Copies of a request that has got through before are passed over. */
  lemma TickAttempts(s: State, pending: seq<Request>, now: int, outcome: (nat, nat) -> bool, x: Send)
    requires DistinctIds(s.marks) && now > 0
    ensures InOrder(Tick(s, pending, now, outcome).log)
    ensures x in Tick(s, pending, now, outcome).log
       <==> && x.request < |pending| && x.subscriber < |s.subscribers|
            && (var sub, ts := s.subscribers[x.subscriber], pending[x.request].ts;
                sub.mode == Once ==> ts.Some? && ts.value > 0 && ts.value >= sub.addedAtMs)
            && x.ok == outcome(x.request, x.subscriber)
            && !StaysMarked(s, pending, now, pending[x.request].id)
            && !ReachedBefore(s.subscribers, pending, 0, x.request, outcome)
  {
    var pruned := Pruned(s.marks, PendingIds(pending), now);
    if s.subscribers != [] {
      NotifyInOrder(s.subscribers, pending, 0, pruned, now, outcome);
      AttemptsExactly(s.subscribers, pending, 0, pruned, now, outcome, x);
      if x.request < |pending| {
        PrunedExactly(s.marks, PendingIds(pending), now, pending[x.request].id);
      }
    }
  }

  /** After a poll a request is marked exactly when it was and still is pending and fresh, or when it got
      through just now. A request that nobody received has no mark. */
  lemma TickMarks(s: State, pending: seq<Request>, now: int, outcome: (nat, nat) -> bool, id: string)
    requires DistinctIds(s.marks) && now > 0 && forall m <- s.marks :: m.at > 0
    ensures Lookup(Tick(s, pending, now, outcome).state.marks, id)
         == if StaysMarked(s, pending, now, id) then Lookup(s.marks, id)
            else if ReachedId(s.subscribers, pending, 0, id, outcome) then Some(now)
            else None
  {
    var pruned := Pruned(s.marks, PendingIds(pending), now);
    PrunedExactly(s.marks, PendingIds(pending), now, id);
    LookupIsFirst(s.marks, id);
    if s.subscribers != [] {
      MarksExactly(s.subscribers, pending, 0, pruned, now, outcome, id);
    }
  }

  /** A poll removes exactly the one-shot subscribers that it has reached, and keeps the others in order. */
  lemma TickSubscribers(s: State, pending: seq<Request>, now: int, outcome: (nat, nat) -> bool)
    requires DistinctKeys(s.subscribers)
    ensures var t := Tick(s, pending, now, outcome);
      && (forall x <- t.log :: x.subscriber < |s.subscribers|)
      && t.state.subscribers == Remaining(s.subscribers, 0, Fired(s.subscribers, t.log))
  {
    var pruned := Pruned(s.marks, PendingIds(pending), now);
    if s.subscribers != [] {
      NotifyLog(s.subscribers, pending, 0, pruned, now, outcome);
      var log := Tick(s, pending, now, outcome).log;
      DeliveredAreFired(s.subscribers, log);
      WithoutExactly(s.subscribers, 0, Delivered(s.subscribers, log), Fired(s.subscribers, log));
      assert s.subscribers[0..] == s.subscribers;
    }
  }

  /** A one-shot subscriber is sent only requests that are stamped at or after it was armed. */
  lemma OneShotsOnlyForNewRequests(s: State, pending: seq<Request>, now: int, outcome: (nat, nat) -> bool, x: Send)
    requires x in Tick(s, pending, now, outcome).log
    ensures x.request < |pending| && x.subscriber < |s.subscribers|
    ensures var subscriber, ts := s.subscribers[x.subscriber], pending[x.request].ts;
      subscriber.mode == Once ==> ts.Some? && ts.value >= subscriber.addedAtMs
  {
    NotifyLog(s.subscribers, pending, 0, Pruned(s.marks, PendingIds(pending), now), now, outcome);
  }
}
