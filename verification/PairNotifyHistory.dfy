/** What the marks and the one-shot subscribers of the pairing notifier say about the past. */
module PairNotifyHistory {
  import opened Text
  import opened PairNotify
  import opened PairNotifyRuns

  // ---------------------------------------------------------------------------
  // Where marks come from
  // ---------------------------------------------------------------------------

  /** The first copy of a request that gets through. */
  lemma {:induction false} FirstReached(subs: seq<Subscriber>, pending: seq<Request>, k: nat, id: string,
                                        outcome: (nat, nat) -> bool)
    returns (q: nat)
    requires k <= |pending| && ReachedId(subs, pending, k, id, outcome)
    ensures k <= q < |pending| && pending[q].id == id
    ensures Reached(subs, pending, q, outcome) && !ReachedBefore(subs, pending, k, q, outcome)
    decreases |pending| - k
  {
    hide Reached;
    if pending[k].id == id && Reached(subs, pending, k, outcome) {
      q := k;
    } else {
      q := FirstReached(subs, pending, k + 1, id, outcome);
      ReachedBeforeStep(subs, pending, k, q, outcome);
    }
  }

  /** A mark that a poll has not kept is new: the request has just got through. */
  lemma NewMarkMeansThrough(events: seq<Event>, i: nat, id: string)
    requires AllRegular(events) && i < |events| && events[i].Poll?
    requires !StaysMarked(Memory(events[..i]), events[i].pending, events[i].now, id)
    ensures var mark := Lookup(Memory(events[..i + 1]).marks, id);
      mark.Some? ==> mark.value == events[i].now && GetsThroughAt(events, i, id)
  {
    hide AllRegular, SendsAt, Memory, Handle, Tick, Lookup, StaysMarked;
    PrefixStep(events, i);
    PollOfGoodFile(events, i);
    var s, e := Memory(events[..i]), events[i];
    TickMarks(s, e.pending, e.now, e.outcome, id);
    if ReachedId(s.subscribers, e.pending, 0, id, e.outcome) {
      var q := FirstReached(s.subscribers, e.pending, 0, id, e.outcome);
      var j: nat :| j < |s.subscribers| && ShouldNotify(s.subscribers[j], e.pending[q]) && e.outcome(q, j);
      TickAttempts(s, e.pending, e.now, e.outcome, Send(q, j, true));
    }
  }

  /** In every poll from event `i` up to event `j` the request is pending, and its mark at most 24 hours old. */
  ghost predicate StaysFresh(events: seq<Event>, i: nat, j: nat, id: string, markedAt: int)
    requires j <= |events|
  {
    forall k | i <= k < j && events[k].Poll? ::
      IsPending(events[k].pending, id) && events[k].now - markedAt <= 86_400_000
  }

  /** Event `i` has got the request through, and every poll up to event `j` has kept its mark. */
  ghost predicate MarkedBy(events: seq<Event>, i: nat, j: nat, id: string, markedAt: int)
    requires i < j <= |events|
  {
    GetsThroughAt(events, i, id) && events[i].now == markedAt && StaysFresh(events, i + 1, j, id, markedAt)
  }

  /** In every regular run a request has a mark exactly when a poll has got it through, and it was pending
      and young enough in every poll since. */
  lemma {:induction false} MarkedExactly(events: seq<Event>, j: nat, id: string, markedAt: int)
    requires AllRegular(events) && j <= |events|
    ensures Lookup(Memory(events[..j]).marks, id) == Some(markedAt)
       <==> exists i: nat :: i < j && MarkedBy(events, i, j, id, markedAt)
  {
    hide AllRegular, SendsAt, Memory, Handle, Lookup, GetsThroughAt, IsPending;
    if i: nat :| i < j && MarkedBy(events, i, j, id, markedAt) {
      ThroughMeansMarked(events, i, id);
      MarksLast(events, i + 1, j, id, markedAt);
    }
    if j == 0 {
      assert events[..0] == [];
      NothingMarked(id);
    } else if Lookup(Memory(events[..j]).marks, id) == Some(markedAt) {
      MarkedBefore(events, j - 1, id, markedAt);
      if !MarkedBy(events, j - 1, j, id, markedAt) {
        MarkedExactly(events, j - 1, id, markedAt);
        var i: nat :| i < j - 1 && MarkedBy(events, i, j - 1, id, markedAt);
        assert MarkedBy(events, i, j, id, markedAt);
      }
    }
  }

  lemma NothingMarked(id: string)
    ensures Lookup(Memory([]).marks, id) == None
  {}

  /** The last event has made the mark, or it has kept it. */
  lemma MarkedBefore(events: seq<Event>, i: nat, id: string, markedAt: int)
    requires AllRegular(events) && i < |events| && Lookup(Memory(events[..i + 1]).marks, id) == Some(markedAt)
    ensures || MarkedBy(events, i, i + 1, id, markedAt)
            || (Lookup(Memory(events[..i]).marks, id) == Some(markedAt) && StaysFresh(events, i, i + 1, id, markedAt))
  {
    hide AllRegular, SendsAt, Memory, Handle, Tick, Lookup, GetsThroughAt;
    PrefixStep(events, i);
    var s, e := Memory(events[..i]), events[i];
    if e.Poll? {
      if !StaysMarked(s, e.pending, e.now, id) { NewMarkMeansThrough(events, i, id); }
      PollOfGoodFile(events, i);
      TickMarks(s, e.pending, e.now, e.outcome, id);
    } else {
      CommandsKeepMarks(s, e);
    }
  }

  /** Some poll has got the request through, and it was pending and young enough in every poll since, this one too. */
  ghost predicate StillMarked(events: seq<Event>, j: nat, id: string)
    requires j < |events|
  {
    exists i: nat :: i < j && MarkedBy(events, i, j + 1, id, events[i].now)
  }

  /** A poll sends a request to a subscriber exactly when no earlier poll has got it through, or it has been
      absent or its mark too old in some poll since. A one-shot subscriber is sent it only if it has a positive
      stamp at or after the time the subscriber was added; a persistent one whatever its stamp. Further copies
      of the request in one list do not count. */
  lemma SentExactly(events: seq<Event>, j: nat, k: nat, subscriber: nat)
    requires AllRegular(events) && j < |events| && events[j].Poll?
    requires k < |events[j].pending| && subscriber < |Memory(events[..j]).subscribers|
    requires forall q | 0 <= q < k :: events[j].pending[q].id != events[j].pending[k].id
    ensures var sub, ts := Memory(events[..j]).subscribers[subscriber], events[j].pending[k].ts;
      (Send(k, subscriber, events[j].outcome(k, subscriber)) in SendsAt(events, j))
        == (&& !StillMarked(events, j, events[j].pending[k].id)
            && (sub.mode == Once ==> ts.Some? && ts.value > 0 && ts.value >= sub.addedAtMs))
  {
    hide AllRegular, SendsAt, Memory, Tick, Lookup, Handle, GetsThroughAt, ShouldNotify;
    PollOfGoodFile(events, j);
    var s, e := Memory(events[..j]), events[j];
    TickAttempts(s, e.pending, e.now, e.outcome, Send(k, subscriber, e.outcome(k, subscriber)));
    StaysMarkedMeans(events, j, e.pending[k].id);
  }

  /** A one-shot subscriber is sent a request exactly when that is still to be received and has a positive stamp
      at or after the event that has armed the subscriber. */
  lemma SentToOneShotsExactly(events: seq<Event>, j: nat, k: nat, subscriber: nat) returns (armed: nat)
    requires AllRegular(events) && j < |events| && events[j].Poll?
    requires k < |events[j].pending| && subscriber < |Memory(events[..j]).subscribers|
    requires forall q | 0 <= q < k :: events[j].pending[q].id != events[j].pending[k].id
    requires Memory(events[..j]).subscribers[subscriber].mode == Once
    ensures armed < j && ArmedBy(events, armed, j, Memory(events[..j]).subscribers[subscriber])
    ensures var ts := events[j].pending[k].ts;
      (Send(k, subscriber, events[j].outcome(k, subscriber)) in SendsAt(events, j))
        == (&& !StillMarked(events, j, events[j].pending[k].id)
            && ts.Some? && ts.value > 0 && ts.value >= events[armed].now)
  {
    hide AllRegular, SendsAt, Memory, StillMarked, ArmedBy;
    SentExactly(events, j, k, subscriber);
    var sub := Memory(events[..j]).subscribers[subscriber];
    ArmedExactly(events, j, sub);
    armed :| armed < j && ArmedBy(events, armed, j, sub);
    ArmedStamp(events, armed, j, sub);
  }

  lemma StaysMarkedMeans(events: seq<Event>, j: nat, id: string)
    requires AllRegular(events) && j < |events| && events[j].Poll?
    ensures StaysMarked(Memory(events[..j]), events[j].pending, events[j].now, id) <==> StillMarked(events, j, id)
  {
    hide AllRegular, SendsAt, Memory, Lookup, GetsThroughAt, IsPending;
    var marks := Memory(events[..j]).marks;
    PrefixIsRegular(events, j);
    MemoryIsCanonical(events[..j]);
    LookupIsFirst(marks, id);
    if Lookup(marks, id).Some? {
      var markedAt := Lookup(marks, id).value;
      MarkedExactly(events, j, id, markedAt);
      var i: nat :| i < j && MarkedBy(events, i, j, id, markedAt);
      if StaysMarked(Memory(events[..j]), events[j].pending, events[j].now, id) {
        assert MarkedBy(events, i, j + 1, id, events[i].now);
      }
    }
    if StillMarked(events, j, id) {
      var i: nat :| i < j && MarkedBy(events, i, j + 1, id, events[i].now);
      assert MarkedBy(events, i, j, id, events[i].now);
      MarkedExactly(events, j, id, events[i].now);
    }
  }

  lemma PrefixIsRegular(events: seq<Event>, j: nat)
    requires AllRegular(events) && j <= |events|
    ensures AllRegular(events[..j])
  {
    hide IsRegular;
    assert forall e <- events[..j] :: e in events;
  }

  /** What nobody has received is retried: as long as no poll has got a request through, every poll where it is
      pending sends it to every persistent subscriber, and to the one-shot subscribers that it is new for. */
  lemma UnreceivedRequestsAreRetried(events: seq<Event>, j: nat, k: nat, subscriber: nat)
    requires AllRegular(events) && j < |events| && events[j].Poll?
    requires k < |events[j].pending| && subscriber < |Memory(events[..j]).subscribers|
    requires forall q | 0 <= q < k :: events[j].pending[q].id != events[j].pending[k].id
    requires var sub, ts := Memory(events[..j]).subscribers[subscriber], events[j].pending[k].ts;
      sub.mode == Persistent || (ts.Some? && ts.value > 0 && ts.value >= sub.addedAtMs)
    requires forall i: nat | i < j :: !GetsThroughAt(events, i, events[j].pending[k].id)
    ensures Lookup(Memory(events[..j]).marks, events[j].pending[k].id) == None
    ensures Send(k, subscriber, events[j].outcome(k, subscriber)) in SendsAt(events, j)
  {
    hide AllRegular, SendsAt, Memory, Lookup, GetsThroughAt;
    SentExactly(events, j, k, subscriber);
    var id := events[j].pending[k].id;
    var mark := Lookup(Memory(events[..j]).marks, id);
    if mark.Some? { MarkedExactly(events, j, id, mark.value); }
  }

  // ---------------------------------------------------------------------------
  // Where one-shot subscribers come from
  // ---------------------------------------------------------------------------

  ghost predicate HasMode(s: State, mode: Mode, key: string) {
    exists sub <- s.subscribers :: sub.mode == mode && Key(sub.target) == key
  }

  /** Event `i` arms the subscriber: its target was absent or persistent before. */
  ghost predicate ArmsAt(events: seq<Event>, i: nat, sub: Subscriber)
    requires i < |events|
  {
    && events[i].Arm? && CommandTarget(events[i].ctx) == Some(sub.target)
    && events[i].now == sub.addedAtMs && sub.mode == Once
    && !HasMode(Memory(events[..i]), Once, Key(sub.target))
  }

  /** Event `k` ends a one-shot subscription: a poll reaches it, or its target is turned on or off. */
  ghost predicate EndsAt(events: seq<Event>, k: nat, sub: Subscriber)
    requires k < |events|
  {
    match events[k]
    case Poll(_, _, _) => exists x <- SendsAt(events, k) :: x.ok && IsSentTo(events, k, x, sub)
    case Enable(ctx, _) => IsFrom(ctx, Key(sub.target))
    case Disable(ctx, _) => IsFrom(ctx, Key(sub.target))
    case Arm(_, _) => false
  }

  ghost predicate IsSentTo(events: seq<Event>, k: nat, x: Send, sub: Subscriber)
    requires k < |events|
  {
    var subs := Memory(events[..k]).subscribers;
    x.subscriber < |subs| && subs[x.subscriber] == sub
  }

  predicate IsFrom(ctx: Context, key: string) {
    CommandTarget(ctx).Some? && Key(CommandTarget(ctx).value) == key
  }

  /** Event `i` arms the subscriber, and nothing has ended that before event `j`. */
  ghost predicate ArmedBy(events: seq<Event>, i: nat, j: nat, sub: Subscriber)
    requires i < j <= |events|
  {
    ArmsAt(events, i, sub) && forall k: nat | i < k < j :: !EndsAt(events, k, sub)
  }

  lemma RemainingStep(subs: seq<Subscriber>, j: nat, fired: set<nat>, sub: Subscriber)
    requires j <= |subs|
    ensures sub in Remaining(subs, j, fired)
       <==> j < |subs| && ((subs[j] == sub && j !in fired) || sub in Remaining(subs, j + 1, fired))
  {}

  lemma {:induction false} RemainingExactly(subs: seq<Subscriber>, j: nat, fired: set<nat>, sub: Subscriber)
    requires j <= |subs|
    ensures sub in Remaining(subs, j, fired) <==> exists i: nat :: j <= i < |subs| && subs[i] == sub && i !in fired
    decreases |subs| - j
  {
    hide Remaining;
    RemainingStep(subs, j, fired, sub);
    if j < |subs| { RemainingExactly(subs, j + 1, fired, sub); }
  }

  lemma SameSubscriber(subs: seq<Subscriber>, i: nat, j: nat)
    requires DistinctKeys(subs) && i < |subs| && j < |subs| && Key(subs[i].target) == Key(subs[j].target)
    ensures i == j
  {
    hide Key;
  }

  lemma UpsertReplacesOthers(subs: seq<Subscriber>, target: Target, mode: Mode, now: int, sub: Subscriber)
    requires DistinctKeys(subs) && sub.mode != mode
    ensures sub in Upsert(subs, target, mode, now).0 <==> sub in subs && Key(sub.target) != Key(target)
  {
    hide Key;
    UpsertMeaning(subs, target, mode, now);
    var i, next := IndexOfKey(subs, Key(target)), Upsert(subs, target, mode, now).0;
    if sub in subs {
      var k: nat :| k < |subs| && subs[k] == sub;
      if Key(sub.target) == Key(target) {
        if i < |subs| { SameSubscriber(subs, i, k); }
      } else {
        assert next[k] == sub;
      }
    }
    if sub in next {
      var k: nat :| k < |next| && next[k] == sub;
      assert k < |subs| && subs[k] == sub;
    }
  }

  lemma RemoveTakesTheKey(subs: seq<Subscriber>, target: Target, sub: Subscriber)
    requires DistinctKeys(subs)
    ensures sub in Remove(subs, target).0 <==> sub in subs && Key(sub.target) != Key(target)
  {
    hide Key;
    RemoveMeaning(subs, target);
    var i := IndexOfKey(subs, Key(target));
    if i < |subs| {
      assert subs == subs[..i] + [subs[i]] + subs[i + 1..];
    }
  }

  lemma UpsertAddsFirst(s: State, target: Target, mode: Mode, now: int, sub: Subscriber)
    requires DistinctKeys(s.subscribers) && sub.mode == mode
    ensures sub in Upsert(s.subscribers, target, mode, now).0
       <==> sub in s.subscribers || (sub == Subscriber(target, mode, now) && !HasMode(s, mode, Key(target)))
  {
    hide Key;
    var subs := s.subscribers;
    UpsertMeaning(subs, target, mode, now);
    var i, next := IndexOfKey(subs, Key(target)), Upsert(subs, target, mode, now).0;
    if HasMode(s, mode, Key(target)) {
      var k: nat :| k < |subs| && subs[k].mode == mode && Key(subs[k].target) == Key(target);
      SameSubscriber(subs, i, k);
    } else {
      assert next[i] == Subscriber(target, mode, now);
      if sub in subs {
        var k: nat :| k < |subs| && subs[k] == sub;
        assert next[k] == sub;
      }
    }
  }

  /** One event: a one-shot subscriber is there afterwards exactly when it was and the event does not end it,
      or the event arms it. */
  lemma OnceStep(events: seq<Event>, i: nat, sub: Subscriber)
    requires AllRegular(events) && i < |events| && sub.mode == Once
    ensures sub in Memory(events[..i + 1]).subscribers
       <==> (sub in Memory(events[..i]).subscribers && !EndsAt(events, i, sub)) || ArmsAt(events, i, sub)
  {
    hide AllRegular, Memory, Tick, Key, CommandTarget, SendsAt, HasMode, DistinctKeys, Upsert, Remove;
    PrefixStep(events, i);
    PrefixIsRegular(events, i);
    MemoryIsCanonical(events[..i]);
    var s := Memory(events[..i]);
    match events[i]
    case Poll(_, _, _) => OncePoll(events, i, sub);
    case Enable(ctx, now) =>
      if CommandTarget(ctx).Some? { UpsertReplacesOthers(s.subscribers, CommandTarget(ctx).value, Persistent, now, sub); }
    case Disable(ctx, _) =>
      if CommandTarget(ctx).Some? { RemoveTakesTheKey(s.subscribers, CommandTarget(ctx).value, sub); }
    case Arm(ctx, now) =>
      if CommandTarget(ctx).Some? { UpsertAddsFirst(s, CommandTarget(ctx).value, Once, now, sub); }
  }

  lemma OncePoll(events: seq<Event>, i: nat, sub: Subscriber)
    requires AllRegular(events) && i < |events| && events[i].Poll? && sub.mode == Once
    ensures sub in Memory(events[..i + 1]).subscribers
       <==> sub in Memory(events[..i]).subscribers && !EndsAt(events, i, sub)
  {
    hide AllRegular, Memory, Tick, Handle, Key, SendsAt, DistinctKeys;
    PrefixStep(events, i);
    PollOfGoodFile(events, i);
    PrefixIsRegular(events, i);
    MemoryIsCanonical(events[..i]);
    var s, e, log := Memory(events[..i]), events[i], SendsAt(events, i);
    TickSubscribers(s, e.pending, e.now, e.outcome);
    var fired := Fired(s.subscribers, log);
    RemainingExactly(s.subscribers, 0, fired, sub);
    if k: nat :| k < |s.subscribers| && s.subscribers[k] == sub && k !in fired {
      if x :| x in log && x.ok && IsSentTo(events, i, x, sub) {
        SameSubscriber(s.subscribers, k, x.subscriber);
      }
    }
    if k: nat :| k < |s.subscribers| && s.subscribers[k] == sub && k in fired {
      var x :| x in log && x.ok && x.subscriber == k;
      assert IsSentTo(events, i, x, sub);
    }
  }

  /** In every regular run a one-shot subscriber is there exactly when some event has armed it, at the time it
      is stamped with, and nothing has ended that since. The stamp is that of the first arming since the
      target was last absent or persistent: later ones change nothing. */
  lemma {:induction false} ArmedExactly(events: seq<Event>, j: nat, sub: Subscriber)
    requires AllRegular(events) && j <= |events| && sub.mode == Once
    ensures sub in Memory(events[..j]).subscribers <==> exists i: nat :: i < j && ArmedBy(events, i, j, sub)
  {
    hide AllRegular, Memory, ArmsAt, EndsAt;
    if j == 0 {
      assert events[..0] == [];
      NoSubscribers();
    } else {
      if i: nat :| i < j && ArmedBy(events, i, j, sub) {
        ArmedEarlier(events, i, j, sub);
      }
      ArmedExactly(events, j - 1, sub);
      OnceStep(events, j - 1, sub);
      if ArmsAt(events, j - 1, sub) {
        assert ArmedBy(events, j - 1, j, sub);
      } else if sub in Memory(events[..j]).subscribers {
        var i: nat :| i < j - 1 && ArmedBy(events, i, j - 1, sub);
        assert ArmedBy(events, i, j, sub);
      }
    }
  }

  lemma ArmedEarlier(events: seq<Event>, i: nat, j: nat, sub: Subscriber)
    requires i < j <= |events| && ArmedBy(events, i, j, sub)
    ensures i == j - 1 || (ArmedBy(events, i, j - 1, sub) && !EndsAt(events, j - 1, sub))
  {
    hide ArmsAt, EndsAt;
  }

  lemma NoSubscribers()
    ensures Memory([]) == State([], [])
  {}

  // ---------------------------------------------------------------------------
  // Where persistent subscribers come from
  // ---------------------------------------------------------------------------

  /** Event `i` subscribes the target: it was absent or armed before. */
  ghost predicate SubscribesAt(events: seq<Event>, i: nat, sub: Subscriber)
    requires i < |events|
  {
    && events[i].Enable? && CommandTarget(events[i].ctx) == Some(sub.target)
    && events[i].now == sub.addedAtMs && sub.mode == Persistent
    && !HasMode(Memory(events[..i]), Persistent, Key(sub.target))
  }

  /** Event `k` turns the target off, or arms it. */
  ghost predicate UnsubscribesAt(events: seq<Event>, k: nat, sub: Subscriber)
    requires k < |events|
  {
    (events[k].Disable? || events[k].Arm?) && IsFrom(events[k].ctx, Key(sub.target))
  }

  /** Event `i` subscribes the target, and nothing has ended that before event `j`. */
  ghost predicate SubscribedBy(events: seq<Event>, i: nat, j: nat, sub: Subscriber)
    requires i < j <= |events|
  {
    SubscribesAt(events, i, sub) && forall k: nat | i < k < j :: !UnsubscribesAt(events, k, sub)
  }

  lemma PersistentStep(events: seq<Event>, i: nat, sub: Subscriber)
    requires AllRegular(events) && i < |events| && sub.mode == Persistent
    ensures sub in Memory(events[..i + 1]).subscribers
       <==> (sub in Memory(events[..i]).subscribers && !UnsubscribesAt(events, i, sub)) || SubscribesAt(events, i, sub)
  {
    hide AllRegular, Memory, Tick, Key, CommandTarget, SendsAt, HasMode, DistinctKeys, Upsert, Remove;
    PrefixStep(events, i);
    PrefixIsRegular(events, i);
    MemoryIsCanonical(events[..i]);
    var s := Memory(events[..i]);
    match events[i]
    case Poll(now, pending, outcome) => PersistentPoll(s, pending, now, outcome, sub);
    case Enable(ctx, now) =>
      if CommandTarget(ctx).Some? { UpsertAddsFirst(s, CommandTarget(ctx).value, Persistent, now, sub); }
    case Disable(ctx, _) =>
      if CommandTarget(ctx).Some? { RemoveTakesTheKey(s.subscribers, CommandTarget(ctx).value, sub); }
    case Arm(ctx, now) =>
      if CommandTarget(ctx).Some? { UpsertReplacesOthers(s.subscribers, CommandTarget(ctx).value, Once, now, sub); }
  }

  lemma PersistentPoll(s: State, pending: seq<Request>, now: int, outcome: (nat, nat) -> bool, sub: Subscriber)
    requires DistinctKeys(s.subscribers) && sub.mode == Persistent
    ensures sub in Tick(s, pending, now, outcome).state.subscribers <==> sub in s.subscribers
  {
    hide Tick, DistinctKeys;
    TickSubscribers(s, pending, now, outcome);
    RemainingExactly(s.subscribers, 0, Fired(s.subscribers, Tick(s, pending, now, outcome).log), sub);
  }

  /** In every regular run a persistent subscriber is there exactly when some event has subscribed it, at the time
      it is stamped with, and its target was neither turned off nor armed since. Polls never remove it. */
  lemma {:induction false} SubscribedExactly(events: seq<Event>, j: nat, sub: Subscriber)
    requires AllRegular(events) && j <= |events| && sub.mode == Persistent
    ensures sub in Memory(events[..j]).subscribers <==> exists i: nat :: i < j && SubscribedBy(events, i, j, sub)
  {
    hide AllRegular, Memory, SubscribesAt, UnsubscribesAt;
    if j == 0 {
      assert events[..0] == [];
      NoSubscribers();
    } else {
      if i: nat :| i < j && SubscribedBy(events, i, j, sub) {
        SubscribedEarlier(events, i, j, sub);
      }
      SubscribedExactly(events, j - 1, sub);
      PersistentStep(events, j - 1, sub);
      if SubscribesAt(events, j - 1, sub) {
        assert SubscribedBy(events, j - 1, j, sub);
      } else if sub in Memory(events[..j]).subscribers {
        var i: nat :| i < j - 1 && SubscribedBy(events, i, j - 1, sub);
        assert SubscribedBy(events, i, j, sub);
      }
    }
  }

  lemma SubscribedEarlier(events: seq<Event>, i: nat, j: nat, sub: Subscriber)
    requires i < j <= |events| && SubscribedBy(events, i, j, sub)
    ensures i == j - 1 || (SubscribedBy(events, i, j - 1, sub) && !UnsubscribesAt(events, j - 1, sub))
  {
    hide SubscribesAt, UnsubscribesAt;
  }

  // ---------------------------------------------------------------------------
  // What one-shot subscribers get
  // ---------------------------------------------------------------------------

  /** In every regular run, whatever a poll sends to a one-shot subscriber is stamped at or after the event that
      has armed it. */
  lemma OneShotsGetOnlyNewRequests(events: seq<Event>, j: nat, x: Send) returns (armed: nat)
    requires AllRegular(events) && j < |events| && events[j].Poll? && x in SendsAt(events, j)
    ensures x.request < |events[j].pending| && x.subscriber < |Memory(events[..j]).subscribers|
    ensures var sub, ts := Memory(events[..j]).subscribers[x.subscriber], events[j].pending[x.request].ts;
      sub.mode == Once ==> armed < j && ArmedBy(events, armed, j, sub) && ts.Some? && events[armed].now <= ts.value
  {
    hide AllRegular, Memory, Tick, Handle, SendsAt, ArmedBy;
    PollOfGoodFile(events, j);
    var s, e := Memory(events[..j]), events[j];
    OneShotsOnlyForNewRequests(s, e.pending, e.now, e.outcome, x);
    var sub := s.subscribers[x.subscriber];
    armed := 0;
    if sub.mode == Once {
      ArmedExactly(events, j, sub);
      armed :| armed < j && ArmedBy(events, armed, j, sub);
      ArmedStamp(events, armed, j, sub);
    }
  }

  lemma ArmedStamp(events: seq<Event>, i: nat, j: nat, sub: Subscriber)
    requires i < j <= |events| && ArmedBy(events, i, j, sub)
    ensures events[i].now == sub.addedAtMs && sub.mode == Once
  {}

  // ---------------------------------------------------------------------------
  // Arming again
  // ---------------------------------------------------------------------------

  /** All requests that a one-shot subscriber is due are stamped at or after some time exactly when it was armed
      by then, or when that time is no later than any stamp can be. */
  lemma DueSinceExactly(sub: Subscriber, time: int)
    requires sub.mode == Once
    ensures (forall r: Request | ShouldNotify(sub, r) :: r.ts.value >= time) <==> time <= sub.addedAtMs || time <= 1
  {
    if time > sub.addedAtMs && time > 1 {
      var r := Request("", Some(time - 1));
      assert ShouldNotify(sub, r);
    }
  }

  /** A later arming counts, in the sense that only requests stamped at or after it are sent, exactly when the
      clock has not gone on since the first one, or has not started. */
  lemma LaterArmingCountsExactly(events: seq<Event>, i: nat, m: nat, j: nat, sub: Subscriber)
    requires i < m < j <= |events| && ArmedBy(events, i, j, sub)
    requires events[m].Arm? && IsFrom(events[m].ctx, Key(sub.target))
    ensures (forall r: Request | ShouldNotify(sub, r) :: r.ts.value >= events[m].now)
       <==> events[m].now <= events[i].now || events[m].now <= 1
  {
    hide IsFrom, Key, ShouldNotify;
    ArmedStamp(events, i, j, sub);
    DueSinceExactly(sub, events[m].now);
  }

  /** A chat that is armed at 10 and again at 20 is sent a request stamped 15. */
  lemma SecondArmingDoesNotCount(outcome: (nat, nat) -> bool)
    ensures var ctx := Context("telegram", Some("u"), None, None, None, None);
      var events := [Arm(ctx, 10), Arm(ctx, 20), Poll(30, [Request("r", Some(15))], outcome)];
      AllRegular(events) && Send(0, 0, outcome(0, 0)) in SendsAt(events, 2)
  {
    var ctx := Context("telegram", Some("u"), None, None, None, None);
    var e, f, g := Arm(ctx, 10), Arm(ctx, 20), Poll(30, [Request("r", Some(15))], outcome);
    var events := [e, f, g];
    var t := Target("u", None, None);
    OneLetter();
    hide Trim;
    assert CommandTarget(ctx) == Some(t);
    assert AllRegular(events);
    var s := Subscriber(t, Once, 10);
    TwoArmings(events, t);
    hide AllRegular, Memory, Tick, SendsAt, CommandTarget;
    PollOfGoodFile(events, 2);
    TickAttempts(Memory(events[..2]), g.pending, 30, outcome, Send(0, 0, outcome(0, 0)));
  }

  lemma OneLetter()
    ensures Trim("u") == "u" && Trim("r") == "r"
  {
    assert Trimmed("u") && Trimmed("r");
    hide Trim, Trimmed;
    TrimOfTrimmed("u");
    TrimOfTrimmed("r");
  }

  lemma TwoArmings(events: seq<Event>, t: Target)
    requires |events| >= 2 && events[0].Arm? && events[1].Arm?
    requires CommandTarget(events[0].ctx) == Some(t) == CommandTarget(events[1].ctx)
    ensures Memory(events[..2]) == State([Subscriber(t, Once, events[0].now)], [])
  {
    hide Key, CommandTarget, Memory;
    PrefixStep(events, 0);
    PrefixStep(events, 1);
    assert events[..0] == [];
    NoSubscribers();
    assert [] + [Subscriber(t, Once, events[0].now)] == [Subscriber(t, Once, events[0].now)];
  }
}
