/** The pairing notifier as it works: a state object that is read, changed in place, and written back. */
module PairNotifyProcess {
  import opened Sequences
  import opened Text
  import opened PairNotify
  import opened PairNotifyRuns

  // ---------------------------------------------------------------------------
  // Single steps of the loops
  // ---------------------------------------------------------------------------

  /** Deletes a property of the marks record. */
  function DeleteMark(marks: seq<Mark>, id: string): seq<Mark> {
    if marks == [] then [] else if marks[0].id == id then marks[1..] else [marks[0]] + DeleteMark(marks[1..], id)
  }

  lemma {:induction false} DeleteMiddle(front: seq<Mark>, m: Mark, rest: seq<Mark>)
    requires forall x <- front :: x.id != m.id
    ensures DeleteMark(front + [m] + rest, m.id) == front + rest
  {
    var all := front + [m] + rest;
    if front == [] {
      assert all == [m] + rest;
      assert [] + rest == rest;
    } else {
      assert front == [front[0]] + front[1..];
      assert all[1..] == front[1..] + [m] + rest;
      DeleteMiddle(front[1..], m, rest);
      assert front + rest == [front[0]] + (front[1..] + rest);
    }
  }

  lemma PrunedFirst(marks: seq<Mark>, ids: set<string>, now: int)
    ensures Pruned(marks, ids, now) == if marks == [] then [] else
      (if marks[0].id !in ids || now - marks[0].at > NOTIFY_MAX_SEEN_AGE_MS then [] else [marks[0]])
        + Pruned(marks[1..], ids, now)
  {}

  lemma {:induction false} PrunedConcat(a: seq<Mark>, b: seq<Mark>, ids: set<string>, now: int)
    ensures Pruned(a + b, ids, now) == Pruned(a, ids, now) + Pruned(b, ids, now)
  {
    hide Pruned;
    PrunedFirst(a, ids, now);
    PrunedFirst(a + b, ids, now);
    if a == [] {
      assert a + b == b;
    } else {
      TailOfConcat(a, b);
      PrunedConcat(a[1..], b, ids, now);
    }
  }

  lemma PrunedNext(marks: seq<Mark>, i: nat, ids: set<string>, now: int)
    requires i < |marks|
    ensures Pruned(marks[..i + 1], ids, now)
         == Pruned(marks[..i], ids, now)
            + if marks[i].id !in ids || now - marks[i].at > NOTIFY_MAX_SEEN_AGE_MS then [] else [marks[i]]
  {
    assert marks[..i + 1] == marks[..i] + [marks[i]];
    PrunedConcat(marks[..i], [marks[i]], ids, now);
    assert [marks[i]][1..] == [];
  }

  lemma PrunedOfNothing(ids: set<string>, now: int)
    ensures Pruned([], ids, now) == []
  {}

  /** One turn of the loop that deletes marks: it works on what is kept so far and what is still to be seen. */
  lemma PruneStep(marks: seq<Mark>, i: nat, ids: set<string>, now: int)
    requires i < |marks| && DistinctIds(marks)
    ensures var m := marks[i];
      var before := Pruned(marks[..i], ids, now) + marks[i..];
      var after := Pruned(marks[..i + 1], ids, now) + marks[i + 1..];
      if m.id !in ids || now - m.at > NOTIFY_MAX_SEEN_AGE_MS
      then after == DeleteMark(before, m.id) && |after| < |before|
      else after == before
  {
    var m, front, rest := marks[i], Pruned(marks[..i], ids, now), marks[i + 1..];
    PrunedNext(marks, i, ids, now);
    PrunedIsPart(marks[..i], ids, now);
    hide Pruned, DeleteMark;
    assert front + marks[i..] == front + [m] + rest;
    DeleteMiddle(front, m, rest);
    assert forall xs: seq<Mark> :: xs + [] == xs;
  }

  lemma NormalizedFirst(rs: seq<RawSubscriber>, now: int)
    ensures rs == [] ==> NormalizeSubscribers(rs, now) == []
    ensures rs != [] ==> var s := NormalizeSubscriber(rs[0], now);
      NormalizeSubscribers(rs, now) == (if s.Some? then [s.value] else []) + NormalizeSubscribers(rs[1..], now)
  {
    hide NormalizeSubscriber;
  }

  lemma {:induction false} NormalizedConcat(a: seq<RawSubscriber>, b: seq<RawSubscriber>, now: int)
    ensures NormalizeSubscribers(a + b, now) == NormalizeSubscribers(a, now) + NormalizeSubscribers(b, now)
  {
    hide NormalizeSubscriber, NormalizeSubscribers;
    NormalizedFirst(a, now);
    NormalizedFirst(a + b, now);
    if a == [] {
      assert a + b == b;
    } else {
      TailOfConcat(a, b);
      NormalizedConcat(a[1..], b, now);
    }
  }

  lemma NormalizedNext(rs: seq<RawSubscriber>, i: nat, now: int)
    requires i < |rs|
    ensures var s := NormalizeSubscriber(rs[i], now);
      NormalizeSubscribers(rs[..i + 1], now)
        == NormalizeSubscribers(rs[..i], now) + if s.Some? then [s.value] else []
  {
    hide NormalizeSubscriber;
    assert rs[..i + 1] == rs[..i] + [rs[i]];
    NormalizedConcat(rs[..i], [rs[i]], now);
    assert [rs[i]][1..] == [];
  }

  lemma DeliveredNext(subs: seq<Subscriber>, log: seq<Send>, x: Send)
    requires (forall y <- log :: y.subscriber < |subs|) && x.subscriber < |subs|
    ensures Delivered(subs, log + [x])
         == Delivered(subs, log)
            + if x.ok && subs[x.subscriber].mode == Once then {Key(subs[x.subscriber].target)} else {}
  {
    hide Key;
    var all := log + [x];
    assert forall y <- log :: y in all;
    assert x in all;
    assert forall y <- all :: y in log || y == x;
  }

  lemma NothingDelivered(subs: seq<Subscriber>)
    ensures Delivered(subs, []) == {} && !AnyOk([])
  {}

  lemma AnyOkNext(log: seq<Send>, x: Send)
    ensures AnyOk(log + [x]) == (AnyOk(log) || x.ok)
  {
    var all := log + [x];
    assert forall y <- log :: y in all;
    assert x in all;
    assert forall y <- all :: y in log || y == x;
  }

  lemma AnyOkConcat(a: seq<Send>, b: seq<Send>)
    ensures AnyOk(a + b) == (AnyOk(a) || AnyOk(b))
  {
    assert forall y <- a :: y in a + b;
    assert forall y <- b :: y in a + b;
    assert forall y <- a + b :: y in a || y in b;
  }

  lemma DeliveredConcat(subs: seq<Subscriber>, a: seq<Send>, b: seq<Send>)
    requires (forall x <- a :: x.subscriber < |subs|) && forall x <- b :: x.subscriber < |subs|
    ensures Delivered(subs, a + b) == Delivered(subs, a) + Delivered(subs, b)
  {
    hide Key;
    assert forall y <- a :: y in a + b;
    assert forall y <- b :: y in a + b;
    assert forall y <- a + b :: y in a || y in b;
  }

  /** One turn of the loop over the subscribers. */
  lemma SendNext(subs: seq<Subscriber>, r: Request, k: nat, j: nat, outcome: (nat, nat) -> bool, log: seq<Send>)
    requires j < |subs|
    ensures log + SendAll(subs, r, k, j, outcome)
         == (if ShouldNotify(subs[j], r) then log + [Send(k, j, outcome(k, j))] else log)
            + SendAll(subs, r, k, j + 1, outcome)
  {
    hide ShouldNotify;
  }

  lemma SendLast(subs: seq<Subscriber>, r: Request, k: nat, outcome: (nat, nat) -> bool)
    ensures SendAll(subs, r, k, |subs|, outcome) == []
  {}

  /** One turn of the loop over the requests. */
  lemma NotifyNext(subs: seq<Subscriber>, pending: seq<Request>, k: nat, marks: seq<Mark>, now: int,
                   outcome: (nat, nat) -> bool, log: seq<Send>)
    requires k < |pending|
    ensures var sends := SendAll(subs, pending[k], k, 0, outcome);
      var marks' := if AnyOk(sends) then SetMark(marks, pending[k].id, now) else marks;
      var before, after := Notify(subs, pending, k, marks, now, outcome),
                           Notify(subs, pending, k + 1, marks', now, outcome);
      if IsMarked(marks, pending[k].id) then before == Notify(subs, pending, k + 1, marks, now, outcome)
      else before.0 == after.0 && log + before.1 == (log + sends) + after.1
  {
    hide IsMarked, SetMark, SendAll, AnyOk;
  }

  lemma NotifyLast(subs: seq<Subscriber>, pending: seq<Request>, marks: seq<Mark>, now: int,
                   outcome: (nat, nat) -> bool)
    ensures Notify(subs, pending, |pending|, marks, now, outcome) == (marks, [])
  {}

  lemma {:induction false} WithoutNothing(subs: seq<Subscriber>)
    ensures Without(subs, {}) == subs
  {
    hide Key;
    if subs != [] {
      assert subs == [subs[0]] + subs[1..];
      WithoutNothing(subs[1..]);
    }
  }

  // ---------------------------------------------------------------------------
  // The state object
  // ---------------------------------------------------------------------------

  class NotifyState {
    var subscribers: seq<Subscriber>
    var marks: seq<Mark>

    function Contents(): State
      reads this
    {
      State(subscribers, marks)
    }

    /** `readNotifyState` with the loops of `normalizeNotifyState`. */
    constructor Read(file: File, now: int)
      ensures Contents() == ReadState(file, now)
    {
      subscribers, marks := [], [];
      new;
      hide NormalizeSubscriber, Trim, SetMark;
      if file.Some? {
        var rs, ms := file.value.subscribers, file.value.marks;
        for i := 0 to |rs|
          invariant subscribers == NormalizeSubscribers(rs[..i], now)
          invariant marks == []
        {
          NormalizedNext(rs, i, now);
          var s := NormalizeSubscriber(rs[i], now);
          if s.Some? {
            subscribers := subscribers + [s.value];
          }
        }
        assert rs[..|rs|] == rs;
        for i := 0 to |ms|
          invariant subscribers == NormalizeSubscribers(rs, now)
          invariant marks == NormalizeMarks(ms[..i])
        {
          assert ms[..i + 1][..i] == ms[..i];
          var id := Trim(ms[i].id);
          if id != "" && ms[i].at > 0 {
            marks := SetMark(marks, id, ms[i].at);
          }
        }
        assert ms[..|ms|] == ms;
      }
    }

    /** `upsertNotifySubscriber`. */
    method UpsertSubscriber(target: Target, mode: Mode, now: int) returns (changed: bool)
      modifies this`subscribers
      ensures (subscribers, changed) == Upsert(old(subscribers), target, mode, now)
    {
      var next := Subscriber(target, mode, now);
      var index := IndexOfKey(subscribers, Key(target));
      if index == |subscribers| {
        subscribers := subscribers + [next];
        return true;
      }
      if subscribers[index].mode == mode {
        return false;
      }
      subscribers := subscribers[index := next];
      return true;
    }

    /** The `off` branch. */
    method RemoveSubscriber(target: Target) returns (changed: bool)
      modifies this`subscribers
      ensures (subscribers, changed) == Remove(old(subscribers), target)
    {
      var index := IndexOfKey(subscribers, Key(target));
      changed := index != |subscribers|;
      if changed {
        subscribers := subscribers[..index] + subscribers[index + 1..];
      }
    }

    /** The loop that deletes the marks of requests that are gone or that were marked too long ago. */
    method PruneMarks(pendingIds: set<string>, now: int) returns (changed: bool)
      requires DistinctIds(marks)
      modifies this`marks
      ensures marks == Pruned(old(marks), pendingIds, now)
      ensures changed == (|marks| < |old(marks)|)
    {
      hide Pruned, DeleteMark, DistinctIds;
      var entries := marks;
      PrunedOfNothing(pendingIds, now);
      assert entries[..0] == [] && [] + entries[0..] == entries;
      changed := false;
      for i := 0 to |entries|
        invariant marks == Pruned(entries[..i], pendingIds, now) + entries[i..]
        invariant changed == (|marks| < |entries|) && |marks| <= |entries|
      {
        var m := entries[i];
        PruneStep(entries, i, pendingIds, now);
        if m.id !in pendingIds || now - m.at > NOTIFY_MAX_SEEN_AGE_MS {
          marks := DeleteMark(marks, m.id);
          changed := true;
        }
      }
      assert entries[..|entries|] == entries && marks == Pruned(entries, pendingIds, now) + [];
    }

    /** Sends one request to every subscriber that is due. */
    method SendRequest(r: Request, k: nat, outcome: (nat, nat) -> bool, oneShots: set<string>)
      returns (delivered: bool, reached: set<string>, log: seq<Send>)
      ensures log == SendAll(subscribers, r, k, 0, outcome)
      ensures delivered == AnyOk(log)
      ensures reached == oneShots + Delivered(subscribers, log)
    {
      hide Delivered, AnyOk, Key, SendAll, ShouldNotify;
      NothingDelivered(subscribers);
      delivered, reached, log := false, oneShots, [];
      for j := 0 to |subscribers|
        invariant SendAll(subscribers, r, k, 0, outcome) == log + SendAll(subscribers, r, k, j, outcome)
        invariant forall x <- log :: x.subscriber < |subscribers|
        invariant delivered == AnyOk(log)
        invariant reached == oneShots + Delivered(subscribers, log)
      {
        SendNext(subscribers, r, k, j, outcome, log);
        if !ShouldNotify(subscribers[j], r) {
          continue;
        }
        var sent := outcome(k, j);
        DeliveredNext(subscribers, log, Send(k, j, sent));
        AnyOkNext(log, Send(k, j, sent));
        log := log + [Send(k, j, sent)];
        delivered := delivered || sent;
        if sent && subscribers[j].mode == Once {
          reached := reached + {Key(subscribers[j].target)};
        }
      }
      SendLast(subscribers, r, k, outcome);
    }

    /** The loop over the pending requests, and the removal of the one-shot subscribers that were reached. */
    method NotifyPending(pending: seq<Request>, now: int, outcome: (nat, nat) -> bool)
      returns (changed: bool, log: seq<Send>)
      modifies this
      ensures (marks, log) == Notify(old(subscribers), pending, 0, old(marks), now, outcome)
      ensures forall x <- log :: x.subscriber < |old(subscribers)|
      ensures subscribers == Without(old(subscribers), Delivered(old(subscribers), log))
      ensures changed == (AnyOk(log) || |subscribers| < |old(subscribers)|)
    {
      hide Delivered, AnyOk, Key, SendAll, ShouldNotify, Notify, Without, IsMarked, SetMark;
      NothingDelivered(subscribers);
      var oneShots: set<string> := {};
      changed, log := false, [];
      assert forall rest: seq<Send> :: [] + rest == rest;
      for k := 0 to |pending|
        invariant subscribers == old(subscribers)
        invariant forall x <- log :: x.subscriber < |subscribers|
        invariant var (last, rest) := Notify(subscribers, pending, k, marks, now, outcome);
          Notify(subscribers, pending, 0, old(marks), now, outcome) == (last, log + rest)
        invariant changed == AnyOk(log)
        invariant oneShots == Delivered(subscribers, log)
      {
        NotifyNext(subscribers, pending, k, marks, now, outcome, log);
        if IsMarked(marks, pending[k].id) {
          continue;
        }
        var delivered, reached, sends := SendRequest(pending[k], k, outcome, oneShots);
        DeliveredConcat(subscribers, log, sends);
        AnyOkConcat(log, sends);
        log, oneShots := log + sends, reached;
        if delivered {
          marks := SetMark(marks, pending[k].id, now);
          changed := true;
        }
      }
      NotifyLast(subscribers, pending, marks, now, outcome);
      assert log + [] == log;
      RemovedNothing(subscribers, oneShots);
      WithoutNothing(subscribers);
      if |oneShots| > 0 {
        var initialCount := |subscribers|;
        subscribers := Without(subscribers, oneShots);
        if |subscribers| != initialCount {
          changed := true;
        }
      } else {
        assert oneShots == {};
      }
    }

    /** `notifyPendingPairingRequests` between reading and writing the file. */
    method Poll(pending: seq<Request>, now: int, outcome: (nat, nat) -> bool) returns (changed: bool, log: seq<Send>)
      requires DistinctIds(marks)
      modifies this
      ensures Ticked(Contents(), log, changed) == Tick(old(Contents()), pending, now, outcome)
    {
      hide Delivered, AnyOk, Key, Notify, Without, Pruned;
      changed := PruneMarks(PendingIds(pending), now);
      log := [];
      if |subscribers| > 0 {
        var notified;
        notified, log := NotifyPending(pending, now, outcome);
        changed := changed || notified;
      }
    }
  }

  // ---------------------------------------------------------------------------
  // The service and its commands
  // ---------------------------------------------------------------------------

  class Service {
    var file: File

    constructor ()
      ensures file == After([])
    {
      file := None;
    }

    /** One poll of the timer. */
    method Poll(pending: seq<Request>, now: int, outcome: (nat, nat) -> bool) returns (log: seq<Send>)
      modifies this
      ensures var e := Event.Poll(now, pending, outcome);
        file == Step(old(file), e) && log == SendsOf(old(file), e)
    {
      hide Tick, ReadState;
      var state := new NotifyState.Read(file, now);
      ReadMarksAreDistinct(file, now);
      var changed;
      changed, log := state.Poll(pending, now, outcome);
      if changed {
        file := Some(Encode(state.Contents()));
      }
    }

    /** The `on` command. */
    method Enable(ctx: Context, now: int)
      modifies this
      ensures file == Step(old(file), Event.Enable(ctx, now))
    {
      hide ReadState;
      var target := CommandTarget(ctx);
      if target.None? {
        return;
      }
      var state := new NotifyState.Read(file, now);
      var changed := state.UpsertSubscriber(target.value, Persistent, now);
      if changed {
        file := Some(Encode(state.Contents()));
      }
    }

    /** The `off` command. */
    method Disable(ctx: Context, now: int)
      modifies this
      ensures file == Step(old(file), Event.Disable(ctx, now))
    {
      hide ReadState;
      var target := CommandTarget(ctx);
      if target.None? {
        return;
      }
      var state := new NotifyState.Read(file, now);
      var changed := state.RemoveSubscriber(target.value);
      if changed {
        file := Some(Encode(state.Contents()));
      }
    }

    /** `armPairNotifyOnce`. */
    method ArmOnce(ctx: Context, now: int) returns (armed: bool)
      modifies this
      ensures file == Step(old(file), Event.Arm(ctx, now))
      ensures armed == CommandTarget(ctx).Some?
    {
      hide ReadState;
      var target := CommandTarget(ctx);
      if target.None? {
        return false;
      }
      var state := new NotifyState.Read(file, now);
      var changed := state.UpsertSubscriber(target.value, Once, now);
      if changed {
        file := Some(Encode(state.Contents()));
      }
      return true;
    }
  }

  lemma ReadMarksAreDistinct(file: File, now: int)
    ensures DistinctIds(ReadState(file, now).marks)
  {
    ReadIsCanonical(file, now);
  }
}
