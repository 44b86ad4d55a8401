/** What the pairing notifier reads from its file and from a command, and when it writes the file. */
module PairNotifyReading {
  import opened Sequences
  import opened Text
  import opened PairNotify
  import opened PairNotifyRuns

  // ---------------------------------------------------------------------------
  // Subscribers
  // ---------------------------------------------------------------------------

  lemma ReadFirst(rs: seq<RawSubscriber>, now: int)
    ensures NormalizeSubscribers(rs, now)
         == if rs == [] then [] else NormalizeSubscribers(rs[..1], now) + NormalizeSubscribers(rs[1..], now)
  {
    hide NormalizeSubscriber;
    if rs != [] { assert rs[..1][1..] == []; }
  }

  /** Items are read one by one: one that is of no use does not hide those behind it. */
  lemma {:induction false} ReadConcat(rs: seq<RawSubscriber>, more: seq<RawSubscriber>, now: int)
    ensures NormalizeSubscribers(rs + more, now) == NormalizeSubscribers(rs, now) + NormalizeSubscribers(more, now)
  {
    hide NormalizeSubscribers;
    if rs == [] {
      assert rs + more == more;
      ReadNone(now);
    } else {
      TailOfConcat(rs, more);
      assert (rs + more)[..1] == rs[..1];
      ReadFirst(rs, now);
      ReadFirst(rs + more, now);
      ReadConcat(rs[1..], more, now);
    }
  }

  lemma ReadNone(now: int)
    ensures NormalizeSubscribers([], now) == []
  {}

  /** An item is read as one subscriber exactly when its chat is no blank text: the texts are trimmed, blank ones
      are left out, and a missing time is the time of the reading. */
  lemma ReadOne(r: RawSubscriber, now: int)
    ensures var subs := NormalizeSubscribers([r], now);
      if r.to.Some? && Trim(r.to.value) != "" then
        && |subs| == 1 && subs[0].target.to == Trim(r.to.value)
        && subs[0].mode == (if r.once then Once else Persistent)
        && subs[0].addedAtMs == (if r.addedAtMs.Some? then r.addedAtMs.value else now)
        && (forall account :: subs[0].target.accountId == Some(account)
              <==> r.accountId.Some? && account == Trim(r.accountId.value) && account != "")
        && (forall name :: subs[0].target.threadId == Some(Name(name))
              <==> r.threadId.Some? && r.threadId.value.Name? && name == Trim(r.threadId.value.name) && name != "")
        && (forall n :: subs[0].target.threadId == Some(Number(n)) <==> r.threadId == Some(Number(n)))
      else
        subs == []
  {
    hide Trim;
    assert [r][1..] == [];
    ReadNone(now);
    var s := NormalizeSubscriber(r, now);
    if s.Some? { assert NormalizeSubscribers([r], now) == [s.value]; }
  }

  // ---------------------------------------------------------------------------
  // Marks
  // ---------------------------------------------------------------------------

  /** Item `i` marks the request, and no item behind it does. */
  ghost predicate LastMarkOf(marks: seq<Mark>, i: nat, id: string)
    requires i < |marks|
  {
    && Trim(marks[i].id) == id && marks[i].at > 0
    && forall k | i < k < |marks| :: Trim(marks[k].id) != id || marks[k].at <= 0
  }

  lemma LastMarkOfFront(marks: seq<Mark>, i: nat, id: string)
    requires i < |marks|
    ensures var n := |marks| - 1;
      LastMarkOf(marks, i, id)
        == if i == n then Trim(marks[n].id) == id && marks[n].at > 0
           else LastMarkOf(marks[..n], i, id) && (Trim(marks[n].id) != id || marks[n].at <= 0)
  {
    hide Trim;
    assert forall k | 0 <= k < |marks| - 1 :: marks[..|marks| - 1][k] == marks[k];
  }

  /** A request has the mark of the last item with its trimmed id and a positive time, and of no other. */
  lemma {:induction false} ReadMarksExactly(marks: seq<Mark>, id: string, at: int)
    ensures Lookup(NormalizeMarks(marks), id) == Some(at)
       <==> id != "" && exists i: nat :: i < |marks| && LastMarkOf(marks, i, id) && marks[i].at == at
  {
    hide Trim, Lookup, SetMark, LastMarkOf;
    if marks == [] {
      NoMarks(id);
    } else {
      var n := |marks| - 1;
      var front, last := NormalizeMarks(marks[..n]), marks[n];
      ReadMarksExactly(marks[..n], id, at);
      LookupAfterSet(front, Trim(last.id), last.at, id);
      LastMarkOfFront(marks, n, id);
      if i: nat :| i < n && (LastMarkOf(marks, i, id) || LastMarkOf(marks[..n], i, id)) && marks[i].at == at {
        LastMarkOfFront(marks, i, id);
      }
      if LastMarkOf(marks, n, id) {
        OneLastMark(marks, n, id);
      }
    }
  }

  lemma NoMarks(id: string)
    ensures Lookup([], id) == None
  {}

  lemma OneLastMark(marks: seq<Mark>, i: nat, id: string)
    requires i < |marks| && LastMarkOf(marks, i, id)
    ensures forall k: nat | k < |marks| && LastMarkOf(marks, k, id) :: k == i
  {
    hide Trim;
  }

  // ---------------------------------------------------------------------------
  // Commands
  // ---------------------------------------------------------------------------

  predicate IsUsable(name: Option<string>) { name.Some? && Trim(name.value) != "" }

  /** A command has a target exactly in a chat of Telegram with a usable name. The name is that of the sender, or
      else where it is from, or else where it went. An empty account counts as none. */
  lemma CommandTargetMeaning(ctx: Context)
    ensures var names, t := [ctx.senderId, ctx.from, ctx.to], CommandTarget(ctx);
      && (t.Some? <==> ctx.channel == "telegram" && exists i: nat :: i < 3 && IsUsable(names[i]))
      && (t.Some? ==>
          && (forall i: nat | i < 3 && IsUsable(names[i]) && (forall j: nat | j < i :: !IsUsable(names[j])) ::
                t.value.to == Trim(names[i].value))
          && (forall account :: t.value.accountId == Some(account) <==> ctx.accountId == Some(account) && account != "")
          && t.value.threadId == ctx.threadId)
  {
    hide Trim;
    var names := [ctx.senderId, ctx.from, ctx.to];
    assert names[0] == ctx.senderId && names[1] == ctx.from && names[2] == ctx.to;
    if IsUsable(ctx.senderId) {
      assert IsUsable(names[0]);
    } else if IsUsable(ctx.from) {
      assert IsUsable(names[1]);
    } else if IsUsable(ctx.to) {
      assert IsUsable(names[2]);
    }
    forall i: nat | i < 3 && IsUsable(names[i])
      ensures IsUsable(ctx.senderId) || IsUsable(ctx.from) || IsUsable(ctx.to)
    {
      assert i == 0 || i == 1 || i == 2;
    }
  }

  // ---------------------------------------------------------------------------
  // When the file is written
  // ---------------------------------------------------------------------------

  lemma {:induction false} SomethingDropped(marks: seq<Mark>, ids: set<string>, now: int) returns (m: Mark)
    requires |Pruned(marks, ids, now)| < |marks|
    ensures m in marks && (m.id !in ids || now - m.at > 86_400_000)
  {
    if marks[0].id !in ids || now - marks[0].at > 86_400_000 {
      m := marks[0];
    } else {
      m := SomethingDropped(marks[1..], ids, now);
    }
  }

  lemma LookupOfDistinct(marks: seq<Mark>, m: Mark)
    requires DistinctIds(marks) && m in marks
    ensures Lookup(marks, m.id) == Some(m.at)
  {
    LookupIsFirst(marks, m.id);
  }

  lemma DroppedMarkChanges(s: State, pending: seq<Request>, now: int, outcome: (nat, nat) -> bool)
    requires DistinctIds(s.marks) && now > 0 && forall m <- s.marks :: m.at > 0
    requires |Pruned(s.marks, PendingIds(pending), now)| < |s.marks|
    ensures Tick(s, pending, now, outcome).state.marks != s.marks
  {
    hide Tick, Lookup, Reached;
    var m := SomethingDropped(s.marks, PendingIds(pending), now);
    LookupOfDistinct(s.marks, m);
    TickMarks(s, pending, now, outcome, m.id);
    if ReachedId(s.subscribers, pending, 0, m.id, outcome) {
      var q: nat :| q < |pending| && pending[q].id == m.id;
      assert pending[q] in pending;
    }
  }

  lemma NewMarkChanges(s: State, pending: seq<Request>, now: int, outcome: (nat, nat) -> bool)
    requires DistinctIds(s.marks) && now > 0 && forall m <- s.marks :: m.at > 0
    requires AnyOk(Tick(s, pending, now, outcome).log)
    ensures Tick(s, pending, now, outcome).state.marks != s.marks
  {
    hide Tick, Lookup, ShouldNotify;
    var x :| x in Tick(s, pending, now, outcome).log && x.ok;
    NotifiedInTick(s, pending, now, outcome, x);
    TickAttempts(s, pending, now, outcome, x);
    var id := pending[x.request].id;
    assert pending[x.request] in pending && IsPending(pending, id);
    assert Reached(s.subscribers, pending, x.request, outcome);
    TickMarks(s, pending, now, outcome, id);
  }

  lemma NotifiedInTick(s: State, pending: seq<Request>, now: int, outcome: (nat, nat) -> bool, x: Send)
    requires x in Tick(s, pending, now, outcome).log
    ensures x.request < |pending| && x.subscriber < |s.subscribers|
    ensures ShouldNotify(s.subscribers[x.subscriber], pending[x.request]) && x.ok == outcome(x.request, x.subscriber)
  {
    hide ShouldNotify;
    NotifyLog(s.subscribers, pending, 0, Pruned(s.marks, PendingIds(pending), now), now, outcome);
  }

  lemma PollChangesExactly(s: State, pending: seq<Request>, now: int, outcome: (nat, nat) -> bool)
    requires DistinctIds(s.marks) && now > 0 && forall m <- s.marks :: m.at > 0
    requires Tick(s, pending, now, outcome).changed
    ensures Tick(s, pending, now, outcome).state != s
  {
    hide Without, Delivered, Notify, Pruned, AnyOk;
    var t := Tick(s, pending, now, outcome);
    if |Pruned(s.marks, PendingIds(pending), now)| < |s.marks| {
      DroppedMarkChanges(s, pending, now, outcome);
    } else if AnyOk(t.log) {
      NewMarkChanges(s, pending, now, outcome);
    }
  }

  /** In every regular run an event writes the file exactly when it has changed the state. Otherwise the file stays
      as it is, and a missing one stays missing. */
  lemma WrittenExactlyWhenChanged(events: seq<Event>, e: Event)
    requires AllRegular(events) && IsRegular(e)
    ensures var s, s' := Memory(events), Memory(events + [e]);
      After(events + [e]) == if s' != s then Some(Encode(s')) else After(events)
  {
    hide AllRegular, Handle, IsRegular, ReadState, Encode, DistinctKeys;
    assert (events + [e])[..|events|] == events;
    FileAgreesWithMemory(events, e.now);
    WritesExactlyWhenChanged(events, e);
  }

  lemma WritesExactlyWhenChanged(events: seq<Event>, e: Event)
    requires AllRegular(events) && IsRegular(e)
    ensures Handle(Memory(events), e).1 <==> Handle(Memory(events), e).0 != Memory(events)
  {
    hide AllRegular, Memory, Tick, CommandTarget, DistinctKeys, DistinctIds, Upsert, Remove, Key;
    var s := Memory(events);
    MemoryIsCanonical(events);
    UnchangedMeansSameOrWritten(s, e);
    match e
    case Poll(now, pending, outcome) =>
      if Tick(s, pending, now, outcome).changed { PollChangesExactly(s, pending, now, outcome); }
    case Enable(ctx, now) =>
      if CommandTarget(ctx).Some? { UpsertMeaning(s.subscribers, CommandTarget(ctx).value, Persistent, now); }
    case Disable(ctx, _) =>
      if CommandTarget(ctx).Some? { RemoveMeaning(s.subscribers, CommandTarget(ctx).value); }
    case Arm(ctx, now) =>
      if CommandTarget(ctx).Some? { UpsertMeaning(s.subscribers, CommandTarget(ctx).value, Once, now); }
  }
}
