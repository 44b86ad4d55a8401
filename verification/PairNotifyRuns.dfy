/** The pairing-notification file, and runs of polls and commands over it. */
module PairNotifyRuns {
  import opened Text
  import opened PairNotify

  // ---------------------------------------------------------------------------
  // The file
  // ---------------------------------------------------------------------------

  /** A subscriber as it stands in the file. A field that is missing or of another type is `None`;
      an item that is no record has only such fields. */
  datatype RawSubscriber = RawSubscriber(to: Option<string>, accountId: Option<string>, threadId: Option<Thread>,
                                         once: bool, addedAtMs: Option<int>)

  datatype RawState = RawState(subscribers: seq<RawSubscriber>, marks: seq<Mark>)

  /** The file, if there is a readable one. */
  type File = Option<RawState>

  function NormalizeThread(t: Option<Thread>): Option<Thread> {
    match t
    case Some(Name(name)) => if Trim(name) == "" then None else Some(Name(Trim(name)))
    case _ => t
  }

  function NormalizeSubscriber(r: RawSubscriber, now: int): Option<Subscriber> {
    var to := NormalizeOptional(r.to);
    if to.None? then None else
    Some(Subscriber(
      Target(to.value, NormalizeOptional(r.accountId), NormalizeThread(r.threadId)),
      if r.once then Once else Persistent,
      if r.addedAtMs.Some? then r.addedAtMs.value else now))
  }

  function NormalizeSubscribers(rs: seq<RawSubscriber>, now: int): seq<Subscriber> {
    if rs == [] then [] else
    var s := NormalizeSubscriber(rs[0], now);
    (if s.Some? then [s.value] else []) + NormalizeSubscribers(rs[1..], now)
  }

  function NormalizeMarks(marks: seq<Mark>): seq<Mark> {
    if marks == [] then [] else
    var front, last := NormalizeMarks(marks[..|marks| - 1]), marks[|marks| - 1];
    if Trim(last.id) == "" || last.at <= 0 then front else SetMark(front, Trim(last.id), last.at)
  }

  /** `readNotifyState` with `normalizeNotifyState`. */
  function ReadState(file: File, now: int): State {
    if file.None? then State([], [])
    else State(NormalizeSubscribers(file.value.subscribers, now), NormalizeMarks(file.value.marks))
  }

  function EncodeSubscriber(s: Subscriber): RawSubscriber {
    RawSubscriber(Some(s.target.to), s.target.accountId, s.target.threadId, s.mode == Once, Some(s.addedAtMs))
  }

  function EncodeSubscribers(subs: seq<Subscriber>): seq<RawSubscriber> {
    if subs == [] then [] else [EncodeSubscriber(subs[0])] + EncodeSubscribers(subs[1..])
  }

  /** `writeNotifyState`. */
  function Encode(s: State): RawState {
    RawState(EncodeSubscribers(s.subscribers), s.marks)
  }

  // ---------------------------------------------------------------------------
  // What survives the file
  // ---------------------------------------------------------------------------

  predicate IsTrimmedText(s: string) { s != "" && Trim(s) == s }

  predicate CanonicalTarget(t: Target) {
    && IsTrimmedText(t.to)
    && (t.accountId.Some? ==> IsTrimmedText(t.accountId.value))
    && (t.threadId.Some? && t.threadId.value.Name? ==> IsTrimmedText(t.threadId.value.name))
  }

  ghost predicate CanonicalSubscribers(subs: seq<Subscriber>) {
    forall s <- subs :: CanonicalTarget(s.target)
  }

  ghost predicate CanonicalMarks(marks: seq<Mark>) {
    DistinctIds(marks) && forall m <- marks :: IsTrimmedText(m.id) && m.at > 0
  }

  ghost predicate Canonical(s: State) {
    CanonicalSubscribers(s.subscribers) && CanonicalMarks(s.marks)
  }

  lemma TrimTwice(s: string)
    ensures Trim(Trim(s)) == Trim(s)
  {
    TrimOfTrimmed(Trim(s));
  }

  lemma NormalizedIsCanonical(r: RawSubscriber, now: int)
    ensures var s := NormalizeSubscriber(r, now); s.Some? ==> CanonicalTarget(s.value.target)
  {
    hide Trim;
    if r.to.Some? { TrimTwice(r.to.value); }
    if r.accountId.Some? { TrimTwice(r.accountId.value); }
    if r.threadId.Some? && r.threadId.value.Name? { TrimTwice(r.threadId.value.name); }
  }

  lemma {:induction false} SubscribersReadCanonical(rs: seq<RawSubscriber>, now: int)
    ensures CanonicalSubscribers(NormalizeSubscribers(rs, now))
  {
    hide CanonicalTarget, NormalizeSubscriber;
    if rs != [] {
      NormalizedIsCanonical(rs[0], now);
      SubscribersReadCanonical(rs[1..], now);
    }
  }

  lemma {:induction false} SetMarkCanonical(marks: seq<Mark>, id: string, at: int)
    requires CanonicalMarks(marks) && IsTrimmedText(id) && at > 0
    ensures CanonicalMarks(SetMark(marks, id, at))
    ensures forall m <- SetMark(marks, id, at) :: m == Mark(id, at) || m in marks
  {
    hide IsTrimmedText;
    if marks != [] {
      assert marks == [marks[0]] + marks[1..];
      DistinctTail(marks);
      if marks[0].id == id {
        DistinctCons(Mark(id, at), marks[1..]);
      } else {
        SetMarkCanonical(marks[1..], id, at);
        DistinctCons(marks[0], SetMark(marks[1..], id, at));
      }
    }
  }

  lemma {:induction false} MarksReadCanonical(marks: seq<Mark>)
    ensures CanonicalMarks(NormalizeMarks(marks))
  {
    hide Trim, CanonicalMarks;
    if marks == [] {
      NoMarksAreCanonical();
    } else {
      var last := marks[|marks| - 1];
      MarksReadCanonical(marks[..|marks| - 1]);
      if Trim(last.id) != "" && last.at > 0 {
        TrimTwice(last.id);
        SetMarkCanonical(NormalizeMarks(marks[..|marks| - 1]), Trim(last.id), last.at);
      }
    }
  }

  lemma NoMarksAreCanonical()
    ensures CanonicalMarks([])
  {}

  /** Whatever stands in the file, what is read is canonical. */
  lemma ReadIsCanonical(file: File, now: int)
    ensures Canonical(ReadState(file, now))
  {
    hide CanonicalMarks, NormalizeMarks;
    NoMarksAreCanonical();
    if file.Some? {
      SubscribersReadCanonical(file.value.subscribers, now);
      MarksReadCanonical(file.value.marks);
    }
  }

  lemma CanonicalSubscriberSurvives(s: Subscriber, now: int)
    requires CanonicalTarget(s.target)
    ensures NormalizeSubscriber(EncodeSubscriber(s), now) == Some(s)
  {
    hide Trim;
  }

  lemma {:induction false} SubscribersSurvive(subs: seq<Subscriber>, now: int)
    requires CanonicalSubscribers(subs)
    ensures NormalizeSubscribers(EncodeSubscribers(subs), now) == subs
  {
    hide CanonicalTarget, NormalizeSubscriber, EncodeSubscriber;
    if subs != [] {
      assert subs == [subs[0]] + subs[1..];
      CanonicalSubscriberSurvives(subs[0], now);
      SubscribersSurvive(subs[1..], now);
      assert EncodeSubscribers(subs)[1..] == EncodeSubscribers(subs[1..]);
    }
  }

  lemma {:induction false} SetMarkAtEnd(marks: seq<Mark>, id: string, at: int)
    requires forall m <- marks :: m.id != id
    ensures SetMark(marks, id, at) == marks + [Mark(id, at)]
  {
    if marks != [] {
      assert marks == [marks[0]] + marks[1..];
      SetMarkAtEnd(marks[1..], id, at);
    }
  }

  lemma CanonicalFront(marks: seq<Mark>)
    requires CanonicalMarks(marks) && marks != []
    ensures var front, last := marks[..|marks| - 1], marks[|marks| - 1];
      && CanonicalMarks(front) && Trim(last.id) == last.id && last.id != "" && last.at > 0
      && forall m <- front :: m.id != last.id
  {
    hide Trim;
    assert forall m <- marks[..|marks| - 1] :: m in marks;
    assert marks[|marks| - 1] in marks;
  }

  lemma {:induction false} MarksSurvive(marks: seq<Mark>)
    requires CanonicalMarks(marks)
    ensures NormalizeMarks(marks) == marks
  {
    hide Trim, CanonicalMarks;
    if marks != [] {
      var front, last := marks[..|marks| - 1], marks[|marks| - 1];
      CanonicalFront(marks);
      MarksSurvive(front);
      SetMarkAtEnd(front, last.id, last.at);
      assert marks == front + [last];
    }
  }

  /** A state is read back as it was written exactly when it is canonical. */
  lemma SurvivesExactlyWhenCanonical(s: State, now: int)
    ensures ReadState(Some(Encode(s)), now) == s <==> Canonical(s)
  {
    hide Canonical, NormalizeSubscribers, NormalizeMarks;
    ReadIsCanonical(Some(Encode(s)), now);
    if Canonical(s) {
      CanonicalParts(s);
      SubscribersSurvive(s.subscribers, now);
      MarksSurvive(s.marks);
    }
  }

  lemma CanonicalParts(s: State)
    ensures Canonical(s) <==> CanonicalSubscribers(s.subscribers) && CanonicalMarks(s.marks)
  {}

  // ---------------------------------------------------------------------------
  // Commands and polls
  // ---------------------------------------------------------------------------

  /** Where a command comes from. */
  datatype Context = Context(channel: string, senderId: Option<string>, from: Option<string>, to: Option<string>,
                             accountId: Option<string>, threadId: Option<Thread>)

  /** `resolveNotifyTarget`: the first usable name is trimmed, the account and the thread are taken as they are. */
  function ResolveTarget(ctx: Context): Option<Target> {
    var sender, from, to := NormalizeOptional(ctx.senderId), NormalizeOptional(ctx.from), NormalizeOptional(ctx.to);
    var name := if sender.Some? then sender else if from.Some? then from else to;
    if name.None? then None
    else Some(Target(name.value, if ctx.accountId == Some("") then None else ctx.accountId, ctx.threadId))
  }

  datatype Event =
    | Poll(now: int, pending: seq<Request>, outcome: (nat, nat) -> bool)
    | Enable(ctx: Context, now: int)
    | Disable(ctx: Context, now: int)
    | Arm(ctx: Context, now: int)

  function CommandTarget(ctx: Context): Option<Target> {
    if ctx.channel != "telegram" then None else ResolveTarget(ctx)
  }

  /** The state that an event leaves in memory, and whether it is written. */
  function Handle(s: State, e: Event): (State, bool) {
    match e
    case Poll(now, pending, outcome) =>
      var t := Tick(s, pending, now, outcome);
      (t.state, t.changed)
    case Enable(ctx, now) =>
      var target := CommandTarget(ctx);
      if target.None? then (s, false) else
      var (subs, changed) := Upsert(s.subscribers, target.value, Persistent, now);
      (State(subs, s.marks), changed)
    case Disable(ctx, _) =>
      var target := CommandTarget(ctx);
      if target.None? then (s, false) else
      var (subs, changed) := Remove(s.subscribers, target.value);
      (State(subs, s.marks), changed)
    case Arm(ctx, now) =>
      var target := CommandTarget(ctx);
      if target.None? then (s, false) else
      var (subs, changed) := Upsert(s.subscribers, target.value, Once, now);
      (State(subs, s.marks), changed)
  }

  /** The file after an event that reads it, works, and writes it back if something has changed. */
  function Step(file: File, e: Event): File {
    var (s, changed) := Handle(ReadState(file, e.now), e);
    if changed then Some(Encode(s)) else file
  }

  function SendsOf(file: File, e: Event): seq<Send> {
    if e.Poll? then Tick(ReadState(file, e.now), e.pending, e.now, e.outcome).log else []
  }

  /** The file after some events, from no file. */
  function After(events: seq<Event>): File {
    if events == [] then None else Step(After(events[..|events| - 1]), events[|events| - 1])
  }

  /** A poll has a positive clock and trimmed request ids; a command has a trimmed account and thread. */
  predicate IsRegular(e: Event) {
    match e
    case Poll(now, pending, _) => now > 0 && forall r <- pending :: IsTrimmedText(r.id)
    case _ =>
      && (e.ctx.accountId.Some? && e.ctx.accountId.value != "" ==> IsTrimmedText(e.ctx.accountId.value))
      && (e.ctx.threadId.Some? && e.ctx.threadId.value.Name? ==> IsTrimmedText(e.ctx.threadId.value.name))
  }

  ghost predicate AllRegular(events: seq<Event>) {
    forall e <- events :: IsRegular(e)
  }

  // ---------------------------------------------------------------------------
  // What every event keeps
  // ---------------------------------------------------------------------------

  lemma ResolvedIsCanonical(e: Event)
    requires IsRegular(e) && !e.Poll? && CommandTarget(e.ctx).Some?
    ensures CanonicalTarget(CommandTarget(e.ctx).value)
  {
    hide Trim;
    var ctx := e.ctx;
    if ctx.senderId.Some? { TrimTwice(ctx.senderId.value); }
    if ctx.from.Some? { TrimTwice(ctx.from.value); }
    if ctx.to.Some? { TrimTwice(ctx.to.value); }
  }

  /** `on` and `once`: the target has one entry in the given mode, the others are as before. */
  lemma UpsertMeaning(subs: seq<Subscriber>, target: Target, mode: Mode, now: int)
    requires DistinctKeys(subs)
    ensures var i := IndexOfKey(subs, Key(target)); var (next, changed) := Upsert(subs, target, mode, now);
      && DistinctKeys(next) && (changed <==> next != subs)
      && |next| == (if i == |subs| then |subs| + 1 else |subs|)
      && Key(next[i].target) == Key(target) && next[i].mode == mode
      && (forall j | 0 <= j < |subs| && j != i :: next[j] == subs[j])
      && (i < |subs| && subs[i].mode == mode ==> next == subs)
      && (i == |subs| || subs[i].mode != mode ==> next[i] == Subscriber(target, mode, now))
  {
    hide Key;
  }

  /** `off`: no entry of the target is left, the others keep their order. */
  lemma RemoveMeaning(subs: seq<Subscriber>, target: Target)
    requires DistinctKeys(subs)
    ensures var i := IndexOfKey(subs, Key(target)); var (next, changed) := Remove(subs, target);
      && DistinctKeys(next) && (changed <==> i < |subs|)
      && (forall s <- next :: Key(s.target) != Key(target))
      && (i < |subs| ==> next == subs[..i] + subs[i + 1..])
      && (i == |subs| ==> next == subs)
  {
    hide Key;
    var i := IndexOfKey(subs, Key(target));
    if i < |subs| {
      RemoveAtMeaning(subs, i);
    }
  }

  lemma RemoveAtMeaning(subs: seq<Subscriber>, i: nat)
    requires i < |subs| && DistinctKeys(subs)
    ensures var next := subs[..i] + subs[i + 1..];
      DistinctKeys(next) && forall s <- next :: Key(s.target) != Key(subs[i].target)
  {
    hide Key;
    var next := subs[..i] + subs[i + 1..];
    assert forall j | 0 <= j < i :: next[j] == subs[j];
    assert forall j | i <= j < |next| :: next[j] == subs[j + 1];
  }

  lemma {:induction false} RemainingIsPart(subs: seq<Subscriber>, j: nat, fired: set<nat>)
    requires j <= |subs| && DistinctKeys(subs)
    ensures DistinctKeys(Remaining(subs, j, fired))
    ensures forall s <- Remaining(subs, j, fired) :: s in subs[j..]
    decreases |subs| - j
  {
    hide Key;
    if j < |subs| {
      RemainingIsPart(subs, j + 1, fired);
      assert subs[j..] == [subs[j]] + subs[j + 1..];
      var rest := Remaining(subs, j + 1, fired);
      forall s <- rest
        ensures Key(s.target) != Key(subs[j].target)
      {
        assert s in subs[j + 1..];
      }
    }
  }

  lemma {:induction false} NotifyMarksCanonical(subs: seq<Subscriber>, pending: seq<Request>, k: nat, marks: seq<Mark>,
                                                now: int, outcome: (nat, nat) -> bool)
    requires k <= |pending| && now > 0 && CanonicalMarks(marks) && forall r <- pending :: IsTrimmedText(r.id)
    ensures CanonicalMarks(Notify(subs, pending, k, marks, now, outcome).0)
    decreases |pending| - k
  {
    hide CanonicalMarks, IsTrimmedText;
    if k < |pending| {
      if IsMarked(marks, pending[k].id) {
        NotifyMarksCanonical(subs, pending, k + 1, marks, now, outcome);
      } else {
        var log := SendAll(subs, pending[k], k, 0, outcome);
        SetMarkCanonical(marks, pending[k].id, now);
        NotifyMarksCanonical(subs, pending, k + 1, if AnyOk(log) then SetMark(marks, pending[k].id, now) else marks,
                             now, outcome);
      }
    }
  }

  lemma TickCanonical(s: State, pending: seq<Request>, now: int, outcome: (nat, nat) -> bool)
    requires Canonical(s) && DistinctKeys(s.subscribers) && now > 0 && forall r <- pending :: IsTrimmedText(r.id)
    ensures var t := Tick(s, pending, now, outcome).state; Canonical(t) && DistinctKeys(t.subscribers)
  {
    hide IsTrimmedText, CanonicalTarget, DistinctKeys, DistinctIds;
    var pruned := Pruned(s.marks, PendingIds(pending), now);
    PrunedIsPart(s.marks, PendingIds(pending), now);
    PrunedDistinct(s.marks, PendingIds(pending), now);
    NotifyMarksCanonical(s.subscribers, pending, 0, pruned, now, outcome);
    var t := Tick(s, pending, now, outcome);
    TickSubscribers(s, pending, now, outcome);
    RemainingIsPart(s.subscribers, 0, Fired(s.subscribers, t.log));
  }

  lemma HandleCanonical(s: State, e: Event)
    requires Canonical(s) && DistinctKeys(s.subscribers) && IsRegular(e)
    ensures var s' := Handle(s, e).0; Canonical(s') && DistinctKeys(s'.subscribers)
  {
    hide CanonicalTarget, CanonicalMarks, DistinctKeys, Tick, CommandTarget;
    match e
    case Poll(now, pending, outcome) => TickCanonical(s, pending, now, outcome);
    case Enable(ctx, now) =>
      if CommandTarget(ctx).Some? {
        ResolvedIsCanonical(e);
        UpsertMeaning(s.subscribers, CommandTarget(ctx).value, Persistent, now);
      }
    case Disable(ctx, _) =>
      if CommandTarget(ctx).Some? {
        RemoveMeaning(s.subscribers, CommandTarget(ctx).value);
      }
    case Arm(ctx, now) =>
      if CommandTarget(ctx).Some? {
        ResolvedIsCanonical(e);
        UpsertMeaning(s.subscribers, CommandTarget(ctx).value, Once, now);
      }
  }

  // ---------------------------------------------------------------------------
  // Skipping a write is harmless
  // ---------------------------------------------------------------------------

  lemma {:induction false} PrunedNothing(marks: seq<Mark>, ids: set<string>, now: int)
    ensures |Pruned(marks, ids, now)| <= |marks|
    ensures |Pruned(marks, ids, now)| == |marks| ==> Pruned(marks, ids, now) == marks
  {
    if marks != [] { PrunedNothing(marks[1..], ids, now); }
  }

  lemma {:induction false} RemovedNothing(subs: seq<Subscriber>, keys: set<string>)
    ensures |Without(subs, keys)| <= |subs|
    ensures |Without(subs, keys)| == |subs| ==> Without(subs, keys) == subs
  {
    hide Key;
    if subs != [] { RemovedNothing(subs[1..], keys); }
  }

  lemma {:induction false} NothingReached(subs: seq<Subscriber>, pending: seq<Request>, k: nat, marks: seq<Mark>,
                                          now: int, outcome: (nat, nat) -> bool)
    requires k <= |pending| && !AnyOk(Notify(subs, pending, k, marks, now, outcome).1)
    ensures Notify(subs, pending, k, marks, now, outcome).0 == marks
    decreases |pending| - k
  {
    hide IsMarked, SetMark;
    if k < |pending| {
      var log := SendAll(subs, pending[k], k, 0, outcome);
      var all := Notify(subs, pending, k, marks, now, outcome).1;
      if !IsMarked(marks, pending[k].id) {
        assert log <= all;
        assert forall x <- log :: x in all;
        var rest := Notify(subs, pending, k + 1, marks, now, outcome).1;
        assert all == log + rest;
        assert forall x <- rest :: x in all;
      }
      NothingReached(subs, pending, k + 1, marks, now, outcome);
    }
  }

  /** An event that writes nothing has changed nothing. */
  lemma UnchangedMeansSame(s: State, e: Event)
    requires DistinctKeys(s.subscribers) && !Handle(s, e).1
    ensures Handle(s, e).0 == s
  {
    hide CommandTarget, Key;
    match e
    case Poll(now, pending, outcome) =>
      var pruned := Pruned(s.marks, PendingIds(pending), now);
      PrunedNothing(s.marks, PendingIds(pending), now);
      if s.subscribers != [] {
        NothingReached(s.subscribers, pending, 0, pruned, now, outcome);
        NotifyLog(s.subscribers, pending, 0, pruned, now, outcome);
        RemovedNothing(s.subscribers, Delivered(s.subscribers, Tick(s, pending, now, outcome).log));
      }
    case Enable(_, _) =>
    case Disable(_, _) =>
    case Arm(_, _) =>
  }

  // ---------------------------------------------------------------------------
  // Every run
  // ---------------------------------------------------------------------------

  /** The file is missing, or it holds a state that is read back whenever it is read. */
  ghost predicate Good(file: File, s: State) {
    && Canonical(s) && DistinctKeys(s.subscribers)
    && (file == None ==> s == State([], []))
    && (file != None ==> file == Some(Encode(s)))
  }

  lemma GoodIsRead(file: File, s: State, now: int)
    requires Good(file, s)
    ensures ReadState(file, now) == s
  {
    hide Canonical;
    SurvivesExactlyWhenCanonical(s, now);
  }

  /** Reading the file back after an event gives the state that the event left in memory, whether or
      not it has written the file. */
  lemma StepKeepsGood(file: File, s: State, e: Event)
    requires Good(file, s) && IsRegular(e)
    ensures Good(Step(file, e), Handle(s, e).0)
  {
    hide Canonical, DistinctKeys, Handle, IsRegular;
    GoodIsRead(file, s, e.now);
    HandleCanonical(s, e);
    UnchangedMeansSameOrWritten(s, e);
  }

  lemma UnchangedMeansSameOrWritten(s: State, e: Event)
    requires DistinctKeys(s.subscribers)
    ensures Handle(s, e).1 || Handle(s, e).0 == s
  {
    if !Handle(s, e).1 { UnchangedMeansSame(s, e); }
  }

  /** The state in memory after some events. */
  function Memory(events: seq<Event>): State {
    if events == [] then State([], []) else Handle(Memory(events[..|events| - 1]), events[|events| - 1]).0
  }

  /** In every regular run the file holds what memory holds, and all subscriber keys are distinct. */
  lemma {:induction false} RunsStayGood(events: seq<Event>)
    requires AllRegular(events)
    ensures Good(After(events), Memory(events))
  {
    hide Handle, IsRegular, Step;
    if events == [] {
      NothingIsGood();
    } else {
      var front := events[..|events| - 1];
      assert forall e <- front :: e in events;
      RunsStayGood(front);
      StepKeepsGood(After(front), Memory(front), events[|events| - 1]);
    }
  }

  lemma NothingIsGood()
    ensures Good(None, State([], []))
  {}

  /** In every regular run, the file read back at any time has distinct subscriber keys and is what
      the last event left in memory. */
  lemma FileAgreesWithMemory(events: seq<Event>, now: int)
    requires AllRegular(events)
    ensures ReadState(After(events), now) == Memory(events) && DistinctKeys(Memory(events).subscribers)
  {
    hide Canonical, DistinctKeys;
    RunsStayGood(events);
    GoodIsRead(After(events), Memory(events), now);
  }

  /** In every regular run, only requests that are pending in the last poll carry a mark after it. */
  lemma MarkedRequestsArePending(events: seq<Event>, now: int, id: string)
    requires AllRegular(events) && events != [] && events[|events| - 1].Poll?
    requires Lookup(ReadState(After(events), now).marks, id).Some?
    ensures IsPending(events[|events| - 1].pending, id)
  {
    hide Canonical, DistinctKeys;
    var front, e := events[..|events| - 1], events[|events| - 1];
    assert forall x <- front :: x in events;
    assert e in events;
    FileAgreesWithMemory(events, now);
    MemoryIsCanonical(front);
    TickMarks(Memory(front), e.pending, e.now, e.outcome, id);
    if q: nat :| q < |e.pending| && e.pending[q].id == id {
      assert e.pending[q] in e.pending;
    }
  }

  lemma MemoryIsCanonical(events: seq<Event>)
    requires AllRegular(events)
    ensures var s := Memory(events);
      DistinctIds(s.marks) && DistinctKeys(s.subscribers) && forall m <- s.marks :: m.at > 0
  {
    RunsStayGood(events);
  }

  /** The attempts of event number `i` of a run. */
  ghost function SendsAt(events: seq<Event>, i: nat): seq<Send>
    requires i < |events|
  {
    SendsOf(After(events[..i]), events[i])
  }

  /** Some attempt of event number `i` brings the request to a subscriber. */
  ghost predicate GetsThroughAt(events: seq<Event>, i: nat, id: string)
    requires i < |events|
  {
    events[i].Poll? && exists x <- SendsAt(events, i) ::
      x.ok && x.request < |events[i].pending| && events[i].pending[x.request].id == id
  }

  /** One more event. */
  lemma PrefixStep(events: seq<Event>, i: nat)
    requires i < |events|
    ensures Memory(events[..i + 1]) == Handle(Memory(events[..i]), events[i]).0
  {
    hide Handle;
    assert events[..i + 1][..i] == events[..i];
  }

  /** What a poll has to do with a state that the file holds. */
  lemma PollOfGoodFile(events: seq<Event>, i: nat)
    requires AllRegular(events) && i < |events| && events[i].Poll?
    ensures var s := Memory(events[..i]); var e := events[i];
      && DistinctIds(s.marks) && (forall m <- s.marks :: m.at > 0) && e.now > 0
      && SendsAt(events, i) == Tick(s, e.pending, e.now, e.outcome).log
      && Handle(s, e).0 == Tick(s, e.pending, e.now, e.outcome).state
  {
    hide Canonical, DistinctKeys, Tick;
    assert events[i] in events && forall e <- events[..i] :: e in events;
    FileAgreesWithMemory(events[..i], events[i].now);
    MemoryIsCanonical(events[..i]);
  }

  /** A request that got through is marked with the time of the poll. */
  lemma ThroughMeansMarked(events: seq<Event>, i: nat, id: string)
    requires AllRegular(events) && i < |events| && GetsThroughAt(events, i, id)
    ensures Lookup(Memory(events[..i + 1]).marks, id) == Some(events[i].now) && events[i].now > 0
  {
    hide AllRegular, SendsAt, Memory, Handle, Tick, Lookup;
    PrefixStep(events, i);
    PollOfGoodFile(events, i);
    var s, e := Memory(events[..i]), events[i];
    var x :| x in SendsAt(events, i) && x.ok && x.request < |e.pending| && e.pending[x.request].id == id;
    TickAttempts(s, e.pending, e.now, e.outcome, x);
    assert Reached(s.subscribers, e.pending, x.request, e.outcome);
    TickMarks(s, e.pending, e.now, e.outcome, id);
  }

  lemma CommandsKeepMarks(s: State, e: Event)
    requires !e.Poll?
    ensures Handle(s, e).0.marks == s.marks
  {}

  /** A mark outlives every command, and every poll where its request is pending and young enough. */
  lemma MarkLastsOne(events: seq<Event>, i: nat, id: string, markedAt: int)
    requires AllRegular(events) && i < |events| && markedAt > 0
    requires Lookup(Memory(events[..i]).marks, id) == Some(markedAt)
    requires events[i].Poll? ==> IsPending(events[i].pending, id) && events[i].now - markedAt <= 86_400_000
    ensures Lookup(Memory(events[..i + 1]).marks, id) == Some(markedAt)
  {
    hide AllRegular, SendsAt, Memory, Handle, Tick, Lookup;
    PrefixStep(events, i);
    var s, e := Memory(events[..i]), events[i];
    if e.Poll? {
      PollOfGoodFile(events, i);
      TickMarks(s, e.pending, e.now, e.outcome, id);
    } else {
      CommandsKeepMarks(s, e);
    }
  }

  lemma {:induction false} MarksLast(events: seq<Event>, i: nat, j: nat, id: string, markedAt: int)
    requires AllRegular(events) && i <= j <= |events| && markedAt > 0
    requires Lookup(Memory(events[..i]).marks, id) == Some(markedAt)
    requires forall k | i <= k < j && events[k].Poll? ::
      IsPending(events[k].pending, id) && events[k].now - markedAt <= 86_400_000
    ensures Lookup(Memory(events[..j]).marks, id) == Some(markedAt)
  {
    hide AllRegular, Memory, Lookup, IsPending;
    if i < j {
      MarksLast(events, i, j - 1, id, markedAt);
      MarkLastsOne(events, j - 1, id, markedAt);
    }
  }

  /** Once a request has got through in a poll, no later poll sends it again, as long as it was pending in
      every poll since and at most 24 hours old in each. */
  lemma NoRequestIsSentAgain(events: seq<Event>, i: nat, j: nat, id: string, x: Send)
    requires AllRegular(events) && i < j < |events| && events[j].Poll?
    requires GetsThroughAt(events, i, id)
    requires forall k | i < k <= j && events[k].Poll? ::
      IsPending(events[k].pending, id) && events[k].now - events[i].now <= 86_400_000
    requires x in SendsAt(events, j) && x.request < |events[j].pending|
    ensures events[j].pending[x.request].id != id
  {
    hide AllRegular, SendsAt, Memory, Tick, Lookup, GetsThroughAt, Handle;
    ThroughMeansMarked(events, i, id);
    MarksLast(events, i + 1, j, id, events[i].now);
    PollOfGoodFile(events, j);
    var e := events[j];
    TickAttempts(Memory(events[..j]), e.pending, e.now, e.outcome, x);
  }

  // ---------------------------------------------------------------------------
  // Untrimmed accounts and threads
  // ---------------------------------------------------------------------------

  /** A target as it is read back from the file. */
  function Stored(t: Target): Target {
    Target(t.to, NormalizeOptional(t.accountId), NormalizeThread(t.threadId))
  }

  lemma StoredSubscriber(t: Target, mode: Mode, at: int, now: int)
    requires IsTrimmedText(t.to)
    ensures NormalizeSubscriber(EncodeSubscriber(Subscriber(t, mode, at)), now) == Some(Subscriber(Stored(t), mode, at))
  {
    hide Trim;
  }

  lemma StoredTwice(t: Target)
    ensures Stored(Stored(t)) == Stored(t)
  {
    hide Trim;
    if t.accountId.Some? { TrimTwice(t.accountId.value); }
    if t.threadId.Some? && t.threadId.value.Name? { TrimTwice(t.threadId.value.name); }
  }

  function StoredAll(subs: seq<Subscriber>): seq<Subscriber> {
    if subs == [] then [] else [subs[0].(target := Stored(subs[0].target))] + StoredAll(subs[1..])
  }

  lemma {:induction false} ReadStored(subs: seq<Subscriber>, now: int)
    requires forall s <- subs :: IsTrimmedText(s.target.to)
    ensures NormalizeSubscribers(EncodeSubscribers(subs), now) == StoredAll(subs)
  {
    hide NormalizeSubscriber, EncodeSubscriber, Stored, IsTrimmedText;
    if subs != [] {
      assert subs == [subs[0]] + subs[1..];
      StoredSubscriber(subs[0].target, subs[0].mode, subs[0].addedAtMs, now);
      ReadStored(subs[1..], now);
      assert EncodeSubscribers(subs)[1..] == EncodeSubscribers(subs[1..]);
    }
  }

  lemma ReadWithoutMarks(subs: seq<Subscriber>, now: int)
    requires forall s <- subs :: IsTrimmedText(s.target.to)
    ensures ReadState(Some(Encode(State(subs, []))), now) == State(StoredAll(subs), [])
  {
    hide IsTrimmedText, Stored;
    ReadStored(subs, now);
  }

  lemma ResolvedName(ctx: Context)
    requires CommandTarget(ctx).Some?
    ensures IsTrimmedText(CommandTarget(ctx).value.to)
  {
    hide Trim;
    if ctx.senderId.Some? { TrimTwice(ctx.senderId.value); }
    if ctx.from.Some? { TrimTwice(ctx.from.value); }
    if ctx.to.Some? { TrimTwice(ctx.to.value); }
  }

  lemma StoredTwo(s: Subscriber, u: Subscriber)
    ensures StoredAll([s]) == [s.(target := Stored(s.target))]
    ensures StoredAll([s, u]) == [s.(target := Stored(s.target)), u.(target := Stored(u.target))]
  {
    hide Stored;
    assert [s, u][1..] == [u] && [s][1..] == [] && [u][1..] == [];
    assert StoredAll([u]) == [u.(target := Stored(u.target))] + StoredAll([]);
    assert StoredAll([s, u]) == [s.(target := Stored(s.target))] + StoredAll([u]);
  }

  /** What the file of a first subscription is read as. */
  lemma EnabledOnce(ctx: Context, first: int, now: int)
    requires CommandTarget(ctx).Some?
    ensures var t := CommandTarget(ctx).value;
      ReadState(After([Enable(ctx, first)]), now) == State([Subscriber(Stored(t), Persistent, first)], [])
  {
    hide Key, Stored, CommandTarget, ReadState, Encode, IsTrimmedText;
    var t := CommandTarget(ctx).value;
    var one, s := [Enable(ctx, first)], Subscriber(t, Persistent, first);
    assert one[..0] == [];
    ReadNothing(first);
    assert [] + [s] == [s];
    ResolvedName(ctx);
    ReadWithoutMarks([s], now);
    StoredTwo(s, s);
  }

  /** Subscribing a chat twice gives two entries under one key exactly when trimming changes its key. */
  lemma EnabledTwiceIsDistinctExactly(ctx: Context, first: int, second: int)
    requires CommandTarget(ctx).Some?
    ensures var t := CommandTarget(ctx).value;
      DistinctKeys(ReadState(After([Enable(ctx, first), Enable(ctx, second)]), second).subscribers)
        == (Key(Stored(t)) == Key(t))
  {
    hide Key, Stored, CommandTarget, ReadState, Encode, IsTrimmedText;
    var t := CommandTarget(ctx).value;
    var one, two := [Enable(ctx, first)], [Enable(ctx, first), Enable(ctx, second)];
    assert two[..1] == one;
    EnabledOnce(ctx, first, second);
    var read, u := Subscriber(Stored(t), Persistent, first), Subscriber(t, Persistent, second);
    if Key(Stored(t)) == Key(t) {
      assert After(two) == After(one);
    } else {
      assert [read] + [u] == [read, u];
      assert After(two) == Some(Encode(State([read, u], [])));
      ResolvedName(ctx);
      StoredName(t);
      StoredTwice(t);
      ReadWithoutMarks([read, u], second);
      StoredTwo(read, u);
      TwoOfOneKey(read, u.(target := Stored(t)));
    }
  }

  lemma TwoOfOneKey(s: Subscriber, u: Subscriber)
    requires s.target == u.target
    ensures !DistinctKeys([s, u])
  {
    hide Key;
    assert [s, u][0] == s && [s, u][1] == u;
  }

  lemma ReadNothing(now: int)
    ensures ReadState(None, now) == State([], [])
  {}

  lemma StoredName(t: Target)
    ensures Stored(t).to == t.to
  {}

  /** A chat whose account starts with a space subscribes twice. */
  lemma UntrimmedAccountSubscribesTwice(first: int, second: int)
    ensures var ctx := Context("telegram", Some("u"), None, None, Some(" a"), None);
      !DistinctKeys(ReadState(After([Enable(ctx, first), Enable(ctx, second)]), second).subscribers)
  {
    hide After, Trim, ReadState;
    var ctx := Context("telegram", Some("u"), None, None, Some(" a"), None);
    TrimPadded("", "u", "");
    TrimPadded(" ", "a", "");
    assert "" + "u" + "" == "u" && " " + "a" + "" == " a";
    var t := CommandTarget(ctx).value;
    assert Key(t)[2] == ' ' && Key(Stored(t))[2] == 'a';
    EnabledTwiceIsDistinctExactly(ctx, first, second);
  }
}
