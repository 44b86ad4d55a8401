/** The session toggles of active memory: a promise-chain lock around a read-modify-write of a JSON file. */
module ToggleStore {
  import opened Text

  // ---------------------------------------------------------------------------
  // The file
  // ---------------------------------------------------------------------------

  /** One value under `sessions` in the file. */
  datatype RawToggle = RawToggle(disabled: bool, updatedAt: Option<int>) | Malformed

  /** The file. `NoSessions` stands for a missing or unreadable file and for a file without a sessions record. */
  datatype File = NoSessions | Sessions(entries: map<string, RawToggle>)

  /** The disabled sessions, each with the time of its last update. */
  type Store = map<string, Option<int>>

  predicate IsBlank(key: string) { Trim(key) == "" }

  predicate IsDisabledEntry(key: string, value: RawToggle) {
    !IsBlank(key) && value.RawToggle? && value.disabled
  }

  /** `readToggleStore`. */
  function Read(file: File): Store {
    match file
    case NoSessions => map[]
    case Sessions(entries) =>
      map key | key in entries && IsDisabledEntry(key, entries[key]) :: entries[key].updatedAt
  }

  /** What `writeToggleStore` leaves behind: no sessions record when nothing is disabled. */
  function Written(store: Store): File {
    if |store| == 0 then NoSessions else Sessions(map key | key in store :: RawToggle(true, store[key]))
  }

  /** `isSessionActiveMemoryDisabled`: an unlocked read. */
  predicate IsDisabled(file: File, sessionKey: string) {
    var key := Trim(sessionKey);
    key != "" && key in Read(file)
  }

  /** A session is disabled exactly when the file has an entry under its trimmed key that says so. */
  lemma DisabledExactly(file: File, sessionKey: string)
    ensures IsDisabled(file, sessionKey)
       <==> exists at :: && file.Sessions? && Trim(sessionKey) != "" && Trim(sessionKey) in file.entries
                         && file.entries[Trim(sessionKey)] == RawToggle(true, at)
  {
    hide Trim;
    TrimOfTrimmed(Trim(sessionKey));
  }

  /** What is read are the disabled sessions with the times of their entries. */
  lemma ReadExactly(file: File, key: string, at: Option<int>)
    ensures key in Read(file) && Read(file)[key] == at
       <==> file.Sessions? && key in file.entries && file.entries[key] == RawToggle(true, at) && Trim(key) != ""
  {
    hide Trim;
  }

  // ---------------------------------------------------------------------------
  // Toggles
  // ---------------------------------------------------------------------------

  /** One request to disable or enable active memory for a session. */
  datatype Toggle = Toggle(key: string, disabled: bool)

  /** The change a task makes to the store it has read. */
  function Change(store: Store, toggle: Toggle, now: int): Store {
    if toggle.disabled then store[toggle.key := Some(now)] else store - {toggle.key}
  }

  /** A toggle that went through, with the time it recorded. */
  datatype Stamped = Stamped(toggle: Toggle, at: int)

  /** The store after a toggle, as later readers see it. */
  function Apply(store: Store, s: Stamped): Store {
    if IsBlank(s.toggle.key) then store else Change(store, s.toggle, s.at)
  }

  function Fold(store: Store, ss: seq<Stamped>): Store {
    if ss == [] then store else Apply(Fold(store, ss[..|ss| - 1]), ss[|ss| - 1])
  }

  ghost predicate NoBlankKeys(store: Store) {
    forall key <- store :: !IsBlank(key)
  }

  lemma ReadHasNoBlankKeys(file: File)
    ensures NoBlankKeys(Read(file))
  {
    hide IsBlank;
  }

  /** Reading back what a task has written gives the store it had read with exactly its toggle applied. */
  lemma ReadBack(store: Store, s: Stamped)
    requires NoBlankKeys(store)
    ensures Read(Written(Change(store, s.toggle, s.at))) == Apply(store, s)
  {
    hide IsBlank, Read, Written;
    var changed := Change(store, s.toggle, s.at);
    ReadWritten(changed);
    assert Read(Written(changed)).Keys == Apply(store, s).Keys;
  }

  lemma ReadWritten(store: Store)
    ensures Read(Written(store)) == map key | key in store && !IsBlank(key) :: store[key]
  {
    hide IsBlank;
    if |store| == 0 {
      assert store == map[];
    }
  }

  /** The last toggle of a session in a list. */
  function LastFor(ss: seq<Stamped>, key: string): (r: Option<Stamped>)
    ensures r.Some? ==> r.value in ss && r.value.toggle.key == key
    ensures r.None? ==> forall s <- ss :: s.toggle.key != key
  {
    if ss == [] then None
    else if ss[|ss| - 1].toggle.key == key then Some(ss[|ss| - 1])
    else LastFor(ss[..|ss| - 1], key)
  }

  /** The last toggle of a session decides; without one, the initial store does. */
  lemma {:induction false} LastToggleDecides(store: Store, ss: seq<Stamped>, key: string)
    requires !IsBlank(key)
    ensures var last := LastFor(ss, key);
      && (last.None? ==> (key in Fold(store, ss) <==> key in store))
      && (last.Some? ==> (key in Fold(store, ss) <==> last.value.toggle.disabled))
      && (key in Fold(store, ss) ==>
            Fold(store, ss)[key] == if last.Some? then Some(last.value.at) else store[key])
  {
    hide IsBlank;
    if ss != [] { LastToggleDecides(store, ss[..|ss| - 1], key); }
  }

  // ---------------------------------------------------------------------------
  // Tickets: one per call, in call order
  // ---------------------------------------------------------------------------

  /** How far a call has come.
      - Waiting: for the call before it on the same path.
      - Entered: inside the critical section, the file not yet read.
      - Loaded: has read the file and made its change, at the recorded time.
      - Renamed: the new file is in place.
      - Failed: making, writing or renaming the temporary file threw.
      - Done: has released the lock, after success or failure. */
  datatype Phase =
    | Waiting
    | Entered
    | Loaded(changed: Store, at: int)
    | Renamed(at: int)
    | Failed
    | Done(ok: bool, at: int)

  datatype Ticket = Ticket(path: string, toggle: Toggle, previous: Option<nat>, phase: Phase)

  /** The process: all calls so far, the tail of each lock chain, and the files. */
  datatype State = State(tickets: seq<Ticket>, locks: map<string, nat>, files: map<string, File>)

  function FileAt(s: State, path: string): File {
    if path in s.files then s.files[path] else NoSessions
  }

  /** One atomic step. */
  datatype Step =
    | Call(path: string, toggle: Toggle)
    | Enter(i: nat)
    | Load(i: nat, now: int)
    | Rename(i: nat)
    | Fail(i: nat)
    | Release(i: nat)

  predicate Enabled(s: State, step: Step) {
    match step
    case Call(_, _) => true
    case Enter(i) =>
      && i < |s.tickets| && s.tickets[i].phase.Waiting?
      && (s.tickets[i].previous.Some? ==>
            s.tickets[i].previous.value < |s.tickets| && s.tickets[s.tickets[i].previous.value].phase.Done?)
    case Load(i, _) => i < |s.tickets| && s.tickets[i].phase.Entered?
    case Rename(i) => i < |s.tickets| && s.tickets[i].phase.Loaded?
    case Fail(i) => i < |s.tickets| && s.tickets[i].phase.Loaded?
    case Release(i) => i < |s.tickets| && (s.tickets[i].phase.Renamed? || s.tickets[i].phase.Failed?)
  }

  function WithPhase(s: State, i: nat, phase: Phase): State
    requires i < |s.tickets|
  {
    s.(tickets := s.tickets[i := s.tickets[i].(phase := phase)])
  }

  function Next(s: State, step: Step): State
    requires Enabled(s, step)
  {
    match step
    case Call(path, toggle) =>
      var previous := if path in s.locks then Some(s.locks[path]) else None;
      s.(tickets := s.tickets + [Ticket(path, toggle, previous, Waiting)], locks := s.locks[path := |s.tickets|])
    case Enter(i) => WithPhase(s, i, Entered)
    case Load(i, now) =>
      var t := s.tickets[i];
      WithPhase(s, i, Loaded(Change(Read(FileAt(s, t.path)), t.toggle, now), now))
    case Rename(i) =>
      var t := s.tickets[i];
      WithPhase(s, i, Renamed(t.phase.at)).(files := s.files[t.path := Written(t.phase.changed)])
    case Fail(i) => WithPhase(s, i, Failed)
    case Release(i) =>
      var phase := s.tickets[i].phase;
      WithPhase(s, i, if phase.Renamed? then Done(true, phase.at) else Done(false, 0))
  }

  /** `steps` can be taken one after the other from `s`. */
  ghost predicate IsRun(s: State, steps: seq<Step>)
    decreases |steps|
  {
    steps != [] ==> Enabled(s, steps[0]) && IsRun(Next(s, steps[0]), steps[1..])
  }

  ghost function After(s: State, steps: seq<Step>): State
    requires IsRun(s, steps)
    decreases |steps|
  {
    if steps == [] then s else After(Next(s, steps[0]), steps[1..])
  }

  /** No calls yet, with any files. */
  predicate IsInitial(s: State) {
    s.tickets == [] && s.locks == map[]
  }

  // ---------------------------------------------------------------------------
  // The invariant
  // ---------------------------------------------------------------------------

  predicate InCriticalSection(phase: Phase) {
    !phase.Waiting? && !phase.Done?
  }

  /** The new file of the call has replaced the old one. */
  predicate Committed(phase: Phase) {
    phase.Renamed? || (phase.Done? && phase.ok)
  }

  /** The toggles on a path that went through, in call order. */
  ghost function Successes(tickets: seq<Ticket>, path: string): seq<Stamped> {
    if tickets == [] then [] else
    var front, last := tickets[..|tickets| - 1], tickets[|tickets| - 1];
    Successes(front, path)
      + if last.path == path && Committed(last.phase) then [Stamped(last.toggle, last.phase.at)] else []
  }

  /** `j` is the latest ticket on `path` among the first `n`. */
  ghost predicate IsLatest(tickets: seq<Ticket>, path: string, n: nat, j: nat) {
    j < n <= |tickets| && tickets[j].path == path && forall k | j < k < n :: tickets[k].path != path
  }

  ghost predicate NoneBefore(tickets: seq<Ticket>, path: string, n: nat) {
    n <= |tickets| && forall k | 0 <= k < n :: tickets[k].path != path
  }

  /** Every ticket waits for the latest earlier ticket on its path, and each lock holds the latest one. */
  ghost predicate Chained(s: State) {
    && (forall i | 0 <= i < |s.tickets| ::
          var t := s.tickets[i];
          if t.previous.Some? then IsLatest(s.tickets, t.path, i, t.previous.value)
          else NoneBefore(s.tickets, t.path, i))
    && (forall path <- s.locks :: IsLatest(s.tickets, path, |s.tickets|, s.locks[path]))
    && (forall i | 0 <= i < |s.tickets| :: s.tickets[i].path in s.locks)
  }

  /** First come, first served: a ticket that has left the queue has only finished tickets before it. */
  ghost predicate InOrder(s: State) {
    forall i, j | 0 <= i < j < |s.tickets| && s.tickets[i].path == s.tickets[j].path ::
      s.tickets[j].phase.Waiting? || s.tickets[i].phase.Done?
  }

  /** A loaded ticket holds what is in the file plus its own change. */
  ghost predicate SnapshotsCurrent(s: State) {
    forall i | 0 <= i < |s.tickets| && s.tickets[i].phase.Loaded? ::
      var t := s.tickets[i];
      t.phase.changed == Change(Read(FileAt(s, t.path)), t.toggle, t.phase.at)
  }

  ghost predicate FilesFolded(initial: State, s: State) {
    forall path :: Read(FileAt(s, path)) == Fold(Read(FileAt(initial, path)), Successes(s.tickets, path))
  }

  ghost predicate Inv(initial: State, s: State) {
    Chained(s) && InOrder(s) && SnapshotsCurrent(s) && FilesFolded(initial, s)
  }

  lemma InitHolds(s: State)
    requires IsInitial(s)
    ensures Inv(s, s)
  {
    assert forall path :: Successes(s.tickets, path) == [];
  }

  /** Being the latest ticket depends on nothing but the paths. */
  lemma LatestSame(ts: seq<Ticket>, us: seq<Ticket>, path: string, n: nat)
    requires n <= |ts| && n <= |us| && forall k | 0 <= k < n :: ts[k].path == us[k].path
    ensures forall j: nat :: IsLatest(ts, path, n, j) <==> IsLatest(us, path, n, j)
    ensures NoneBefore(ts, path, n) <==> NoneBefore(us, path, n)
  {}

  lemma ChainedAfterCall(s: State, path: string, toggle: Toggle)
    requires Chained(s)
    ensures Chained(Next(s, Call(path, toggle)))
  {
    var s' := Next(s, Call(path, toggle));
    var n := |s.tickets|;
    forall i | 0 <= i < |s'.tickets|
      ensures var t := s'.tickets[i];
        if t.previous.Some? then IsLatest(s'.tickets, t.path, i, t.previous.value) else NoneBefore(s'.tickets, t.path, i)
    {
      LatestSame(s.tickets, s'.tickets, s'.tickets[i].path, i);
    }
    forall p <- s'.locks
      ensures IsLatest(s'.tickets, p, |s'.tickets|, s'.locks[p])
    {
      assert s'.tickets[n].path == path;
      LatestSame(s.tickets, s'.tickets, p, n);
    }
  }

  lemma ChainedWithPhase(s: State, i: nat, phase: Phase)
    requires Chained(s) && i < |s.tickets|
    ensures Chained(WithPhase(s, i, phase))
  {
    var s' := WithPhase(s, i, phase);
    forall k | 0 <= k < |s'.tickets|
      ensures var t := s'.tickets[k];
        if t.previous.Some? then IsLatest(s'.tickets, t.path, k, t.previous.value) else NoneBefore(s'.tickets, t.path, k)
    {
      LatestSame(s.tickets, s'.tickets, s'.tickets[k].path, k);
    }
    forall p <- s'.locks
      ensures IsLatest(s'.tickets, p, |s'.tickets|, s'.locks[p])
    {
      LatestSame(s.tickets, s'.tickets, p, |s.tickets|);
    }
  }

  lemma ChainedKept(s: State, step: Step)
    requires Chained(s) && Enabled(s, step)
    ensures Chained(Next(s, step))
  {
    hide Chained, Read, Written, Change;
    if step.Call? {
      ChainedAfterCall(s, step.path, step.toggle);
    } else {
      var s' := Next(s, step);
      ChainedWithPhase(s, step.i, s'.tickets[step.i].phase);
      ChainedIgnoresFiles(WithPhase(s, step.i, s'.tickets[step.i].phase), s');
    }
  }

  lemma ChainedIgnoresFiles(s: State, s': State)
    requires Chained(s) && s'.tickets == s.tickets && s'.locks == s.locks
    ensures Chained(s')
  {}

  /** The ticket that may enter has only finished tickets before it on its path. */
  lemma PredecessorsDone(s: State, i: nat, j: nat)
    requires Chained(s) && InOrder(s) && Enabled(s, Enter(j))
    requires i < j && s.tickets[i].path == s.tickets[j].path
    ensures s.tickets[i].phase.Done?
  {
    var p := s.tickets[j].previous.value;
    assert IsLatest(s.tickets, s.tickets[j].path, j, p);
    if i != p {
      assert i < p;
    }
  }

  lemma InOrderKept(s: State, step: Step)
    requires Chained(s) && InOrder(s) && Enabled(s, step)
    ensures InOrder(Next(s, step))
  {
    hide Chained, Read, Written, Change;
    var s' := Next(s, step);
    forall i, j | 0 <= i < j < |s'.tickets| && s'.tickets[i].path == s'.tickets[j].path
      ensures s'.tickets[j].phase.Waiting? || s'.tickets[i].phase.Done?
    {
      if step == Enter(j) {
        PredecessorsDone(s, i, j);
      }
    }
  }

  lemma SnapshotsKept(s: State, step: Step)
    requires InOrder(s) && SnapshotsCurrent(s) && Enabled(s, step)
    ensures SnapshotsCurrent(Next(s, step))
  {
    hide Read, Written, Change;
    var s' := Next(s, step);
    forall i | 0 <= i < |s'.tickets| && s'.tickets[i].phase.Loaded?
      ensures var t := s'.tickets[i];
        t.phase.changed == Change(Read(FileAt(s', t.path)), t.toggle, t.phase.at)
    {
      if step.Rename? {
        assert s.tickets[i].phase.Loaded? && s.tickets[step.i].phase.Loaded?;
      }
    }
  }

  lemma {:induction false} SuccessesSame(ts: seq<Ticket>, us: seq<Ticket>, path: string)
    requires |ts| == |us|
    requires forall i | 0 <= i < |ts| ::
      && ts[i].path == us[i].path && ts[i].toggle == us[i].toggle
      && Committed(ts[i].phase) == Committed(us[i].phase)
      && (Committed(ts[i].phase) ==> ts[i].phase.at == us[i].phase.at)
    ensures Successes(ts, path) == Successes(us, path)
  {
    if ts != [] { SuccessesSame(ts[..|ts| - 1], us[..|us| - 1], path); }
  }

  /** A ticket that commits with nothing committed behind it adds its toggle at the end. */
  lemma {:induction false} SuccessesCommit(ts: seq<Ticket>, i: nat, phase: Phase, path: string)
    requires i < |ts| && !Committed(ts[i].phase) && Committed(phase)
    requires forall j | i < j < |ts| && ts[j].path == ts[i].path :: !Committed(ts[j].phase)
    ensures Successes(ts[i := ts[i].(phase := phase)], path)
         == Successes(ts, path) + if ts[i].path == path then [Stamped(ts[i].toggle, phase.at)] else []
  {
    var us := ts[i := ts[i].(phase := phase)];
    var n := |ts| - 1;
    if i == n {
      assert us[..n] == ts[..n];
    } else {
      assert us[..n] == ts[..n][i := ts[i].(phase := phase)];
      SuccessesCommit(ts[..n], i, phase, path);
    }
  }

  /** What a step adds to the successful toggles of a path. */
  ghost function Gain(s: State, step: Step, path: string): seq<Stamped>
    requires Enabled(s, step)
  {
    if step.Rename? && s.tickets[step.i].path == path
    then [Stamped(s.tickets[step.i].toggle, s.tickets[step.i].phase.at)] else []
  }

  lemma SuccessesGrow(s: State, step: Step, path: string)
    requires InOrder(s) && Enabled(s, step)
    ensures Successes(Next(s, step).tickets, path) == Successes(s.tickets, path) + Gain(s, step, path)
  {
    var s' := Next(s, step);
    match step
    case Call(_, _) =>
      assert s'.tickets[..|s.tickets|] == s.tickets;
    case Rename(i) =>
      SuccessesCommit(s.tickets, i, Renamed(s.tickets[i].phase.at), path);
    case _ =>
      SuccessesSame(s.tickets, s'.tickets, path);
  }

  lemma FilesKept(initial: State, s: State, step: Step)
    requires InOrder(s) && SnapshotsCurrent(s) && FilesFolded(initial, s) && Enabled(s, step)
    ensures FilesFolded(initial, Next(s, step))
  {
    hide Read, Written, Change, Apply;
    var s' := Next(s, step);
    forall path
      ensures Read(FileAt(s', path)) == Fold(Read(FileAt(initial, path)), Successes(s'.tickets, path))
    {
      SuccessesGrow(s, step, path);
      var before := Successes(s.tickets, path);
      if step.Rename? && s.tickets[step.i].path == path {
        var t := s.tickets[step.i];
        var stamped := Stamped(t.toggle, t.phase.at);
        ReadHasNoBlankKeys(FileAt(s, path));
        ReadBack(Read(FileAt(s, path)), stamped);
        assert (before + [stamped])[..|before|] == before;
      } else {
        assert before + [] == before;
      }
    }
  }

  lemma InvKept(initial: State, s: State, step: Step)
    requires Inv(initial, s) && Enabled(s, step)
    ensures Inv(initial, Next(s, step))
  {
    hide Next, Chained, InOrder, SnapshotsCurrent, FilesFolded;
    ChainedKept(s, step);
    InOrderKept(s, step);
    SnapshotsKept(s, step);
    FilesKept(initial, s, step);
  }

  lemma {:induction false} InvHolds(initial: State, s: State, steps: seq<Step>)
    requires Inv(initial, s) && IsRun(s, steps)
    ensures Inv(initial, After(s, steps))
    decreases |steps|
  {
    hide Inv, Next;
    if steps != [] {
      InvKept(initial, s, steps[0]);
      InvHolds(initial, Next(s, steps[0]), steps[1..]);
    }
  }

  // ---------------------------------------------------------------------------
  // Every run
  // ---------------------------------------------------------------------------

  /** In every run, critical sections on a path never overlap and are entered in call order. */
  lemma CriticalSectionsAreSerial(initial: State, steps: seq<Step>, i: nat, j: nat)
    requires IsInitial(initial) && IsRun(initial, steps)
    requires var ts := After(initial, steps).tickets; i < j < |ts| && ts[i].path == ts[j].path
    ensures var ts := After(initial, steps).tickets;
      && !(InCriticalSection(ts[i].phase) && InCriticalSection(ts[j].phase))
      && (!ts[j].phase.Waiting? ==> ts[i].phase.Done?)
  {
    InitHolds(initial);
    InvHolds(initial, initial, steps);
  }

  /** In every run, an unlocked read sees the initial store with the successful toggles so far,
      each applied once, in call order. */
  lemma FileIsTheFoldOfSuccesses(initial: State, steps: seq<Step>, path: string)
    requires IsInitial(initial) && IsRun(initial, steps)
    ensures var s := After(initial, steps);
      Read(FileAt(s, path)) == Fold(Read(FileAt(initial, path)), Successes(s.tickets, path))
  {
    InitHolds(initial);
    InvHolds(initial, initial, steps);
  }

  /** What an earlier reader has seen is a prefix of what a later reader sees. */
  lemma {:induction false} SuccessesOnlyGrow(initial: State, s: State, steps: seq<Step>, path: string)
    requires Inv(initial, s) && IsRun(s, steps)
    ensures Successes(s.tickets, path) <= Successes(After(s, steps).tickets, path)
    decreases |steps|
  {
    hide Inv, Next, Successes;
    if steps != [] {
      assert InOrder(s) by { InvInOrder(initial, s); }
      SuccessesGrow(s, steps[0], path);
      InvKept(initial, s, steps[0]);
      SuccessesOnlyGrow(initial, Next(s, steps[0]), steps[1..], path);
    }
  }

  lemma InvInOrder(initial: State, s: State)
    requires Inv(initial, s)
    ensures InOrder(s) && Chained(s)
  {}

  /** A session is seen as disabled exactly when its last successful toggle disabled it;
      without one, when it was disabled in the initial file. */
  lemma ReadersSeeTheLastSuccess(initial: State, steps: seq<Step>, path: string, sessionKey: string)
    requires IsInitial(initial) && IsRun(initial, steps) && !IsBlank(sessionKey) && Trimmed(sessionKey)
    ensures var s := After(initial, steps);
      var last := LastFor(Successes(s.tickets, path), sessionKey);
      IsDisabled(FileAt(s, path), sessionKey)
        == if last.Some? then last.value.toggle.disabled else IsDisabled(FileAt(initial, path), sessionKey)
  {
    hide Read, Fold, Successes, After, IsRun, Trimmed;
    TrimOfTrimmed(sessionKey);
    var s := After(initial, steps);
    FileIsTheFoldOfSuccesses(initial, steps, path);
    LastToggleDecides(Read(FileAt(initial, path)), Successes(s.tickets, path), sessionKey);
  }

  // ---------------------------------------------------------------------------
  // No call is stuck
  // ---------------------------------------------------------------------------

  /** Releasing after a failure lets the next call in and leaves every file alone. */
  lemma FailureFreesTheLock(s: State, i: nat, j: nat)
    requires i < |s.tickets| && s.tickets[i].phase.Loaded?
    requires i < j < |s.tickets| && s.tickets[j].phase.Waiting? && s.tickets[j].previous == Some(i)
    ensures var failed := Next(s, Fail(i));
      && Enabled(failed, Release(i))
      && Enabled(Next(failed, Release(i)), Enter(j))
      && Next(failed, Release(i)).files == s.files
  {}

  function Remaining(phase: Phase): nat {
    match phase
    case Waiting => 4
    case Entered => 3
    case Loaded(_, _) => 2
    case Renamed(_) => 1
    case Failed => 1
    case Done(_, _) => 0
  }

  function Work(ts: seq<Ticket>): nat {
    if ts == [] then 0 else Work(ts[..|ts| - 1]) + Remaining(ts[|ts| - 1].phase)
  }

  lemma {:induction false} WorkUpdate(ts: seq<Ticket>, i: nat, phase: Phase)
    requires i < |ts|
    ensures Work(ts[i := ts[i].(phase := phase)]) == Work(ts) - Remaining(ts[i].phase) + Remaining(phase)
  {
    var n := |ts| - 1;
    if i == n {
      assert ts[i := ts[i].(phase := phase)][..n] == ts[..n];
    } else {
      assert ts[i := ts[i].(phase := phase)][..n] == ts[..n][i := ts[i].(phase := phase)];
      WorkUpdate(ts[..n], i, phase);
    }
  }

  /** Every step but a new call brings some call closer to its end. */
  lemma StepsAreProgress(s: State, step: Step)
    requires Enabled(s, step) && !step.Call?
    ensures Work(Next(s, step).tickets) == Work(s.tickets) - 1
  {
    WorkUpdate(s.tickets, step.i, Next(s, step).tickets[step.i].phase);
  }

  /** Without new calls, a run is never longer than the work that is left. */
  lemma {:induction false} RunsEnd(s: State, steps: seq<Step>)
    requires IsRun(s, steps) && forall step <- steps :: !step.Call?
    ensures |steps| <= Work(s.tickets)
    decreases |steps|
  {
    hide Next, Work;
    if steps != [] {
      assert steps[0] in steps && forall step <- steps[1..] :: step in steps;
      StepsAreProgress(s, steps[0]);
      RunsEnd(Next(s, steps[0]), steps[1..]);
    }
  }

  /** The oldest unfinished call on any path can take a step, whatever other paths do. */
  lemma OldestCallCanMove(initial: State, steps: seq<Step>, i: nat)
    requires IsInitial(initial) && IsRun(initial, steps)
    requires var ts := After(initial, steps).tickets;
      && i < |ts| && !ts[i].phase.Done?
      && forall k | 0 <= k < i && ts[k].path == ts[i].path :: ts[k].phase.Done?
    ensures var s := After(initial, steps);
      Enabled(s, Enter(i)) || Enabled(s, Load(i, 0)) || Enabled(s, Rename(i)) || Enabled(s, Release(i))
  {
    hide Inv, IsRun, After;
    InitHolds(initial);
    InvHolds(initial, initial, steps);
    var s := After(initial, steps);
    InvInOrder(initial, s);
    OldestCanMove(s, i);
  }

  /** A run that only new calls could extend has ended every call, and the other way round: with
      `RunsEnd`, every call is over once no more calls come. */
  lemma StuckExactlyWhenDone(initial: State, steps: seq<Step>)
    requires IsInitial(initial) && IsRun(initial, steps)
    ensures var s := After(initial, steps);
      (forall step: Step | !step.Call? :: !Enabled(s, step)) <==> forall t <- s.tickets :: t.phase.Done?
  {
    hide IsRun, After;
    var s := After(initial, steps);
    if forall step: Step | !step.Call? :: !Enabled(s, step) {
      StuckMeansDone(initial, steps, |s.tickets|);
    }
  }

  lemma {:induction false} StuckMeansDone(initial: State, steps: seq<Step>, n: nat)
    requires IsInitial(initial) && IsRun(initial, steps) && n <= |After(initial, steps).tickets|
    requires forall step: Step | !step.Call? :: !Enabled(After(initial, steps), step)
    ensures forall i | 0 <= i < n :: After(initial, steps).tickets[i].phase.Done?
  {
    hide IsRun, After, Enabled;
    if n > 0 {
      StuckMeansDone(initial, steps, n - 1);
      if !After(initial, steps).tickets[n - 1].phase.Done? {
        OldestCallCanMove(initial, steps, n - 1);
      }
    }
  }

  lemma OldestCanMove(s: State, i: nat)
    requires Chained(s) && i < |s.tickets| && !s.tickets[i].phase.Done?
    requires forall k | 0 <= k < i && s.tickets[k].path == s.tickets[i].path :: s.tickets[k].phase.Done?
    ensures Enabled(s, Enter(i)) || Enabled(s, Load(i, 0)) || Enabled(s, Rename(i)) || Enabled(s, Release(i))
  {
    if s.tickets[i].previous.Some? {
      assert IsLatest(s.tickets, s.tickets[i].path, i, s.tickets[i].previous.value);
    }
  }
}
