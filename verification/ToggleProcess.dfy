/** The lock table and the toggle files as mutable state: each method is the code between two awaits. */
module ToggleProcess {
  import opened Text
  import opened ToggleStore

  class Process {
    var tickets: seq<Ticket>
    var locks: map<string, nat>
    var files: map<string, File>
    ghost var initial: State

    function View(): State
      reads this
    {
      State(tickets, locks, files)
    }

    ghost predicate Valid()
      reads this
    {
      Inv(initial, View())
    }

    constructor (files: map<string, File>)
      ensures Valid() && View() == State([], map[], files) == initial
    {
      tickets, locks, this.files := [], map[], files;
      initial := State([], map[], files);
      new;
      InitHolds(initial);
    }

    /** `withToggleStoreLock` up to its first await: queue up behind the tail of the chain. */
    method Call(path: string, toggle: Toggle) returns (i: nat)
      requires Valid()
      modifies this
      ensures Valid() && initial == old(initial)
      ensures i == |old(tickets)| && View() == Next(old(View()), Step.Call(path, toggle))
    {
      hide Inv, Read, Written, Change;
      InvKept(initial, View(), Step.Call(path, toggle));
      i := |tickets|;
      var previous := None;
      if path in locks {
        previous := Some(locks[path]);
      }
      locks := locks[path := i];
      tickets := tickets + [Ticket(path, toggle, previous, Waiting)];
    }

    /** The previous promise has resolved. */
    method Enter(i: nat)
      requires Valid() && Enabled(View(), Step.Enter(i))
      modifies this`tickets
      ensures Valid() && View() == Next(old(View()), Step.Enter(i))
    {
      hide Inv, Read, Written, Change;
      InvKept(initial, View(), Step.Enter(i));
      tickets := tickets[i := tickets[i].(phase := Entered)];
    }

    /** The file has been read: change a copy of the store. */
    method Load(i: nat, now: int)
      requires Valid() && Enabled(View(), Step.Load(i, now))
      modifies this`tickets
      ensures Valid() && View() == Next(old(View()), Step.Load(i, now))
    {
      hide Inv, Read, Written;
      InvKept(initial, View(), Step.Load(i, now));
      var t := tickets[i];
      var sessions := Read(FileAt(View(), t.path));
      if t.toggle.disabled {
        sessions := sessions[t.toggle.key := Some(now)];
      } else {
        sessions := sessions - {t.toggle.key};
      }
      tickets := tickets[i := t.(phase := Loaded(sessions, now))];
    }

    /** The temporary file has replaced the file. */
    method Rename(i: nat)
      requires Valid() && Enabled(View(), Step.Rename(i))
      modifies this`tickets, this`files
      ensures Valid() && View() == Next(old(View()), Step.Rename(i))
    {
      hide Inv, Read, Written, Change;
      InvKept(initial, View(), Step.Rename(i));
      var t := tickets[i];
      files := files[t.path := Written(t.phase.changed)];
      tickets := tickets[i := t.(phase := Renamed(t.phase.at))];
    }

    /** Some step of the write threw. */
    method Fail(i: nat)
      requires Valid() && Enabled(View(), Step.Fail(i))
      modifies this`tickets
      ensures Valid() && View() == Next(old(View()), Step.Fail(i))
    {
      hide Inv, Read, Written, Change;
      InvKept(initial, View(), Step.Fail(i));
      tickets := tickets[i := tickets[i].(phase := Failed)];
    }

    /** The `finally` of the lock. */
    method Release(i: nat)
      requires Valid() && Enabled(View(), Step.Release(i))
      modifies this`tickets
      ensures Valid() && View() == Next(old(View()), Step.Release(i))
    {
      hide Inv, Read, Written, Change;
      InvKept(initial, View(), Step.Release(i));
      var phase := tickets[i].phase;
      tickets := tickets[i := tickets[i].(phase := if phase.Renamed? then Done(true, phase.at) else Done(false, 0))];
    }

    /** `isSessionActiveMemoryDisabled`, at any moment: what the successful toggles so far add up to. */
    method IsSessionDisabled(path: string, sessionKey: string) returns (disabled: bool)
      requires Valid()
      ensures disabled
          == (!IsBlank(sessionKey) && Trim(sessionKey) in Fold(Read(FileAt(initial, path)), Successes(tickets, path)))
    {
      var key := Trim(sessionKey);
      if key == "" {
        return false;
      }
      disabled := key in Read(FileAt(View(), path));
    }

    /** A call that nothing interrupts: its toggle is applied when the write succeeds, and the
        file is left alone when it throws. Either way the lock is free again. */
    method SetSessionDisabled(path: string, toggle: Toggle, now: int, throws: bool)
      requires Valid() && forall t <- tickets | t.path == path :: t.phase.Done?
      modifies this
      ensures Valid() && forall t <- tickets | t.path == path :: t.phase.Done?
      ensures Read(FileAt(View(), path))
           == if throws then old(Read(FileAt(View(), path)))
              else Apply(old(Read(FileAt(View(), path))), Stamped(toggle, now))
      ensures forall p | p != path :: FileAt(View(), p) == old(FileAt(View(), p))
    {
      hide Inv, Next, Enabled, Read, Apply;
      ghost var before := View();
      InvInOrder(initial, before);
      AloneCallIsSerial(before, path, toggle, now, throws);
      var i := Call(path, toggle);
      Enter(i);
      Load(i, now);
      if throws {
        Fail(i);
      } else {
        Rename(i);
      }
      Release(i);
    }
  }

  /** The call that enters right after it was made, and loads the file. */
  lemma AloneCallLoads(s: State, path: string, toggle: Toggle, now: int)
    requires Chained(s) && forall t <- s.tickets | t.path == path :: t.phase.Done?
    ensures var i := |s.tickets|;
      var s1 := Next(s, Step.Call(path, toggle));
      && Enabled(s1, Step.Enter(i)) && Enabled(Next(s1, Step.Enter(i)), Step.Load(i, now))
      && Next(Next(s1, Step.Enter(i)), Step.Load(i, now))
           == s1.(tickets := s.tickets + [s1.tickets[i].(phase :=
                    Loaded(Change(Read(FileAt(s, path)), toggle, now), now))])
  {
    hide Change, Read;
    if path in s.locks {
      assert IsLatest(s.tickets, path, |s.tickets|, s.locks[path]);
      assert s.tickets[s.locks[path]] in s.tickets;
    }
  }

  /** A call alone on its path goes through all its steps, and what it leaves behind. */
  lemma AloneCallIsSerial(s: State, path: string, toggle: Toggle, now: int, throws: bool)
    requires Chained(s) && forall t <- s.tickets | t.path == path :: t.phase.Done?
    ensures var i := |s.tickets|;
      var s1 := Next(s, Step.Call(path, toggle));
      && Enabled(s1, Step.Enter(i))
      && var s2 := Next(s1, Step.Enter(i));
      && Enabled(s2, Step.Load(i, now))
      && var s3 := Next(s2, Step.Load(i, now));
      && Enabled(s3, Step.Fail(i)) && Enabled(s3, Step.Rename(i))
      && var s4 := Next(s3, if throws then Step.Fail(i) else Step.Rename(i));
      && Enabled(s4, Step.Release(i))
      && var s5 := Next(s4, Step.Release(i));
      && (forall t <- s5.tickets | t.path == path :: t.phase.Done?)
      && (forall p | p != path :: FileAt(s5, p) == FileAt(s, p))
      && Read(FileAt(s5, path))
           == if throws then Read(FileAt(s, path)) else Apply(Read(FileAt(s, path)), Stamped(toggle, now))
  {
    hide Change, Read, Apply, Written;
    AloneCallLoads(s, path, toggle, now);
    ReadHasNoBlankKeys(FileAt(s, path));
    ReadBack(Read(FileAt(s, path)), Stamped(toggle, now));
  }
}
