/** The discovery cache as mutable state: each method is the code between two awaits. */
module BedrockProcess {
  import opened Text
  import opened BedrockDiscovery

  class Discovery<M> {
    var cache: map<Key, Entry<M>>
    var fetches: seq<Fetch<M>>
    var calls: seq<CallRecord<M>>

    function View(): State<M>
      reads this
    {
      State(cache, fetches, calls)
    }

    ghost predicate Valid()
      reads this
    {
      Inv(View())
    }

    constructor ()
      ensures Valid() && View() == Initial()
    {
      cache, fetches, calls := map[], [], [];
      new;
      InitHolds<M>();
    }

    /** `discoverBedrockModels` up to its first await. When the client cannot be made, the call
        throws before it has touched the cache. */
    method Discover(key: Key, now: int, clientFails: bool) returns (answer: Option<Answer<M>>)
      requires Valid()
      modifies this
      ensures Valid()
      ensures clientFails && FromCache(old(View()), key, now).None? ==> answer == None && View() == old(View())
      ensures !(clientFails && FromCache(old(View()), key, now).None?) ==>
        && View() == Next(old(View()), Step.Call(key, now))
        && answer == Some(calls[|calls| - 1].answer)
    {
      hide Inv;
      InvKept(View(), Step.Call(key, now));
      if key.refreshSeconds > 0 {
        if key in cache {
          var cached := cache[key];
          if cached.value.Some? && cached.expiresAt > now {
            answer := Some(Served(cached.value.value));
            calls := calls + [CallRecord(key, now, answer.value)];
            return;
          }
          if cached.inFlight.Some? {
            answer := Some(Joined(cached.inFlight.value));
            calls := calls + [CallRecord(key, now, answer.value)];
            return;
          }
        }
      }
      if clientFails {
        return None;
      }
      var f := |fetches|;
      fetches := fetches + [Fetch(key, now, Pending)];
      if key.refreshSeconds > 0 {
        cache := cache[key := Entry(ExpiresAt(key, now), None, Some(f))];
      }
      answer := Some(Owner(f));
      calls := calls + [CallRecord(key, now, answer.value)];
    }

    /** The responses of a fetch have arrived, or one of its requests has failed. */
    method Settle(f: nat, outcome: Outcome<M>)
      requires Valid() && Enabled(View(), Step.Settle(f, outcome))
      modifies this`fetches
      ensures Valid() && View() == Next(old(View()), Step.Settle(f, outcome))
    {
      hide Inv;
      InvKept(View(), Step.Settle(f, outcome));
      fetches := fetches[f := fetches[f].(progress := Settled(outcome))];
    }

    /** The owner of a settled fetch goes on after its await. */
    method Resume(f: nat) returns (reply: Reply<M>)
      requires Valid() && Enabled(View(), Step.Resume(f))
      modifies this`fetches, this`cache
      ensures Valid() && View() == Next(old(View()), Step.Resume(f))
      ensures forall c | 0 <= c < |calls| && calls[c].answer == Owner(f) :: ReplyTo(View(), c) == Some(reply)
    {
      hide Inv;
      InvKept(View(), Step.Resume(f));
      var fetch := fetches[f];
      var outcome := fetch.progress.outcome;
      fetches := fetches[f := fetch.(progress := Resumed(outcome))];
      if outcome.Fetched? {
        if fetch.key.refreshSeconds > 0 {
          cache := cache[fetch.key := Entry(ExpiresAt(fetch.key, fetch.startedAt), Some(outcome.models), None)];
        }
        reply := Models(outcome.models);
      } else {
        if fetch.key.refreshSeconds > 0 {
          cache := cache - {fetch.key};
        }
        reply := NoModels;
      }
    }
  }
}
