/** The token cache as mutable state: each method is the code between two awaits. */
module FoundryProcess {
  import opened Text
  import opened FoundryAuth

  class TokenCache<T> {
    var cachedTokens: map<string, Token<T>>
    var refreshPromises: map<string, nat>
    var refreshes: seq<Refresh<T>>
    var calls: seq<CallRecord<T>>

    function View(): State<T>
      reads this
    {
      State(cachedTokens, refreshPromises, refreshes, calls)
    }

    ghost predicate Valid()
      reads this
    {
      Inv(View())
    }

    constructor ()
      ensures Valid() && View() == Initial()
    {
      cachedTokens, refreshPromises, refreshes, calls := map[], map[], [], [];
    }

    /** `prepareFoundryRuntimeAuth` up to its first await. */
    method Prepare(credential: Credential, now: int) returns (answer: Answer<T>)
      requires Valid()
      modifies this
      ensures Valid() && View() == Next(old(View()), Step.Call(credential, now))
      ensures calls == old(calls) + [CallRecord(credential, now, answer)]
    {
      hide Inv, Credential.Key;
      InvKept(View(), Step.Call(credential, now));
      var cacheKey := credential.Key();
      if cacheKey in cachedTokens {
        var cachedToken := cachedTokens[cacheKey];
        if cachedToken.expiresAt > now + TOKEN_REFRESH_MARGIN_MS {
          answer := Cached(cachedToken);
          calls := calls + [CallRecord(credential, now, answer)];
          return;
        }
      }
      var refreshPromise;
      if cacheKey in refreshPromises {
        refreshPromise := refreshPromises[cacheKey];
      } else {
        refreshPromise := |refreshes|;
        refreshes := refreshes + [Refresh(credential, Running)];
        refreshPromises := refreshPromises[cacheKey := refreshPromise];
      }
      answer := Awaiting(refreshPromise);
      calls := calls + [CallRecord(credential, now, answer)];
    }

    /** `refreshEntraToken` after its await. */
    method Mint(r: nat, accessToken: T, expiresOn: Option<int>, now: int)
      requires Valid() && Enabled(View(), Step.Mint(r, accessToken, expiresOn, now))
      modifies this`cachedTokens, this`refreshes
      ensures Valid() && View() == Next(old(View()), Step.Mint(r, accessToken, expiresOn, now))
    {
      hide Inv, Credential.Key;
      InvKept(View(), Step.Mint(r, accessToken, expiresOn, now));
      var expiresAt := now + DEFAULT_LIFETIME_MS;
      if expiresOn.Some? {
        expiresAt := expiresOn.value;
      }
      var token := Token(accessToken, expiresAt);
      cachedTokens := cachedTokens[refreshes[r].credential.Key() := token];
      refreshes := refreshes[r := refreshes[r].(progress := Minted(token))];
    }

    /** The Azure CLI has failed. */
    method Reject(r: nat)
      requires Valid() && Enabled(View(), Step.Reject(r))
      modifies this`refreshes
      ensures Valid() && View() == Next(old(View()), Step.Reject(r))
    {
      hide Inv, Credential.Key;
      InvKept(View(), Step.Reject(r));
      refreshes := refreshes[r := refreshes[r].(progress := Failed)];
    }

    /** The `finally` of the refresh; its callers go on with the result. */
    method Close(r: nat) returns (result: Option<Token<T>>)
      requires Valid() && Enabled(View(), Step.Close(r))
      modifies this`refreshPromises, this`refreshes
      ensures Valid() && View() == Next(old(View()), Step.Close(r))
      ensures refreshes[r].progress == Closed(result)
    {
      hide Inv, Credential.Key;
      InvKept(View(), Step.Close(r));
      var progress := refreshes[r].progress;
      result := if progress.Minted? then Some(progress.token) else None;
      refreshPromises := refreshPromises - {refreshes[r].credential.Key()};
      refreshes := refreshes[r := refreshes[r].(progress := Closed(result))];
    }
  }
}
