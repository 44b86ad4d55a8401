/** The Entra token cache of Microsoft Foundry: a token per subscription and tenant, and at most one
    refresh pending for each. */
module FoundryAuth {
  import opened Text

  const TOKEN_REFRESH_MARGIN_MS := 5 * 60 * 1000
  const DEFAULT_LIFETIME_MS := 55 * 60 * 1000

  // ---------------------------------------------------------------------------
  // Credentials and their cache keys
  // ---------------------------------------------------------------------------

  datatype Credential = Credential(subscriptionId: Option<string>, tenantId: Option<string>) {
    function Subscription(): string { if subscriptionId.Some? then subscriptionId.value else "" }
    function Tenant(): string { if tenantId.Some? then tenantId.value else "" }

    /** `getFoundryTokenCacheKey`. */
    function Key(): string { Subscription() + ":" + Tenant() }

    /** What a refresh asks the Azure CLI for. */
    function AzArguments(): seq<string> {
      if Subscription() != "" then ["--subscription", Subscription()]
      else if Tenant() != "" then ["--tenant", Tenant()]
      else []
    }
  }

  /** A subscription is asked for by its own flag; a tenant only when there is no subscription; without either the
      default account is used. An empty text counts as none. */
  lemma ArgumentsMeaning(c: Credential, id: string)
    ensures c.subscriptionId == Some(id) && id != "" ==> c.AzArguments() == ["--subscription", id]
    ensures c.subscriptionId in {None, Some("")} && c.tenantId == Some(id) && id != "" ==>
      c.AzArguments() == ["--tenant", id]
    ensures c.subscriptionId in {None, Some("")} && c.tenantId in {None, Some("")} ==> c.AzArguments() == []
  {}

  ghost predicate NoColon(s: string) { ':' !in s }

  lemma KeyParts(c: Credential, d: Credential)
    requires c.Key() == d.Key() && NoColon(c.Subscription()) && NoColon(d.Subscription())
    ensures c.Subscription() == d.Subscription() && c.Tenant() == d.Tenant()
  {
    var k, n, m := c.Key(), |c.Subscription()|, |d.Subscription()|;
    assert k[n] == ':' && k[m] == ':';
    assert forall i | 0 <= i < n :: k[i] == c.Subscription()[i];
    assert forall i | 0 <= i < m :: k[i] == d.Subscription()[i];
    assert k[..n] == c.Subscription() && k[..m] == d.Subscription();
    assert k[n + 1..] == c.Tenant() && k[m + 1..] == d.Tenant();
  }

  /** A credential shares its key with no other one exactly when neither part contains a colon. */
  lemma KeyIsUniqueExactly(c: Credential)
    ensures (forall d: Credential | d.Key() == c.Key() ::
               d.Subscription() == c.Subscription() && d.Tenant() == c.Tenant())
       <==> NoColon(c.Subscription()) && NoColon(c.Tenant())
  {
    var s, t := c.Subscription(), c.Tenant();
    if NoColon(s) && NoColon(t) {
      forall d: Credential | d.Key() == c.Key()
        ensures d.Subscription() == s && d.Tenant() == t
      {
        SubscriptionHasNoColon(c, d);
        KeyParts(c, d);
      }
    } else {
      var d := OtherCredential(c);
    }
  }

  /** All credentials with the key of this one ask for the same token exactly when neither part of it
      contains a colon. */
  lemma KeyFixesArgumentsExactly(c: Credential)
    ensures (forall d: Credential | d.Key() == c.Key() :: d.AzArguments() == c.AzArguments())
       <==> NoColon(c.Subscription()) && NoColon(c.Tenant())
  {
    KeyIsUniqueExactly(c);
    if !NoColon(c.Subscription()) || !NoColon(c.Tenant()) {
      var d := OtherCredential(c);
    }
  }

  /** A text around a colon can be cut there as well. */
  lemma CutAtColon(s: string, t: string, i: nat)
    ensures i < |t| && t[i] == ':' ==> (s + ":" + t[..i]) + ":" + t[i + 1..] == s + ":" + t
    ensures i < |s| && s[i] == ':' ==> s[..i] + ":" + (s[i + 1..] + ":" + t) == s + ":" + t
  {
    if i < |t| && t[i] == ':' { assert t == t[..i] + ":" + t[i + 1..]; }
    if i < |s| && s[i] == ':' { assert s == s[..i] + ":" + s[i + 1..]; }
  }

  lemma KeyOf(s: string, t: string)
    ensures Credential(Some(s), Some(t)).Key() == s + ":" + t && Credential(Some(s), Some(t)).Subscription() == s
  {}

  /** Another credential under the same key, for which another token would be requested. */
  lemma OtherCredential(c: Credential) returns (d: Credential)
    requires !NoColon(c.Subscription()) || !NoColon(c.Tenant())
    ensures d.Key() == c.Key() && d.AzArguments() != c.AzArguments()
  {
    hide Credential.Key, Credential.AzArguments, Credential.Subscription, Credential.Tenant;
    var s, t := c.Subscription(), c.Tenant();
    assert c.Key() == s + ":" + t by { KeyHasParts(c); }
    if !NoColon(t) {
      var i :| 0 <= i < |t| && t[i] == ':';
      d := Credential(Some(s + ":" + t[..i]), Some(t[i + 1..]));
      CutAtColon(s, t, i);
      KeyOf(s + ":" + t[..i], t[i + 1..]);
      LongerSubscription(c, d);
    } else {
      var i :| 0 <= i < |s| && s[i] == ':';
      d := Credential(Some(s[..i]), Some(s[i + 1..] + ":" + t));
      CutAtColon(s, t, i);
      KeyOf(s[..i], s[i + 1..] + ":" + t);
      LongerSubscription(d, c);
    }
  }

  lemma KeyHasParts(c: Credential)
    ensures c.Key() == c.Subscription() + ":" + c.Tenant()
  {}

  lemma LongerSubscription(c: Credential, d: Credential)
    requires |c.Subscription()| < |d.Subscription()|
    ensures c.AzArguments() != d.AzArguments()
  {
    FirstLetters();
    assert d.AzArguments() == ["--subscription", d.Subscription()];
    if c.Subscription() != "" { assert c.AzArguments()[1] == c.Subscription(); }
  }

  lemma FirstLetters()
    ensures "--subscription" != "--tenant"
  {
    assert |"--subscription"| != |"--tenant"|;
  }

  lemma SubscriptionHasNoColon(c: Credential, d: Credential)
    requires d.Key() == c.Key() && NoColon(c.Subscription()) && NoColon(c.Tenant())
    ensures NoColon(d.Subscription())
  {
    var k, n := c.Key(), |c.Subscription()|;
    var m := |d.Subscription()|;
    assert forall i | 0 <= i < n :: k[i] == c.Subscription()[i];
    assert forall i | n < i < |k| :: k[i] == c.Tenant()[i - n - 1];
    assert k[m] == ':';
    assert forall i | 0 <= i < m :: d.Subscription()[i] == k[i];
  }

  // ---------------------------------------------------------------------------
  // The state
  // ---------------------------------------------------------------------------

  datatype Token<+T> = Token(accessToken: T, expiresAt: int)

  /** A refresh runs, then its request ends, then its `finally` frees the slot and its callers go on. */
  datatype Progress<+T> = Running | Minted(token: Token<T>) | Failed | Closed(result: Option<Token<T>>)
  datatype Refresh<+T> = Refresh(credential: Credential, progress: Progress<T>)

  datatype Answer<+T> = Cached(token: Token<T>) | Awaiting(refresh: nat)
  datatype CallRecord<+T> = CallRecord(credential: Credential, now: int, answer: Answer<T>)

  datatype State<+T> = State(cachedTokens: map<string, Token<T>>, refreshPromises: map<string, nat>,
                             refreshes: seq<Refresh<T>>, calls: seq<CallRecord<T>>)

  datatype Step<+T> =
    | Call(credential: Credential, now: int)
    | Mint(refresh: nat, accessToken: T, expiresOn: Option<int>, now: int)
    | Reject(refresh: nat)
    | Close(refresh: nat)

  predicate Enabled<T>(s: State<T>, step: Step<T>) {
    match step
    case Call(_, _) => true
    case Mint(r, _, _, _) => r < |s.refreshes| && s.refreshes[r].progress.Running?
    case Reject(r) => r < |s.refreshes| && s.refreshes[r].progress.Running?
    case Close(r) => r < |s.refreshes| && (s.refreshes[r].progress.Minted? || s.refreshes[r].progress.Failed?)
  }

  function WithProgress<T>(s: State<T>, r: nat, progress: Progress<T>): State<T>
    requires r < |s.refreshes|
  {
    s.(refreshes := s.refreshes[r := s.refreshes[r].(progress := progress)])
  }

  function Next<T>(s: State<T>, step: Step<T>): State<T>
    requires Enabled(s, step)
  {
    match step
    case Call(c, now) =>
      if c.Key() in s.cachedTokens && s.cachedTokens[c.Key()].expiresAt > now + TOKEN_REFRESH_MARGIN_MS then
        s.(calls := s.calls + [CallRecord(c, now, Cached(s.cachedTokens[c.Key()]))])
      else if c.Key() in s.refreshPromises then
        s.(calls := s.calls + [CallRecord(c, now, Awaiting(s.refreshPromises[c.Key()]))])
      else
        var r := |s.refreshes|;
        s.(refreshPromises := s.refreshPromises[c.Key() := r],
           refreshes := s.refreshes + [Refresh(c, Running)],
           calls := s.calls + [CallRecord(c, now, Awaiting(r))])
    case Mint(r, accessToken, expiresOn, now) =>
      var token := Token(accessToken, if expiresOn.Some? then expiresOn.value else now + DEFAULT_LIFETIME_MS);
      WithProgress(s, r, Minted(token))
        .(cachedTokens := s.cachedTokens[s.refreshes[r].credential.Key() := token])
    case Reject(r) => WithProgress(s, r, Failed)
    case Close(r) =>
      var progress := s.refreshes[r].progress;
      WithProgress(s, r, Closed(if progress.Minted? then Some(progress.token) else None))
        .(refreshPromises := s.refreshPromises - {s.refreshes[r].credential.Key()})
  }

  function Initial<T>(): State<T> { State(map[], map[], [], []) }

  ghost predicate IsRun<T>(s: State<T>, steps: seq<Step<T>>)
    decreases |steps|
  {
    steps != [] ==> Enabled(s, steps[0]) && IsRun(Next(s, steps[0]), steps[1..])
  }

  ghost function After<T>(s: State<T>, steps: seq<Step<T>>): State<T>
    requires IsRun(s, steps)
    decreases |steps|
  {
    if steps == [] then s else After(Next(s, steps[0]), steps[1..])
  }

  /** What the caller of call `c` gets: a token, an error, or nothing yet. */
  datatype Reply<+T> = Success(token: Token<T>) | Error

  function ReplyTo<T>(s: State<T>, c: nat): Option<Reply<T>>
    requires c < |s.calls|
  {
    match s.calls[c].answer
    case Cached(token) => Some(Success(token))
    case Awaiting(r) =>
      if r >= |s.refreshes| || !s.refreshes[r].progress.Closed? then None
      else if s.refreshes[r].progress.result.Some? then Some(Success(s.refreshes[r].progress.result.value))
      else Some(Error)
  }

  // ---------------------------------------------------------------------------
  // The invariant
  // ---------------------------------------------------------------------------

  predicate IsOpen<T>(r: Refresh<T>) { !r.progress.Closed? }

  /** A key has a promise exactly while it has an open refresh, and the promise is that refresh. */
  ghost predicate OneFlight<T>(s: State<T>) {
    && (forall r | 0 <= r < |s.refreshes| && IsOpen(s.refreshes[r]) ::
          var key := s.refreshes[r].credential.Key();
          key in s.refreshPromises && s.refreshPromises[key] == r)
    && (forall key <- s.refreshPromises ::
          var r := s.refreshPromises[key];
          r < |s.refreshes| && s.refreshes[r].credential.Key() == key && IsOpen(s.refreshes[r]))
  }

  /** The refresh has produced the token. */
  ghost predicate Produced<T>(r: Refresh<T>, token: Token<T>) {
    r.progress == Minted(token) || r.progress == Closed(Some(token))
  }

  ghost predicate TokenBacked<T>(s: State<T>, key: string, token: Token<T>) {
    exists r <- s.refreshes :: r.credential.Key() == key && Produced(r, token)
  }

  /** Every token in the cache was produced by a refresh under its key. */
  ghost predicate TokensBacked<T>(s: State<T>) {
    forall key <- s.cachedTokens :: TokenBacked(s, key, s.cachedTokens[key])
  }

  ghost predicate CallBacked<T>(s: State<T>, call: CallRecord<T>) {
    match call.answer
    case Cached(token) =>
      TokenBacked(s, call.credential.Key(), token) && token.expiresAt > call.now + TOKEN_REFRESH_MARGIN_MS
    case Awaiting(r) =>
      r < |s.refreshes| && s.refreshes[r].credential.Key() == call.credential.Key()
  }

  ghost predicate CallsBacked<T>(s: State<T>) {
    forall call <- s.calls :: CallBacked(s, call)
  }

  ghost predicate Inv<T>(s: State<T>) {
    OneFlight(s) && TokensBacked(s) && CallsBacked(s)
  }

  // ---------------------------------------------------------------------------
  // Every step keeps the invariant
  // ---------------------------------------------------------------------------

  lemma OneFlightKept<T>(s: State<T>, step: Step<T>)
    requires OneFlight(s) && Enabled(s, step)
    ensures OneFlight(Next(s, step))
  {
    hide Credential.Key, OneFlight;
    match step
    case Call(c, now) => CallKeepsOneFlight(s, c, now);
    case Mint(r, accessToken, expiresOn, now) =>
      SettlingKeepsOneFlight(s, Next(s, step), r);
    case Reject(r) => SettlingKeepsOneFlight(s, Next(s, step), r);
    case Close(r) => CloseKeepsOneFlight(s, r);
  }

  lemma CallKeepsOneFlight<T>(s: State<T>, c: Credential, now: int)
    requires OneFlight(s)
    ensures OneFlight(Next(s, Call(c, now)))
  {
    hide Credential.Key;
  }

  /** A refresh whose request ends is still open. */
  lemma SettlingKeepsOneFlight<T>(s: State<T>, s': State<T>, r: nat)
    requires OneFlight(s) && r < |s.refreshes| && IsOpen(s.refreshes[r]) && s'.refreshPromises == s.refreshPromises
    requires |s'.refreshes| == |s.refreshes| && IsOpen(s'.refreshes[r])
    requires s'.refreshes[r].credential == s.refreshes[r].credential
    requires forall q | 0 <= q < |s.refreshes| && q != r :: s'.refreshes[q] == s.refreshes[q]
    ensures OneFlight(s')
  {
    hide Credential.Key;
    assert forall q | 0 <= q < |s.refreshes| :: s'.refreshes[q].credential == s.refreshes[q].credential;
  }

  lemma CloseKeepsOneFlight<T>(s: State<T>, r: nat)
    requires OneFlight(s) && Enabled(s, Close(r))
    ensures OneFlight(Next(s, Close(r)))
  {
    hide Credential.Key;
  }

  /** What was produced stays produced. */
  lemma BackingKept<T>(s: State<T>, step: Step<T>, key: string, token: Token<T>)
    requires TokenBacked(s, key, token) && Enabled(s, step)
    ensures TokenBacked(Next(s, step), key, token)
  {
    var r :| r in s.refreshes && r.credential.Key() == key && Produced(r, token);
    var i :| 0 <= i < |s.refreshes| && s.refreshes[i] == r;
    assert Next(s, step).refreshes[i] in Next(s, step).refreshes;
  }

  lemma TokensKept<T>(s: State<T>, step: Step<T>)
    requires TokensBacked(s) && Enabled(s, step)
    ensures TokensBacked(Next(s, step))
  {
    var s' := Next(s, step);
    forall key <- s'.cachedTokens
      ensures TokenBacked(s', key, s'.cachedTokens[key])
    {
      if step.Mint? && key == s.refreshes[step.refresh].credential.Key() {
        assert s'.refreshes[step.refresh] in s'.refreshes;
      } else {
        BackingKept(s, step, key, s.cachedTokens[key]);
      }
    }
  }

  lemma CallsKept<T>(s: State<T>, step: Step<T>)
    requires Inv(s) && Enabled(s, step)
    ensures CallsBacked(Next(s, step))
  {
    hide Credential.Key, TokenBacked;
    var s' := Next(s, step);
    forall call <- s'.calls
      ensures CallBacked(s', call)
    {
      if call in s.calls {
        assert CallBacked(s, call);
        if call.answer.Cached? {
          BackingKept(s, step, call.credential.Key(), call.answer.token);
        }
      } else if call.answer.Cached? {
        BackingKept(s, step, call.credential.Key(), call.answer.token);
      }
    }
  }

  lemma InvKept<T>(s: State<T>, step: Step<T>)
    requires Inv(s) && Enabled(s, step)
    ensures Inv(Next(s, step))
  {
    hide Next, OneFlight, TokensBacked, CallsBacked;
    OneFlightKept(s, step);
    TokensKept(s, step);
    CallsKept(s, step);
  }

  lemma {:induction false} InvHolds<T>(s: State<T>, steps: seq<Step<T>>)
    requires Inv(s) && IsRun(s, steps)
    ensures Inv(After(s, steps))
    decreases |steps|
  {
    hide Next, Inv;
    if steps != [] {
      InvKept(s, steps[0]);
      InvHolds(Next(s, steps[0]), steps[1..]);
    }
  }

  lemma RunsKeepInv<T>(steps: seq<Step<T>>)
    requires IsRun(Initial<T>(), steps)
    ensures Inv(After(Initial<T>(), steps))
  {
    InvHolds(Initial<T>(), steps);
  }

  // ---------------------------------------------------------------------------
  // Every run
  // ---------------------------------------------------------------------------

  /** In every run at most one refresh of a key is pending, and the key has a promise exactly while one is. */
  lemma SingleRefresh<T>(steps: seq<Step<T>>, key: string)
    requires IsRun(Initial<T>(), steps)
    ensures var s := After(Initial<T>(), steps);
      && (forall q, r | 0 <= q < r < |s.refreshes|
            && s.refreshes[q].credential.Key() == s.refreshes[r].credential.Key() == key ::
            !(IsOpen(s.refreshes[q]) && IsOpen(s.refreshes[r])))
      && (forall r: nat ::
            (key in s.refreshPromises && s.refreshPromises[key] == r)
              <==> (r < |s.refreshes| && s.refreshes[r].credential.Key() == key && IsOpen(s.refreshes[r])))
  {
    RunsKeepInv(steps);
  }

  /** A finishing refresh removes its own promise, and no other one. */
  lemma ClosingRemovesOnlyItself<T>(steps: seq<Step<T>>, r: nat)
    requires IsRun(Initial<T>(), steps) && Enabled(After(Initial<T>(), steps), Close(r))
    ensures var s := After(Initial<T>(), steps);
      var key := s.refreshes[r].credential.Key();
      && key in s.refreshPromises && s.refreshPromises[key] == r
      && Next(s, Close(r)).refreshPromises == s.refreshPromises - {key}
      && forall q: nat | q < |s.refreshes| && q != r && IsOpen(s.refreshes[q]) ::
           && s.refreshes[q].credential.Key() in Next(s, Close(r)).refreshPromises
           && Next(s, Close(r)).refreshPromises[s.refreshes[q].credential.Key()] == q
  {
    RunsKeepInv(steps);
  }

  /** A token served from the cache has more than the margin left, and was produced by a refresh under its key. */
  lemma CachedTokensAreFresh<T>(steps: seq<Step<T>>, c: nat)
    requires IsRun(Initial<T>(), steps)
    requires var s := After(Initial<T>(), steps); c < |s.calls| && s.calls[c].answer.Cached?
    ensures var s := After(Initial<T>(), steps);
      var call := s.calls[c];
      && call.answer.token.expiresAt > call.now + TOKEN_REFRESH_MARGIN_MS
      && exists r <- s.refreshes :: r.credential.Key() == call.credential.Key() && Produced(r, call.answer.token)
  {
    RunsKeepInv(steps);
    assert CallBacked(After(Initial<T>(), steps), After(Initial<T>(), steps).calls[c]);
  }

  /** A new token is served to every call of its key until only the margin is left, or a newer one arrives. */
  lemma MintedTokensAreServed<T>(s: State<T>, r: nat, accessToken: T, expiresOn: Option<int>, mintedAt: int,
                                 c: Credential, now: int)
    requires Enabled(s, Mint(r, accessToken, expiresOn, mintedAt)) && c.Key() == s.refreshes[r].credential.Key()
    ensures var expiresAt := if expiresOn.Some? then expiresOn.value else mintedAt + 55 * 60 * 1000;
      var s' := Next(Next(s, Mint(r, accessToken, expiresOn, mintedAt)), Call(c, now));
      s'.calls[|s.calls|].answer == Cached(Token(accessToken, expiresAt)) <==> now + 5 * 60 * 1000 < expiresAt
  {}

  /** Everyone who waits for a refresh gets the token it brings, with the expiry that was reported or else in
      55 minutes, or an error if the request fails. */
  lemma WaitersGetTheOutcome<T>(s: State<T>, r: nat, accessToken: T, expiresOn: Option<int>, mintedAt: int, c: nat)
    requires Enabled(s, Mint(r, accessToken, expiresOn, mintedAt)) && c < |s.calls| && s.calls[c].answer == Awaiting(r)
    ensures ReplyTo(s, c) == None && Enabled(s, Reject(r))
    ensures var expiresAt := if expiresOn.Some? then expiresOn.value else mintedAt + 55 * 60 * 1000;
      var minted := Next(s, Mint(r, accessToken, expiresOn, mintedAt));
      Enabled(minted, Close(r)) && ReplyTo(Next(minted, Close(r)), c) == Some(Success(Token(accessToken, expiresAt)))
    ensures var failed := Next(s, Reject(r));
      Enabled(failed, Close(r)) && ReplyTo(Next(failed, Close(r)), c) == Some(Error)
  {}

  /** A failed refresh frees its slot: the next call of the key refreshes again, unless the cache can serve it. */
  lemma FailureAllowsRetry<T>(steps: seq<Step<T>>, r: nat, c: Credential, now: int)
    requires IsRun(Initial<T>(), steps)
    requires var s := After(Initial<T>(), steps);
      && Enabled(s, Close(r)) && s.refreshes[r].progress.Failed? && c.Key() == s.refreshes[r].credential.Key()
      && (c.Key() in s.cachedTokens ==> s.cachedTokens[c.Key()].expiresAt <= now + TOKEN_REFRESH_MARGIN_MS)
    ensures var s := After(Initial<T>(), steps);
      var s' := Next(Next(s, Close(r)), Call(c, now));
      && s'.calls[|s.calls|].answer == Awaiting(|s.refreshes|)
      && s'.refreshes[|s.refreshes|] == Refresh(c, Running)
  {}

  /** While a refresh is pending, calls of its key wait for it or are served from the cache; none refreshes. */
  lemma CallsJoinThePendingRefresh<T>(steps: seq<Step<T>>, r: nat, c: Credential, now: int)
    requires IsRun(Initial<T>(), steps)
    requires var s := After(Initial<T>(), steps);
      r < |s.refreshes| && IsOpen(s.refreshes[r]) && c.Key() == s.refreshes[r].credential.Key()
    ensures var s := After(Initial<T>(), steps);
      var s' := Next(s, Call(c, now));
      && s'.refreshes == s.refreshes && s'.refreshPromises == s.refreshPromises
      && (s'.calls[|s.calls|].answer == Awaiting(r) || s'.calls[|s.calls|].answer.Cached?)
  {
    RunsKeepInv(steps);
  }

  /** All callers of one refresh get the same reply: its token, or an error when it failed. */
  lemma OneRefreshOneReply<T>(steps: seq<Step<T>>, r: nat, c: nat)
    requires IsRun(Initial<T>(), steps)
    requires var s := After(Initial<T>(), steps);
      && r < |s.refreshes| && s.refreshes[r].progress.Closed?
      && c < |s.calls| && s.calls[c].answer == Awaiting(r)
    ensures var s := After(Initial<T>(), steps);
      && s.refreshes[r].credential.Key() == s.calls[c].credential.Key()
      && ReplyTo(s, c) == Some(
           match s.refreshes[r].progress.result
           case Some(token) => Success(token)
           case None => Error)
  {
    RunsKeepInv(steps);
    assert CallBacked(After(Initial<T>(), steps), After(Initial<T>(), steps).calls[c]);
  }

  /** A call whose credential has no colon gets only tokens that were requested with its own arguments. */
  lemma TokensMatchTheCredential<T>(steps: seq<Step<T>>, c: nat)
    requires IsRun(Initial<T>(), steps)
    requires var s := After(Initial<T>(), steps);
      && c < |s.calls| && ReplyTo(s, c).Some? && ReplyTo(s, c).value.Success?
      && NoColon(s.calls[c].credential.Subscription()) && NoColon(s.calls[c].credential.Tenant())
    ensures var s := After(Initial<T>(), steps);
      exists r <- s.refreshes ::
        && r.credential.AzArguments() == s.calls[c].credential.AzArguments()
        && Produced(r, ReplyTo(s, c).value.token)
  {
    RunsKeepInv(steps);
    var s := After(Initial<T>(), steps);
    var call := s.calls[c];
    assert CallBacked(s, call);
    KeyIsUniqueExactly(call.credential);
    var token := ReplyTo(s, c).value.token;
    assert TokenBacked(s, call.credential.Key(), token) by {
      if call.answer.Awaiting? {
        assert s.refreshes[call.answer.refresh] in s.refreshes;
      }
    }
    var r :| r in s.refreshes && r.credential.Key() == call.credential.Key() && Produced(r, token);
    assert r.credential.AzArguments() == call.credential.AzArguments();
  }

  /** Every token that a call with this credential gets was requested with its own arguments. */
  ghost predicate GetsOwnTokens<T>(s: State<T>, credential: Credential) {
    forall c: nat | c < |s.calls| && s.calls[c].credential == credential
        && ReplyTo(s, c).Some? && ReplyTo(s, c).value.Success? ::
      exists r <- s.refreshes ::
        r.credential.AzArguments() == credential.AzArguments() && Produced(r, ReplyTo(s, c).value.token)
  }

  /** A run in which one credential gets the token that was requested for another one under its key. */
  lemma ForeignTokenIsServed<T>(c: Credential, d: Credential, accessToken: T) returns (steps: seq<Step<T>>)
    requires d.Key() == c.Key() && d.AzArguments() != c.AzArguments()
    ensures IsRun(Initial<T>(), steps) && !GetsOwnTokens(After(Initial<T>(), steps), c)
  {
    hide Credential.Key, Credential.AzArguments;
    var first, second, third := Step<T>.Call(d, 0), Step<T>.Mint(0, accessToken, Some(1000000), 0), Step<T>.Call(c, 0);
    steps := [first, second, third];
    var s0 := Initial<T>();
    var s1 := Next(s0, first);
    var s2 := Next(s1, second);
    var s3 := Next(s2, third);
    assert steps[1..] == [second, third] && steps[1..][1..] == [third] && steps[1..][1..][1..] == [];
    assert IsRun(s2, [third]) && After(s2, [third]) == s3;
    assert IsRun(s1, [second, third]) && After(s1, [second, third]) == s3;
    var token := Token(accessToken, 1000000);
    assert s3.refreshes == [Refresh(d, Minted(token))];
    assert s3.calls[1] == CallRecord(c, 0, Cached(token));
    assert ReplyTo(s3, 1) == Some(Success(token));
  }

  /** In all runs a credential gets only tokens requested with its own arguments exactly when neither of
      its parts contains a colon. */
  lemma OwnTokensExactly<T(!new)>(c: Credential, accessToken: T)
    ensures (forall steps: seq<Step<T>> | IsRun(Initial<T>(), steps) :: GetsOwnTokens(After(Initial<T>(), steps), c))
       <==> NoColon(c.Subscription()) && NoColon(c.Tenant())
  {
    hide Credential.Key, Credential.AzArguments, NoColon;
    if NoColon(c.Subscription()) && NoColon(c.Tenant()) {
      forall steps: seq<Step<T>> | IsRun(Initial<T>(), steps)
        ensures GetsOwnTokens(After(Initial<T>(), steps), c)
      {
        var s := After(Initial<T>(), steps);
        forall n: nat | n < |s.calls| && s.calls[n].credential == c
            && ReplyTo(s, n).Some? && ReplyTo(s, n).value.Success?
          ensures exists r <- s.refreshes ::
            r.credential.AzArguments() == c.AzArguments() && Produced(r, ReplyTo(s, n).value.token)
        {
          TokensMatchTheCredential(steps, n);
        }
      }
    } else {
      var d := OtherCredential(c);
      var steps := ForeignTokenIsServed(c, d, accessToken);
    }
  }

  /** With the subscription `a:b` a call is served the token of subscription `a`. */
  lemma ColonsCollide<T>(accessToken: T) returns (steps: seq<Step<T>>)
    ensures IsRun(Initial<T>(), steps)
    ensures !GetsOwnTokens(After(Initial<T>(), steps), Credential(Some("a:b"), Some("c")))
  {
    var c := Credential(Some("a:b"), Some("c"));
    var d := Credential(Some("a"), Some("b:c"));
    assert c.Key() == "a:b:c" == d.Key();
    assert c.AzArguments()[1] == "a:b" && |d.AzArguments()[1]| == 1;
    steps := ForeignTokenIsServed(c, d, accessToken);
  }
}
