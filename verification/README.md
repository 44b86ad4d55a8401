# Verified models of the plugins

A Dafny project about the parts of this repository that keep state, parse text or rewrite
configuration. `dafny verify dfyconfig.toml` checks all of it.

- `ToggleStore.dfy`, `ToggleProcess.dfy`: the session toggles of active memory. Calls are tickets in the
  chain of an asynchronous lock; every interleaving of their steps is a run. The process is the same as a
  class, one method for the code between two awaits.
- `RecallCache.dfy`, `RecallQueries.dfy`: the recall cache, an insertion-ordered map with a time to live and a cap,
  proved against the history of all sets, and which results a query of an agent is served.
- `BedrockDiscovery.dfy`, `BedrockKeys.dfy`, `BedrockProcess.dfy`: the single-flight cache of the Bedrock
  discovery as a transition system, its keys, and the code between the awaits.
- `FoundryAuth.dfy`, `FoundryProcess.dfy`: the same for the Entra tokens of Microsoft Foundry.
- `KimiToolCalls.dfy`, `KimiMessages.dfy`: the parser of tagged tool calls with a printer for it, and the
  rewriting of messages in place.
- `PairNotify.dfy`, `PairNotifyRuns.dfy`, `PairNotifyReading.dfy`, `PairNotifyHistory.dfy`, `PairNotifyKeys.dfy`,
  `PairNotifyProcess.dfy`: the pairing notifier: one poll with any outcome of its sends, the file with all its
  normalisation, runs of polls and commands, what is read from the file and from a command, what marks and subscribers
  say about the past of a run, when chats share a key, and the loops.
- `JsonRecords.dfy`, `BedrockMigration.dfy`, `ElevenLabsMigration.dfy`: merging what is missing, and the
  two migrations that use it. Records know the names that every JavaScript object inherits.
- `ClaudeArgs.dfy`, `ClaudeArgsPlain.dfy`, `ClaudeModelMap.dfy`: the Claude command line's arguments, as the two passes
  over options with values and told on the arguments themselves, and the model map.
- `AnthropicAuth.dfy`, `AnthropicDefaults.dfy`, `AnthropicConfig.dfy`: the way to sign in, the defaults of the agents
  that depend on it, and the whole configuration with them.
- `MatrixChunks.dfy`, `Utf16.dfy`, `BoundedOutput.dfy`: cutting text, and keeping the end of an output.
- `Text.dfy`, `UnitText.dfy`: trimming, searching, and what white space is, for characters and for UTF-16 units.
- `Sequences.dfy`: equations between slices.

A loop or a mutating method of the source is a method here. Its contract ties it to a function or a
transition, and the lemmas are about those.

## What turned out not to hold

Each of these comes with a lemma whose statement gives the input, and a lemma that says exactly when the property
does hold.

- Two Foundry credentials with colons in them can share a cache key, so that one is served the token of the other
  (`FoundryAuth.ColonsCollide`, `FoundryAuth.OwnTokensExactly`).
- A one-shot subscriber that is armed again still gets requests from before that: arming a target that is armed
  changes nothing (`PairNotifyHistory.SecondArmingDoesNotCount`, `PairNotifyHistory.LaterArmingCountsExactly`). Which
  arming counts says `PairNotifyHistory.ArmedExactly`.
- Different chats can share a subscription key, because its parts may contain the bar that joins them and a thread
  number reads like a name (`PairNotifyKeys.BarsCollide`, `PairNotifyKeys.NumberAndNameCollide`,
  `PairNotifyKeys.KeyFixesPartsExactly`, `PairNotifyKeys.SharedKeyExactly`). Then `off` in one ends the subscription of
  the other (`PairNotifyKeys.OffEndsTheOther`).
- A chat whose account or thread is not trimmed subscribes twice, because targets are trimmed only when the file is
  read (`PairNotifyRuns.UntrimmedAccountSubscribesTwice`, `PairNotifyRuns.EnabledTwiceIsDistinctExactly`).
- The Bedrock migration changes the settings in effect when the plugin sets a field to undefined
  (`BedrockMigration.UndefinedSettingIsFilled`), when a legacy field has a reserved or inherited name
  (`BedrockMigration.SpecialNameIsLost`), or when a nested record is filled
  (`BedrockMigration.InnerFillIsReportedAsSet`), and else not (`BedrockMigration.EffectiveSettingsAreKeptExactly`). In
  the last case it reports that nothing was missing, because it compares records that share their inner ones
  (`BedrockMigration.FilledIsReportedExactly`).
- The ElevenLabs migration stays undone when the only provider has an empty id, although its report speaks of several
  providers (`ElevenLabsMigration.EmptyProviderIdIsSkipped`, `ElevenLabsMigration.SkippedExactly`).
- `--permission-mode=` with nothing behind it counts as a permission mode (`ClaudeArgs.EmptyModeIsKept`,
  `ClaudeArgs.ModesAreProperExactly`).
- When an agent is named with a colon, recall keys of different queries can be the same
  (`RecallQueries.KeyStandsForOneQueryExactly`). Agents without colons do not share any
  (`RecallQueries.SharedKeyExactly`).

One guard is latent: an empty oldest key would stop the eviction of the recall cache (`RecallCache.EmptyKeyBreaksTheCap`,
`RecallCache.SetRespectsTheCap`), but the keys that the plugin builds are never empty, and with those the cap holds in
every run (`RecallCache.RunsAgree`).

## Model

| member | source | states |
|---|---|---|
| `ToggleStore.CriticalSectionsAreSerial` | extensions/active-memory/index.ts:148-172 | In every run of calls, steps and failures, two tasks on one path are never in the lock together, and a task enters only when all earlier calls on its path are over |
| `ToggleStore.FileIsTheFoldOfSuccesses` | extensions/active-memory/index.ts:165-172 | In every run, what an unlocked reader gets from the file is the initial store with exactly the toggles that went through so far, once each, in call order |
| `ToggleStore.SuccessesOnlyGrow` | extensions/active-memory/index.ts:390-406 | Whatever steps follow, the successful toggles that an earlier reader saw are a prefix of those that a later reader sees |
| `ToggleStore.ReadersSeeTheLastSuccess` | extensions/active-memory/index.ts:371-388 | In every run a session counts as disabled exactly when its last successful toggle disabled it, or, without one, when the initial file did |
| `ToggleStore.LastToggleDecides` | extensions/active-memory/index.ts:390-406 | In a fold of toggles the last one of a session decides, with its own time stamp, and the other sessions do not matter |
| `ToggleStore.ReadBack` | extensions/active-memory/index.ts:326-369 | Reading the file that a task wrote gives the store it had read with its toggle applied; empty and blank-keyed stores included |
| `ToggleStore.ReadExactly` | extensions/active-memory/index.ts:326-351 | What is read from any file are exactly the entries under keys that are not blank and that say disabled, with their times |
| `ToggleStore.DisabledExactly` | extensions/active-memory/index.ts:371-381 | A session counts as disabled exactly when the file has an entry that says so under its trimmed key, and that is not empty |
| `ToggleStore.FailureFreesTheLock` | extensions/active-memory/index.ts:148-163 | A task that throws still releases: the next call in line can enter, and no file has changed |
| `ToggleStore.OldestCallCanMove` | extensions/active-memory/index.ts:148-163 | In every run the oldest unfinished call of any path can take a step, so no lock is ever stuck |
| `ToggleStore.RunsEnd` | extensions/active-memory/index.ts:148-163 | Without new calls, every run of steps ends after at most the work that is left |
| `ToggleStore.StuckExactlyWhenDone` | extensions/active-memory/index.ts:148-163 | A run that only new calls could extend has ended every call, and the other way round; with the bound on runs, every call is over once no more calls come |
| `ToggleProcess.Process.Call` | extensions/active-memory/index.ts:165-172 | Looking up or making the lock and taking the next place in its chain is the call step of the protocol |
| `ToggleProcess.Process.Load` | extensions/active-memory/index.ts:396-404 | Reading the store and changing the copy is the load step |
| `ToggleProcess.Process.Rename` | extensions/active-memory/index.ts:360-369 | Putting the new file in place is the rename step, and keeps the invariant of the protocol |
| `ToggleProcess.Process.Fail` | extensions/active-memory/index.ts:360-369 | A failed write leaves the file as it was |
| `ToggleProcess.Process.Release` | extensions/active-memory/index.ts:148-163 | The release in `finally` ends a call after success and after failure |
| `ToggleProcess.Process.IsSessionDisabled` | extensions/active-memory/index.ts:371-388 | An unlocked read at any moment returns what the successful toggles add up to, and false for a blank key |
| `ToggleProcess.Process.SetSessionDisabled` | extensions/active-memory/index.ts:390-406 | A call that nothing interrupts applies its toggle, or nothing when the write throws, touches no other file, and leaves the lock free |
| `RecallCache.RunsAgree` | extensions/active-memory/index.ts:786-822 | After every run of gets and sets under a clock that never goes back, each entry is the latest set of its key, in the order of the sets; every other latest set has expired or has at least 1000 other keys set after it; and there are at most 1000 entries |
| `RecallCache.SetKeepsAgreement` | extensions/active-memory/index.ts:798-822 | A set keeps the cache in agreement with the history that it extends |
| `RecallCache.GetKeepsAgreement` | extensions/active-memory/index.ts:786-796 | A get keeps the cache in agreement with the history, also when it drops an expired entry |
| `RecallCache.ReadsSeeTheLatestWrite` | extensions/active-memory/index.ts:786-796 | A hit is the value of the latest set of the key, inside its time to live; a miss means never set, expired, or at least 1000 other distinct keys set since |
| `RecallCache.GetsSeeTheLatestWrite` | extensions/active-memory/index.ts:786-796 | In every run a get hits with the latest write under its key inside its time to live, and misses only if there is none, it has expired, or at least 1000 other distinct keys were written since |
| `RecallCache.SetRespectsTheCap` | extensions/active-memory/index.ts:798-814 | A set leaves at most 1000 entries exactly when none of the surplus oldest keys is the empty string |
| `RecallCache.EmptyKeyBreaksTheCap` | extensions/active-memory/index.ts:807-813 | A cache with an empty oldest key that holds 1001 entries after a set |
| `RecallQueries.SharedKeyExactly` | extensions/active-memory/index.ts:776-784 | Two queries of agents without colons in their ids share a key exactly when agent, session (its key, or else its id, or else `none`) and hash are the same; the session may have colons |
| `RecallQueries.KeyStandsForOneQueryExactly` | extensions/active-memory/index.ts:776-784 | For agents of any name a key stands for one query exactly when neither its agent nor its session has a colon |
| `RecallQueries.GetsSeeTheLatestSet` | extensions/active-memory/index.ts:1289-1295 | In every run of agents without colons a get is served the result of the latest set for the same agent, session and query, inside its time to live, and nothing only if there is no such set, it has expired, or at least 1000 other keys were set since |
| `RecallQueries.AgentsDoNotShare` | extensions/active-memory/index.ts:1289-1295 | After a set for agent `main` without a session, `main` is served it and `work`, with the same query, is not |
| `RecallCache.Cache.GetCachedResult` | extensions/active-memory/index.ts:786-796 | The lookup with its deletion of an expired entry returns the hit of the specification, and the object still agrees with all sets |
| `RecallCache.Cache.Sweep` | extensions/active-memory/index.ts:816-822 | The sweeping loop deletes exactly the expired entries and keeps the others in order |
| `RecallCache.Cache.EvictOldest` | extensions/active-memory/index.ts:807-813 | The eviction loop, with its early exit at an empty key, removes exactly the oldest surplus entries |
| `RecallCache.Cache.SetCachedResult` | extensions/active-memory/index.ts:798-814 | Sweep, delete, insert and evict leave the cache of the specification and keep it in agreement with the sets |
| `BedrockDiscovery.SingleFlight` | extensions/amazon-bedrock/discovery.ts:309-429 | In every run a key with a refresh interval has at most one fetch whose owner has not resumed, and its entry is in flight exactly while there is one, with that fetch |
| `BedrockDiscovery.ServedListsAreFresh` | extensions/amazon-bedrock/discovery.ts:331-339 | In every run a list served from the cache at time t comes from a resumed fetch of the same key that started at some s with t < s + refresh * 1000; clocks may jump |
| `BedrockDiscovery.FetchesAreSpaced` | extensions/amazon-bedrock/discovery.ts:401-416 | In every run the fetch after a successful one starts at least one refresh interval after the start of that one |
| `BedrockDiscovery.FailureIsForgotten` | extensions/amazon-bedrock/discovery.ts:417-428 | When the owner of a failed fetch resumes, the key has no entry and the next call fetches again |
| `BedrockDiscovery.SuccessIsServed` | extensions/amazon-bedrock/discovery.ts:408-416 | Right after the owner of a successful fetch resumes, a call is served its list exactly until one interval after the start of the fetch |
| `BedrockDiscovery.CallsJoinTheOpenFetch` | extensions/amazon-bedrock/discovery.ts:331-339 | While a fetch is open every further call of its key joins it and starts none |
| `BedrockDiscovery.NoIntervalNoCache` | extensions/amazon-bedrock/discovery.ts:315-342 | Without a refresh interval every call fetches for itself, and the key never has an entry |
| `BedrockDiscovery.EveryFetchHasOneOwner` | extensions/amazon-bedrock/discovery.ts:344-429 | In every run the owning calls are the fetches, one each, in order |
| `BedrockDiscovery.CallersGetTheOutcome` | extensions/amazon-bedrock/discovery.ts:344-429 | The list that a fetch brings is what all its callers get; if it fails, its owner gets an empty list and those who joined see the rejection; before it settles nobody gets anything |
| `BedrockDiscovery.OneFetchOneAnswer` | extensions/amazon-bedrock/discovery.ts:336-338 | All callers of a successful fetch get the same list; of a failed one the owner gets an empty list and those who joined see the rejection |
| `BedrockKeys.SameProvidersSameKey` | extensions/amazon-bedrock/discovery.ts:51-62 | Two provider filters give the same part of the cache key exactly when they name the same providers, in any order, case, padding and number |
| `BedrockKeys.SortedIsUnique` | extensions/amazon-bedrock/discovery.ts:55-61 | A sorted list without duplicates is determined by its elements |
| `BedrockKeys.NormalizedMeaning` | extensions/amazon-bedrock/discovery.ts:51-62 | The normalised filter lists exactly the providers that some entry names, trimmed and in lower case, in order and each once |
| `BedrockKeys.LessMeaning` | extensions/amazon-bedrock/discovery.ts:61-61 | The order compares the first characters that differ, and puts a text before its extensions |
| `BedrockProcess.Discovery.Discover` | extensions/amazon-bedrock/discovery.ts:329-406 | The call up to its first await does the call step of the protocol; when the client cannot be made it throws before it has touched the cache |
| `BedrockProcess.Discovery.Settle` | extensions/amazon-bedrock/discovery.ts:344-399 | The end of the requests changes only the fetch |
| `BedrockProcess.Discovery.Resume` | extensions/amazon-bedrock/discovery.ts:408-428 | The owner stores the list or drops the entry, as the resume step says, and returns what its caller gets |
| `FoundryAuth.SingleRefresh` | extensions/microsoft-foundry/runtime.ts:73-95 | In every run at most one refresh of a key is pending, and the key has a promise exactly while one is, that one |
| `FoundryAuth.ClosingRemovesOnlyItself` | extensions/microsoft-foundry/runtime.ts:83-89 | A finishing refresh removes its own promise and never another one |
| `FoundryAuth.CachedTokensAreFresh` | extensions/microsoft-foundry/runtime.ts:73-80 | In every run a token served from the cache has more than five minutes left, and a refresh under the same key has produced it |
| `FoundryAuth.MintedTokensAreServed` | extensions/microsoft-foundry/runtime.ts:28-35 | A minted token is served from the cache exactly while more than five minutes of it are left |
| `FoundryAuth.FailureAllowsRetry` | extensions/microsoft-foundry/runtime.ts:82-90 | A failed refresh frees its slot: the next call refreshes again unless the cache can serve it |
| `FoundryAuth.CallsJoinThePendingRefresh` | extensions/microsoft-foundry/runtime.ts:81-91 | While a refresh is pending no call of its key starts another: it waits for it or is served from the cache |
| `FoundryAuth.OneRefreshOneReply` | extensions/microsoft-foundry/runtime.ts:91-101 | All callers of one refresh get the same token, or all get the error |
| `FoundryAuth.WaitersGetTheOutcome` | extensions/microsoft-foundry/runtime.ts:24-35 | Everyone who waits for a refresh gets the token it mints, with the reported expiry or else 55 minutes, or an error if the request fails |
| `FoundryAuth.KeyIsUniqueExactly` | extensions/microsoft-foundry/shared-runtime.ts:10-15 | A credential shares its key with no other one exactly when neither of its parts contains a colon |
| `FoundryAuth.ArgumentsMeaning` | extensions/microsoft-foundry/cli.ts:118-123 | A token is asked for by subscription, or without one by tenant, or without either for the default account; empty texts count as none |
| `FoundryAuth.KeyFixesArgumentsExactly` | extensions/microsoft-foundry/cli.ts:110-125 | All credentials under the key of a credential ask for the same token exactly when neither of its parts contains a colon |
| `FoundryAuth.TokensMatchTheCredential` | extensions/microsoft-foundry/cli.ts:110-125 | In every run a call whose credential has no colon gets only tokens requested with its own command line arguments |
| `FoundryAuth.OwnTokensExactly` | extensions/microsoft-foundry/runtime.ts:69-91 | A credential gets in all runs only tokens requested with its own command line arguments exactly when neither of its parts contains a colon |
| `FoundryAuth.ForeignTokenIsServed` | extensions/microsoft-foundry/runtime.ts:73-80 | For two credentials under one key that ask for different tokens, a run in which one is served the token of the other |
| `FoundryAuth.ColonsCollide` | extensions/microsoft-foundry/shared-runtime.ts:10-15 | A run in which subscription `a:b` is served the token of subscription `a` |
| `FoundryProcess.TokenCache.Prepare` | extensions/microsoft-foundry/runtime.ts:69-91 | The call up to its await does the call step of the protocol and keeps its invariant |
| `FoundryProcess.TokenCache.Mint` | extensions/microsoft-foundry/runtime.ts:28-35 | The token is cached until its expiry, or for 55 minutes when none is known |
| `FoundryProcess.TokenCache.Reject` | extensions/microsoft-foundry/runtime.ts:24-28 | A failed request caches nothing |
| `FoundryProcess.TokenCache.Close` | extensions/microsoft-foundry/runtime.ts:83-89 | The clean-up removes the promise of the refresh and hands its result to the callers |
| `KimiToolCalls.MarkersDoNotOverlap` | extensions/kimi-coding/stream.ts:5-9 | No two markers, and no marker with itself, overlap at different places of a text |
| `KimiToolCalls.ParsingUndoesPrinting` | extensions/kimi-coding/stream.ts:22-88 | Parsing a printed section, with any white space between and around the calls, returns exactly the printed calls, in order |
| `KimiToolCalls.ParserAcceptsExactlyPrintedSections` | extensions/kimi-coding/stream.ts:22-88 | The parser accepts a text and reads some calls exactly when the text is a printing of at least one call and of just those |
| `KimiToolCalls.StripCounterMeaning` | extensions/kimi-coding/stream.ts:18-20 | The name is the id without a final colon and digits if it has them, and the id itself otherwise |
| `KimiToolCalls.ReadCallMeaning` | extensions/kimi-coding/stream.ts:50-82 | A call is read exactly from a non-empty trimmed id with a non-empty name and arguments that are a JSON object |
| `KimiToolCalls.SectionHasRoom` | extensions/kimi-coding/stream.ts:25-30 | In a text that starts and ends with the section markers the two do not overlap |
| `KimiToolCalls.CallEndsInside` | extensions/kimi-coding/stream.ts:56-59 | A call that ends by the end of the section leaves the cursor inside it, although the bound is tested before the end marker |
| `KimiToolCalls.ParseTaggedToolCalls` | extensions/kimi-coding/stream.ts:22-88 | The cursor loop computes the parse of the specification; it ends on every input and never reads past the section |
| `KimiToolCalls.ParseOneCall` | extensions/kimi-coding/stream.ts:40-84 | One turn of the loop cuts one call at the first markers and moves the cursor strictly forward |
| `KimiToolCalls.SkipWhitespace` | extensions/kimi-coding/stream.ts:34-36 | The inner loop stops at the first character that is no white space, or at the end of the section |
| `KimiMessages.RewriteMessage` | extensions/kimi-coding/stream.ts:90-132 | The rewriter replaces the content of the message in place, turns `stop` into `toolUse` exactly when some block parses, and otherwise leaves the message alone |
| `KimiMessages.RewriteEvent` | extensions/kimi-coding/stream.ts:144-160 | Partial and final message of an event are rewritten as by one rewriting each, also when they are one object |
| `KimiMessages.RewriteIsIdempotent` | extensions/kimi-coding/stream.ts:90-132 | Rewriting a second time changes nothing |
| `KimiMessages.ChangesExactlyWhenSomeParses` | extensions/kimi-coding/stream.ts:100-125 | The content changes exactly when some block parses |
| `KimiMessages.RewriteInPlace` | extensions/kimi-coding/stream.ts:102-121 | Every block is replaced where it stands: what is before it and behind it is rewritten on its own |
| `KimiMessages.UnparsedBlocksSurvive` | extensions/kimi-coding/stream.ts:102-121 | Apart from tool calls the rewritten content holds exactly the blocks that do not parse, in order |
| `KimiMessages.BlockMeaning` | extensions/kimi-coding/stream.ts:102-121 | A text block that parses becomes one block for each of its calls, all of them and in order; every other block stays as it is |
| `KimiMessages.RewritingKeepsTheCalls` | extensions/kimi-coding/stream.ts:102-121 | The calls of rewritten content are, in order, those that stood there as blocks and those parsed from the texts, none lost and none added |
| `KimiMessages.NothingParsesAfterwards` | extensions/kimi-coding/stream.ts:113-120 | No block of rewritten content parses |
| `PairNotify.TickAttempts` | extensions/device-pair/notify.ts:239-335 | A poll attempts, once and in order, every pending request without a live mark at every persistent subscriber, and at every one-shot subscriber if it has a positive stamp at or after the time that one was added, except copies of a request that got through before, and nothing else |
| `PairNotify.TickMarks` | extensions/device-pair/notify.ts:290-335 | After a poll a request is marked exactly when its mark was live, or when some subscriber just got it; what nobody received has no mark |
| `PairNotify.TickSubscribers` | extensions/device-pair/notify.ts:337-345 | A poll removes exactly the one-shot subscribers with a successful send in it, and keeps the others in order |
| `PairNotify.PrunedExactly` | extensions/device-pair/notify.ts:301-306 | Pruning keeps exactly the marks of pending requests that are at most 24 hours old |
| `PairNotifyRuns.NoRequestIsSentAgain` | extensions/device-pair/notify.ts:290-351 | Over every run from no file: once a send of a request id succeeds, no later poll sends that id, as long as it was pending in every poll since and at most 24 hours have passed |
| `PairNotifyRuns.MarkedRequestsArePending` | extensions/device-pair/notify.ts:301-306 | In every run the ids marked after a poll are among its pending ids |
| `PairNotifyRuns.FileAgreesWithMemory` | extensions/device-pair/notify.ts:347-350 | In every run the file read back at any time is what the last event left in memory, whether or not it was written, and all subscriber keys are distinct |
| `PairNotifyRuns.StepKeepsGood` | extensions/device-pair/notify.ts:290-351 | An event that skips the write has changed nothing, so that the file still holds the state |
| `PairNotifyRuns.SurvivesExactlyWhenCanonical` | extensions/device-pair/notify.ts:82-148 | A state is read back as it was written exactly when its texts are trimmed and not empty, its marks positive and its marked ids distinct |
| `PairNotifyRuns.ReadIsCanonical` | extensions/device-pair/notify.ts:82-134 | Whatever stands in the file, the state that is read is canonical |
| `PairNotifyRuns.UpsertMeaning` | extensions/device-pair/notify.ts:187-209 | `on` and `once` give the target one entry in that mode, keep every other entry in its place, and report a change exactly when there is one |
| `PairNotifyRuns.RemoveMeaning` | extensions/device-pair/notify.ts:425-434 | `off` removes the entry of the target and no other, and keeps the order |
| `PairNotifyRuns.EnabledTwiceIsDistinctExactly` | extensions/device-pair/notify.ts:165-209 | Subscribing a chat twice leaves distinct keys exactly when trimming its account and thread does not change its key |
| `PairNotifyRuns.UntrimmedAccountSubscribesTwice` | extensions/device-pair/notify.ts:165-209 | A chat whose account starts with a space gets two entries under one key |
| `PairNotifyReading.CommandTargetMeaning` | extensions/device-pair/notify.ts:165-185 | A command has a target exactly in a Telegram chat with a usable name: the first non-blank one of sender, from and to, trimmed; an empty account is dropped, the thread is taken as it is |
| `PairNotifyReading.ReadOne` | extensions/device-pair/notify.ts:95-117 | An item of the file is one subscriber exactly when its chat is a non-blank text: texts are trimmed and blank ones dropped, the mode is one-shot or else persistent, and a missing time is that of the reading |
| `PairNotifyReading.ReadConcat` | extensions/device-pair/notify.ts:90-117 | Items are read one by one, so that one of no use does not hide those behind it |
| `PairNotifyReading.ReadMarksExactly` | extensions/device-pair/notify.ts:119-131 | A request has the mark of the last item with its trimmed id and a positive time, and otherwise none |
| `PairNotifyReading.WrittenExactlyWhenChanged` | extensions/device-pair/notify.ts:347-350 | In every run an event writes the file exactly when it has changed the state; otherwise the file stays as it is, and a missing one missing |
| `PairNotifyHistory.MarkedExactly` | extensions/device-pair/notify.ts:301-335 | In every run a request has a mark with some time exactly when a poll of that time has got it through to somebody, and it was pending and at most 24 hours old in every poll since |
| `PairNotifyHistory.SentExactly` | extensions/device-pair/notify.ts:239-335 | In every run a poll sends a pending request to a subscriber exactly when no earlier poll has got it through, or it has been absent, or its mark too old, in some poll since, and, for a one-shot subscriber only, it has a positive stamp at or after the time that one was added; a persistent subscriber is sent it whatever its stamp |
| `PairNotifyHistory.SentToOneShotsExactly` | extensions/device-pair/notify.ts:239-253 | In every run a one-shot subscriber is sent a request that is still to be received exactly when that has a positive stamp at or after the event that armed the subscriber |
| `PairNotifyHistory.UnreceivedRequestsAreRetried` | extensions/device-pair/notify.ts:239-335 | In every run an id that nobody has received has no mark, and every poll where it is pending sends it to every persistent subscriber, and to the one-shot ones added no later than its positive stamp |
| `PairNotifyHistory.OneShotsGetOnlyNewRequests` | extensions/device-pair/notify.ts:232-253 | In every run whatever a poll sends to a one-shot subscriber is stamped at or after the event that armed it, which nothing has ended since |
| `PairNotifyHistory.ArmedExactly` | extensions/device-pair/notify.ts:187-209 | In every run a one-shot subscriber is there exactly when some event armed it at the time of its stamp, its target having been absent or persistent before, and no poll has reached it and no command has turned its target on or off since |
| `PairNotifyHistory.SubscribedExactly` | extensions/device-pair/notify.ts:187-209 | In every run a persistent subscriber is there exactly when some event subscribed it at the time of its stamp, its target having been absent or armed before, and no command has turned its target off or armed it since; polls never remove it |
| `PairNotifyHistory.LaterArmingCountsExactly` | extensions/device-pair/notify.ts:203-206 | Of an armed target only requests since a later arming are sent exactly when the clock has not gone on between the two, or has not started |
| `PairNotifyHistory.SecondArmingDoesNotCount` | extensions/device-pair/notify.ts:203-206 | A chat armed at 10 and again at 20 is sent a request stamped 15 |
| `PairNotifyKeys.KeyFixesPartsExactly` | extensions/device-pair/notify.ts:151-157 | All targets under the key of a target have its chat, account and thread texts exactly when none of these contains a bar |
| `PairNotifyKeys.SharedKeyExactly` | extensions/device-pair/notify.ts:151-157 | Two stored targets, one of them without bars, share a key exactly when chat and account are the same and the thread is too, or is the name and the number of one |
| `PairNotifyKeys.DecimalMeaning` | extensions/device-pair/notify.ts:151-157 | A thread number is written in the decimal digits that stand for it, without leading zeros, and with a dash before them if it is negative |
| `PairNotifyKeys.DecimalIsUnique` | extensions/device-pair/notify.ts:151-157 | Different thread numbers have different texts |
| `PairNotifyKeys.OffEndsTheOther` | extensions/device-pair/notify.ts:425-434 | Over a run, `off` in one chat ends the subscription of another exactly when they share a key |
| `PairNotifyKeys.BarsCollide` | extensions/device-pair/notify.ts:151-157 | Two chats with bars in their names that share a key |
| `PairNotifyKeys.NumberAndNameCollide` | extensions/device-pair/notify.ts:151-157 | A thread named 5 and thread number 5 share a key |
| `PairNotifyProcess.NotifyState.Read` | extensions/device-pair/notify.ts:82-143 | The normalising loops read the state of the specification |
| `PairNotifyProcess.NotifyState.UpsertSubscriber` | extensions/device-pair/notify.ts:187-209 | The update in place is the upsert of the specification, with its change flag |
| `PairNotifyProcess.NotifyState.PruneMarks` | extensions/device-pair/notify.ts:301-306 | The loop that deletes marks while it goes through them leaves the pruned marks |
| `PairNotifyProcess.NotifyState.SendRequest` | extensions/device-pair/notify.ts:316-330 | The loop over the subscribers makes the attempts of the specification and collects the one-shot subscribers that were reached |
| `PairNotifyProcess.NotifyState.NotifyPending` | extensions/device-pair/notify.ts:308-345 | The loop over the requests and the filter behind it leave the marks, attempts and subscribers of the specification |
| `PairNotifyProcess.NotifyState.Poll` | extensions/device-pair/notify.ts:290-351 | The poll, with its flags for change, does what the specification of a poll says |
| `PairNotifyProcess.Service.Poll` | extensions/device-pair/notify.ts:290-351 | A poll reads the file, works, and writes it only if something has changed: the step of the run |
| `PairNotifyProcess.Service.Enable` | extensions/device-pair/notify.ts:402-423 | The `on` command is the step of the run |
| `PairNotifyProcess.Service.Disable` | extensions/device-pair/notify.ts:402-434 | The `off` command is the step of the run |
| `PairNotifyProcess.Service.ArmOnce` | extensions/device-pair/notify.ts:353-385 | Arming is the step of the run; it reports whether the target could be resolved |
| `JsonRecords.RecordCell.MergeMissing` | extensions/amazon-bedrock/config-compat.ts:27-41 | The loop, in whatever order the fields come, leaves the merged record |
| `JsonRecords.MergeAt` | extensions/amazon-bedrock/config-compat.ts:27-41 | At every path without reserved or inherited names an explicit value wins, a missing one is taken from the source unless a non-record shadows it, and records stay records |
| `JsonRecords.NothingInvented` | extensions/amazon-bedrock/config-compat.ts:27-41 | At every path the merged record holds what one of the two held there, or a record where both had records |
| `JsonRecords.MergeChangesNothingExactly` | extensions/amazon-bedrock/config-compat.ts:27-41 | A merge changes nothing exactly when the target already sets everything the source offers, at every depth |
| `JsonRecords.MergeTwice` | extensions/elevenlabs/config-compat.ts:44-58 | Merging the same source twice equals merging it once |
| `JsonRecords.ReservedNamesStay` | extensions/amazon-bedrock/config-compat.ts:28-31 | Fields with one of the three reserved names are neither filled nor merged |
| `JsonRecords.PutAtMeaning` | extensions/amazon-bedrock/config-compat.ts:17-25 | Writing at a path through `ensureRecord` sets what is at and under the path, makes records above it, and changes nothing else |
| `BedrockMigration.Migrate` | extensions/amazon-bedrock/config-compat.ts:62-107 | The migration computes the configuration and the report of the specification |
| `BedrockMigration.EffectiveSettingsAreKeptExactly` | extensions/amazon-bedrock/config-compat.ts:62-107 | The settings in effect after the migration are those before it exactly when every legacy setting is kept: its name is ordinary or the plugin sets it, the plugin does not set it to undefined, and no nested record has more to offer |
| `BedrockMigration.FlatSettingsAreKept` | extensions/amazon-bedrock/discovery.ts:438-441 | Flat settings without undefined values, reserved or inherited names are in effect after the migration as they were before |
| `BedrockMigration.RestIsKept` | extensions/amazon-bedrock/config-compat.ts:72-97 | Outside the legacy settings and the path to the plugin's settings nothing changes, at any path |
| `BedrockMigration.ModelsIsPruned` | extensions/amazon-bedrock/config-compat.ts:55-60 | `models` loses the legacy settings and goes exactly when they were all it had |
| `BedrockMigration.MigratingTwice` | extensions/amazon-bedrock/config-compat.ts:62-70 | A second migration changes nothing and reports nothing |
| `BedrockMigration.FilledIsReportedExactly` | extensions/amazon-bedrock/config-compat.ts:95-106 | The report says that fields were filled exactly when some field was copied as a whole |
| `BedrockMigration.ReportedExactly` | extensions/amazon-bedrock/config-compat.ts:62-107 | For every record the report is decided by the two places: no legacy settings, empty ones removed, settings moved because the plugin had none, some filled, or all set already |
| `BedrockMigration.FilledExactly` | extensions/amazon-bedrock/config-compat.ts:27-36 | A setting is filled exactly when it is set, its name is not reserved, and the plugin does not set it or sets it to undefined |
| `BedrockMigration.PluginAfter` | extensions/amazon-bedrock/config-compat.ts:72-101 | The plugin's settings stay, or become the legacy ones, or become the merged ones |
| `BedrockMigration.UndefinedSettingIsFilled` | extensions/amazon-bedrock/config-compat.ts:32-36 | A setting that the plugin sets to undefined changes: the legacy value comes into effect |
| `BedrockMigration.SpecialNameIsLost` | extensions/amazon-bedrock/config-compat.ts:28-33 | A legacy setting with a reserved or inherited name gets lost |
| `BedrockMigration.MethodNameIsLost` | extensions/amazon-bedrock/config-compat.ts:28-33 | A legacy setting called `toString` gets lost |
| `BedrockMigration.InnerFillIsReportedAsSet` | extensions/amazon-bedrock/config-compat.ts:95-106 | A nested field that is filled changes the settings in effect, and the report says that they were already set |
| `ElevenLabsMigration.Migrate` | extensions/elevenlabs/config-compat.ts:91-143 | The migration computes the configuration and the report of the specification |
| `ElevenLabsMigration.TakeLegacyFields` | extensions/elevenlabs/config-compat.ts:119-126 | The loop over the five keys moves exactly those that `talk` owns, in order |
| `ElevenLabsMigration.MigratesExactly` | extensions/elevenlabs/config-compat.ts:96-99 | Nothing is reported exactly when `talk` is no record or owns none of the five keys |
| `ElevenLabsMigration.SkippedExactly` | extensions/elevenlabs/config-compat.ts:68-109 | The fields stay where they are exactly when the provider is in doubt: the trimmed text of `talk.provider` is a reserved name, or blank and there are several usable providers, or one with an empty id |
| `ElevenLabsMigration.TargetMeaning` | extensions/elevenlabs/config-compat.ts:68-89 | The provider that takes the fields is never a reserved name; it is the trimmed text of `talk.provider`, or else the only usable one there is, or `elevenlabs` when there is none |
| `ElevenLabsMigration.EmptyProviderIdIsSkipped` | extensions/elevenlabs/config-compat.ts:101-109 | The fields stay where they are when the only provider has an empty id |
| `ElevenLabsMigration.ProviderAfter` | extensions/elevenlabs/config-compat.ts:113-133 | At every ordinary path of the provider's record an explicit value wins, and what is unset is filled from the same path under one of the five keys of `talk`, and from nowhere else |
| `ElevenLabsMigration.ReportedKeys` | extensions/elevenlabs/config-compat.ts:119-141 | The report lists those of the five keys that `talk` had, in their order |
| `ElevenLabsMigration.LegacyFieldsLeave` | extensions/elevenlabs/config-compat.ts:119-126 | The five legacy keys are gone from `talk` |
| `ElevenLabsMigration.RestIsKept` | extensions/elevenlabs/config-compat.ts:111-135 | Everything else in the configuration is unchanged, at any path |
| `ElevenLabsMigration.MigratingTwice` | extensions/elevenlabs/config-compat.ts:91-143 | A second migration changes nothing; at most it repeats that the provider is in doubt |
| `ClaudeArgs.NormalizeSettingSources` | extensions/anthropic/cli-shared.ts:134-166 | The loop with its flag computes the pass over the setting sources |
| `ClaudeArgs.NormalizePermission` | extensions/anthropic/cli-shared.ts:98-132 | The loop with its flag computes the pass over the permission mode |
| `ClaudeArgs.NormalizeArgs` | extensions/anthropic/cli-shared.ts:168-174 | The two loops one after the other compute the arguments that `ClaudeArgsPlain.NormalizedExactly` describes; no arguments stay no arguments |
| `ClaudeArgs.TwoPassesAreOne` | extensions/anthropic/cli-shared.ts:98-174 | Read as options with values and single words, the two passes do one pass: neither spoils what the other reads |
| `ClaudeArgs.NormalizingTwice` | extensions/anthropic/cli-shared.ts:168-174 | Normalising is idempotent as a composition |
| `ClaudeArgs.NormalizedIsSafe` | extensions/anthropic/cli-shared.ts:98-166 | The result has no legacy flag, every `--permission-mode` is followed by a non-blank value without a dash, every setting source is `user`, and both options are there |
| `ClaudeArgs.OthersStay` | extensions/anthropic/cli-shared.ts:98-166 | All other options, with their values, and words stay, in order; only a missing permission mode is added at the end |
| `ClaudeArgs.AssignedModesStay` | extensions/anthropic/cli-shared.ts:123-126 | Arguments of the form `--permission-mode=…` stay exactly as they are, so their values are proper exactly when they were |
| `ClaudeArgs.ModesAreProperExactly` | extensions/anthropic/cli-shared.ts:104-130 | After normalising every permission mode, in either form, has a non-blank value without a dash exactly when every assigned mode of the input had one |
| `ClaudeArgs.EmptyModeIsKept` | extensions/anthropic/cli-shared.ts:123-130 | `--permission-mode=` without a value counts as a mode and is kept |
| `ClaudeArgs.TokensOfPrint` | extensions/anthropic/cli-shared.ts:104-127 | Readable tokens are read back from the arguments that they print |
| `ClaudeArgsPlain.NormalizedExactly` | extensions/anthropic/cli-shared.ts:98-166 | Told on the arguments themselves: the result is the safe form of those that were given, then the sources of the user if none were given, then `--permission-mode bypassPermissions` exactly if no mode was followed by a non-blank value without a dash, or assigned |
| `ClaudeArgsPlain.GivenModeStays` | extensions/anthropic/cli-shared.ts:110-118 | Every `--permission-mode` with a non-blank value without a dash behind it is in the result with that value, at a place that can be told |
| `ClaudeArgsPlain.OnlyModeIsKept` | extensions/anthropic/cli-shared.ts:110-132 | A user who gives only a proper mode gets that mode and the user's sources, and no other mode |
| `ClaudeArgsPlain.PlainConcat` | extensions/anthropic/cli-shared.ts:98-166 | The safe form works piece by piece: it can be cut before any argument that is no value |
| `ClaudeModelMap.RewriteModelEntryMap` | extensions/anthropic/cli-migration.ts:80-107 | The loop over the entries computes the rewritten map and the list of migrated keys |
| `ClaudeModelMap.RewrittenMeaning` | extensions/anthropic/cli-migration.ts:91-101 | No convertible key is left, every other entry keeps its value, an existing `claude-cli/` entry wins, and a new one has the value of the first key converted to it |
| `ClaudeModelMap.MigratedMeaning` | extensions/anthropic/cli-migration.ts:91-106 | What is migrated are exactly the converted keys, and nothing is migrated exactly when no key is convertible |
| `ClaudeModelMap.RewritingTwice` | extensions/anthropic/cli-migration.ts:80-107 | A second rewriting migrates nothing and changes nothing |
| `ClaudeModelMap.ConvertedStays` | extensions/anthropic/cli-migration.ts:21-31 | A converted reference is not converted again |
| `ClaudeModelMap.ConvertedExactly` | extensions/anthropic/cli-migration.ts:21-31 | A reference is converted exactly when it is `anthropic/` and an id that starts with `claude-`, in letters of either case and with white space around each; the id is kept behind `claude-cli/` |
| `AnthropicAuth.ResolveAuthMode` | extensions/anthropic/config-defaults.ts:8-63 | The loop over the order and the two searches compute the way to sign in that the next two rows describe on the profiles' own fields |
| `AnthropicAuth.FirstInOrderDecides` | extensions/anthropic/config-defaults.ts:24-38 | The first id in the order whose profile is of the command line, or of Anthropic with `api_key`, `oauth` or `token`, decides: key for `api_key`, token for the others |
| `AnthropicAuth.OtherwiseAllDecide` | extensions/anthropic/config-defaults.ts:40-62 | With none in the order, only keys give key and only tokens or the command line give token; with both or neither a non-blank token in the environment comes before a non-blank key, and without either there is no way |
| `AnthropicDefaults.ApplyAnthropicConfigDefaults` | extensions/anthropic/config-defaults.ts:162-274 | The code with its flags computes the configuration with defaults |
| `AnthropicDefaults.RetainModels` | extensions/anthropic/config-defaults.ts:198-239 | The loop over the models and the primary model set the missing cache retentions, and the flag says whether there was one |
| `AnthropicDefaults.ApplyingTwice` | extensions/anthropic/config-defaults.ts:162-274 | Applying the defaults again changes nothing, for every configuration, environment and way to sign in |
| `AnthropicDefaults.SetValuesStay` | extensions/anthropic/config-defaults.ts:181-260 | Every value in the agents' defaults that is set stays as it is, at any path; a null too, unless it stands for a record or the time to live; only a cache retention other than text is replaced |
| `AnthropicDefaults.DefaultsAreSet` | extensions/anthropic/config-defaults.ts:181-260 | Once the way to sign in is known, a missing pruning mode becomes `cache-ttl` with one hour unless a time is set, a missing heartbeat one hour or 30 minutes, a missing cache retention of an Anthropic model or the primary one `short`, and missing models of the command line are added empty where it is used |
| `AnthropicConfig.ConfigWithDefaults` | extensions/anthropic/config-defaults.ts:162-274 | In the whole configuration `agents.defaults` becomes the defaults for the way to sign in that profiles and environment give, nothing else changes at any path, and without that record nothing does |
| `AnthropicConfig.NothingElseChanges` | extensions/anthropic/config-defaults.ts:181-260 | Pruning with a mode, a heartbeat with an interval, models the defaults are not for, and all other fields stay as they are; without a way to sign in everything does |
| `AnthropicConfig.ReferenceIsRead` | extensions/anthropic/config-defaults.ts:98-118 | A provider and a model around the first slash, with white space around each, are read as they stand; a model without a slash is one of Anthropic |
| `AnthropicConfig.OtherReferences` | extensions/anthropic/config-defaults.ts:98-118 | A blank text is no reference, nor is a provider with nothing behind its slash; a text that starts with a slash is a model of Anthropic |
| `AnthropicConfig.PrimaryIsRead` | extensions/anthropic/config-defaults.ts:65-96 | The primary model is the trimmed text, alone or in the field `primary`; `opus` and `sonnet` in any case are short for two models |
| `AnthropicConfig.PrimaryEntry` | extensions/anthropic/config-defaults.ts:222-239 | The entry that the primary model gets, where its cache is to be kept, is called by its provider and its name with a slash between |
| `AnthropicConfig.TargetsExactly` | extensions/anthropic/config-defaults.ts:121-130 | Caches are kept for models of Anthropic, and for those of Bedrock whose lower-case name contains `anthropic.claude` |
| `AnthropicConfig.AllowedByDefault` | extensions/anthropic/cli-shared.ts:6-12 | The models that the command line is allowed by default are five of `claude-cli` |
| `AnthropicConfig.CliIsUsedExactly` | extensions/anthropic/config-defaults.ts:132-147 | The command line is in use exactly when the primary model or a key of the models has the provider `claude-cli` |
| `MatrixChunks.ChunkText` | extensions/matrix/runtime-api.ts:40-54 | The loop computes the chunks and ends for every limit of at least one |
| `MatrixChunks.BreakAt` | extensions/matrix/runtime-api.ts:44-46 | The break is the last space or newline of the window past its first character, or else the limit |
| `MatrixChunks.ChunksMeaning` | extensions/matrix/runtime-api.ts:40-54 | Every chunk is at most `limit` UTF-16 units long, only the first can be empty, the chunks with the white space dropped between them are the text, and chunks that meet without white space were cut where the window had no space or newline past its first character |
| `MatrixChunks.ChunksExactly` | extensions/matrix/runtime-api.ts:40-54 | A list is what the code returns exactly when it leaves a text within the limit whole, and cuts a longer one at the last space or newline of the window, or at its end if there is none past the first unit, with no white space left on either side of the cut, and the rest in the same way |
| `MatrixChunks.FirstIsEmptyExactly` | extensions/matrix/runtime-api.ts:47-53 | The first chunk is empty exactly when the text is, or when all of it up to its first break is white space |
| `MatrixChunks.ChunksKeepTheInk` | extensions/matrix/runtime-api.ts:40-54 | Without white space, the joined chunks equal the text |
| `Utf16.SliceUtf16Safe` | src/utils.ts:88-115 | The bounds, clamped and put in order step by step, compute the slice |
| `Utf16.WithoutHalves` | src/utils.ts:100-114 | The adjustments of both bounds, each made on the text and not on the other, compute the range without half pairs |
| `Utf16.RangeMeaning` | src/utils.ts:88-98 | The range has exactly the units between the two bounds in either order, where a negative bound counts from the end and a missing one is the end |
| `Utf16.SliceLosesNoHalves` | src/utils.ts:88-115 | For all input and all bounds, negative and swapped too, the slice lies in the range, drops at most one unit at each end, and a unit in it is a lone surrogate only if it was one before |
| `Utf16.SliceKeepsWellFormed` | src/utils.ts:88-115 | A slice of well-formed UTF-16 is well formed |
| `Utf16.SlicesCharacters` | src/utils.ts:88-115 | A slice of encoded text is the encoding of exactly the characters that lie wholly in the range |
| `Utf16.WellFormedExactlyWhenEncoded` | src/utils.ts:80-86 | Units without lone surrogates are exactly those that encode some characters |
| `Utf16.TruncateMeaning` | src/utils.ts:117-123 | Truncating gives the whole input when it fits, and else a prefix of the limit, or one unit less exactly when the cut would split a pair |
| `BoundedOutput.Capture.Append` | extensions/microsoft-foundry/cli.ts:161-172 | After any stream of texts the kept chunks are the longest suffix of the non-empty ones with at most 8000 UTF-16 units, and the returned count is their total |
| `BoundedOutput.LongestFitIsUnique` | extensions/microsoft-foundry/cli.ts:161-172 | There is always exactly one such suffix |
| `Text.TrimPadded` | src/shared/string-coerce.ts:13-15 | Trimming leaves exactly the core of a padded text |

## Left out

- ToggleStore.FileIsTheFoldOfSuccesses: an existing file is taken to be readable. In the code any read error gives an empty store, which the next write then makes permanent.
- ToggleStore.ReadersSeeTheLastSuccess: the key asked for is trimmed and not blank, as the commands pass it. Other keys are written as they are and never found.
- RecallCache.RunsAgree: the clock does not go back. With a clock that does, the order of expiry is not the order of the sets.
- RecallQueries.SharedKeyExactly: the hash of a query is a given text without colons, in the place of its SHA-1 digest. Queries with one hash count as one.
- BedrockDiscovery.OneFetchOneAnswer: a fetch ends with an arbitrary list or a rejection; filtering, merging and sorting of the model summaries is not part of this model. A fetch whose client cannot be made throws before it is one.
- BedrockKeys.SameProvidersSameKey: strings are ordered by characters, in the code by UTF-16 code units; the order only serves to make the key unique. Lower case is any function. The rest of the key is a record of the values, in the place of its JSON text.
- FoundryAuth.CachedTokensAreFresh: expiry times are whole numbers; parsing the date of the Azure CLI is a given value or none.
- KimiToolCalls.ParsingUndoesPrinting: `JSON.parse` is any function from the argument text to an object, another value or an error.
- KimiMessages.RewriteEvent: iterators and promises around the stream are not part of this model, only what is done to each message.
- PairNotify.TickAttempts: a poll and a command are atomic. The code takes no lock, so overlapping ones can lose each other's writes.
- PairNotifyRuns.NoRequestIsSentAgain: in this and all other results over runs clocks are positive, request ids trimmed and not empty, accounts and threads of commands trimmed, and writes succeed. The two lemmas about untrimmed targets say what happens otherwise. Times and thread numbers are whole numbers.
- PairNotifyKeys.DecimalIsUnique: numbers are written out in full; from 10 to the 21st power on JavaScript uses an exponent.
- PairNotifyRuns.SurvivesExactlyWhenCanonical: the JSON text of the file is taken as invertible. Order of keys that look like integers, and the key `__proto__`, are not modelled.
- JsonRecords.RecordCell.MergeMissing: only the outermost record is an object that changes in place. A nested record is merged in an object of its own and written back, so sharing of nested records is not modelled, except in the report of the Bedrock migration, which depends on it.
- JsonRecords.MergeAt: paths through reserved or inherited names are not covered, `JsonRecords.NothingInvented` covers them all. An own field named `__proto__` is read like any other.
- BedrockMigration.EffectiveSettingsAreKeptExactly: discovery settings that are text or lists, which the spread would take apart, count as none.
- BedrockMigration.Migrate: of `JSON.stringify` only the omission of undefined fields is modelled.
- ClaudeModelMap.RewrittenMeaning: lower case is that of ASCII letters, which is all the two prefixes need. Entries are in insertion order; integer-like keys, which JavaScript puts first, are not converted and not reordered.
- AnthropicDefaults.SetValuesStay: places where the defaults expect records hold records, null or nothing.
- AnthropicDefaults.ApplyingTwice: reading the profiles from the `auth` field, normalising provider ids and lower case are arbitrary functions; the defaults do not touch that field.
- AnthropicAuth.ResolveAuthMode: profile entries that are null count as missing.
- MatrixChunks.ChunksMeaning: a limit below one, for which the loop would not end, is excluded. That a hard break can fall inside a surrogate pair, as in the code, is allowed for and not stated.
- Utf16.SliceUtf16Safe: bounds are whole numbers; NaN and fractions are excluded.
- BoundedOutput.Capture.Append: the two streams of the command are two captures.
- Rewriting a model selection, seeding the allowlist of the command line, and clearing environment variables: one-line edits of one field, covered in kind by the model map and the defaults.
- The reset hooks for tests of the two single-flight caches: they drop pending work and break the invariants by design.
- Prompts, command replies, logging, HTTP clients, spawning and timers: no property beyond what they print or send.
- The caches of Chutes and LanceDB: weaker forms of the two caches modelled here.
