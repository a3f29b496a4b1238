# GateBroker in Dafny

A model of the parts of GateBroker whose correctness is hardest to see, with proofs about it.

- **The Windows credential cache** (`CacheChunks`, `CacheFormat`, `CacheDocuments`, `Keyring`,
  `CacheState`, `CleanupJournal`, `CredentialCache`, `IdTokens`, `SignOut`, `CacheRuns`,
  `OlderManifests`). A payload
  too large for one operating-system credential is cut into chunks under a fresh generation,
  published by one write to the primary credential, and owned by a cleanup journal. The store is a class whose every call
  obeys a schedule: it works, raises an error, or is the call at which the process stops, and a
  write that does not return may or may not have taken effect. Contracts hold for every schedule
  and every way an operation ends. Every operation also promises that it is interrupted exactly when
  the process stops at its last call, and that the process stops at none before. Any call may be the
  last one in this sense, so what the contracts say of an interrupted operation they say of the store
  after each single call. The store also logs which account each call addressed. If the only calls
  that raise an error are reads and deletions of stale chunks, an operation goes on as if they had
  worked, and the contracts say exactly which entries are then left in the journal.
- **The recogniser of damaged manifests** (`Json`, `JsonGrammar`, `ManifestKey`, `ManifestKeyLaws`,
  `TruncatedText`, `CacheFormatLaws`). `Json` is a reference reader of RFC 8259 text, proved to accept
  exactly what the grammar of that standard derives (`JsonGrammar`); the hand-written lexer is proved
  against the reader.
- **The signing-key refresh** (`JwksVerifier`): the sections under the condition variable as
  methods of a class, and any number of threads as steps of a state machine over them.
- **The request limiter and the gates before the upstream** (`RateLimiter`, `Entitlement`, `Gateway`).
- **Bodies** (`Bytes`, `JsonDepth`, `RequestBody`, `Relay`, `UpstreamBody`, `UpstreamBodyLaws`): the
  nesting check, the bounded deliveries and the normaliser of upstream requests.
- `Basics` holds what all of them share.

`dafny verify dfyconfig.toml` checks everything.

## Where a property needs a condition

- A payload stored directly is loaded back exactly when it does not claim the reserved root key
  (`SignOut.DirectPayloadLoadsBack`). In a run the payloads that a load writes are those it has found,
  sanitized, so a run is given a shape that its payloads have and its sanitizers keep. Not to claim
  the key, at any size, is such a shape for the program's own sanitizer (`CacheRuns.KeyFreeIsKept`).
- A truncated manifest is refused exactly when three characters of it are left
  (`CacheFormatLaws.TruncationFailsClosed`): `{` and `{"` pass for an ordinary payload.
- Of a truncated text the recogniser claims a little more than the beginnings of the reserved key:
  it also takes a whole spelling of the key followed by a backslash and `u` for one
  (`TruncatedText.EndsIsBegins`, `TruncatedText.WholeKeyAndEscape`).
- A fresh generation is compared with the active and the pending ones only. If the primary is an
  older manifest with a cleanup list, a draw that equals a generation listed there with another
  count breaks the invariant, and nothing else does (`CredentialCache.RecordNewValidExactly`; a
  store and a draw for which it happens are in `OlderManifests.DrawnAgainBreaksCounts`). Runs
  therefore assume draws outside that list. A store reached from the empty one has no such list, so
  for it this assumes nothing.
- A logout must journal every claim at once. It can exactly when the cleanup list of an older
  manifest does not repeat the active entry and no more than sixteen entries are claimed in all
  (`SignOut.RemovableExactly`). Otherwise every logout is refused and changes nothing, until a
  completed store has replaced the manifest and left no such list
  (`CredentialCache.StoreCacheUnlocked`): `OlderManifests.RepeatedEntryRefusesLogout` and
  `OlderManifests.FullListRefusesLogout` are one store for each half of the condition. A store is
  refused as well when the journal and the list name more than sixteen entries
  (`OlderManifests.FullListRefusesStore`). Nothing reached from the empty store is ever refused so
  (`SignOut.SettledIsRemovable`).
- Entries whose chunks cannot be deleted go back into the journal, which then has to hold them and
  the active entry: such an operation completes exactly when there is room for them
  (`CleanupJournal.RetryCleanup`, `CredentialCache.StoreCacheUnlocked`). Sixteen stale entries besides
  an active one that is not journaled, none of which can be deleted, leave no room
  (`OlderManifests.FullJournalCannotFail`).
- A refresh that waits for another thread's fetch returns normally as soon as no fetch is in flight,
  even if that fetch failed and no key has ever been fetched (`JwksVerifier.WaitingHidesFailure`).
- The limiter bounds what is sent by when it was admitted. Counted by when it is sent, the bound
  needs a longest delay D between the two and holds with L + D in place of L
  (`Gateway.UpstreamRateBound`); without one it fails (`Gateway.DelayedSendsCrowd`).
- A tool whose `type` is a list or mapping makes the normaliser raise exactly when its description
  is missing or blank (`UpstreamBodyLaws.UpstreamRaises`; `UpstreamBodyLaws.UnhashableToolRaises` is
  such a request).

## Model

| member | source | states |
|---|---|---|
| `CredentialCache.StoreCacheUnlocked` | src/gatebroker/cli.py:604-647 | for every schedule of failing and stopping calls: a later load gives what it gave before or exactly the new payload, and the new one once the store completes; a refusal changes nothing a load sees; a primary or journal that is not understood, or a cleanup list the journal has no room for, leaves the whole store untouched; every chunk stays claimed; a completed store leaves a journal that alone claims every chunk, and no older cleanup list; when nothing fails, or nothing but the deletion of stale chunks, the store completes exactly within the limits and with a fresh draw, and its journal names the active, the new and the failed entries and no others; when every call works at most the previous and the new generation have chunks |
| `CredentialCache.Replace` | src/gatebroker/cli.py:626-647 | after the cleanup, the cache is kept or replaced as a whole, every chunk stays journaled, the journal gains nothing but the new entry, and with every call working it completes exactly when payload, journal and draws fit |
| `CredentialCache.MigratableExactly` | src/gatebroker/cli.py:617-620 | the journal can take over an older cleanup list exactly when the two name at most sixteen entries |
| `CredentialCache.Prepare` | src/gatebroker/cli.py:615-625 | migrating the older cleanup list and retrying the cleanup keep the cache and the invariant; once done the journal alone claims every chunk; when nothing but the deletion of stale chunks fails it completes exactly when list and failures have room, and the journal then lists exactly the active entry and the failures |
| `CredentialCache.StoreDirect` | src/gatebroker/cli.py:628-632 | a payload that fits replaces the primary in one call, after the old generation is journaled |
| `CredentialCache.StoreChunked` | src/gatebroker/cli.py:634-647 | existing chunks are never overwritten, the primary changes only to a complete new generation, and the journal gains only the active and the new entry |
| `CredentialCache.Publish` | src/gatebroker/cli.py:643-647 | the chunks become loadable by one write to the primary and by nothing before it |
| `CredentialCache.WriteChunks` | src/gatebroker/cli.py:643-644 | writing the chunks of a journaled fresh generation keeps cache and invariant at every index, and on success exactly those chunks stand in order |
| `CredentialCache.NewGeneration` | src/gatebroker/cli.py:595-601 | a draw outside the forbidden generations, or a refusal exactly when all eight draws are forbidden |
| `CredentialCache.RecordNewValidExactly` | src/gatebroker/cli.py:637-642 | journaling a new generation keeps the store valid exactly when the primary's older cleanup list does not give that generation another count; the code forbids only active and pending generations |
| `CacheState.FreshGenerationIsEmpty` | src/gatebroker/cli.py:595-601 | a generation that nothing claims has no chunk in the store |
| `CacheState.ChunkWritten` | src/gatebroker/cli.py:643-644 | one chunk of a journaled generation other than the active one changes neither what is loaded nor the invariant |
| `CacheState.ManifestLoads` | src/gatebroker/cli.py:645-647 | once the manifest of a complete generation is in the primary, a load gives the join of its chunks |
| `CacheState.PrimaryReplaced` | src/gatebroker/cli.py:631-647 | replacing the primary keeps every chunk claimed when the journal claims them all |
| `CacheState.CleanupKeepsValid` | src/gatebroker/cli.py:502-512 | after stale generations were reaped, the journal of the active entry and the failures still claims every chunk that is left, and may be removed when that is none |
| `CacheState.ReapingKeepsCache` | src/gatebroker/cli.py:502-512 | reaping entries of other generations never touches the primary or a chunk of the active generation |
| `CleanupJournal.RetryCleanup` | src/gatebroker/cli.py:502-512 | whatever fails, the cache is kept, a journal that cannot be read or contradicts the active entry changes nothing, and the invariant holds; when nothing but the deletion of stale chunks fails, it completes exactly when the active entry and the failures fit in the journal, which then lists exactly these |
| `CleanupJournal.DeleteEntries` | src/gatebroker/cli.py:529-530 | only chunks the entries name are removed, every entry not reported as failed has no chunk left, and reported are exactly the entries of which some call raised an error |
| `CleanupJournal.DeleteGeneration` | src/gatebroker/cli.py:515-526 | success means that no chunk of the entry is left, and is reported exactly when no call of it raised an error; errors of the store are absorbed, a stop is not |
| `CleanupJournal.RecordCleanup` | src/gatebroker/cli.py:496-499 | the journal is left as it was or becomes the merge, which forgets nothing; with every call working it succeeds exactly when the merge does |
| `CleanupJournal.MergeEntries` | src/gatebroker/cli.py:477-489 | the ordered union without repetition, or the refusals for repeated entries, contradicting counts and more than sixteen entries |
| `CleanupJournal.MergeExactly` | src/gatebroker/cli.py:477-489 | a merge succeeds exactly when neither group repeats an entry, no two counts contradict and at most sixteen entries are named |
| `CleanupJournal.PendingCleanup` | src/gatebroker/cli.py:464-474 | an absent journal is empty, and one that the strict parser refuses is reported, never read as empty |
| `CleanupJournal.WriteCleanup` | src/gatebroker/cli.py:492-493 | the journal text of well-formed entries fits in one credential and is what the call writes |
| `SignOut.LoadUnlocked` | src/gatebroker/cli.py:565-578 | changes nothing, and gives the primary itself, the join of all chunks of its manifest, or the refusal of a damaged or incomplete cache |
| `SignOut.LoadCache` | src/gatebroker/cli.py:650-678 | loads what the store says; the rewrite after removing identity tokens is as atomic as a store, a completed one leaves exactly the sanitized payload, and it completes exactly when such a store would, also when stale chunks cannot be deleted; without one nothing changes |
| `IdTokens.RewritesExactly` | src/gatebroker/cli.py:193-198 | a load rewrites exactly the strict JSON objects with an `IdToken` other than null, and what it writes reads back as the other members |
| `IdTokens.SanitizingKeepsClaims` | src/gatebroker/cli.py:193-198 | removing identity tokens neither adds nor removes the reserved root key |
| `IdTokens.SanitizedStays` | src/gatebroker/cli.py:193-198 | what has been sanitized is understood again and is not rewritten a second time |
| `SignOut.Logout` | src/gatebroker/cli.py:1012-1036 | a completed logout leaves no primary, journal or chunk; otherwise the old cache loads as before, or there is no primary and the journal claims every chunk; refusals change nothing; with every call working it completes exactly when the claims can be journaled; when nothing but the deletion of chunks fails, the primary is gone, the journal lists exactly the failures, and the error is reported |
| `SignOut.RemovableExactly` | src/gatebroker/cli.py:1020-1021 | the claims can be journaled exactly when an older manifest does not repeat its active entry and at most sixteen entries are claimed |
| `SignOut.SettledIsRemovable` | src/gatebroker/cli.py:1020-1021 | whatever is reached from the empty store can be removed |
| `SignOut.RemovePrimary` | src/gatebroker/cli.py:1025-1030 | the journal claims everything before the primary goes, which one call does |
| `SignOut.RemoveClaimed` | src/gatebroker/cli.py:1031-1036 | the journal is removed only once no chunk is left; when nothing but the deletion of chunks fails it lists exactly the entries that failed, and the error is reported |
| `SignOut.DirectPayloadLoadsBack` | src/gatebroker/cli.py:628-632 | a directly stored payload is loaded back from every store exactly when it does not claim the reserved root key |
| `CacheRuns.Session` | src/gatebroker/cli.py:604-647 | over any sequence of stores, loads and logouts, each failing or cut short at any call, whose payloads have a shape that the sanitizers keep: the store stays valid, nothing damaged is ever loadable, and each operation moves what is loadable only as it may; from the empty store on, an operation in which every call works is never refused for what earlier ones left behind |
| `CacheRuns.KeyFreeIsKept` | src/gatebroker/cli.py:193-198 | a run may store any payload that does not claim the reserved key, and load with the program's own sanitizer at any time |
| `CacheRuns.LoadsComeFromWrites` | src/gatebroker/cli.py:565-647 | from any point of a run on, a load gives what it gave there or exactly what one later operation wrote |
| `CacheRuns.CompletedWritesLast` | src/gatebroker/cli.py:604-647 | after a completed store, logout or rewriting load the earlier contents come back only if they are written again |
| `CacheRuns.CompletedLoadsLeaveNoTokens` | src/gatebroker/cli.py:656-661 | once a load with the program's own sanitizer has completed, no identity token is left to load |
| `CacheRuns.EmptyStoreIsSettled` | src/gatebroker/cli.py:604-612 | the invariant holds of the empty store, where every run starts |
| `CacheRuns.ManageableIsStorable` | src/gatebroker/cli.py:595-642 | in a store reached from the empty one, a payload within the limits can be stored as soon as the draws are not all the same |
| `OlderManifests.RepeatedEntryRefusesLogout` | src/gatebroker/cli.py:1020-1021 | a manifest that lists its own active entry is accepted, and no logout can remove it |
| `OlderManifests.FullListRefusesLogout` | src/gatebroker/cli.py:1020-1021 | nor one with sixteen other entries in its list |
| `OlderManifests.FullListRefusesStore` | src/gatebroker/cli.py:619-620 | with one more entry in the journal such a store refuses stores too |
| `OlderManifests.FullJournalCannotFail` | src/gatebroker/cli.py:502-512 | a store in which the stale entries, if none can be deleted, and the active entry are seventeen |
| `OlderManifests.DrawnAgainBreaksCounts` | src/gatebroker/cli.py:637-642 | a store that a cleanup leaves behind, and an admissible draw whose journaling breaks the invariant |
| `Keyring.NamesAreInjective` | src/gatebroker/cli.py:362-363 | the names of primary, journal and chunks are distinct, injective in generation and index |
| `CacheFormatLaws.ManifestRoundTrip` | src/gatebroker/cli.py:391-430 | every manifest, with or without a cleanup list, is read back by the strict parser to the same entries |
| `CacheFormatLaws.JournalRoundTrip` | src/gatebroker/cli.py:442-461 | every well-formed journal is read back by the strict parser to the same entries |
| `CacheFormat.JournalIn` | src/gatebroker/cli.py:442-474 | what the journal parser accepts is at most sixteen distinct valid entries with consistent counts |
| `CacheFormat.ManifestIn` | src/gatebroker/cli.py:391-423 | what the manifest parser accepts has a valid active entry and a cleanup list that agrees with it |
| `CacheDocuments.JournalInExactly` | src/gatebroker/cli.py:442-474 | a text is read as a journal exactly when it is strict JSON of an object with only the list, whose items are objects with only generation and count, in either order, and the entries may be journaled |
| `CacheDocuments.ManifestInExactly` | src/gatebroker/cli.py:391-423 | a text is read as a manifest exactly when it is strict JSON of the reserved key alone over an object with generation, count and, if anything is listed, the cleanup list, in any order and without further members, and the entries agree |
| `CacheFormat.HaveConsistentCounts` | src/gatebroker/cli.py:433-439 | true exactly when no generation is given two counts |
| `CacheFormatLaws.ManifestClaimsKey` | src/gatebroker/cli.py:591-592 | every accepted manifest is also recognised as claiming the reserved key |
| `CacheFormatLaws.TruncationFailsClosed` | src/gatebroker/cli.py:591-592 | a manifest cut short anywhere is an invalid manifest exactly when at least three characters are left |
| `CacheFormatLaws.DocumentsFit` | src/gatebroker/cli.py:426-430 | journals and manifests take at most 2400 UTF-16 bytes |
| `JsonGrammar.ReadsExactlyJson` | src/gatebroker/cli.py:223-228 | the reader gives a value for a text exactly when the grammar of RFC 8259, sections 2 to 7, derives the text for that value: white space, names, numbers in every form, strings with every escape, arrays and objects |
| `JsonGrammar.LoadsExactlyStrictJson` | src/gatebroker/cli.py:210-228 | strict loading gives a value exactly for such texts in which no object repeats a key |
| `JsonGrammar.SpellsOnce` | src/gatebroker/cli.py:223-228 | the grammar derives a text for at most one value |
| `JsonDepth.ObjectPrefixIsNoText` | src/gatebroker/cli.py:223-228 | no text that ends inside its root object is a JSON text, so truncation cannot pass strict loading |
| `CacheChunks.SplitWindowsCache` | src/gatebroker/cli.py:366-380 | the loop computes the greedy cut |
| `CacheChunks.JoinPieces` | src/gatebroker/cli.py:366-380 | the pieces concatenate to the payload |
| `CacheChunks.PieceSizes` | src/gatebroker/cli.py:366-380 | every piece takes 2 to 2400 bytes and every piece but the last at least 2398 |
| `CacheChunks.PieceCount` | src/gatebroker/cli.py:366-380 | a non-empty payload makes at most 1 + (bytes - 2) / 2398 pieces |
| `CacheChunks.GreedyIsOptimal` | src/gatebroker/cli.py:366-380 | no other cut at code-point boundaries into pieces of at most 2400 bytes has fewer pieces |
| `CacheChunks.PiecesAreACut` | src/gatebroker/cli.py:366-380 | the greedy cut is itself such a cut |
| `ManifestKey.MatchFrom` | src/gatebroker/cli.py:231-275 | on any text the string lexer advances and stays in bounds |
| `ManifestKey.MatchesPartialWindowsManifestKey` | src/gatebroker/cli.py:231-275 | the loop computes that lexer |
| `ManifestKey.ContainsWindowsManifestKey` | src/gatebroker/cli.py:278-359 | the two loops compute the recogniser: strict classification, or the root-object lexer |
| `ManifestKeyLaws.StringExact` | src/gatebroker/cli.py:231-275 | on a terminated JSON string the lexer ends just past the closing quote and matches exactly when the string decodes to the reserved key |
| `ManifestKeyLaws.SpellingMatches` | src/gatebroker/cli.py:231-275 | every spelling of the key, each character literal or escaped in either hex case, matches, and so does one that the end of the text cuts short |
| `ManifestKeyLaws.NestedValue` | src/gatebroker/cli.py:352-358 | strings, brackets and scalars inside a container leave the lexer's depth as it was |
| `ManifestKeyLaws.ScalarSlice` | src/gatebroker/cli.py:331-341 | the characters of a root scalar load strictly as a scalar of their own |
| `ManifestKeyLaws.ScanMembers` | src/gatebroker/cli.py:301-359 | over the members of a well-formed root object the lexer answers exactly whether one of their keys is the reserved key |
| `ManifestKeyLaws.ExactOnJson` | src/gatebroker/cli.py:278-359 | on every JSON text, with repeated keys or without, the recogniser answers exactly whether the root object has the reserved key |
| `ManifestKeyLaws.NothingHidesTheKey` | src/gatebroker/cli.py:278-359 | after a well-formed beginning of the root object up to a key position, any spelling of the reserved key followed by anything, or cut short by the end of the text, is recognised |
| `TruncatedText.LexerDecides` | src/gatebroker/cli.py:289-359 | on every text the hand-written lexer alone gives the recogniser's answer |
| `TruncatedText.CutExact` | src/gatebroker/cli.py:231-275 | on a JSON string that the end of the text cuts short the string lexer matches exactly when the text ends while it spells the key |
| `TruncatedText.EndsIsBegins` | src/gatebroker/cli.py:231-275 | which is to say, with a beginning of some spelling, or with a whole one and `\u` |
| `TruncatedText.NestedCut` | src/gatebroker/cli.py:352-358 | inside a container that is cut short the bracket count never comes back to the root object |
| `TruncatedText.MembersCut` | src/gatebroker/cli.py:301-359 | over the members of a root object that is cut short the lexer answers by the keys before the cut |
| `TruncatedText.ExactOnTruncated` | src/gatebroker/cli.py:278-359 | however a JSON text with a root object is cut short, the recogniser answers exactly whether a complete root key is the reserved key or the cut falls where a root key spells it |
| `TruncatedText.WholeKeyAndEscape` | src/gatebroker/cli.py:244-252 | a text that ends behind the whole key and `\u` is claimed, although no spelling of the key begins like this |
| `TruncatedText.OrdinaryCacheIsNotClaimed` | src/gatebroker/cli.py:278-359 | a cache none of whose root keys begins like the reserved key is never taken for a manifest, wherever it is cut |
| `JwksVerifier.Verifier.constructor` | src/gatebroker/runtime.py:199-203 | no keys, no refresh in progress, and no key miss yet |
| `JwksVerifier.Verifier.BeginLookup` | src/gatebroker/runtime.py:250-267 | the first section of a lookup: a known key, a wait, a cooled-down refusal, or a claim |
| `JwksVerifier.Verifier.BeginRefresh` | src/gatebroker/runtime.py:282-291 | a claim, or a wait when one is in progress |
| `JwksVerifier.Verifier.CompleteRefresh` | src/gatebroker/runtime.py:241-247 | a successful fetch replaces the snapshot, and either way the claim ends |
| `JwksVerifier.Verifier.Ready` | src/gatebroker/runtime.py:312-316 | keys are present and at most 900 seconds old |
| `JwksVerifier.LookupStep` | src/gatebroker/runtime.py:249-267 | in every reachable state the first section of a lookup answers at once exactly when the last install holds the key, else waits exactly when a fetch is in flight, else answers none exactly when a key miss started less than 60 seconds before, and else starts a fetch; nothing else changes |
| `JwksVerifier.RefreshStep` | src/gatebroker/runtime.py:280-291 | a refresh waits exactly when a fetch is in flight and starts one otherwise |
| `JwksVerifier.WaitingLookupStep` | src/gatebroker/runtime.py:254-259 | a waiting lookup goes on exactly when no fetch is in flight or six seconds are over, and answers from the last install |
| `JwksVerifier.WaitingRefreshStep` | src/gatebroker/runtime.py:282-290 | a waiting refresh goes on under the same condition, returning exactly when no fetch is in flight |
| `JwksVerifier.FetchStep` | src/gatebroker/runtime.py:227-239 | a fetch ends in failure or in any non-empty set of keys |
| `JwksVerifier.CompletionStep` | src/gatebroker/runtime.py:241-247 | a successful fetch becomes the last install as it completes, a failed one leaves the installs as they were, and no fetch is in flight afterwards |
| `JwksVerifier.ReadingBackStep` | src/gatebroker/runtime.py:277-278 | the lookup that fetched answers from the last install |
| `JwksVerifier.RunInv` | src/gatebroker/runtime.py:241-297 | one invariant of flag, snapshot, waits, spacing and answers in every state that any number of threads can reach |
| `JwksVerifier.SingleFlightAlways` | src/gatebroker/runtime.py:249-297 | at most one thread is between claiming and completing a fetch, and the flag is set exactly when one is |
| `JwksVerifier.OnlySuccessInstalls` | src/gatebroker/runtime.py:227-247 | wherever a run changes the snapshot, the step completes a successful fetch, and installs that fetch whole |
| `JwksVerifier.HandedIsCurrent` | src/gatebroker/runtime.py:249-278 | over runs, every answer is what the install that was last when it was given holds, and answers never go back to an older snapshot |
| `JwksVerifier.HandedAtReturn` | src/gatebroker/runtime.py:249-278 | every answer was given by a step of the run, from the snapshot of that step, as the lookup returned |
| `JwksVerifier.RefreshReturns` | src/gatebroker/runtime.py:280-297 | over runs, a refresh that fetched returns exactly when its own fetch is the one install since its claim, and raises exactly when there was none; one that waited returns exactly when no fetch is in flight as it ends |
| `JwksVerifier.WaitingHidesFailure` | src/gatebroker/runtime.py:282-290 | a run in which the fetch fails and the refresh that waited for it returns normally, with nothing ever installed |
| `JwksVerifier.WaitersAreReleased` | src/gatebroker/runtime.py:254-290 | every waiting thread can go on after six seconds at most |
| `JwksVerifier.KeyMissRate` | src/gatebroker/runtime.py:260-267 | any interval of T seconds has at most T/60 + 1 fetches started by unknown key ids |
| `JwksVerifier.ReadyIsRecent` | src/gatebroker/runtime.py:312-316 | ready exactly when some fetch succeeded and the last one was installed at most 900 seconds ago; the snapshot is then that whole fetch |
| `RateLimiter.FixedWindowRateLimiter.Admit` | src/gatebroker/runtime.py:330-342 | one call refines the limiter step |
| `RateLimiter.CountersAreAdmissions` | src/gatebroker/runtime.py:330-342 | after any calls each counter is its key's admitted calls since the window last changed, and at most max_keys keys are tracked |
| `RateLimiter.DecisionExactly` | src/gatebroker/runtime.py:336-342 | a tracked key is admitted exactly while its own quota lasts; any other exactly while the table has room |
| `RateLimiter.DecisionByTime` | src/gatebroker/runtime.py:330-342 | with a clock that never goes back a call is decided by what was admitted since the last multiple of the window length: its own key while the quota lasts, a key without an admitted call while fewer than max_keys others have one |
| `RateLimiter.PassedMultipleAdmits` | src/gatebroker/runtime.py:330-342 | the first call at or after a multiple of the window length is admitted whatever its key |
| `RateLimiter.OneWindow` | src/gatebroker/runtime.py:330-342 | with a clock that never goes back a window admits at most the quota of one key |
| `RateLimiter.RateBound` | src/gatebroker/runtime.py:330-342 | at most requests * (ceil(L/W) + 1) admissions of one key in any half-open interval of L seconds |
| `Gateway.RunDrivesLimiter` | src/gatebroker/forwarding.py:349-358 | the limiter sees exactly the requests that passed the gates before it |
| `Gateway.AnswersByCause` | src/gatebroker/forwarding.py:304-362 | after any run: 401 without an identity, 400 for a refused body, 403 without a winning policy that allows the model, 429 exactly when the limiter refuses the call, 503 when the key does not resolve, and otherwise the request is sent under the winning policy, which the limiter has been asked about for this subject, policy and address |
| `Gateway.EntitledExactly` | src/gatebroker/forwarding.py:338-347 | the gates pass exactly an authenticated caller with an accepted body and a winning policy that lists the model |
| `Gateway.SendsAreAdmitted` | src/gatebroker/forwarding.py:349-380 | everything sent upstream was first admitted under its subject, policy and address, no longer ago than the delay of sending |
| `Gateway.UpstreamRateBound` | src/gatebroker/forwarding.py:349-380 | the limiter's bound holds of requests sent upstream, counted by admission, and with the delay added to the interval, counted by sending |
| `Gateway.DelayedSendsCrowd` | src/gatebroker/forwarding.py:349-380 | without a bound on the delay it does not hold of the times of sending |
| `Gateway.ListedModelsAreForwarded` | src/gatebroker/forwarding.py:247-274 | the model list names exactly the models with which the same caller passes the entitlement gates, and is refused with 401 or 403 by cause |
| `Entitlement.ResolveGivesTheWinner` | src/gatebroker/policy.py:96-119 | a policy is resolved exactly when it matches, occurs once, and every other matching policy has strictly lower priority |
| `Entitlement.ResolveByPosition` | src/gatebroker/policy.py:96-119 | the same rule by position in the list |
| `Entitlement.ResolveIgnoresOrder` | src/gatebroker/policy.py:96-119 | the answer does not depend on the order of the policies |
| `Entitlement.ResolveIgnoresIrrelevant` | src/gatebroker/policy.py:96-119 | adding, anywhere, a policy that does not match or is outranked by a matching one changes nothing |
| `Entitlement.MatchesExactly` | src/gatebroker/policy.py:96-110 | a policy matches exactly when caller and policy share a group id or share an app role, either alone being enough |
| `JsonDepth.ExceedsMaxJsonDepth` | src/gatebroker/forwarding.py:557-584 | the loop answers whether the running depth ever passes 64 |
| `JsonDepth.ValueSpan` | src/gatebroker/forwarding.py:557-584 | over the text of a value the scan returns to its depth, never goes below it, and peaks at the value's nesting |
| `JsonDepth.Utf8Transparent` | src/gatebroker/forwarding.py:557-584 | scanning UTF-8 bytes and scanning characters give the same result |
| `JsonDepth.Utf8Form` | src/gatebroker/forwarding.py:557-584 | the encoding used here is UTF-8: lead byte by code point, continuation bytes with six bits each |
| `JsonDepth.ScanAgreesWithNesting` | src/gatebroker/forwarding.py:557-584 | for every JSON text, encoded as UTF-8 with or without a byte-order mark, the scan refuses exactly when the value nests deeper than 64 |
| `RequestBody.RequestBytes` | src/gatebroker/forwarding.py:516-534 | bytes reach the parser exactly when the announced and the actual length are within the limit and the scan accepts them |
| `RequestBody.JsonBodiesAdmitted` | src/gatebroker/forwarding.py:516-534 | a JSON body in UTF-8, in whatever chunks, reaches the parser exactly when its lengths are within the limit and it nests at most 64 deep |
| `Relay.RelayStream` | src/gatebroker/forwarding.py:422-442 | the longest prefix of whole chunks that fits is delivered, and nothing is read past the first overflowing chunk |
| `Relay.BoundedResponseContent` | src/gatebroker/forwarding.py:810-818 | the whole body or nothing, reading no further than the stream would |
| `Relay.LongestFitIsLongest` | src/gatebroker/forwarding.py:432-437 | no longer prefix of whole chunks fits |
| `Relay.DeliveriesAgree` | src/gatebroker/forwarding.py:422-442 | stream and buffer stop at the same chunk, and when the total fits both deliver the same bytes |
| `UpstreamBodyLaws.StripTrims` | src/gatebroker/forwarding.py:728-737 | a fallback name loses white space at both ends and nothing else |
| `UpstreamBodyLaws.FallbackDescribes` | src/gatebroker/forwarding.py:728-742 | the filled text is the trimmed name of the tool, else of its function, else the fixed sentence |
| `UpstreamBodyLaws.ApplyNormalises` | src/gatebroker/forwarding.py:769-799 | only the description changes, by a rule over the plain fields `type`, `function`, `name`, `parameters` and `description`: kept if usable, dropped for a built-in type, filled where one is needed or a blank one stands; a second pass changes nothing |
| `UpstreamBodyLaws.SanitizeToolNormalises` | src/gatebroker/forwarding.py:802-807 | by that rule for the tool and for the function inside it: every tool of type `function` or `custom`, with a function mapping, with name and parameters, or with a non-blank name ends with a usable description unless its type is built in; nothing else changes, and a second pass changes nothing |
| `UpstreamBodyLaws.SanitizeItemsCleans` | src/gatebroker/forwarding.py:722-725 | number and order of the tools are kept, and every entry that is a mapping is clean |
| `UpstreamBodyLaws.DependsOnAllowedFields` | src/gatebroker/forwarding.py:626-638 | the upstream body is determined by the allow-listed fields, the model and the subject |
| `UpstreamBodyLaws.UpstreamKeepsTheRequest` | src/gatebroker/forwarding.py:626-638 | model, subject and every allow-listed field arrive as sent, and no other field of the caller does |
| `UpstreamBodyLaws.ResponsesAreClean` | src/gatebroker/forwarding.py:669-711 | of a Responses request all tools are clean, nothing is stored, and reasoning asks for its encrypted content |
| `UpstreamBodyLaws.UpstreamIsIdempotent` | src/gatebroker/forwarding.py:626-638 | normalising the upstream body again changes nothing |
| `UpstreamBodyLaws.UpstreamRaises` | src/gatebroker/forwarding.py:745-757 | building the body fails exactly when a tool or function without a usable description has a list or mapping as its type |
| `UpstreamBodyLaws.UnhashableToolRaises` | src/gatebroker/forwarding.py:745-757 | a request with a list as the type of a tool without description cannot be sent |

## Left out

- The credential backend, the file lock, the commands and the identity library are foreign calls. The lock is taken to make cache operations sequential, and accounts of other kinds in the same service are not represented.
- The cache path of other platforms: one write or read without a protocol.
- IdTokens: the sanitized text is any JSON text of the remaining object; its spelling is not represented, and numbers too large for a float, which are printed as a constant that is not JSON, are outside.
- CacheRuns.Session: assumes that no small payload written claims the reserved key, and, for runs that start from an older manifest, that draws avoid its cleanup list, for the reasons given above.
- Json: lone surrogates in a Python string have no counterpart in `char`, the value of a number with a fraction or an exponent is not represented, integers of more digits than Python converts are read as integers, and nesting that overflows Python's stack is read like any other.
- JsonDepth.ScanAgreesWithNesting: speaks of UTF-8 texts; request bodies in UTF-16 or UTF-32, and the non-standard constants that the request parser tolerates, are outside it.
- JwksVerifier: token decoding, signature checks and the retrieval itself; a fetch ends in any non-empty key set or in failure.
- RateLimiter: floating-point rounding of the clock; time is real.
- Gateway.ListedModelsAreForwarded: the sorted order and the wrapping of the list are not represented.
- Gateway: header, query and body checks are one verdict on the request, and upstream errors after sending are not followed.
- RequestBody.RequestBytes: stops at the parser, whose result must be an object.
- `load_policies`: decoding and field-by-field checks of a policy document, none of which interact.
- UpstreamBody: numbers keep their spelling and mappings have no order.
- Agent profiles, telemetry, audit events, upstream error classification, URL checks and the launchers.
