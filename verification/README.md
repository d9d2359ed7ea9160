# 1tube: model and proofs

1tube is a self-hosted gateway for edge functions. This project models, in Dafny, the parts of it
that carry state or an algorithm, and proves what they promise: over every input where they compute
a value, over every run where they keep state.

| file | part of 1tube |
|---|---|
| `Basics.dfy`, `Readers.dfy`, `Graphs.dfy`, `Sorting.dfy`, `Text.dfy`, `JsMap.dfy` | shared notions: options, parsers, reachability, stable sorting, UTF-16 strings, the insertion-ordered `Map` |
| `Json.dfy` | canonical JSON, the byte form that is signed, with a parser for it |
| `EnvelopeKey.dfy` | hex printing and key reading of the signed envelope |
| `Splice.dfy`, `Rewrite.dfy` | replacing text at import sites, back to front and front to back |
| `Firmware.dfy`, `FirmwareDocument.dfy`, `FirmwareSources.dfy`, `FirmwareCycles.dfy` | the firmware content fingerprint: its hashes, its document, raw sources, import cycles |
| `Reachable.dfy` | which output files an entry needs |
| `RateLimit.dfy`, `Supervisor.dfy`, `AuthCache.dfy` | the guards in front of each request: token bucket, circuit breaker, cache of verified tokens |
| `Globals.dfy`, `SharedDeps.dfy`, `DepsStore.dfy` | the per-function `globalThis` proxy, generations of shared code, the managed dependency store |
| `LogWriter.dfy`, `Retention.dfy`, `LogQuery.dfy`, `FtsMatch.dfy` | the invocation log store: batching writer, retention, paging, search expressions |
| `Specifiers.dfy`, `VercelRoutes.dfy` | package specifiers and their printing, the merge of Vercel routes |

Objects that the code updates in place are classes whose methods are proved against a step function
on their state; the properties are then proved of that function over all runs. Hashes, signature
checks, URL joining, the module lexer, locale order and character classes are parameters. SQLite and
`bun install` are contracts under which more than one outcome is possible.

Where a promise does not hold of the code for every input, the exact condition under which it holds
is proved, or an input that breaks it is constructed:

- A `limit` strictly between 0 and 1 is clamped to 0 and gives an empty page without a cursor
  (`ClampZeroIff`, `InvocationPagesEnumerate`).
- A negative `maxQueue` makes the writer count more drops than rows (`ConservedIff`); rows can be
  dropped although `flushThreshold <= maxQueue` when `maxQueue` is below 1 (`NothingDroppedIff`).
- A change of the secret is harmless exactly when the old and the new secret agree on the token of every
  pending verification and, while a key import is awaited, on every token (`RotateSafeIff`; from any
  state and over runs with many changes, `SafeIff` and `RunSafeIff`). Otherwise an entry can be left that
  answers for the new secret (`RotationWhileAwaitingLeaks`), or the old key stays in use, and every answer
  until the next change is that of the old secret (`RotationWhileImportingStales`, `StaleRunsAnswerOld`).
- Keys stay in last-use order exactly as long as no token is stored that is kept at another place than
  the last (`SetKeepsOrderIff`, `RunKeepsOrderIff`), as two verifications of it at a time can do.
- An import overtaken by a `bump` leaves a registry entry of a disposed generation
  (`OrphanIffLateSuccess`, `OvertakenImportLeavesOrphan`).
- A breaker that trips at time 0 or before refuses nobody (`TripRefusesIff`).
- Describing `globalThis` or `self` through the proxy can replace the proxy by the host's value
  (`ObserversUnseenIff`).
- jsr scopes that start with `__` or carry an `@` after their first `__` do not survive printing
  (`JsrRoundTripIff`).
- Requests of different names can share an installation key: exactly when the name is in the `@jsr` scope
  and could end at an earlier `@`, of its jsr scope, or at a later one, of its range (`SharedKeyIff`). The
  other request is one of npm exactly when the jsr scope has an `@` that is not its first character
  (`SharedWithNpmIff`); two jsr requests can share a key as well (`JsrPairShares`).
- Where anything is listed, beginning an install is safe exactly when none is under way: otherwise a
  half-written package can come to be trusted (`BeginSafeIff`). And `ensure` skips a package whose last
  request is found on the host (`EnsureServes`).
- An absolute URL spliced into a static import reads back exactly when it has neither the quote around
  it, nor a backslash, nor a line end (`SplicedReadsBackIff`).
- The order of a manifest's entries shows in the fingerprint exactly when entries that the locale cannot
  order print differently (`OrderIgnoredIff`).
- Module hashes do not depend on the visiting order, or on file names, exactly when no two different
  modules reach each other; a module may import itself (`VisitOrderIgnoredIff`, `NamesIgnoredIff`).
  Swapping the names of two modules of different sources that import each other changes the fingerprint
  (`SwappedNamesShow`).

## Model

| member | source | states |
|---|---|---|
| `Json.CanonicalJson` | src/cli/envelope.ts:82-107 | throws the first fault met (a non-finite number, an unsupported value), otherwise returns the text specified by `Print`: the value's normal form, shown |
| `Json.CanonicalItems` | src/cli/envelope.ts:92-94 | the elements of an array in order, joined by commas, or the first fault among them |
| `Json.CanonicalMembers` | src/cli/envelope.ts:95-105 | the defined members of an object in code-unit order of their keys, or the first fault among them |
| `Json.CanonicalDecodes` | src/cli/envelope.ts:82-107 | unique decodability: an RFC 8259 parser reads the printed text back as the value with its keys sorted, and nothing is left over |
| `Json.CanonicalIffSame` | src/cli/envelope.ts:82-107 | two values print the same text if and only if they are equal up to member order and undefined members |
| `Json.ReadShow` | src/cli/envelope.ts:82-107 | every fault-free value reads back from its own text whatever follows it |
| `Json.ReadQuoted` | src/cli/envelope.ts:84 | every UTF-16 string reads back from its quoted form, escapes and lone surrogates included |
| `Json.QuotedUnit` | src/cli/envelope.ts:84 | the literal of a single code unit, spelled out: the seven short escapes, and anything printable as it is |
| `Json.QuotedControl` | src/cli/envelope.ts:84 | other controls and lone surrogates are written as `\u` and the four hex digits of the unit |
| `Json.QuotedNext` | src/cli/envelope.ts:84 | a string is quoted unit by unit, a surrogate pair staying as it is |
| `Json.PrintedArray` | src/cli/envelope.ts:92-94 | the text of an array in its own characters: brackets, and commas between the texts of its elements |
| `Json.PrintedObject` | src/cli/envelope.ts:95-105 | the text of an object in its own characters: braces, quoted keys, colons and commas |
| `Json.SortPlainSame` | src/firmware-content-hash.ts:28-37 | `sortPlain` changes neither a value up to member order nor what is printed of it |
| `EnvelopeKey.BytesToHex` | src/cli/envelope.ts:137-143 | two lower-case hex digits for each byte, in order |
| `EnvelopeKey.DecodeKey` | src/cli/envelope.ts:114-135 | an even run of hex digits is read as the bytes its pairs spell, anything else as base64 |
| `EnvelopeKey.RoundTrip` | src/cli/envelope.ts:114-143 | reading printed bytes gives the bytes back, for every byte sequence |
| `EnvelopeKey.SameHexKey` | src/cli/envelope.ts:117-123 | two hex keys are the same bytes if and only if they differ in letter case alone |
| `Splice.SpliceBackToFront` | src/firmware-content-hash.ts:76-80 | splicing in place, sorted by descending start, equals replacing all sites at once |
| `Splice.SortReverses` | src/firmware-content-hash.ts:77 | sorting ascending sites by descending start is reversing them |
| `Splice.ReplaceKeepsGaps` | src/compat/plugin.ts:249-260 | the text outside the sites is kept in order, and the same gaps woven with the old site contents give the input |
| `Splice.ReplaceForgets` | src/firmware-content-hash.ts:61-80 | two texts that agree but for what is replaced give the same result, however long the replaced parts are |
| `Rewrite.ReplaceAtImportSites` | src/compat/plugin.ts:239-261 | accumulating front to back equals replacing the chosen sites at once; null exactly when the lexer fails |
| `Rewrite.ReplacedIs` | src/compat/plugin.ts:249-260 | of a module written as gaps and specifiers, each literal specifier with a replacement becomes it, quoted at dynamic sites and escaped at static ones, and everything else stays |
| `Rewrite.AbsolutizeImports` | src/compat/remote.ts:61-82 | path-like specifiers, and only they, are replaced by their absolute form, quoted at dynamic sites |
| `Rewrite.AbsolutizedIs` | src/compat/remote.ts:61-82 | of a module written as gaps and specifiers, each literal specifier that starts with `/`, `./` or `../` becomes its absolute form, and everything else stays |
| `Rewrite.SplicedReadsBackIff` | src/compat/remote.ts:74-78 | what a static import gets reads back, between quotes of either kind, if and only if it has neither that quote, nor a backslash, nor a line end |
| `Rewrite.EscapedReadsBack` | src/compat/plugin.ts:276-278 | an escaped specifier between quotes of either kind reads back, as a JavaScript string, as the target |
| `Firmware.NormalizeModule` | src/firmware-content-hash.ts:48-83 | once the source-map comment is stripped, every specifier of a known module, and nothing else, becomes the fixed reference; the dependencies are those modules, sorted, each once |
| `Firmware.SourceMapForgotten` | src/firmware-content-hash.ts:54-57 | of the first source-map comment only its place is left, up to the next of the four line ends, whatever address it gave |
| `Firmware.FingerprintIsMerkle` | src/firmware-content-hash.ts:120-152 | on every graph in which no two different modules reach each other, in any covering order, the memoised visit gives the one recursive Merkle hashing, a self-import counting as the cycle marker |
| `Firmware.HashModuleTotal` | src/firmware-content-hash.ts:121-149 | on any closed graph, cycles included, the visit ends and hashes every module not on the stack |
| `Firmware.HashAllTotal` | src/firmware-content-hash.ts:150-152 | and so every module gets a hash |
| `Firmware.NodeHashDistinguishes` | src/firmware-content-hash.ts:143-146 | under a collision-free hash, two modules hash alike if and only if sources and sets of dependency hashes agree |
| `FirmwareDocument.Hasher.HashModule` | src/firmware-content-hash.ts:121-149 | the method over cache and stack computes the specified visit and restores the stack |
| `FirmwareDocument.ComputeFingerprint` | src/firmware-content-hash.ts:150-192 | null when a module is missing, otherwise the canonical text of a document that tells the manifest: its seven members, each holding the manifest's own data, with ascending lists and hashes in place of files |
| `FirmwareDocument.FingerprintTells` | src/firmware-content-hash.ts:154-192 | the text parses, with nothing left over, to an object of seven members that lists exactly the manifest's schema, date, flags, allowlist, and hashes of chunks, functions and shared modules with their own names, manifests and export names |
| `FirmwareDocument.EqualTextsAgree` | src/firmware-content-hash.ts:154-192 | equal canonical texts imply manifests that agree in all seven parts, up to the order of entries and of object members |
| `Firmware.EqualHashesUnfold` | src/firmware-content-hash.ts:143-146 | under a collision-free hash, equal hashes on untangled graphs mean equal sources and dependencies with equal hashes in turn |
| `FirmwareDocument.RenamedHashAt` | src/firmware-content-hash.ts:120-149 | where no two different modules reach each other, renaming module files leaves every module's hash as it was |
| `FirmwareDocument.FingerprintIgnoresNamesAndOrder` | src/firmware-content-hash.ts:90-193 | the canonical text, or the fault, is the same after renaming files and permuting functions, chunks and shared modules, if no two different modules reach each other and entries the locale cannot order print alike |
| `FirmwareSources.RespecifiedNormalizes` | src/firmware-content-hash.ts:48-83 | two raw sources that differ only in their specifiers of known modules normalise to the same source, with corresponding dependencies |
| `FirmwareSources.WrittenNormalizes` | src/firmware-content-hash.ts:39-83 | of a module written as gaps and specifiers the gaps stay, specifiers of modules of the program, and no others, become the fixed reference, and those modules are listed in order, each once |
| `FirmwareSources.RespecifiedRenames` | src/firmware-content-hash.ts:102-119 | programs made of such sources have module graphs that differ in file names alone |
| `FirmwareSources.RebuiltSourcesPrintAlike` | src/firmware-content-hash.ts:90-193 | from raw sources to canonical text: renaming the files, adapting the specifiers and permuting the manifest changes nothing, if no two different modules reach each other and entries the locale cannot order print alike |
| `FirmwareCycles.FirstIsLargest` | src/firmware-content-hash.ts:120-152 | the module visited first gets a larger hash than every other that it reaches |
| `FirmwareCycles.VisitOrderIgnoredIff` | src/firmware-content-hash.ts:132-152 | all covering orders give the same hashes if and only if no two different modules reach each other |
| `FirmwareCycles.NamesIgnoredIff` | src/firmware-content-hash.ts:94-152 | visiting the files in the order of their names, no renaming changes a module's hash if and only if no two different modules reach each other |
| `FirmwareCycles.SwappedNamesShow` | src/firmware-content-hash.ts:94-193 | for any two modules of different sources that import each other, swapping their names changes the canonical text |
| `FirmwareDocument.OrderIgnoredIff` | src/firmware-content-hash.ts:154-187 | the order of functions and shared modules does not show in the printed document if and only if entries the locale cannot order print alike |
| `Reachable.Collector.Visit` | src/bundler/core.ts:707-712 | a visit adds the file and what is reachable from it through unseen files, the file first |
| `Reachable.CollectReachable` | src/bundler/core.ts:704-715 | on every graph, cycles included: exactly the files reachable from the entry, each once, the entry first |
| `Graphs.ReachIsLeast` | src/bundler/core.ts:704-715 | what an entry reaches is the least set with the entry and with whatever the imports of its members point to |
| `RateLimit.Limiter.GetOrCreateBucket` | src/gateway/rate-limit.ts:68-90 | the bucket fetched, refilled or created, and the whole map after it |
| `RateLimit.Limiter.Handle` | src/gateway/rate-limit.ts:152-188 | exempt, admitted or refused with a retry time, and the whole map after it |
| `RateLimit.RunSound` | src/gateway/rate-limit.ts:68-90 | at every point of every run with a non-decreasing clock, tokens lie in 0..rpm |
| `RateLimit.RefillIs` | src/gateway/rate-limit.ts:82-87 | a refill adds the whole tokens that the elapsed time has earned, up to the rate, and restarts the clock when there are any |
| `RateLimit.PacedAdmitted` | src/gateway/rate-limit.ts:68-187 | a request is admitted when since the last one of its key time has earned a token, evicted meanwhile or not |
| `RateLimit.BurstAdmitted` | src/gateway/rate-limit.ts:68-187 | a caller new to the limiter is admitted as many times as its rate says, however fast, while its bucket is kept |
| `RateLimit.RetryAfterLeast` | src/gateway/rate-limit.ts:176-184 | the advertised seconds are the fewest in which a token is earned |
| `RateLimit.AdmissionBound` | src/gateway/rate-limit.ts:172-187 | a bucket not evicted admits at most rpm + (t-s)*rpm/60000 + 1 requests from time s to time t |
| `RateLimit.RetryAdmitted` | src/gateway/rate-limit.ts:176-184 | a refused caller that waits the advertised seconds undisturbed is admitted, evicted meanwhile or not |
| `RateLimit.HoldsLastCreations` | src/gateway/rate-limit.ts:72-80 | the map always holds exactly the last `maxBuckets` creations, oldest first |
| `RateLimit.BucketSurvives` | src/gateway/rate-limit.ts:72-80 | a bucket survives the next `maxBuckets` - 1 creations |
| `Supervisor.FunctionSupervisor.SetManifest` | src/supervisor.ts:56-58 | the manifest is set, nothing else changes |
| `Supervisor.FunctionSupervisor.Forget` | src/supervisor.ts:61-64 | state and manifest of the function go |
| `Supervisor.FunctionSupervisor.Reset` | src/supervisor.ts:66-68 | the state of the function goes |
| `Supervisor.FunctionSupervisor.Admit` | src/supervisor.ts:89-111 | the decision, and the whole state after it |
| `Supervisor.FunctionSupervisor.Record` | src/supervisor.ts:118-161 | the trip and recycle signals, and the whole state after them; it trips exactly when the breaker was closed and the errors of a full window reach the rate |
| `Supervisor.RecordTripsIff` | src/supervisor.ts:130-148 | a record trips if and only if the breaker was closed, the rate is positive, the new window is full, not empty, and the errors in it are at least the rate times its length |
| `Supervisor.CleanWindowNeverTrips` | src/supervisor.ts:137-148 | over any run, a window without errors never trips |
| `Supervisor.ErrorsInARowTrip` | src/supervisor.ts:130-148 | at a rate of at most 1, as many errors in a row as the window is long trip a closed breaker |
| `Supervisor.CountersCount` | src/supervisor.ts:118-125 | in every run the counters are the numbers of records and of errors since the function was first seen |
| `Supervisor.RecommendsIff` | src/supervisor.ts:151-157 | a run recommends recycling at the record that reaches `maxRequests`, and only there |
| `Supervisor.NeverTrippedAdmits` | src/supervisor.ts:89-92 | as long as the breaker has not tripped every request is admitted |
| `Supervisor.WindowIsLastOutcomes` | src/supervisor.ts:131-135 | in every run the window is the last `errorWindow` outcomes since the last half-open |
| `Supervisor.TripsBounded` | src/supervisor.ts:137-148 | over any run, trips * errorWindow <= records |
| `Supervisor.TripsApart` | src/supervisor.ts:94-108 | any two trips are at least the cool-down apart |
| `Supervisor.CoolDownRefuses` | src/supervisor.ts:94-103 | every admit in a cool-down is refused, its Retry-After reaching the end and overshooting by less than a second |
| `Supervisor.RetryAdmitted` | src/supervisor.ts:89-111 | a refused caller that waits that long is admitted unless the breaker tripped again |
| `Supervisor.TripRefusesIff` | src/supervisor.ts:94-145 | after a trip a request is refused if and only if the trip was at a positive time and the cool-down has not elapsed |
| `AuthCache.Verifier.ReadSecret` | src/gateway/auth.ts:46-62 | a changed secret drops the key and every entry |
| `AuthCache.Verifier.GetCached` | src/gateway/auth.ts:91-103 | the payload of a live entry, moved to the end; an expired entry goes |
| `AuthCache.Verifier.SetCached` | src/gateway/auth.ts:105-117 | the oldest entries go until one more fits |
| `AuthCache.Verifier.BeginVerify` | src/gateway/auth.ts:119-138 | a verification up to its first await, or its answer |
| `AuthCache.ThreePartsIff` | src/gateway/auth.ts:133-134 | a token goes on to its signature check if and only if it is a header, a payload and a signature without dots, joined by dots |
| `AuthCache.UncachedIff` | src/gateway/auth.ts:119-166 | uncached verification yields a payload if and only if a secret is set, the token has three parts, its check yields that payload, and it has not expired |
| `AuthCache.FirstVerification` | src/gateway/auth.ts:46-166 | from the start, a token of three parts goes through begin, key import and check and is answered with its payload if that has not expired, and later requests before its expiry are answered at once |
| `AuthCache.RefusedAtOnce` | src/gateway/auth.ts:119-134 | without a secret, or with other than three parts, a token is refused at once |
| `AuthCache.Verifier.KeyImported` | src/gateway/auth.ts:64-76 | the imported key is kept and the verification goes on with it |
| `AuthCache.Verifier.Verified` | src/gateway/auth.ts:141-166 | the end of a verification: the answer, and the entry cached |
| `AuthCache.StepAnswersUncached` | src/gateway/auth.ts:119-166 | one step keeps the cache faithful to the secret and answers as an uncached verification would |
| `AuthCache.CalmRunsAnswerUncached` | src/gateway/auth.ts:46-166 | so does every run in which the secret is constant while a verification awaits |
| `AuthCache.SafeIff` | src/gateway/auth.ts:46-166 | from any state, every run without a further change of the secret answers as uncached verification does if and only if what is cached for the secret is right for it and each pending key agrees with it as far as it can still be used |
| `AuthCache.RotateSafeIff` | src/gateway/auth.ts:46-166 | a change of the secret keeps answers uncached if and only if both secrets agree on the token of every pending verification and, for one awaiting the key import, on every token |
| `AuthCache.RunSafeIff` | src/gateway/auth.ts:46-166 | a run with any number of changes is safe throughout if and only if each change is harmless at its moment |
| `AuthCache.RotationWhileAwaitingLeaks` | src/gateway/auth.ts:141-160 | from every consistent state awaiting a check that will succeed, a change of the secret can leave an entry that answers for a secret that never verified it |
| `AuthCache.RotationWhileImportingStales` | src/gateway/auth.ts:64-76 | from every consistent state awaiting a key import, a change to any other secret leaves the old key in use beside the new secret |
| `AuthCache.StaleRunsAnswerOld` | src/gateway/auth.ts:64-166 | from then on, until the secret changes again, every answer is the uncached one under the old secret |
| `AuthCache.RunsKeepCapacity` | src/gateway/auth.ts:105-117 | no interleaving makes the cache exceed its capacity |
| `AuthCache.FreshRunsKeepLru` | src/gateway/auth.ts:91-117 | in runs that verify no token twice at once, key order is last-use order |
| `AuthCache.EvictedIsLeastRecentlyUsed` | src/gateway/auth.ts:108-112 | from every cache in last-use order, what is evicted is one entry, the least recently used, and only when the cache is full |
| `AuthCache.SetKeepsOrderIff` | src/gateway/auth.ts:105-117 | storing a verified token keeps last-use order if and only if the token is not among the entries that stay, or is the last of them |
| `AuthCache.RunKeepsOrderIff` | src/gateway/auth.ts:91-166 | a run keeps last-use order throughout if and only if each of its steps stores in place |
| `Globals.GlobalProxy.GetProperty` | src/compat/globals.ts:32-38 | the trap computes the specified step and changes nothing |
| `Globals.GlobalProxy.SetProperty` | src/compat/globals.ts:39-44 | the trap's answer and the whole layer after it; the host is not in its frame |
| `Globals.GlobalProxy.DefineProperty` | src/compat/globals.ts:45-54 | likewise for definitions |
| `Globals.GlobalProxy.DeleteProperty` | src/compat/globals.ts:55-60 | likewise for deletions |
| `Globals.GlobalProxy.HasProperty` | src/compat/globals.ts:61-65 | the trap computes the specified step and changes nothing |
| `Globals.GlobalProxy.GetOwnPropertyDescriptor` | src/compat/globals.ts:66-77 | the descriptor, and the shadow with a non-configurable host property mirrored |
| `Globals.GlobalProxy.GetOwnKeys` | src/compat/globals.ts:78-84 | the key list, and nothing changes |
| `Globals.StepSound` | src/compat/globals.ts:31-85 | every trap keeps own, deleted and pinned keys disjoint and the shadow non-configurable, and passes the checks of ECMA-262 sections 10.5.5 to 10.5.11 |
| `Globals.RunKeepsInvariants` | src/compat/globals.ts:31-85 | and so at every point of every sequence of calls, whatever the host does in between |
| `Globals.DescribedIffListed` | src/compat/globals.ts:66-84 | a key is described if and only if `ownKeys` lists it |
| `Globals.OtherKeysUntouched` | src/compat/globals.ts:39-77 | a call about one key changes nothing observable of another, under any later host |
| `Globals.ObserversUnseenIff` | src/compat/globals.ts:32-84 | get, has, describe and ownKeys change nothing observable, with one exception characterised exactly |
| `Globals.ReadYourWrites` | src/compat/globals.ts:32-77 | an accepted write is read back and described in full; an accepted delete hides the key |
| `Globals.WriteAcceptedIff` | src/compat/globals.ts:39-60 | writes fail exactly on pinned data that is not writable and pinned accessors without a setter, deletes exactly on pinned keys |
| `Globals.DefineAcceptedIff` | src/compat/globals.ts:45-54 | a definition is accepted exactly when the key is not pinned or what it asks is compatible with the pinned property (ECMA-262 section 10.1.6.3) |
| `Globals.OwnDefinitionReadsBack` | src/compat/globals.ts:45-54 | of a key in the function's own layer the value defined, or what the getter yields, is read back as plain data |
| `Globals.PinnedDefinitionReadsBack` | src/compat/globals.ts:45-54 | a non-configurable definition makes exactly the property it describes, with the defaults of absent fields |
| `Globals.PinnedRedefinitionReadsBack` | src/compat/globals.ts:45-54 | an accepted definition of a pinned key changes the fields it gives and keeps the others |
| `Globals.FrozenStays` | src/compat/globals.ts:39-60 | a pinned property that cannot be written stays as it is in every run |
| `Globals.FreshLayerShows` | src/compat/globals.ts:17-84 | at first the overrides lie over the host, and the global object's own names yield the proxy |
| `Globals.UncalledKeysUntouched` | src/compat/globals.ts:31-85 | in every run, a key that no call was about looks as it did at first |
| `SharedDeps.SharedDependencies.LoadModule` | src/compat/shared-deps.ts:133-148 | the names of a registered module at once, otherwise one import in flight |
| `SharedDeps.SharedDependencies.Resolved` | src/compat/shared-deps.ts:140-143 | a finished import is registered under its generation |
| `SharedDeps.SharedDependencies.RetainCurrent` | src/compat/shared-deps.ts:149-152 | the current generation gains a holder |
| `SharedDeps.SharedDependencies.ReleaseGeneration` | src/compat/shared-deps.ts:153-165 | a generation loses a holder, and a retired one is disposed with its last |
| `SharedDeps.SharedDependencies.BumpGeneration` | src/compat/shared-deps.ts:166-171 | a new generation; the old one is retired while held, otherwise disposed |
| `SharedDeps.RunInv` | src/compat/shared-deps.ts:118-171 | every interleaving keeps counts, retirement, registry and evaluations consistent |
| `SharedDeps.RunExtends` | src/compat/shared-deps.ts:118-171 | every run from a consistent state goes on with any enabled operation, so that none is left out |
| `SharedDeps.GenerationsCountHolders` | src/compat/shared-deps.ts:121-171 | refs are the outstanding holders; disposed if and only if not current and not held; each module evaluated at most once a generation |
| `SharedDeps.OrphanIffLateSuccess` | src/compat/shared-deps.ts:121-148 | a registry entry of a disposed generation exists if and only if some import succeeded after its disposal |
| `SharedDeps.QuietRunsLeaveNoOrphan` | src/compat/shared-deps.ts:121-148 | none exists when no import is in flight at any disposal |
| `SharedDeps.OvertakenImportLeavesOrphan` | src/compat/shared-deps.ts:140-171 | from every state whose current generation is not held, load, bump and late success leave one |
| `SharedDeps.RegistryHoldsExports` | src/compat/shared-deps.ts:133-148 | in every run the names registered for a module are those an import of it under that generation resolved to |
| `SharedDeps.ExportsStay` | src/compat/shared-deps.ts:121-148 | they are registered at once and stay until the generation is disposed |
| `DepsStore.Manager.MissingOf` | src/compat/deps.ts:212-222 | the map of requests to install |
| `DepsStore.MissingExact` | src/compat/deps.ts:212-222 | it has an alias exactly when a request asks for it and it is not trusted, with the last such request |
| `DepsStore.TrustedIff` | src/compat/deps.ts:191-222 | a request is passed over exactly when no marker stands, its package is listed, and the package.json of it is there |
| `DepsStore.Manager.AddToManifest` | src/compat/deps.ts:224-230 | every request is listed under its alias |
| `DepsStore.AddAllSpecs` | src/compat/deps.ts:224-230 | an alias is listed with what its last request specifies; the others keep their entries |
| `DepsStore.Manager.BeginInstall` | src/compat/deps.ts:241-247 | forced exactly when a marker was left behind; the marker stands afterwards |
| `DepsStore.Manager.InstallDone` | src/compat/deps.ts:249-251 | the marker goes |
| `DepsStore.Manager.Install` | src/compat/deps.ts:259-290 | the state after one whole install, whatever the process wrote and however it ended |
| `DepsStore.Manager.Ensure` | src/compat/deps.ts:320-328 | installs exactly what is missing and not on the host |
| `DepsStore.Manager.ResolveSync` | src/compat/deps.ts:329-332 | installs on demand what neither host nor store provides |
| `DepsStore.RunKeepsInv` | src/compat/deps.ts:199-290 | in every run of serial installs with crashes at any step, no package is half-written while the marker is absent |
| `DepsStore.TrustedIsWhole` | src/compat/deps.ts:212-222 | a request is passed over if and only if the marker is absent and its package is listed and whole |
| `DepsStore.SuccessRepairs` | src/compat/deps.ts:241-251 | the next install to succeed after any crash or failure leaves everything listed whole and trusted |
| `DepsStore.RepairPossible` | src/compat/deps.ts:241-290 | from whatever a crash left, such an install can be made |
| `DepsStore.InstallDelivers` | src/compat/deps.ts:259-290 | a successful install trusts exactly what is listed, each alias under the specifier last asked for; a failed one keeps the store sound |
| `DepsStore.EnsureServes` | src/compat/deps.ts:320-328 | which requests a successful `ensure` leaves served by the store, exactly |
| `DepsStore.OverlapTrustsHalfWritten` | src/compat/deps.ts:259-290 | from every state of serial installs with one under way, another begun now can leave any listed package half-written and trusted |
| `DepsStore.BeginSafeIff` | src/compat/deps.ts:241-290 | where anything is listed, beginning an install is safe if and only if none is under way |
| `LogWriter.Writer.FlushNow` | src/logs/writer.ts:176-210 | a batch commits whole or is lost whole, wherever the database fails |
| `LogWriter.Writer.Record` | src/logs/writer.ts:212-252 | the whole state after a record |
| `LogWriter.Writer.Stop` | src/logs/writer.ts:382-387 | nothing is accepted any more and the queue is flushed |
| `LogWriter.RunsKeepOrder` | src/logs/writer.ts:176-252 | records leave in the order they came, committed rows are those settled as written, and a non-empty queue has its timer armed |
| `LogWriter.StepCommitsWhole` | src/logs/writer.ts:176-252 | a step commits nothing, or all that was waiting and not dropped |
| `LogWriter.FlushCommitsIff` | src/logs/writer.ts:176-210 | a flush commits the whole queue, counted, if and only if nothing fails before its end; otherwise it commits nothing and counts every row as lost |
| `LogWriter.HealthyRunsCommit` | src/logs/writer.ts:176-252 | in every run without database failures nothing is lost, and what was accepted is, in order, committed, dropped or still queued |
| `LogWriter.RecordKeepsNewest` | src/logs/writer.ts:230-252 | a record keeps the newest `maxQueue` rows, and they are flushed at the threshold and otherwise wait for the timer |
| `LogWriter.RunsAcceptRecorded` | src/logs/writer.ts:212-214 | what a run accepts is exactly what was recorded before the stop |
| `LogWriter.ConservedIff` | src/logs/writer.ts:176-252 | accepted = queued + written + dropped + lost in every run if and only if writing is synchronous or `maxQueue` is not negative |
| `LogWriter.NothingDroppedIff` | src/logs/writer.ts:232-241 | no run drops anything if and only if writing is synchronous or max(1, flushThreshold) <= maxQueue |
| `Retention.CutOf` | src/logs/writer.ts:285-303 | the least of the n greatest values, 0 for an empty table |
| `Retention.CutBoundsWindow` | src/logs/writer.ts:283-310 | the rows below the cut are exactly those with at least n rows newer |
| `Retention.DeleteChunk` | src/logs/writer.ts:268-281 | deletes as many of the condemned rows as fit the chunk, which ones being open |
| `Retention.LogStore.PruneStep` | src/logs/writer.ts:264-313 | rows strictly decrease while it reports more; when it does not, nothing changed and no rule has a row left |
| `Retention.LogStore.Prune` | src/logs/writer.ts:331-344 | the loop ends, with nothing left to delete, every deletion justified when made |
| `Retention.DeletedWasDoomed` | src/logs/writer.ts:264-313 | every row missing was expired or had at least n rows newer when it was deleted |
| `Retention.RecentSurvives` | src/logs/writer.ts:264-344 | no row that was unexpired and in its window at the start is missing |
| `Retention.CleanMeans` | src/logs/writer.ts:264-344 | at the end nothing is expired, log rows are within their cap, invocation rows exceed theirs only by ties on the cut timestamp |
| `LogQuery.ClampZeroIff` | src/logs/query.ts:97-100 | a limit clamps to 0 if and only if it lies strictly between 0 and 1 |
| `LogQuery.ClampLimitIs` | src/logs/query.ts:94-100 | the whole part of a limit between 1 and 200, 200 above that, 50 when it asks for nothing sensible |
| `LogQuery.WalkEnumerates` | src/logs/query.ts:260-284 | keyset paging over any proper order enumerates exactly the filtered rows if and only if the limit does not clamp to 0 or there are none |
| `LogQuery.QueryIsPage` | src/logs/query.ts:209-285 | `queryInvocations` with its (ts, id) cursor is that paging |
| `LogQuery.InvocationPageIs` | src/logs/query.ts:209-285 | a page lists the newest wanted rows, newest first, as many as the limit takes, and has its last row's cursor exactly when it is not empty and leaves some out |
| `LogQuery.LogPageIs` | src/logs/query.ts:329-363 | likewise a page of log lines, by descending id |
| `LogQuery.InvocationPagesEnumerate` | src/logs/query.ts:260-284 | the pages of a client that follows cursors are the filtered invocations in (ts desc, id desc) order, no gap, no repeat |
| `LogQuery.InvocationWalkExists` | src/logs/query.ts:260-284 | such a client always reaches a last page |
| `LogQuery.LogPagesEnumerate` | src/logs/query.ts:329-363 | likewise for log lines paged by `beforeId` |
| `LogQuery.LogWalkExists` | src/logs/query.ts:329-363 | such a client always reaches a last page |
| `LogQuery.PollFacts` | src/logs/query.ts:365-370 | a poll returns every row from the old cursor up to the new one, in order |
| `LogQuery.TailDeliversOnce` | src/logs/api.ts:123-130 | while rows are appended and pruned, no row is delivered twice and every surviving row the cursor passed was delivered |
| `FtsMatch.BuildFtsMatch` | src/logs/query.ts:108-128 | null exactly when no term is usable; otherwise the expression reads back as exactly the usable terms and prefix flags, in order |
| `FtsMatch.TermOfIs` | src/logs/query.ts:113-117 | a trailing star asks for a prefix and is not part of the term |
| `FtsMatch.ReadJoined` | src/logs/query.ts:122-127 | any rendered list of terms reads back as that list |
| `FtsMatch.ReadDoubled` | src/logs/query.ts:122-124 | a string with its quotes doubled reads back |
| `FtsMatch.SplitIsWords` | src/logs/query.ts:110-121 | splitting, trimming and skipping yields the maximal space-free words, whatever the spacing |
| `Specifiers.SplitPackageScan` | src/compat/specifiers.ts:31-59 | the scanning method computes the specified split |
| `Specifiers.SplitProper` | src/compat/specifiers.ts:31-59 | a split has a proper non-empty name, a non-empty slash-free range, and a subpath that is empty or a slash and more |
| `Specifiers.SplitOfPrint` | src/compat/specifiers.ts:31-59 | proper parts, printed, split into the same parts |
| `Specifiers.UnrangedIsLatest` | src/compat/specifiers.ts:31-59 | without a range, or with an empty one, a package is taken at `latest`; a lone slash is no subpath |
| `Specifiers.PrefixIgnored` | src/compat/specifiers.ts:62-99 | the registry's prefix, and one slash after it, may be written or left out |
| `Specifiers.NpmRoundTrip` | src/compat/deps.ts:336-338 | printing a parsed npm request and parsing it again gives the same request |
| `Specifiers.JsrRoundTripIff` | src/compat/deps.ts:336-338 | the same for jsr requests if and only if the scope neither starts with the joiner nor has an `@` after its first one |
| `Specifiers.PackageKeyInjective` | src/compat/specifiers.ts:101-103 | parsed requests of either registry whose jsr scopes have no `@` have equal keys only with equal names and ranges |
| `Specifiers.KeyReadsBackIff` | src/compat/specifiers.ts:101-103 | the key of a parsed request splits into its name and range again if and only if its jsr scope has no `@` |
| `Specifiers.SharedKeyIff` | src/compat/specifiers.ts:101-103 | a parsed request shares its key with a parsed request of another name, of either registry, if and only if its name is in the `@jsr` scope and could also end at an earlier `@` of it or at a later `@` of the range |
| `Specifiers.SharedWithNpmIff` | src/compat/specifiers.ts:101-103 | a parsed jsr request shares its key with an npm request of another name if and only if its scope has an `@` that is not its first character |
| `Specifiers.JsrPairShares` | src/compat/specifiers.ts:74-103 | two jsr requests with one key, for any scope, packages, range and text before the joiner |
| `Specifiers.AtScopeCollides` | src/compat/specifiers.ts:74-103 | every such scope has a specifier, without a range, that collides |
| `VercelRoutes.OutputConfig.MergeSubpathRoutes` | src/cli/vercel-build.ts:309-377 | the whole config after the merge, whether it was created, and the number of routes written |
| `VercelRoutes.MergeKeepsForeign` | src/cli/vercel-build.ts:344-367 | every foreign route stays, in order |
| `VercelRoutes.MergeShape` | src/cli/vercel-build.ts:344-367 | the foreign routes, unchanged, with one route for each function, in locale order, in front of their first marker |
| `VercelRoutes.OwnIff` | src/cli/vercel-build.ts:349-355 | a route is dropped exactly when it sends some built function's pattern to that function's path |
| `VercelRoutes.MergeIdempotent` | src/cli/vercel-build.ts:329-367 | merging the same functions twice changes nothing |
| `VercelRoutes.EmittedHits` | src/cli/vercel-build.ts:337-342 | an emitted pattern is hit exactly by the paths under its function, whatever characters the name has |
| `VercelRoutes.DisjointPatterns` | src/cli/vercel-build.ts:337-342 | slash-free names give disjoint patterns |
| `VercelRoutes.BuildsCompose` | src/cli/vercel-build.ts:329-367 | building A then B gives the routes of building both, up to the order of own routes, and the same first match for every path |

## Left out

- HTTP serving, middleware wiring, process spawning, file watching, CLI options and path layout: I/O around simple data.
- SHA-256, HMAC, JWT decoding, URL joining, the module lexer and locale comparison: parameters.
- SQLite: statements are modelled by what they select and delete; FTS and LIKE conditions of a query are an arbitrary predicate on rows.
- Canonical JSON numbers are integers: fractions and exponents in `JSON.stringify` output are not modelled.
- FirmwareDocument.FingerprintIgnoresNamesAndOrder: covers programs in which no two different modules reach each other and manifests in which entries that tie under locale comparison print alike; `NamesIgnoredIff` and `OrderIgnoredIff` show that names or order do matter otherwise. A renaming may merge files, but no file with one it imports (`KeepsApart`), which on acyclic graphs holds of every renaming (`AcyclicKeepsApart`).
- FirmwareCycles.VisitOrderIgnoredIff: as `NamesIgnoredIff` does, it assumes that hashes grow in size from dependencies to dependents, an idealisation like collision freedom (`GrowthPossible` shows that both can be met together).
- The module lexer is taken to report the import sites that get replaced in ascending order and without overlap.
- The path arithmetic of `resolveModuleSpecifier`, which is a parameter.
- A `__proto__` key in `sortPlain` and in `Object.entries` copies, which JavaScript treats as a prototype.
- Rewrite.ReplaceAtImportSites: the pattern-based fallback for sources the lexer cannot parse is not modelled.
- Floating point: bucket rates are positive whole numbers, error rates exact reals, times whole milliseconds.
- Rate limits whose rpm changes at run time, and the resolution of a bucket's key from proxies and identities.
- The auth probe, service-role keys and the test-only change of the cache's capacity.
- Globals: `Object.preventExtensions` on the proxy, and getters or setters that call back into it; a getter's result is a parameter.
- SharedDeps: generation objects are records addressed by id, and `dispose()` at shutdown is not a step.
- DepsStore: installs through `ensure` and `resolveSync` are proved with no other install under way, which the promise chain sees to among `ensure` calls only; the manifest write is one step; the alias is a given function of name and range, so that two packages with colliding alias hashes are not told apart; the generated bunfig file is left out and host resolution is a parameter.
- LogWriter: `INSERT OR REPLACE` of an invocation with a known id is a write like any other; column coercion and message clamping are not modelled.
- Retention: `pruneIncremental`, which runs the same steps with other events in between, and the WAL checkpoint.
- LogQuery: `functionNames`, `lastDispatchByFunction` and `getInvocation`, which are single statements.
- VercelRoutes: foreign route patterns hit as an arbitrary predicate says; emitted patterns are interpreted for paths without line terminators.
- Supervisor and limiter read-outs (`stats`, `allStats`), Prometheus and health rendering: easy members.
