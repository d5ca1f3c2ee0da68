# Verification of the PII security proxy

A Dafny model of the proxy's hard core and proofs about it:

* **Restoration lifecycle.** `ProcessService` masks a text, keeps a restoration record, and later
  gives the text back for its mask. The record lives in an in-memory store (two locked phases
  under a stripe lock) or in Redis (an optimistic WATCH/GET/EXEC loop of five attempts). Both
  stores are step machines whose threads interleave freely with each other, with time and with
  expiry. Both are shown to keep one atomic contract (`AtomicContract.dfy`); the lifecycle is
  proved once, over whole runs of that contract (`Lifecycle.dfy`, `ConsumerIsolation.dfy`), and
  brought back to both stores in `ServiceOnStores.dfy`. `RedisCalls.dfy` shows that every call of the
  Redis machine runs the imperative loop of `RedisStore.dfy`. `StoreAtomicity.dfy` and
  `RedisRework.dfy` show with constructed executions where the code does less than its comments say.
* **Text transformation.** Resolution of candidate spans (`DroppedSpans.dfy` has the exact condition
  under which one is lost), selection and replacement of spans, and restoration of an LLM answer by
  one `str.replace` per token.
* **Load scheduler.** The organizer load profile, its integral, the 60-step inversion and the
  shared slot counter, over exact reals, with a throughput bound for every run.
* **Sliding-window limiter** and the **Luhn and INN checksums**.

Stateful code is modelled as classes with methods proved against functions of the old state
(`MemoryStore.dfy`, `RedisStore.dfy`, `ProcessService.dfy`, `Scheduler.dfy`, `RateLimiter.dfy`) or
as methods, most with loops (`SpanResolution.dfy`, `MaskingEngine.dfy`, `MaskPreparation.dfy`, `TokenRestoration.dfy`,
`Strategies.dfy`, `LoadProfile.dfy`, `Checksums.dfy`); the laws are lemmas about those functions.

The clock, randomness and detectors are parameters: every clock reading a method makes is an
argument, `Call.masks(i)` is the outcome of the i-th run of detection and masking for a call,
`replace(i, e)` is a strategy's output for the i-th replaced span, and detection is an arbitrary
sequence of candidate spans. Cryptographic hashes are arbitrary functions; a lemma that needs one
not to collide says so in its `requires`.

## Where the code and its documentation differ

* The base contract calls every transition an atomic read-modify-write. The in-memory store reads
  at one instant and takes effect at a later one. `StoreAtomicity.ActsOnPresentUnlessExpired` says
  exactly when that shows (the record expires in between) and `StoreAtomicity.ExpiredRecordReturns`
  gives an execution in which it does. The abstract contract therefore judges expiry at the instant
  of the read.
* The service's docstring promises the same mask for every retry of the original payload. After the
  mask has been demasked the retry is refused: `ProcessRules.RetryOfOriginal` and
  `ServiceOnStores.MasksAreRepeatable` give the exact condition, `ProcessRules.RetryAfterDemaskIsRefused`
  the failing sequence.
* A comment in `process` says the prepared mask is memoised across compare-and-set retries. One
  prepared inside a transition is not: `RedisContention.DetectionCost` derives the exact count from
  what the callback reports, and `RedisRework.DetectionRunsInEveryRound` reaches it.
* The masking engine's docstrings say overlapping spans keep the longest one. The earliest starting
  one wins, and length decides only between equal starts: `MaskingEngine.EarlierSpanWins` and
  `MaskingEngine.LongestIsKeptUnlessUndercut`.
* `resolve_spans` promises non-overlapping entities. That holds of spans that do not end before they
  start; `DroppedSpans.BackwardSpansUndoSeparation` shows others, which the entity type admits. A span
  may also be dropped without overlapping anything kept, exactly as `DroppedSpans.DroppedIff` says.
* `app/masking/README.md` shows a default context rule; the table in the code is empty, and the
  model follows the code.
* `_organizer_user_count` promises at least the required users; `LoadProfile.UsersSuffice` shows
  that this holds exactly when the cap admits them.

## Model

| member | source | states |
|---|---|---|
| AtomicContract.ReplyAt | app/restoration/base.py:32-43 | The i-th answer of a run is the contract's answer in the state left by the operations before it |
| AtomicContract.LaterInLog | app/restoration/base.py:32-43 | The log of a run is in clock order |
| AtomicContract.BaseIsLatestCommit | app/restoration/base.py:32-43 | The cell of a key is what the latest earlier commit on it wrote, or absent if there was none |
| AtomicContract.NoLostUpdate | app/restoration/base.py:32-43 | Every transition acts on the result of the latest earlier commit on its key while that is alive, on nothing otherwise, and that commit came before its read |
| ProcessRules.ServedPayloads | app/processing/process_service.py:122-151 | Exactly which payloads of which consumer are served from a stored record, with which text, and which of the two errors every other one meets |
| ProcessRules.RetryOfOriginal | app/processing/process_service.py:140-151 | A retry of the original payload gets the mask if and only if the record is still masked or masking changed nothing |
| ProcessRules.RetryAfterDemaskIsRefused | app/processing/process_service.py:3-9 | Mask, demask, then the original again: the third request is refused |
| ProcessRules.KeyDeterminesConsumer | app/processing/process_service.py:108-120 | Storage keys are equal if and only if consumer and digest are, for identifiers with any characters |
| ProcessRules.KeyInjective | app/processing/process_service.py:108-120 | Storage keys are equal if and only if consumer and payload identifier are, given a fixed-length digest that does not collide on the two strings hashed |
| Lifecycle.CommitsAreCoherent | app/processing/process_service.py:122-151 | Every state ever committed is a record whose hash is that of its original text |
| Lifecycle.NewRecordIsItsMasking | app/processing/process_service.py:130-177 | A transition that finds nothing creates a masked record of the caller's own text, with text, mappings, count and types of one named run of detection and masking, and answers with exactly those, whatever the policy on demasking |
| Lifecycle.FoundRecordIsAnsweredInFull | app/processing/process_service.py:136-211 | A committed transition that finds a record changes at most its status, to demasked unless the original text of a masked record was sent, and its whole answer follows |
| Lifecycle.TurnedAwayInFull | app/processing/process_service.py:122-151 | A transition that finds nothing raises nothing; one that finds a record fails if and only if the consumer is another, the record does not serve the payload, or it would demask where that is disabled, and with the error of that case |
| Lifecycle.RecordIsStable | app/processing/process_service.py:122-151 | From one commit to any later one on the same record only the status may differ, and only from masked to demasked |
| Lifecycle.AnswersAgree | app/processing/process_service.py:187-211 | All MASK answers drawn from one record are the same, all DEMASK answers are the same, and no MASK follows a DEMASK |
| Lifecycle.AnswersGoToTheirPayload | app/processing/process_service.py:136-151 | A MASK answer goes only to the original payload, a DEMASK answer only to the mask, both only to the owner |
| Lifecycle.MaskIsAnsweredByOriginal | app/processing/process_service.py:144-150 | Every accepted answer to the stored mask is the stored original, also when the two are equal |
| Lifecycle.RoundTrip | app/processing/process_service.py:60-106 | A text that was answered with a mask is the answer to that mask at any later commit on the same record |
| Lifecycle.OneOwner | app/processing/process_service.py:122-151 | Of racing creators one payload owns the record; all others that are not its mask are refused while it lives |
| Lifecycle.RecordIsFoundWithinTtl | app/restoration/base.py:32-43 | Until a commit's time to live runs out every transition on the key finds its record, at most demasked since |
| Lifecycle.MaskIsRestoredWithinTtl | app/processing/process_service.py:60-106 | Within the time to live of a masking, its owner's transition with the mask is answered by the original |
| Lifecycle.DemaskedInHistory | app/processing/process_service.py:136-151 | Within the time to live of a commit, a transition finds its record demasked if and only if a commit since was answered DEMASK |
| Lifecycle.RecordIsThere | app/restoration/base.py:32-43 | Within the time to live of a commit its key is not absent |
| ServiceOnStores.StoresAreAtomic | app/restoration/base.py:32-43 | Every execution of either store's machine records a run of the atomic contract, in clock order; a run recorded on Redis has every transition look and take effect at one instant |
| ServiceOnStores.RefusalsAreExplained | app/restoration/memory.py:128-136 | A refused request is told that the service is overloaded; it met a full in-memory store and had nothing live under its key, or on Redis was disturbed by others in each of its own five rounds |
| ServiceOnStores.RepeatedRequestsReachTheRecord | app/processing/process_service.py:60-106 | Within the time to live of a masking the in-memory store never refuses its owner's requests, and Redis only one whose own five rounds were all disturbed |
| ServiceOnStores.MasksAreRestored | app/processing/process_service.py:60-106 | On either store and under any interleaving, the owner who sends the mask within the time to live gets the text, or is turned away by Redis after five rounds of its own that others disturbed |
| ServiceOnStores.MasksAreRepeatable | app/processing/process_service.py:3-9 | On either store, a retry of the original within the time to live gets the same answer if and only if no request was answered with the original since, and is refused as invalid otherwise; it is turned away only by Redis, after five rounds of its own that others disturbed |
| ServiceOnStores.PairsAreIsolatedOnStores | app/processing/process_service.py:108-139 | On either store, one pair's operations, answered as they were, are a run of the service without all other pairs |
| ConsumerIsolation.KeysAreIndependent | app/restoration/base.py:32-43 | Dropping all operations on other keys changes neither a key's cell nor any answer on it |
| ConsumerIsolation.KeyIsARun | app/restoration/base.py:32-43 | The operations on one key, answered as they were, are a run by themselves: in order, indivisible and with the contract's answers |
| ConsumerIsolation.PairsAreIsolated | app/processing/process_service.py:108-139 | What one consumer is told about one payload identifier is what it would be told alone |
| ConsumerIsolation.PairsRunAlone | app/processing/process_service.py:108-139 | And the operations of the pair are a run by themselves |
| Representation.WritingKeepsRepresents | app/restoration/memory.py:131-141 | Writing or deleting one physical item keeps the store standing for the contract's cells |
| MemoryStore.EvictIsExact | app/restoration/memory.py:143-149 | Popping from the front until the first live entry removes all expired entries and nothing else, and keeps expiry order |
| MemoryStore.PutKeepsValid | app/restoration/memory.py:131-141 | Moving a key to the end with the latest expiry keeps insertion order the expiry order |
| MemoryStore.TakeIsExact | app/restoration/memory.py:74-84 | A lookup answers with the live record exactly and loses nothing live |
| MemoryStore.ReadPhaseIsExact | app/restoration/memory.py:112-123 | The read phase answers with the live record exactly, loses nothing live and keeps the order |
| MemoryStore.WritePhaseIsExact | app/restoration/memory.py:128-141 | The write phase changes its own key only, stays within capacity, and refuses if and only if the key is absent and the store full |
| MemoryStore.InMemoryRestorationStore.constructor | app/restoration/memory.py:42-53 | A new store is empty and valid at every clock reading |
| MemoryStore.InMemoryRestorationStore.EvictExpired | app/restoration/memory.py:143-149 | The eviction loop leaves exactly the live entries |
| MemoryStore.InMemoryRestorationStore.Get | app/restoration/memory.py:74-84 | Answers with the live record, deletes it only if expired |
| MemoryStore.InMemoryRestorationStore.Save | app/restoration/memory.py:86-101 | Succeeds if and only if the key is live or fewer than the maximum are; the table becomes the live entries plus the saved one |
| MemoryStore.InMemoryRestorationStore.Delete | app/restoration/memory.py:103-105 | Removes exactly the key |
| MemoryStore.InMemoryRestorationStore.TransitionRead | app/restoration/memory.py:112-123 | The first locked section: sees the record live at its reading, loses nothing live |
| MemoryStore.InMemoryRestorationStore.TransitionWrite | app/restoration/memory.py:128-141 | The second locked section: the whole new table, and refusal exactly when absent and full |
| MemoryStore.InMemoryRestorationStore.Transition | app/restoration/memory.py:107-141 | Undisturbed, applies the callback to the live record and stores its result, or raises and changes no live record; other keys keep their live records |
| MemoryProtocol.NextKeepsInv | app/restoration/memory.py:107-141 | Every step of every thread keeps the invariant that ties the dictionary, the stripe locks and the open windows to the contract |
| MemoryProtocol.RefinesContract | app/restoration/memory.py:107-141 | For every interleaving, stripe hash and callback the answers are those of the atomic contract, and the dictionary stays in capacity and in expiry order |
| MemoryProtocol.WindowIsUndisturbed | app/restoration/memory.py:107-141 | Between read and write phase the key's entry is the one seen, or gone because it expired |
| MemoryProtocol.NothingLiveIsLost | app/restoration/memory.py:107-141 | The latest record written under a key is in the store for its whole time to live |
| MemoryProtocol.RefusalSparesLiveRecords | app/restoration/memory.py:131-136 | A refused write found the store full and its key's record deleted or expired, and changed nothing |
| MemoryProtocol.RefusalsMeanFull | app/restoration/memory.py:131-136 | So it is of every refusal in the log: at the step that logged it the store was full, and nothing live was under its key |
| StoreAtomicity.ActsOnPresentUnlessExpired | app/restoration/memory.py:107-141 | A transition acted on what its key held when it took effect if and only if the record it found did not expire in between |
| StoreAtomicity.RedisTransitionsAreInstant | app/restoration/redis_store.py:106-136 | Redis transitions read and take effect at one instant |
| StoreAtomicity.NoInstantExplains | app/restoration/base.py:36-42 | No single instant explains a transition that found and kept a record while a lookup, before it or less than a time to live after it, found none |
| StoreAtomicity.ExpiredRecordReturns | app/restoration/memory.py:107-141 | An execution of the in-memory store with exactly those answers |
| StoreAtomicity.ExpiredRecordTakesRoom | app/restoration/memory.py:128-141 | An execution in which a write phase refuses although nothing in the store is live, since it does not evict |
| RedisProtocol.NextKeepsInv | app/restoration/redis_store.py:106-136 | Every step of every worker, clock and expiry keeps the invariant that an undisturbed round still sees what is stored |
| RedisProtocol.RefinesContract | app/restoration/redis_store.py:106-136 | For every interleaving the answers are those of the same atomic contract |
| RedisProtocol.ExecIsAtomic | app/restoration/redis_store.py:115-127 | A successful EXEC applies the callback to the value stored at that instant, with a full time to live, and touches no other key |
| RedisProtocol.OnlyExecWrites | app/restoration/redis_store.py:106-136 | Records appear or change only by a successful EXEC on their key and go only so or by expiry; a call that raises writes nothing |
| RedisContention.AlwaysAccounted | app/restoration/redis_store.py:110-136 | In every reachable state each call's rounds, readings and detections are accounted for |
| RedisContention.OverloadIsEarned | app/restoration/redis_store.py:110-136 | An overload answer follows exactly five attempts, and between the WATCH and the EXEC of each of them somebody else wrote the key or it expired |
| RedisContention.RefusalsAreEarned | app/restoration/redis_store.py:131-136 | So it is of every refusal in the log: the step that logged it is the EXEC of the refused call, and its own five rounds were all disturbed |
| RedisContention.RunsOfService | app/processing/process_service.py:122-135 | The service's callback reports a run of detection exactly for the attempts that were handed nothing and found nothing |
| RedisContention.DetectionCost | app/processing/process_service.py:80-95 | By the reports of `process` and of its callback, detection ran once if the lookup missed, otherwise once per attempt that read the key as absent, at most five times |
| RedisRework.DetectionRunsInEveryRound | app/processing/process_service.py:130-135 | For every k up to five there is an execution in which one call detects k times; at five it is told of overload |
| RedisStore.RedisRestorationStore.constructor | app/restoration/redis_store.py:45-61 | A store over an empty server |
| RedisStore.RedisRestorationStore.Save | app/restoration/redis_store.py:95-101 | Overwrites one key with a full time to live and touches it |
| RedisStore.RedisRestorationStore.Delete | app/restoration/redis_store.py:103-104 | Removes one key and touches it |
| RedisStore.RedisRestorationStore.Transition | app/restoration/redis_store.py:106-136 | The attempt loop leaves on the server and returns what `Attempts` says, whatever others do between its commands |
| RedisStore.TransitionIsAtomic | app/restoration/redis_store.py:106-136 | The first undisturbed attempt applies the callback to what the server holds at its EXEC and loses nothing others did; or an attempt raises and nothing is written; or all five were disturbed and nothing is written |
| RedisCalls.CallsRunTheLoop | app/restoration/redis_store.py:106-136 | In every interleaving a call leaves the server and answers its caller as the store's loop does, disturbed by what the others did meanwhile, all of it and in that order |
| ProcessService.Service.Process | app/processing/process_service.py:60-106 | Answer and store after one undisturbed request, from the record that was live when its transition read the key; without one, record and answer are those of the masking of the text sent; empty payload or identifier is rejected without touching the store |
| MaskPreparation.PrepareMasking | app/processing/process_service.py:153-177 | What is kept of a masking: the resolved entities of the enabled types and no others are masked and counted, and the names of their types are listed once each, sorted |
| MaskPreparation.DetectedTypesInFull | app/processing/process_service.py:174 | The list of detected types is strictly sorted and holds the names of the types found and no others |
| StableSort.SortSorts | app/detection/resolution.py:67 | The sort orders by key and permutes |
| StableSort.SortIsStable | app/masking/engine.py:112 | The sort keeps the order of equal keys |
| SpanResolution.ResolveSpans | app/detection/resolution.py:54-74 | The two loops compute the resolution that the lemmas below describe |
| SpanResolution.CollectKeepsMostConfident | app/detection/resolution.py:60-65 | Deduplication keeps, for each type and span, the first of the most confident candidates and nothing else |
| SpanResolution.ResolvedIsApart | app/detection/resolution.py:67-74 | For any candidates the output is drawn from them, in order of start and end, without repetition, and no span overlaps the next; spans that do not end before they start lie apart altogether |
| SpanResolution.ResolutionKeepsBlockMaxima | app/detection/resolution.py:44-74 | The deduplicated candidates split into consecutive blocks tied together by overlaps, and exactly the best of each block is kept |
| SpanResolution.EveryCandidateIsDominated | app/detection/resolution.py:44-74 | Every candidate is dominated by a kept span that it reaches through overlapping candidates |
| SpanResolution.ResolveIsIdempotent | app/detection/resolution.py:54-74 | Resolving twice changes nothing, whatever the candidates |
| DroppedSpans.DroppedIff | app/detection/resolution.py:69-73 | A candidate overlaps nothing that is kept, and is not kept, if and only if somewhere on a span displaced its representative that begins only after its end |
| DroppedSpans.EveryCandidateIsMetOrShadowed | app/detection/resolution.py:44-73 | Every candidate is kept or overlaps a kept span, unless two other candidates shadow it: one that overlaps and beats it, and a strictly better one that overlaps that one from beyond its end |
| DroppedSpans.ChainOfThree | app/detection/resolution.py:69-73 | Which of three chained spans are kept, and exactly when the first meets nothing kept |
| DroppedSpans.BackwardSpansUndoSeparation | app/detection/resolution.py:40-41 | With a span that ends before it starts, kept spans may overlap |
| DroppedSpans.DroppedExample | app/detection/resolution.py:69-73 | A concrete text position where a span is dropped although it meets nothing kept |
| DroppedSpans.OneOfTwoStays | app/detection/resolution.py:8-51 | Of two overlapping candidates, in either input order, the one of the higher class of types stays, whatever confidences and lengths; within a class the more confident, then the longer, then the first in the text. The classes are written out as sets of types |
| DroppedSpans.OneOfTwoAtOnePlaceStays | app/detection/resolution.py:44-65 | Two candidates of one span: of different types the class decides, then the confidence; of one type the confidence alone; then the first |
| DroppedSpans.BothOfTwoStay | app/detection/resolution.py:40-41 | Two nonempty candidates that only touch, or lie apart, both stay, in text order |
| MaskingEngine.SelectSpans | app/masking/engine.py:100-120 | The selection loops compute the selection that the lemmas below describe |
| MaskingEngine.SelectedSpans | app/masking/engine.py:100-120 | Selected spans are valid, match the text and are disjoint, and the first character of every valid candidate is in one, at least as long if it starts there |
| MaskingEngine.SelectionInFull | app/masking/engine.py:100-120 | The same with the bounds and the slice of the text written out |
| MaskingEngine.ApartSpansAreSelected | app/masking/engine.py:100-120 | Disjoint matching spans are selected as they are |
| MaskingEngine.LongestIsKeptUnlessUndercut | app/masking/engine.py:100-120 | Every valid candidate meets a selected span at least as long, unless it starts inside a shorter selected one |
| MaskingEngine.LongestIsKept | app/masking/engine.py:100-120 | A valid candidate that starts inside no shorter valid one meets a selected span at least as long |
| MaskingEngine.EarlierSpanWins | app/masking/engine.py:114-119 | Of two overlapping spans the earlier starting one is selected, however short, in either input order, so the longest is kept if and only if the later one is no longer |
| MaskingEngine.ResolveContextRules | app/masking/engine.py:156-186 | The loop over the policy's rules, with its skips and fallbacks, computes the rules described next |
| MaskingEngine.LastRuleGoverns | app/masking/engine.py:156-186 | Each type is governed by the last rule that says something about it; a type without one by none |
| MaskingEngine.OneMoreRule | app/masking/engine.py:156-186 | What one more rule does: a rule without a known type, and an enabled one without a list of known types, do nothing; a disabled one lifts the requirement of its type; any other sets it, and no other type changes |
| MaskingEngine.NoRuleRequiresNothing | app/masking/engine.py:184-186 | Rules that say nothing require nothing |
| MaskingEngine.ReplacedExactly | app/masking/engine.py:76-83 | A span is replaced if and only if it is selected and no rule governs its type, or the rule requires nothing, or a selected span is of a required type |
| MaskingEngine.ReplaceSpans | app/masking/engine.py:77-91 | The replacement loop cuts the text at exactly the allowed spans and records their replacements in order |
| MaskingEngine.Mask | app/masking/engine.py:65-98 | The masked text is the original with exactly the selected and allowed spans exchanged for their replacements, listed in text order |
| MaskingEngine.Segmentation | app/masking/engine.py:81-94 | Text and masked text are woven from the same gaps of the replaced spans, one with the recorded originals, the other with the recorded replacements |
| MaskingEngine.MappingsInFull | app/masking/engine.py:86-97 | The i-th mapping pairs the strategy's output for the i-th replaced span with that span's value, and the result lists all selected spans |
| MaskingEngine.GapsInFull | app/masking/engine.py:80-91 | The gaps are the stretches of the text between the end of one replaced span and the start of the next |
| MaskingEngine.FullMaskIsPointwise | app/masking/engine.py:81-94 | With every type masked in full, cutting and joining equals blotting out letters and digits in place |
| MaskingEngine.MaskingAgainChangesNothing | app/masking/strategies/impl.py:50-52 | Masking in full again inside the masked regions changes nothing |
| Strategies.MaskNumericEdges | app/masking/strategies/impl.py:60-80 | Keeps length and separators; a digit stays if and only if it is among the first or last two of more than four |
| Strategies.EdgesAreWhatIsVisible | app/masking/strategies/impl.py:60-80 | The digits that remain visible are the first two and last two in order, or none of at most four; every other digit is an asterisk and every other character stays |
| Strategies.TokensAreTokenShaped | app/masking/strategies/impl.py:136-137 | Tokens have their opening bracket first only and their closing bracket last only |
| Strategies.TokensAreReadable | app/masking/strategies/impl.py:136-137 | A token begins with its announced type, and tokens are equal if and only if type and random part are |
| TokenRestoration.Restore | app/processing/secure_llm_pipeline.py:40-43 | The restoration loop is the successive replacement described below |
| TokenRestoration.ReplaceInFull | app/processing/secure_llm_pipeline.py:41-42 | Replacing a nonempty pattern cuts the text at the occurrences found from the left and puts the replacement at each, and nowhere else |
| TokenRestoration.ReplaceNothingInFull | app/processing/secure_llm_pipeline.py:41-42 | Replacing the empty pattern puts the replacement before every character and at the end |
| TokenRestoration.ReplaceRestoresOne | app/processing/secure_llm_pipeline.py:40-43 | One replacement restores exactly the places of its own token: no occurrence straddles pieces or arises from earlier replacements |
| TokenRestoration.SequentialReplaceIsSubstitution | app/processing/secure_llm_pipeline.py:40-43 | Replacing token after token turns any text of literals and issued tokens into exactly its substitution, with the first recorded original wherever a token was issued twice |
| SecurePipeline.Run | app/processing/secure_llm_pipeline.py:32-43 | Detection, filtering, masking, LLM and restoration in sequence; with an echoing LLM, token-shaped replacements absent from the text and one original per replacement, the answer is the text |
| SecurePipeline.HandedToMasking | app/processing/secure_llm_pipeline.py:35 | Masking is handed exactly the resolved entities of the enabled types |
| SecurePipeline.PromptIsMasked | app/processing/secure_llm_pipeline.py:35-39 | When the resolved spans match the text and no rule is stated, the LLM's prompt has exactly those of the enabled types replaced, all of them if every type found is enabled |
| SecurePipeline.ResolvedSpansAreSelected | app/processing/process_service.py:157-166 | Selection drops nothing from a type-filtered resolution that matches the text |
| SecurePipeline.MaskThenRestoreGivesFirstOriginals | app/processing/secure_llm_pipeline.py:32-43 | Masking and restoring gives back the gaps with, at every span, the first original recorded for its replacement |
| SecurePipeline.MaskThenRestoreIsIdentity | app/processing/secure_llm_pipeline.py:32-43 | Hence the text, when spans with one replacement have one original |
| SecurePipeline.TokenizedPipelineIsIdentity | app/masking/strategies/impl.py:130-137 | The tokenizing strategy satisfies that when suffixes of one length differ for different values and no issued token stands in the text |
| SecurePipeline.FullMaskIsNotRestored | app/processing/secure_llm_pipeline.py:40-43 | A text of two different letters, both masked in full by the engine: the first comes back in both places |
| LoadProfile.CumulativeTasks | tests/performance/locustfile.py:225-264 | The segment-wise accumulation computes the closed form |
| LoadProfile.ClosedIsRequests | tests/performance/locustfile.py:225-264 | The closed form is the sum of the areas under the phases of the profile |
| LoadProfile.RateInPhase | tests/performance/locustfile.py:208-222 | Each phase is a stretch of the target rate, up to but not at its end |
| LoadProfile.GrowthIsTrapezoid | tests/performance/locustfile.py:225-264 | Within a phase the integral grows by the trapezoid under the rate, with the phase's own end value |
| LoadProfile.CumulativeGrows | tests/performance/locustfile.py:225-232 | Over any stretch the cumulative count never decreases and never grows faster than the peak rate |
| LoadProfile.CumulativeEnds | tests/performance/locustfile.py:225-264 | It is zero at the start and 158850 requests at the end |
| LoadProfile.Landmarks | tests/performance/locustfile.py:208-264 | The rate at the landmarks of the profile and the requests due by them, in figures |
| LoadProfile.SlotsAreSteady | tests/performance/locustfile.py:225-264 | The count of task slots meets what the scheduler needs of it |
| LoadProfile.UsersSuffice | tests/performance/locustfile.py:286-294 | The user count is between one and the cap, and meets the required concurrency, and the target rate, exactly when the cap does |
| LoadProfile.NoFewerUsersSuffice | tests/performance/locustfile.py:286-294 | No smaller positive count meets both the required concurrency and the target rate |
| Scheduler.NarrowBrackets | tests/performance/locustfile.py:276-282 | The bisection keeps the slot number bracketed and halves the interval at every step |
| Scheduler.ScheduledTimeForOrdinal | tests/performance/locustfile.py:267-283 | The loop computes the scheduled time described below |
| Scheduler.ScheduleIsAccurate | tests/performance/locustfile.py:267-283 | Every slot is scheduled strictly inside the run, where the slots due equal its number up to half of 480/2^60 seconds at the highest rate |
| Scheduler.ScheduleIsMonotone | tests/performance/locustfile.py:267-283 | Later slots are never scheduled earlier |
| Scheduler.TaskScheduler.constructor | tests/performance/locustfile.py:165-167 | Numbering starts at one, with no slots yet |
| Scheduler.TaskScheduler.Reset | tests/performance/locustfile.py:170-175 | Numbering starts over, with all slots of the profile |
| Scheduler.TaskScheduler.Reserve | tests/performance/locustfile.py:189-204 | Hands out the next ordinal once; it runs if and only if the slot exists, after the time left until its schedule |
| Scheduler.SlotsAreUsedOnce | tests/performance/locustfile.py:178-205 | In every run ordinals are distinct, none is released before its time, and no more than the floor of the total are |
| Scheduler.NoSlotIsLost | tests/performance/locustfile.py:178-205 | Ordinals are consecutive, and every existing slot handed out is waiting or has been released |
| Scheduler.ThroughputIsBounded | tests/performance/locustfile.py:178-205 | Releases by time t are at most the slots due by t, up to the bisection's precision |
| Scheduler.OrganizerThroughput | tests/performance/locustfile.py:178-264 | The same for the organizer profile, with its totals |
| RateLimiter.SlidingWindowRateLimiter.constructor | app/core/ratelimit.py:17-21 | A limiter without history |
| RateLimiter.SlidingWindowRateLimiter.Allow | app/core/ratelimit.py:23-33 | For any clock reading the new deque and the answer drawn from it; with readings in order, allowed if and only if fewer than the maximum of earlier calls for the key were allowed within the window |
| RateLimiter.PlaceFreesExactly | app/core/ratelimit.py:28-31 | An allowed call is counted until, and not at, a full window after it |
| RateLimiter.LateReadingsShortenTheWindow | app/core/ratelimit.py:25-33 | With readings at most some time out of order, no window shorter by that time than the configured one holds more than the maximum |
| RateLimiter.LateReadingOverflowsTheWindow | app/core/ratelimit.py:25-33 | A full window may then hold more: a concrete history |
| RateLimiter.EveryAnswerIsRight | app/core/ratelimit.py:23-33 | That rule holds of every call of a whole history |
| RateLimiter.TracksNext | app/core/ratelimit.py:27-32 | Each call keeps every key's deque equal, once expired, to the allowed times in the window |
| RateLimiter.WindowIsLimited | app/core/ratelimit.py:14-15 | No window of the configured length holds more than the maximum of allowed calls |
| RateLimiter.LongRunRate | app/core/ratelimit.py:14-15 | Any m windows' length holds at most m times the maximum |
| RateLimiter.KeysAreIndependent | app/core/ratelimit.py:27 | One key's answers are those of the history without all other keys |
| Checksums.Luhn | app/detection/validators.py:21-34 | The loop over the reversed digits decides the Luhn formula, for 13 to 19 digits |
| Checksums.SeparatorsAreSkipped | app/detection/validators.py:16-18 | A character that is no digit changes nothing, wherever it stands |
| Checksums.AllDigits | app/detection/validators.py:16-18 | A text of digits is its own number |
| Checksums.Figures | app/detection/validators.py:28 | The ten digits and their values |
| Checksums.LuhnSumByPairs | app/detection/validators.py:26-33 | Appending two digits adds the figures of the double of the first and the second as it is: every second digit from the right counts double |
| Checksums.LuhnInFull | app/detection/validators.py:21-34 | Accepted are the numbers of 13 to 19 digits whose sum is divisible by ten |
| Checksums.LuhnDetectsMistypedDigit | app/detection/validators.py:21-34 | Every single mistyped digit of an accepted number is noticed, wherever separators stand |
| Checksums.LuhnDetectsTransposition | app/detection/validators.py:21-34 | Exchanged neighbouring digits of an accepted number are missed if and only if they are equal or are 0 and 9 |
| Checksums.DigitsOfMistyped | app/detection/validators.py:16-18 | Changing one digit of a text changes exactly that digit of the number |
| Checksums.DigitsOfTransposed | app/detection/validators.py:16-18 | Exchanging neighbouring digits of a text exchanges them in the number |
| Checksums.Inn10InFull | app/detection/validators.py:37-43 | The 10-digit checksum with all its weights, in figures |
| Checksums.Inn12InFull | app/detection/validators.py:37-50 | Both 12-digit check digits with all their weights, in figures; other lengths than 10 and 12 are rejected |
| Checksums.Inn10DetectsMistypedDigit | app/detection/validators.py:37-43 | A mistyped check digit is always noticed; another digit is missed if and only if the weighted sums leave 0 and 10 modulo 11 |
| Checksums.Inn10MissesADigit | app/detection/validators.py:37-43 | A number and a change that is missed |
| Checksums.Inn12DetectsMistypedDigit | app/detection/validators.py:44-49 | The two check digits of a 12-digit number together notice every mistyped digit |

## Left out

- The FastAPI layer, middleware, settings, YAML, logging, metrics and timings.
- The regex and LLM detectors: detection is an arbitrary sequence of candidate spans.
- Fernet encryption, JSON and the HMAC of Redis keys: taken as exact round trips and an injective renaming of keys.
- The payload identifier and the timestamps inside a restoration record, on which no decision depends.
- Birth dates, initials, e-mail masks and synthetic values: small facts about single functions.
- Back-off sleeps and jitter: only the number of attempts matters. Liveness of waiting threads is not claimed.
- Direct `save` and `delete` calls beside running transitions: they take no stripe lock and `ProcessService` uses neither, so the protocols and the atomicity results cover `get` and `transition`. Their own effect is modelled.
- Expiry in Redis is an event that a WATCH notices, as in version 7 of the server; older behaviour is not modelled.
- The README's claim that a mask contains no original values: undetected or repeated values are not masked.
- Confidences are real numbers; a NaN is not modelled.
- PairsAreIsolatedOnStores: keeps refusals as they were, because capacity is shared and other pairs may have filled the store.
- Process: one request alone; requests in parallel are covered by the two protocols.
- Transition: undisturbed in the in-memory class, because a class method cannot be interleaved; `MemoryProtocol` has every interleaving, and the Redis class takes what others do as an argument.
- MaskNumericEdges: digits are the ASCII ones; the source's two digit tests differ outside ASCII.
- MaskAllAlnum: which characters are letters or digits is a parameter, assumed not to contain the asterisk where that matters.
- Luhn: counts ASCII digits only.
- WindowIsLimited: for histories in clock order, as calls serialised on the event loop make them; the source reads the clock before its lock, and `LateReadingsShortenTheWindow` says what holds of another order.
- CumulativeTasks: exact reals with the run length fixed at 480 seconds and a positive number of requests per task, not floating point or other lengths.
- Reserve: without the sleeps; `Scheduler.Execution` lets a sleeper wake at any time not before its slot, and the profile object is taken as present.
