# Furl: proved models of its stateful cores

Furl keeps originals in a compression store, hands out markers such as `<<ccr:HASH>>` in their
place, and gives the originals back on request, whole, filtered by line, or selected by row. This
project models the parts of it that are stateful, recursive or arithmetic, and proves for each the
property it exists for. Each module follows one part of the program; `dafny verify dfyconfig.toml`
checks them all.

* **The compression store.** `StoreTables` has the values (entries, tiers, the capacity rule, the
  steps of the store as a state machine over its two tiers); `EvictionOrder` the heap;
  `CompressionStore` the class whose methods update the primary table, the spill tier, the eviction
  heap and the stale counter, each proved to be one step; `StoreRuns` what holds over whole runs of
  steps, and `StoreWitness` the runs on which promises fail, made by the store's own methods;
  `ReferenceGraph` what a cascading purge erases, which rows of the primary alone decide, and
  `TierReferences` what that means for both tiers.
* **Budgeted redaction.** `AlarmMachine` is the watchdog as a machine over control points, with the
  environment as its input: at every place where an alarm may be delivered, how much time passes,
  whether the budget expires and whether a pending alarm is delivered, and for every restoring call
  whether it faults and whether it took effect. `RedactionRuns` proves what every run comes to, and
  `Redaction` has the statements themselves, each method proved to do what the machine says.
* **Row selection.** `Json` is what Python's decoder makes of a text, `JsonGrammar` the texts of
  the grammar and their meaning, `JsonDecoding` that the decoder takes exactly those, `JsonLocality`
  that a value decodes the same wherever it is embedded, `RetrieveSpans` the span scanner, `RetrieveRows` the
  independent extractor and their agreement, `RawRendering` and `RetrieveSelect` the outputs.
* **Line filters and content sections.** `LineFilters` and `ContentSections`, over `Texts`.
* **Dotted keys.** `DottedKeys` and `DottedLeaves` say what folding dotted keys means and keeps,
  `DottedFlattening` when it undoes flattening; `IndependentRecheck` does it in place, on
  dictionaries in the heap.
* **Retrieval feedback.** `FeedbackWindow` has the full history and what a bounded bucket must still
  know of it; `RetrievalFeedback` the aggregator.
* **The benchmark ratchet.** `BenchmarkGate`, `FloorGuard` and, over sequences of merges,
  `FloorRatchet`; `SortedKeys` for iteration in name order.
* **Markers and token counts.** `MarkerGrammar` and `MarkerResolution`; `TiktokenCounter`.

`Wrappers`, `Cardinality` and `Sequences` are shared helpers.

Objects that the program updates in place are classes here, and each method is proved against
functions or predicates on plain values; lemmas then prove what the program promises about those.
What the environment does is an input (alarms, time and faults of a redaction) or a nondeterministic
choice (faults of the spill tier, ties the language leaves open), so what is proved holds for all of
it.

## Where the code and its documentation part

The models follow the code. Each point is proved, by the members named:

* After a true hash collision neither content is meant to be served. A live row of the same key in
  the spill tier is still served (`StoreRuns.CollisionMissesExactly`, reached in
  `StoreRuns.ShadowedCopyReachable` and `StoreRuns.CollisionStillServed`, and made on a store in
  `StoreWitness.CollideAndRetrieve`).
* `exists_any_tier` is meant to ask what `retrieve` answers. The two part exactly when an expired
  primary row hides a live spilled one (`StoreTables.AnyTierAgreesExactly`, reached in
  `StoreRuns.ReadBackAndRetrievePart` and, on a store, in
  `StoreWitness.ReadBackAndRetrieve`).
* A cascading purge is meant never to leave a live row's marker pointing at nothing, and to leave
  nothing of a purged tree retrievable. It looks for references in the primary only, and counts
  expired rows there that were not reaped. So the primary never dangles, but a row in the spill does
  exactly when it survives and names an erased nested hash (`TierReferences.DanglingBeforehand`, and
  `TierReferences.DanglingExactly` when erasures in the spill fail). The whole tree goes exactly when
  each surviving name of an erased row, of whichever tier, is named by an unexpired surviving row of
  the primary (`TierReferences.WholeTreeExactly`); purging a hash that only the spill holds takes
  nothing with it (`TierReferences.SpilledTopExactly`), and what its row named is not reported
  either (`TierReferences.ReportedNamesExactly`). All three are made on a store:
  `StoreWitness.PurgeUnderADemotedRow` (a demoted row left with a dead marker),
  `StoreWitness.PurgeOfADemotedRow` (a nested row left retrievable), and
  `StoreWitness.PurgeUnderAnExpiredRow` (a nested row kept for an expired one).
* A raw select is meant to fail exactly where a plain one does, and a count mismatch to be
  unreachable. It is reached exactly when the members as written do not have one dominant array,
  which takes a repeated name (`RetrieveRows.RowSpans`, `RetrieveRows.AmbiguityNeedsRepeats`,
  `RetrieveRows.RepeatedNameIsAmbiguous`). Rows are never misaligned.
* Handler and timer are described as restored unconditionally. `RedactionRuns.HandBackExactly` gives
  the exact conditions. Two runs in which they are not: eight spoiled attempts
  (`RedactionRuns.EightSpoiledAttempts`), and an alarm between arming and the guarded block
  (`RedactionRuns.EarlyAlarm`), which loses the caller's deadline without any fault. Seven spoiled attempts are not too many
  (`RedactionRuns.FewerThanEightSpoiled`, `RedactionRuns.SevenSpoiledAttempts`).
* The run guard is described for every limit. A run is compared with the limit from its second
  character on, so limits below two act as two (`TiktokenCounter.HasBacktrackingProneRun`).
* The two strict hash widths are described as one grammar for scanning and substitution. The
  substitution pattern takes the first 24 or 12 of any longer run of digits, needs no delimiter
  after them, and must see the marker closed; extraction asks for the exact width and a delimiter
  and looks no further. `MarkerResolution.AgreeExactly` says exactly when the two agree,
  `MarkerResolution.PatternsPart` shows each way to disagree.
* `evaluate` is described as pure. Raising a token floor from zero makes its own message divide by
  zero (`FloorGuard.Evaluate`, and `FloorGuard.EvaluateRaisedFromZero` for an input).
* A floor above what the run measures by more than the slack is meant to be found. Over a run that
  measures no tokens none is (`FloorRatchet.DriftsExactly`), so any floor passes gate and guard
  there (`FloorRatchet.NoTokensHideAnyFloor`), and the floors of `FloorRatchet.Ratchet` describe the
  tokens only of runs that measure some.

## Model

| member | source | states |
|---|---|---|
| EvictionOrder.LexLessExactly | verify/independent_recheck.py:97 | strings compare at the first place where they differ, a proper prefix being smaller |
| EvictionOrder.HeapPop | furl_ctx/cache/compression_store.py:1835 | popping takes out one occurrence of the least (created_at, hash) tuple |
| StoreTables.KeepsNewestUnique | furl_ctx/cache/compression_store.py:1805-1846 | the rule "at capacity keep the max_entries - 1 greatest by (created_at, hash)" leaves exactly one table |
| StoreTables.NewestIsThere | furl_ctx/cache/compression_store.py:1805-1846 | that table exists for every base and every capacity |
| StoreTables.RecordAccess | furl_ctx/cache/compression_store.py:307-315 | access bookkeeping counts the access, never changes what was stored, and keeps the latest ten queries |
| StoreTables.AnyTierAgreesExactly | furl_ctx/cache/compression_store.py:1357-1397 | a retrieve hit implies the read-back; the two differ exactly when an expired primary row hides a live spilled one |
| CompressionStore.EvictToCapacity | furl_ctx/cache/compression_store.py:1825-1846 | from any heap and counter the loop ends below capacity, by the measure (live entries, not yet rebuilt, heap size), its give-up exits never taken; on an accounted heap it keeps exactly what the simple rule keeps, stale and duplicate tuples notwithstanding |
| CompressionStore.Store.constructor | furl_ctx/cache/compression_store.py:378-501 | a new store is empty and meets the invariant |
| CompressionStore.Store.RebuildHeap | furl_ctx/cache/compression_store.py:1864-1878 | the heap holds each live entry's tuple once and nothing is stale |
| CompressionStore.Store.CleanExpired | furl_ctx/cache/compression_store.py:1848-1862 | exactly the unexpired entries stay and the stale counter grows by the number dropped |
| CompressionStore.Store.EvictIfNeeded | furl_ctx/cache/compression_store.py:1805-1846 | refines "drop the expired, then at capacity keep the newest", demotes what it drops to the spill, and keeps stale = heap size - live entries and the heap under twice the capacity |
| CompressionStore.SpillEvicted | furl_ctx/cache/compression_store.py:1759-1773 | an evicted entry is written to the spill unless there is none or the write faults |
| CompressionStore.BindAccounted | furl_ctx/cache/compression_store.py:616-650 | replacing, dropping on a collision and binding anew each keep the stale counter exact |
| CompressionStore.Store.BindEntry | furl_ctx/cache/compression_store.py:616-650 | a collision drops the binding, anything else binds the entry; heap and live count stay within bounds |
| CompressionStore.Store.Store | furl_ctx/cache/compression_store.py:568-685 | rejected arguments change nothing and name their error; otherwise one Put step, with a veto exactly on a collision when durability is required; what it leaves under the key it returns has the content as given, the timestamp read and the given or default time to live, and nothing is left there only where other content was |
| CompressionStore.KeyForExactly | furl_ctx/cache/compression_store.py:576-598 | without a key of the caller's the digest; else exactly six hex digits or more are accepted, lowered one by one, and each other key has its own error |
| CompressionStore.Store.Reap | furl_ctx/cache/compression_store.py:776-780 | an expired primary row goes and its tuple is counted stale |
| CompressionStore.Store.RecoverFromSpill | furl_ctx/cache/compression_store.py:1775-1803 | a spill hit is the live spilled row, never promoted; an expired row is reaped up to a fault |
| CompressionStore.Store.Retrieve | furl_ctx/cache/compression_store.py:739-815 | one Get step; the answer is what the tiers serve, up to a faulting spill read |
| CompressionStore.Store.Exists | furl_ctx/cache/compression_store.py:1332-1355 | true exactly for a live primary row; reaps an expired one exactly when asked |
| CompressionStore.Store.ExistsAnyTier | furl_ctx/cache/compression_store.py:1357-1397 | a pure read-back: true exactly when some tier holds a live row, or there is a spill that cannot be read |
| CompressionStore.Store.EntryCount | furl_ctx/cache/compression_store.py:1436-1460 | a Sweep step; counts the unexpired entries |
| CompressionStore.Store.Delete | furl_ctx/cache/compression_store.py:1539-1562 | one Purge step of both tiers, true when a row went from either |
| CompressionStore.Store.Clear | furl_ctx/cache/compression_store.py:1679-1735 | one Wipe step; the residual is the number of spill rows left, or one when they could not be counted, and zero only when none is |
| CompressionStore.Store.EntryMarkerHashes | furl_ctx/cache/compression_store.py:1564-1573 | a hash is listed exactly when the compressed or the original text names it and it is not the entry's own; once each, first seen first |
| CompressionStore.Store.DeleteCascadeDetailed | furl_ctx/cache/compression_store.py:1610-1677 | terminates on every graph, by the hashes not yet visited, and reports a complete tear-down of what is left |
| CompressionStore.Store.VisitName | furl_ctx/cache/compression_store.py:1660-1670 | one nested hash: already visited, shared with an unvisited entry, or torn down in turn, each keeping the running report exact |
| CompressionStore.Store.DeleteCascade | furl_ctx/cache/compression_store.py:1610-1677 | one Purge step of exactly the owned set: it leaves the primary, and the spill up to faults, and the report names it; no row left in the primary names an erased nested hash, and with a spill that does not fault no row at all does exactly when no spilled row outside the set did; in terms of the two stored texts, every hash an erased primary row names is erased or still named by a surviving one, and every erased nested hash was named and no longer is |
| ReferenceGraph.OwnedSetUnique | furl_ctx/cache/compression_store.py:1575-1677 | the least set with the purged hash and every hash that rows of the primary name, members only, is unique, so marker order cannot matter |
| ReferenceGraph.TornIsOwned | furl_ctx/cache/compression_store.py:1610-1677 | the depth-first tear-down visits exactly that least set |
| ReferenceGraph.ReportCloses | furl_ctx/cache/compression_store.py:1672-1677 | the closing filter leaves erased and skipped names disjoint |
| ReferenceGraph.ReportIsExact | furl_ctx/cache/compression_store.py:1610-1677 | the report holds each erased nested hash once and, of the surviving hashes, exactly those an erased primary row named |
| ReferenceGraph.OwnedNamedOnlyWithin | furl_ctx/cache/compression_store.py:1575-1599 | no surviving primary row names an erased nested hash |
| ReferenceGraph.SurvivorsStillNamed | furl_ctx/cache/compression_store.py:1575-1599 | every surviving hash an erased primary row named is still named by another surviving primary row, expired or not |
| ReferenceGraph.CyclesSurvive | furl_ctx/cache/compression_store.py:1636-1644 | primary rows naming each other round a cycle outlive a purge of anything else |
| TierReferences.DanglingBeforehand | furl_ctx/cache/compression_store.py:1575-1599 | with a spill that does not fault, no row of either tier is left naming an erased nested hash exactly when no spilled row outside the erased set named one |
| TierReferences.DanglingExactly | furl_ctx/cache/compression_store.py:1575-1599 | the same in terms of what the spill still holds, whatever failed there |
| TierReferences.WholeTreeExactly | furl_ctx/retrieve.py:139-144 | everything that hangs on the purged hash alone, over both tiers and counting no expired protector, goes exactly when each surviving name of an erased row has an unexpired surviving referent in the primary |
| TierReferences.TreeExists | furl_ctx/retrieve.py:139-144 | there is such a tree for every store and hash |
| TierReferences.SpilledTopExactly | furl_ctx/cache/compression_store.py:1653-1656 | purging a hash only the spill holds erases nothing else; that is the whole tree exactly when the unexpired primary names all its row names |
| TierReferences.ErasedExactly | furl_ctx/cache/compression_store.py:1610-1677 | a hash is erased exactly when it is the purged one or the primary names it from erased rows only |
| TierReferences.FreshPrimaryTakesTheTree | furl_ctx/retrieve.py:139-144 | with no expired row in the primary and no erased one in the spill, the whole tree goes |
| StoreRuns.LastStoreStaysRetrievable | furl_ctx/cache/compression_store.py:739-815 | after any run, cascading purges included, with a faultless spill, a hash whose last store is unexpired and unpurged is served with that store's content, from whichever tier holds it |
| StoreRuns.GoneUntilStoredAgain | furl_ctx/cache/compression_store.py:1357-1397 | once no tier holds a live row, no operation, a cascading purge included, brings one back before the next store, faults or not |
| StoreRuns.CollisionMissesExactly | furl_ctx/cache/compression_store.py:620-642 | after a collision the key misses exactly when the spill holds no live row of it |
| StoreRuns.ShadowedCopyReachable | furl_ctx/cache/compression_store.py:507-685 | four stores reach a state where a short-lived primary row hides a long-lived spilled one |
| StoreRuns.ReadBackAndRetrievePart | furl_ctx/cache/compression_store.py:1357-1397 | there the read-back holds, retrieve misses, and the same retrieve repeated hits |
| StoreRuns.CollisionStillServed | furl_ctx/cache/compression_store.py:620-642 | a collision there leaves the first content served |
| StoreWitness.ShadowTheCopy | furl_ctx/cache/compression_store.py:507-685 | a store of capacity two, by four calls with accepted keys, reaches that state |
| StoreWitness.ReadBackAndRetrieve | furl_ctx/cache/compression_store.py:1357-1397 | on that store the read-back finds a hash, retrieve misses it, and the same retrieve repeated hits |
| StoreWitness.StoreThenRetrieve | furl_ctx/cache/compression_store.py:568-685 | what a store accepted is served, with its content, under the key returned, exactly while no more time has passed than its given or default time to live; without a key of the caller's that is the digest |
| StoreWitness.CollideAndRetrieve | furl_ctx/cache/compression_store.py:620-642 | on that store a collision leaves the first content served under the second's key |
| StoreWitness.PurgeThroughTheCompressedText | furl_ctx/cache/compression_store.py:1610-1625 | a nested row that only the compressed text names is erased, reported and missed |
| StoreWitness.PurgeUnderADemotedRow | furl_ctx/cache/compression_store.py:1575-1582 | a purge reports a nested hash erased and retrieve misses it, while a demoted row naming it is still served |
| StoreWitness.PurgeOfADemotedRow | furl_ctx/retrieve.py:139-144 | purging a demoted row erases only it, and the row it alone names is still served |
| StoreWitness.PurgeUnderAnExpiredRow | furl_ctx/cache/compression_store.py:1654-1656 | a nested row is skipped as shared and still served, though its only other referent has expired and is missed |
| RedactionRuns.Crossing | furl_ctx/redaction.py:483-488 | passing any place where an alarm may be delivered keeps the alarm one-shot; raised under the budget's handler, it leaves the caller's in place unless that swap fails |
| RedactionRuns.OneAttempt | furl_ctx/redaction.py:751-757 | a restore attempt goes through exactly when neither of its calls faults and the alarm is not raised in it |
| RedactionRuns.AttemptsExactly | furl_ctx/redaction.py:751-760 | the loop goes through exactly when it is not cut short and one of its eight attempts is clean, and then handler and timer are back |
| RedactionRuns.RestoreExactly | furl_ctx/redaction.py:673-772 | the same for a whole restore, which then leaves exactly the timer it owes: off, or the caller's deadline at max(remaining - elapsed, epsilon) |
| RedactionRuns.ArmingExactly | furl_ctx/redaction.py:651-655 | what arming saves is the caller's own timer, unless its deadline came due first and reached the caller's handler |
| RedactionRuns.OutcomeExactly | furl_ctx/redaction.py:583-670 | in every environment the call ends in None exactly when the alarm came outside a guarded restoring block, and otherwise returns the redactor's text or raises its error; so it always does where the watchdog cannot arm |
| RedactionRuns.HandBackExactly | furl_ctx/redaction.py:644-772 | in every environment, exactly when the handler is back, and exactly when handler, timer and deadline all are |
| RedactionRuns.NoStrayAlarm | furl_ctx/redaction.py:741-749 | where delivery is prompt, the caller's handler never meets the budget's alarm, even when a restore spent its attempts |
| RedactionRuns.InTimeExactly | furl_ctx/redaction.py:644-772 | a redaction within its budget returns the redactor's text or raises its error, and hands everything back exactly when one of eight attempts faults in neither call and the re-arming is not lost |
| RedactionRuns.EightSpoiledAttempts | furl_ctx/redaction.py:751-760 | when the first eight swaps fault and are lost they leave the budget's handler in and the caller's deadline gone |
| RedactionRuns.FewerThanEightSpoiled | furl_ctx/redaction.py:751-760 | once the redactor call was reached, fewer than eight spoiled attempts of the last restore and a re-arming that is not lost hand everything back |
| RedactionRuns.SevenSpoiledAttempts | furl_ctx/redaction.py:751-760 | a run with seven spoiled attempts hands everything back |
| RedactionRuns.EarlyAlarm | furl_ctx/redaction.py:652-658 | with no fault at all, an alarm before the guarded block loses the caller's deadline |
| Redaction.Signals.Boundary | furl_ctx/redaction.py:483-488 | the statements of a delivery do what the machine says at that place |
| Redaction.Signals.AttemptRestores | furl_ctx/redaction.py:751-760 | so does the bounded loop of attempts |
| Redaction.Signals.RestoreAfterBudget | furl_ctx/redaction.py:673-772 | so does the restore |
| Redaction.Signals.ArmBudget | furl_ctx/redaction.py:651-655 | so does arming |
| Redaction.Signals.RedactUnderWatchdog | furl_ctx/redaction.py:644-670 | so does the watched call; the budget's exception leaves it exactly on an alarm before the guarded block or after the restore, and without an overrun it returns the redactor's text or raises its error |
| Redaction.Signals.RedactWithinBudget | furl_ctx/redaction.py:583-641 | None exactly on an overrun, else the redactor's text returned or its error raised; handler, timer and deadline back exactly under the stated conditions on where the alarm came and which calls faulted |
| JsonDecoding.DecodesExactly | furl_ctx/ccr/retrieve_filters.py:981 | a text decodes to a value exactly when it is a text of the grammar, in white space, that means this value |
| JsonGrammar.TextsDecode | furl_ctx/ccr/retrieve_filters.py:981 | every text of the grammar, however spaced and escaped, decodes to what it means |
| JsonLocality.ParseValueShift | furl_ctx/ccr/retrieve_spans.py:50-69 | a value decodes the same in any text that agrees with its own on the characters it spans |
| Json.DictKeepsLast | furl_ctx/ccr/retrieve_filters.py:968-1013 | a decoded object, read as a dictionary, holds each name once with the value last written |
| RetrieveSpans.SkipWhitespace | furl_ctx/ccr/retrieve_spans.py:42-47 | the first index that is not JSON whitespace |
| RetrieveSpans.ArraySpans | furl_ctx/ccr/retrieve_spans.py:50-69 | exact, ascending spans whose values are the elements the decoder sees |
| RetrieveSpans.DominantArraySpans | furl_ctx/ccr/retrieve_spans.py:72-98 | spans of the one dominant member, and none exactly when the members as written have no single one |
| RetrieveSpans.ArrayElementSpans | furl_ctx/ccr/retrieve_spans.py:101-120 | for every decodable text, the spans of its rows-array or none |
| RetrieveRows.ExtractsRowsExactly | furl_ctx/ccr/retrieve_filters.py:968-1013 | the rows are a non-empty top-level array of objects, or the array last written under the one name that has such an array; every other text has its own error, with the number of such names |
| RetrieveRows.DominantItemsWereWritten | furl_ctx/ccr/retrieve_filters.py:996-1007 | what the dictionary shows as dominant was written as dominant |
| RetrieveRows.AmbiguityNeedsRepeats | furl_ctx/ccr/retrieve_filters.py:868-886 | an extractable text is ambiguous to the scanner only if a name repeats |
| RetrieveRows.RepeatedNameIsAmbiguous | furl_ctx/ccr/retrieve_filters.py:868-886 | a text with a repeated name that extracts and cannot be mapped |
| RetrieveRows.RowSpans | furl_ctx/ccr/retrieve_filters.py:868-886 | fails just as the extractor does or exactly on ambiguity; otherwise span i is a braced substring of the source that decodes to row i |
| RawRendering.MarkerWrites | furl_ctx/ccr/retrieve_filters.py:758-768 | the printed truncation marker decodes to the marker object |
| RawRendering.RawReparses | furl_ctx/ccr/retrieve_filters.py:783-793 | the raw output decodes to the first min(limit, matched) rows and one marker exactly when more matched |
| RetrieveSelect.KeptExact | furl_ctx/ccr/retrieve_filters.py:925-940 | the kept indices are exactly the rows whose field is present and accepted, ascending |
| RetrieveSelect.ProjectedExact | furl_ctx/ccr/retrieve_filters.py:734-738 | a projected row has exactly the requested fields the row has, with their values |
| RetrieveSelect.ProjectedInOrder | furl_ctx/ccr/retrieve_filters.py:734-738 | and has them in the order requested |
| RetrieveSelect.MatchRows | furl_ctx/ccr/retrieve_filters.py:925-940 | the loop collects exactly the kept rows, with their own spans when raw |
| RetrieveSelect.SelectRows | furl_ctx/ccr/retrieve_filters.py:889-965 | plain and raw keep exactly the rows whose field, as last written, is present and accepted, in order; they show, and raw decodes to, the first limit of them, whole or as the requested fields in the order requested, and a marker exactly when more matched; a field is reported absent only when no row has it |
| RetrieveSelect.MarkersTell | furl_ctx/ccr/retrieve_filters.py:747-768 | both markers tell how many rows are shown and of how many |
| LineFilters.SelectMatchingWithContext | furl_ctx/ccr/retrieve_filters.py:648-674 | exactly the window lines within context of a matching window line, once each, in order |
| LineFilters.FilterLines | furl_ctx/ccr/retrieve_filters.py:547-590 | exactly the lines of the clamped window that lie near a match, ascending, with their own 1-based numbers; the rendered view splits back into them; counts of long lines a regex was not run on |
| LineFilters.WindowExactly | furl_ctx/ccr/retrieve_filters.py:556-569 | the window holds exactly the existing lines from the first to the last asked for |
| LineFilters.LineMatchesExactly | furl_ctx/ccr/retrieve_filters.py:605-645 | up to the cap a line is searched; beyond it, it matches exactly a pattern without metacharacters that occurs in it |
| LineFilters.LongLinesCount | furl_ctx/ccr/retrieve_filters.py:571-580 | the over-cap count is the number of window lines beyond the cap |
| LineFilters.LineReadsBack | furl_ctx/ccr/retrieve_filters.py:582 | a rendered line reads back as its number and its text |
| LineFilters.RenderSplits | furl_ctx/ccr/retrieve_filters.py:582 | the rendered view splits into one numbered line for each line shown |
| ContentSections.PartitionContent | furl_ctx/ccr/compress_modes.py:240-396 | runs alternate, hold lines of their own kind only, and join with newlines to the content, for every content and patterns |
| ContentSections.EligibleExactly | furl_ctx/ccr/compress_modes.py:240-265 | a line is eligible exactly when it is within the cap, no exclusion matches it and, if there are inclusions, one does |
| ContentSections.PartitionIsUnique | furl_ctx/ccr/compress_modes.py:371-396 | there is only one such partition |
| DottedKeys.InsertFailsCleanly | verify/independent_recheck.py:42-64 | insertion fails exactly when the leaf slot is taken or a component is no object, and then changes nothing |
| DottedKeys.InsertExtends | verify/independent_recheck.py:42-64 | insertion clobbers nothing that was there |
| DottedKeys.UnflattenIsCanonical | verify/independent_recheck.py:67-100 | any foldable dotted key left literal is blocked by data beside it, at every level |
| DottedKeys.CanonicalIsFixed | verify/independent_recheck.py:67-100 | a canonical value is left as it is |
| DottedKeys.UnflattenIsIdempotent | verify/independent_recheck.py:67-100 | folding twice is folding once |
| DottedKeys.ShorterFolds | verify/independent_recheck.py:97-100 | of a dotted key and a longer one through it the shorter folds and the longer stays literal |
| DottedLeaves.UnflattenKeepsLeaves | verify/independent_recheck.py:67-100 | folding keeps the multiset of scalar leaves at their dot-joined paths |
| DottedFlattening.UnflattenUndoesFlatten | verify/independent_recheck.py:67-79 | an object with no empty or dotted keys comes back from its dotted form exactly when no object inside it is empty |
| DottedFlattening.FlattenedComparesEqual | verify/independent_recheck.py:67-79 | and exactly then the two compare equal once both are folded |
| IndependentRecheck.Node.Put | verify/independent_recheck.py:51-53 | writing one entry changes that entry of one dictionary and nothing else |
| IndependentRecheck.InsertNested | verify/independent_recheck.py:42-64 | the in-place insertion does to the dictionaries what insertion means; on failure no dictionary changes |
| IndependentRecheck.FoldAll | verify/independent_recheck.py:97-100 | folds the waiting entries in sorted key order |
| IndependentRecheck.FoldEntries | verify/independent_recheck.py:88-96 | each value folded once, plain keys placed, dotted ones set aside |
| IndependentRecheck.UnflattenDotted | verify/independent_recheck.py:67-100 | a fresh value that stands for the folded one; the input is not mutated |
| RetrievalFeedback.Aggregator.constructor | furl_ctx/cache/retrieval_feedback.py:170-223 | coherent tunables start an empty, faithful aggregator |
| RetrievalFeedback.Aggregator.EvictOneShape | furl_ctx/cache/retrieval_feedback.py:301-316 | room is made by reaping exactly the shapes whose newest event has aged out, and only if that is not enough by dropping one whose newest event is oldest |
| RetrievalFeedback.Aggregator.RecordRetrieval | furl_ctx/cache/retrieval_feedback.py:225-235 | keeps every bucket a bounded run of its shape's latest events, losing one that counts only when more shapes are active than there is room for |
| RetrievalFeedback.Aggregator.CountInWindow | furl_ctx/cache/retrieval_feedback.py:284-299 | pops exactly the aged head of one bucket and drops it when empty |
| RetrievalFeedback.PruneCounts | furl_ctx/cache/retrieval_feedback.py:284-299 | what is left of a non-decreasing bucket is exactly what falls in the window |
| RetrievalFeedback.BoundedCounts | furl_ctx/cache/retrieval_feedback.py:245-275 | adding two capped counts never over-counts, and changes no verdict while nothing that counts was lost |
| RetrievalFeedback.RoomIsHarmless | furl_ctx/cache/retrieval_feedback.py:301-316 | a forced drop means more than max_shapes shapes are active; an unforced one loses nothing that counts |
| RetrievalFeedback.Aggregator.GetHints | furl_ctx/cache/retrieval_feedback.py:237-275 | skips or widens only if the full history reaches the threshold, and exactly then in every run whose records found at most max_shapes active shapes; there the count is the full one, each shape up to its bound |
| RetrievalFeedback.InWindowCounts | furl_ctx/cache/retrieval_feedback.py:237-249 | the full count is the number of retrievals after the cutoff of the shape itself or, for a named tool, of no tool and the same content type |
| RetrievalFeedback.Aggregator.Clear | furl_ctx/cache/retrieval_feedback.py:277-280 | drops every signal and with them all past crowding |
| BenchmarkGate.GateForgives | benchmarks/compare_baseline.py:58-61 | two percent of tokens and a billionth of retention, no more |
| BenchmarkGate.CompareOneDataset | benchmarks/compare_baseline.py:302-353 | a row fails exactly on a missing side, lost retention or tokens above the slack, with the notes that apply |
| BenchmarkGate.CompareOneRegime | benchmarks/compare_baseline.py:356-390 | a recall row fails exactly on a missing side or a drop beyond epsilon, improves exactly beyond it |
| BenchmarkGate.Compare | benchmarks/compare_baseline.py:393-412 | one judged row, in name order, for every name on either side |
| BenchmarkGate.Failures | benchmarks/compare_baseline.py:133-143 | exactly the failing rows, in their order, datasets before regimes |
| BenchmarkGate.PassesExactly | benchmarks/compare_baseline.py:128-131 | no failing row means exactly: the same names on both sides and every floor met |
| BenchmarkGate.Gate | benchmarks/compare_baseline.py:122-143 | the gate's verdict is that condition |
| FloorGuard.BaselineOnlyExactly | benchmarks/floor_guard.py:277-292 | exempt exactly when some file is listed and none but the two artifacts |
| FloorGuard.ExemptChange | benchmarks/floor_guard.py:277-292 | an artifact on a line of its own and an empty line are exempt |
| FloorGuard.OtherFileEndsExemption | benchmarks/floor_guard.py:277-290 | one changed file besides the artifacts ends the exemption |
| FloorGuard.HigherIsBetter | benchmarks/floor_guard.py:353-415 | a finding for exactly each floor below the measurement by more than epsilon and each floor lowered by more than epsilon |
| FloorGuard.TokenRaises | benchmarks/floor_guard.py:468-491 | a finding for exactly each raised token floor, unless one of them is raised from zero, which stops the evaluation |
| FloorGuard.Evaluate | benchmarks/floor_guard.py:418-524 | refuses exactly an empty comparison, divides by zero exactly on a floor raised from zero, and otherwise finds exactly every drift, loosening and retirement |
| FloorGuard.EvaluateRaisedFromZero | benchmarks/floor_guard.py:475-483 | a change that raises a floor from 0 to 1 divides by zero |
| FloorRatchet.GuardMeans | benchmarks/floor_guard.py:418-524 | a silent guard means exactly: the floor describes the run and, unless only the artifacts changed, every floor of main was kept |
| FloorRatchet.DriftsExactly | benchmarks/floor_guard.py:440-448 | a token floor drifts exactly when it lies above the slack over a run that measures more than zero |
| FloorRatchet.NoTokensHideAnyFloor | benchmarks/floor_guard.py:445-446 | against a run of no tokens every floor passes gate and guard |
| FloorRatchet.RegeneratedFloorBlindsTheGate | benchmarks/floor_guard.py:20-31 | a floor regenerated from the run always passes the gate; the guard is silent exactly when nothing was loosened |
| FloorRatchet.Ratchet | benchmarks/floor_guard.py:1-98 | over any n accepted merges nothing disappears, tokens stay within one slack of the first floor, retention and recall fall by at most n + 1 epsilons |
| FloorRatchet.BoundIsReached | benchmarks/floor_guard.py:353-415 | for every n some n accepted merges reach that bound |
| MarkerGrammar.ClassesExactly | furl_ctx/ccr/marker_grammar.py:132-136 | the hash takes lowercase hex digits, the delimiter is a space, a comma, a hash sign or a closing angle |
| MarkerGrammar.SubWithinBudget | furl_ctx/ccr/marker_grammar.py:255-270 | the text with every match replaced by its original, or left on a miss, and all else kept |
| MarkerGrammar.HashesInText | furl_ctx/ccr/marker_grammar.py:273-286 | each hash once, in first-seen order |
| MarkerResolution.MarkerMatches | furl_ctx/ccr/marker_grammar.py:132-136 | at a well-formed marker the substitution pattern takes the whole marker and the extraction pattern its prefix, hash and delimiter, with the same hash |
| MarkerResolution.FindsWholeMarkers | furl_ctx/ccr/marker_grammar.py:136 | on a laid-out text the substitution matches are exactly the whole markers |
| MarkerResolution.FindsSameHashes | furl_ctx/ccr/marker_grammar.py:132 | extraction finds the same hashes in the same order |
| MarkerResolution.ResolvesExactly | furl_ctx/retrieve.py:184-194 | the pass replaces each whole marker by its original, or leaves it on a miss, keeps all other text, and looks up the hashes extraction reports |
| MarkerResolution.ResolvesAllOrNothing | furl_ctx/retrieve.py:184-194 | where every hash is stored the output is the plain stretches with the originals between them, where none is it is the text |
| MarkerResolution.ExtractsExactly | furl_ctx/ccr/marker_grammar.py:132 | extraction matches at a prefix exactly on a run of 12 or 24 digits with a delimiter right after it |
| MarkerResolution.SubstitutesExactly | furl_ctx/ccr/marker_grammar.py:136 | substitution matches exactly on twelve digits or more, of any width, closed within the bound, and looks up the first 24 or 12 of them |
| MarkerResolution.AgreeExactly | furl_ctx/ccr/marker_grammar.py:132-136 | for any text after a prefix, exactly when the two patterns agree |
| MarkerResolution.StrictWidthsExactly | furl_ctx/ccr/marker_grammar.py:66-68 | the hash substitution looks up is the whole run of digits exactly when the run has one of the two strict widths |
| MarkerResolution.PatternsPart | furl_ctx/ccr/marker_grammar.py:132-136 | three families on which they part: another width, no delimiter, never closed |
| TiktokenCounter.HasBacktrackingProneRun | furl_ctx/tokenizers/tiktoken_counter.py:205-235 | true exactly when a same-class non-digit run reaches the limit, limits below two acting as two |
| TiktokenCounter.RunOfOneIsMissed | furl_ctx/tokenizers/tiktoken_counter.py:205-235 | a run of one is missed at limit one |
| TiktokenCounter.CappedIsTheLongestFit | furl_ctx/tokenizers/tiktoken_counter.py:376-381 | eviction keeps the newest key and gives up no key it need not |
| TiktokenCounter.RoundedIsNearest | furl_ctx/tokenizers/tiktoken_counter.py:414 | rounding takes the nearest integer, of two the even one |
| TiktokenCounter.Counter.EstimateHuge | furl_ctx/tokenizers/tiktoken_counter.py:384-414 | within half a token of the sampled density scaled to the whole length, or the coarse ratio for a degenerate or empty sample; never zero |
| TiktokenCounter.Counter.CountText | furl_ctx/tokenizers/tiktoken_counter.py:334-382 | below 8 MiB the exact count, refused exactly on a run of 128 KiB in a text of 64 KiB or more; above it the estimate; the memo never changes an answer; the byte counter is the sum of the key lengths, within the cap or one entry alone |

## Left out

- The storage back ends, durable writes and their retry, namespace files, export and import, and environment parsing: a back end is its map, and the primary one is volatile.
- Interleaving of threads: each lock-held method is one step, and a cascade one call, so nothing is stored between two of its deletions.
- SHA-256 and marker extraction inside the store: functions of the text, given to the store.
- Entry metadata the properties do not need (token counts, tool names, last access, statistics), search, previews and logging; `get_metadata` and `get_entry_status` reap as `exists` does.
- `heapq` itself: the heap is a bag whose least tuple is popped.
- EvictionOrder.HeapPop: states the contract of the library call, not its sift operations.
- A max_entries of zero or less.
- RedactionRuns.HandBackExactly: a caller's deadline is taken not to come due between installing the handler and arming the budget, the caller's own handler not to raise, arming not to fault, and the redactor not to catch the budget exception; a caller's repeating timer is reloaded from the reading at which it was delivered.
- Redaction.Signals.Boundary: an alarm under the caller's handler is recorded, and does nothing else.
- JsonLocality.ParseValueShift: lone surrogates do not exist as characters here, and the decoder's recursion and integer-digit limits are not modelled.
- RetrieveSelect.SelectRows: what decides on a present field (equality or range) is an arbitrary predicate, the pretty printing of plain output is left out, and of an absent field only the flag is modelled, not the echoed names.
- LineFilters.FilterLines: searching a line with a pattern is an arbitrary predicate; so is a section pattern's match in ContentSections.
- Field projection of a whole array without a select, and validation of request arguments.
- IndependentRecheck.UnflattenDotted: the entries of one dictionary are gone over in arbitrary order, which does not affect the result.
- RetrievalFeedback.Aggregator.EvictOneShape: of several shapes equally stale any may go, where Python takes the first inserted; the clock is read with the lock held.
- RetrievalFeedback.Aggregator.constructor: incoherent tunables, which the program rejects with an error, are its precondition.
- Parsing of results files: both tools start from parsed results, and the guard's snapshot is read off the gate's. Numbers are exact reals, with no floating-point rounding.
- FloorRatchet.Ratchet: stated for the committed slack or any other that is not negative; a merge that touches only the artifacts is outside it, as the guard means it to be.
- MarkerGrammar.HashesInText: the double-angle pattern only, of the three whose hashes the program unions.
- MarkerResolution.ResolvesExactly: the double-angle pass only; the two bracket patterns, which run before it, and RE2 are left out, and looking a hash up is a function, without the store's bookkeeping.
- TiktokenCounter.Counter.CountText: the encoding and the character classes are given functions, and the estimate's division is exact before it is rounded half to even.
- `count_variable_quantifiers`, `is_valid_ccr_hash`, the compression modes, BM25 scoring, the router, the command line, the server and the Rust core.
