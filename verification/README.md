# Verified models of Knot's recovery, layout, folding, links and stores

These Dafny modules model the parts of Knot whose correctness rests on more than
one function at a time, and prove what they promise.

* **Crash recovery** (`Recovery*.dfy`). Several windows share one directory of
  recovery records. `RecoveryStore` models the store as a class over that
  directory; `RecoveryProtocol` lets any number of sessions interleave, one durable
  operation a step, with a crash or an I/O failure possible between any two.
  `RecoveryRefinement` shows the class's operations to be such steps, and
  `RecoveryOutcome` says what a save or a prune does to the directory, and when it is
  refused, by files, times and marker files alone.
  `RecoveryQueue` does the same for the pipeline in front of the store: deferred
  edits, a channel of eight commands, the writer's pending edits, the store; and
  `RecoveryFlush` says what an Ok from it means.
* **Narrow windows** (`CollapseRow`, `Collapse`, `CollapsePresentation`). Which
  stacks of a tile tree become rails, and how the width of every row is shared out.
* **Folding** (`Folding`). From arbitrary ranges to a laminar family of folds, to
  hidden byte ranges, and across edits.
* **Document links** (`Links`, `LinkResolution`, `Utf8`). A relative URL printed from
  two paths and resolved again, and exactly which URLs resolve to what (RFC 3986
  sections 2.1, 2.3 and 5.2.4, RFC 3629 sections 3 and 4).
* **Collections** (`Collection`, `CollectionProtocol`). One file, several handles,
  compare-and-replace under a lock.
* **Retention requests** (`Composition`, `CompositionRuns`). One request in flight, answers checked
  against a wrapping generation, unconfirmed items kept for retry.
* **Reachability and outline** (`Reachable`, `Outline`). A breadth-first search
  that explains itself, and the parents of headings.

Methods and classes follow the code's own loops and fields and are proved equal to
specification functions; the lemmas then say what those functions guarantee.

## What turned out not to hold

* **Passing the fit test does not always keep the writing measure.** The test of
  `presentation` counts every collapsed stack as a rail, the solver lays an open one
  out inline: `CollapsePresentation.OpenRailCostsMeasure` is a desk that passes and
  loses its measure. `WritingKeptExactly` is the exact condition: in a tight frame
  the frame must be as wide as the tree's `Demand`, in any other every source leaf
  must have its measure by the tree's own fractions. `FitTestKeepsMeasure` follows
  for drawers, or without an open rail.
* **A frame that is not tight can leave half a pixel missing.** Nothing is
  constrained until a source stack is more than half a pixel short:
  `HalfPixelMissed` is a page with room to spare and a quarter of a pixel missing,
  and `UntightIsWithinHalfPixel` bounds the loss.
* **Several source branches in one row** can be cut below minimums that fit:
  `CollapseRow.TwoSourcesCanLose`. `SourceGetsExactly` says for each branch, and
  `RowKeepsMinimumsExactly` for the whole row, exactly when they are not.
* **Emitted fractions do not always give the widths back.** They fail where the
  one-pixel floor applies (`CollapseRow.FloorLosesWidths`) and where the rails leave a
  part of a pixel (`PartOfPixelLosesWidths`); `FractionsGiveBackWidths` says that these
  are the only two ways.
* **Retry replaces by identity.** `Composition.SameIdReplaces` is a run in which a
  request with a waiting item's identity and another content takes the unconfirmed
  item's place, and `LeavesRetryExactly` says that this and a confirmation are the only
  two ways off the list. It needs a caller that reuses an identity, and the program has
  none: collecting an item sends one just made under a fresh identifier
  (`apps/desktop/src/composition.rs:863`, `crates/knot-composition/src/lib.rs:222`), the
  retry button sends the waiting items themselves, and the rest send none. For every run
  with such callers `OnlyConfirmedLeaves` proves that an item leaves only when its own
  destination's answer confirms it.
* **Generations wrap.** An answer counts as current exactly when the number of
  destination changes since is a multiple of 2^64 (`Composition.StaleExactly`), and
  after 2^64 of them a stale one is shown (`WrapAdmitsStale`). Results about runs are
  therefore stated for runs of fewer than 2^64 steps.
* **Remapping folds through an intermediate source** can forget a fold that remapping
  directly keeps: `Folding.ForgottenBetween`. It keeps the same folds exactly when the
  intermediate has every kept identity that the last source has (`RemapThrough`).
* **Flush answering Ok** does not mean that every accepted edit is in the store: in
  `RecoveryFlush.OkWithEditUnwritten` the writer has refused a document at its limit
  before. `FlushOkExactly` says of each document's newest edit exactly when it is.
* **The last capacity check of `upsert` can never refuse**:
  `RecoveryTheorems.LateCheckIsUnreachable`.

## Model

| member | source | states |
|---|---|---|
| RecoveryScan.CleanListingIsWholeDirectory | apps/desktop/src/recovery.rs:309-428 | a complete listing without a storage issue has decoded every `.json` entry exactly once, in spite of the entry, byte and issue caps |
| RecoveryScan.CleanListingExactly | apps/desktop/src/recovery.rs:309-428 | the listing is complete and clean exactly when the iterator never failed, both budgets hold and every record file is sound |
| RecoveryScan.DirtyStays | apps/desktop/src/recovery.rs:1019-1035 | a listing once incomplete or with a storage issue stays so, even at the issue cap |
| RecoveryScan.ReportsKept | apps/desktop/src/recovery.rs:1019-1029 | at most 64 reports are kept, the first 63 for good; at the cap only an oversize report still finds room |
| RecoveryPolicy.RunLengthExact | apps/desktop/src/recovery.rs:483-506 | eviction takes the shortest oldest-first run of dead records after which both limits hold, and gives up exactly when all of them would not be enough |
| RecoveryPolicy.FitsGrows | apps/desktop/src/recovery.rs:483-506 | once a run of evictions is enough, every longer one is |
| RecoveryPolicy.EvictOldestDead | apps/desktop/src/recovery.rs:483-506 | the loop that pops the first dead record until the limits hold evicts exactly the run of that length |
| RecoveryPolicy.RetainUnexpired | apps/desktop/src/recovery.rs:471-481 | the loop keeps live and unexpired records in order and names the expired dead ones as victims |
| RecoveryTheorems.SurvivorsAndVictims | apps/desktop/src/recovery.rs:588-621 | expiry and eviction split the records: survivors have no victim's id, every other record is a victim, every victim's owner is not live |
| RecoveryTheorems.PruneWithinLimits | apps/desktop/src/recovery.rs:578-631 | after a prune the whole directory, not only what was inspected, is within the record and byte limits |
| RecoveryTheorems.UpsertWithinLimits | apps/desktop/src/recovery.rs:432-526 | after a save the whole directory is within both limits |
| RecoveryTheorems.UpsertEvictsExactly | apps/desktop/src/recovery.rs:469-512 | the plan of a save, in the loops' own terms: the expired records, then the shortest sufficient run; `RecoveryOutcome` says which records those are |
| RecoveryTheorems.PruneEvictsExactly | apps/desktop/src/recovery.rs:583-621 | the same for the plan of a prune |
| RecoveryTheorems.LateCheckIsUnreachable | apps/desktop/src/recovery.rs:507-511 | the check after eviction never refuses |
| RecoveryTheorems.UpsertCrashAtomic | apps/desktop/src/recovery.rs:432-526 | a crash at any point leaves the record wholly old before the rename and wholly new from it on; any other entry is untouched or an evicted dead record |
| RecoveryTheorems.SavePrefix | apps/desktop/src/recovery.rs:935-983 | where each prefix of stage, rename, delete and sync leaves the directory |
| RecoveryOutcome.SaveThins | apps/desktop/src/recovery.rs:432-526 | a save leaves the offered record as this session's, updated now, as old as the record it replaced; of the others only records of ended sessions go: all whose update time plus the age limit in days of 86 400 000 ms is past, then the oldest, and with the last of them back a limit would be exceeded |
| RecoveryOutcome.PruneThins | apps/desktop/src/recovery.rs:578-631 | the same of a prune, without a record of its own |
| RecoveryOutcome.SaveAllowedExactly | apps/desktop/src/recovery.rs:432-512 | a save is accepted exactly when nobody who may be running owns the name, the record is within both item limits, the listing is clean, and the record fits beside the records of sessions that have not ended |
| RecoveryOutcome.PruneAllowedExactly | apps/desktop/src/recovery.rs:578-621 | a prune is accepted exactly when the listing is clean and the records of sessions that have not ended are within the limits; otherwise which refusal it gives |
| RecoveryOutcome.RemoveExactly | apps/desktop/src/recovery.rs:528-544 | when a removal is refused, and what it deletes |
| RecoveryOutcome.ClaimExactly | apps/desktop/src/recovery.rs:546-564 | when a claim is refused, and that it rewrites owner and update time alone |
| RecoveryStore.Store.List | apps/desktop/src/recovery.rs:309-428 | the scanning loop computes the specified listing |
| RecoveryStore.Store.DecideUpsert | apps/desktop/src/recovery.rs:432-512 | the decisions of a save, in the code's order with the code's refusals, are the specified plan |
| RecoveryStore.Store.Upsert | apps/desktop/src/recovery.rs:432-526 | the directory and the answer for every number of operations that succeed; a refusal changes nothing, success leaves the record as saved in a directory otherwise thinned to the limits |
| RecoveryStore.Store.Prune | apps/desktop/src/recovery.rs:578-631 | the same for pruning by policy; success thins the directory to the limits |
| RecoveryStore.Store.SetRetention | apps/desktop/src/recovery.rs:566-576 | which limits are invalid; others are adopted only if the directory could be thinned to them, and the old ones stay otherwise |
| RecoveryStore.Store.Remove | apps/desktop/src/recovery.rs:528-544 | removes exactly the record, unless a live session owns it |
| RecoveryStore.Store.Claim | apps/desktop/src/recovery.rs:546-564 | takes over a dead session's record, changing its owner to this session and its update time to now, and nothing else |
| RecoveryStore.Disk.SweepStale | apps/desktop/src/recovery.rs:767-813 | the loop over the marker directory, stopped by the entry cap, a failing iterator or a marker that cannot be removed, is the specified sweep |
| RecoveryStore.SweepExactly | apps/desktop/src/recovery.rs:767-813 | a sweep removes exactly the markers of dead sessions that it passes before it stops; where it stops, when it answers Ok, and which error it gives otherwise |
| RecoveryStore.Open | apps/desktop/src/recovery.rs:213-280 | exactly when a session opens; it holds a fresh locked marker, dead markers are swept, the directory is thinned to the limits unless another window has the lock or the prune fails, and a failed prune of an undamaged store is the startup issue |
| RecoveryStore.Store.Close | apps/desktop/src/recovery.rs:658-663 | the session's marker is released, and gone if it could be removed |
| RecoveryProtocol.StepInv | apps/desktop/src/recovery.rs:213-870 | every step of every session, opening, failure and crash included, keeps the invariant: one lock holder, whose planned effects touch only missing, own or dead records |
| RecoveryProtocol.RunRespectsOwners | apps/desktop/src/recovery.rs:432-631 | in every run a running session's record stays as it is while only others act |
| RecoveryProtocol.StepRespectsOwners | apps/desktop/src/recovery.rs:288-307 | no step of another session changes or deletes a running session's record |
| RecoveryProtocol.ClaimsAreExclusive | apps/desktop/src/recovery.rs:546-564 | no two running sessions are ever both told that they hold one record |
| RecoveryProtocol.GrantsLast | apps/desktop/src/recovery.rs:546-564 | a confirmed save or claim holds while the session runs and does not remove the record |
| RecoveryProtocol.VictimIsStillDead | apps/desktop/src/recovery.rs:815-870 | when a planned victim is deleted nobody has claimed it since the listing |
| RecoveryProtocol.FinishKeepsPromises | apps/desktop/src/recovery.rs:513-526 | a reported save, prune or removal is true of the directory at that moment |
| RecoveryProtocol.IdlePruneTakesEffect | apps/desktop/src/recovery.rs:566-576 | limits that need no deletion are adopted at once, and the directory is within them |
| RecoveryProtocol.RecordsAreWhole | apps/desktop/src/recovery.rs:935-983 | no step leaves a half-written record |
| RecoveryRefinement.OperationIsSteps | apps/desktop/src/recovery.rs:432-631 | an undisturbed save, prune, change of limits, removal or claim is a begin, advances and a finish or failure, with the directory and session the class leaves |
| RecoveryRefinement.OpenIsStep | apps/desktop/src/recovery.rs:213-263 | opening up to its prune is one step of the protocol, successful or failed, with the markers the object leaves |
| RecoveryRefinement.CloseIsStep | apps/desktop/src/recovery.rs:658-663 | closing is one step, with the markers the object leaves |
| RecoveryRuntime.Runtime.Offer | apps/desktop/src/recovery_runtime.rs:75-121 | an offer is sent while the channel has room, else deferred exactly when it adds no twenty-first document and the deferred texts with it in place stay within 100 MiB, else refused; and what that leaves |
| RecoveryRuntime.RoomExactly | apps/desktop/src/recovery_runtime.rs:86-104 | there is room for an edit exactly when the map with it in place of any older one is within both limits |
| RecoveryRuntime.Runtime.Retry | apps/desktop/src/recovery_runtime.rs:123-128 | offers every deferred edit again in id order |
| RecoveryRuntime.RetryPlacesAll | apps/desktop/src/recovery_runtime.rs:123-128 | within the deferral limits a retry refuses nothing |
| RecoveryRuntime.Writer.FlushPending | apps/desktop/src/recovery_runtime.rs:287-307 | every pending edit is saved or reported, and the answer is Ok exactly when none was reported |
| RecoveryRuntime.Writer.TakeUpsert | apps/desktop/src/recovery_runtime.rs:232-248 | an edit replaces the pending one of its document, or is reported at the limit |
| RecoveryQueue.StepInv | apps/desktop/src/recovery_runtime.rs:75-307 | every step of either thread keeps order, accounting, bounds and the promises to waiting calls |
| RecoveryQueue.NothingIsLost | apps/desktop/src/recovery_runtime.rs:75-128 | in every reachable state the newest accepted edit of a document is queued, in the store, reported or cleared, and deferred is newer than channel, newer than pending, newer than stored |
| RecoveryQueue.WritesInOfferOrder | apps/desktop/src/recovery_runtime.rs:222-307 | what is written for a document only gets newer |
| RecoveryQueue.FlushAnswerLeavesNothing | apps/desktop/src/recovery_runtime.rs:154-163 | when flush answers, Ok or not, no accepted edit waits anywhere, and each newest one is in the store, was reported or predates a clear |
| RecoveryFlush.FlushOkExactly | apps/desktop/src/recovery_runtime.rs:154-163 | when flush answers Ok the writer had taken it in a step that stored all that was pending; a newest edit is in the store exactly when it had not been reported unwritten, or removed by a clear, before that step |
| RecoveryFlush.StepFlow | apps/desktop/src/recovery_runtime.rs:75-307 | what each step does to the edits of a document in queue and store: only an offer brings one in, and the newest leaves only by being reported unwritten or cleared |
| RecoveryFlush.OkWithEditUnwritten | apps/desktop/src/recovery_runtime.rs:231-240 | a run in which flush answers Ok and the edit of a twenty-first document is not in the store |
| RecoveryQueue.ClearOkLeavesNone | apps/desktop/src/recovery_runtime.rs:130-140 | when clear answers Ok the document is in no queue and not in the store |
| RecoveryQueue.ClearedStaysCleared | apps/desktop/src/recovery_runtime.rs:130-140 | and stays so until it is offered again |
| RecoveryQueue.RetryDropsNothing | apps/desktop/src/recovery_runtime.rs:123-128 | in no run of a living writer does a retry refuse an edit |
| RecoveryQueue.OfferRefines | apps/desktop/src/recovery_runtime.rs:75-121 | the `Offer` method takes one of the modelled offer steps, and answers true exactly when it is not the refusal |
| RecoveryQueue.RetryRefines | apps/desktop/src/recovery_runtime.rs:123-128 | the `Retry` method is a run of modelled retry steps that places every edit |
| RecoveryQueue.TakeRefines | apps/desktop/src/recovery_runtime.rs:232-248 | the `TakeUpsert` method is the modelled step that takes or refuses an edit |
| RecoveryQueue.FlushRefines | apps/desktop/src/recovery_runtime.rs:258-278 | the `FlushPending` method is the modelled timer step, and with its answer the step that takes a flush |
| CollapseRow.RowKeepsMinimums | apps/desktop/src/collapse.rs:326-398 | when the minimums of a row fit and at most one branch bears source text, every branch gets its minimum |
| CollapseRow.OneSourceRowExact | apps/desktop/src/collapse.rs:326-398 | with one source branch whose minimum exceeds a pixel, it gets its minimum if and only if the minimums fit |
| CollapseRow.SourceGetsExactly | apps/desktop/src/collapse.rs:326-398 | with any number of source branches, one gets a given width up to its minimum exactly when that is within the one-pixel floor or its share of what the sides leave is enough |
| CollapseRow.RowKeepsMinimumsExactly | apps/desktop/src/collapse.rs:326-398 | a row keeps all its minimums exactly when the share of every source branch above a pixel is enough |
| CollapseRow.TwoSourcesCanLose | apps/desktop/src/collapse.rs:359-372 | two source branches, minimums that fit, one cut below its own |
| CollapseRow.SourcesYieldLast | apps/desktop/src/collapse.rs:348-372 | when a source branch gets less than it started with, every side branch is down to its minimum |
| CollapseRow.ReadingsTakeSpare | apps/desktop/src/collapse.rs:373-398 | while a row has an open reading, no other branch gains from spare width |
| CollapseRow.RowSumExact | apps/desktop/src/collapse.rs:326-398 | with a source branch the widths add up to the available width exactly when the one-pixel floor does not apply, and exceed it otherwise |
| CollapseRow.RailsKeepTheirWidth | apps/desktop/src/collapse.rs:332-398 | a rail is exactly as wide as the preferences say after all three passes |
| CollapseRow.FractionsGiveBackWidths | apps/desktop/src/collapse.rs:399-431 | emitted fractions are not negative and zero on rails; they add up to one exactly when the floor applies or the rails leave a pixel, and give every width back exactly when the floor does not apply and the rails leave a pixel, or nothing |
| CollapseRow.FloorLosesWidths | apps/desktop/src/collapse.rs:399-431 | a row of a rail and a source branch where the floor applies and the fractions do not give the widths back |
| CollapseRow.PartOfPixelLosesWidths | apps/desktop/src/collapse.rs:399-431 | a row where it does not apply, the rail leaves half a pixel and they do not either |
| CollapseRow.NarrowSides | apps/desktop/src/collapse.rs:348-358 | the first pass: side branches give way down to their minimum, in order |
| CollapseRow.CutSources | apps/desktop/src/collapse.rs:359-372 | the second pass: source branches share the rest of the excess in proportion, above one pixel |
| CollapseRow.ShareSpare | apps/desktop/src/collapse.rs:373-398 | the third pass: spare width goes in equal parts to open readings, else to source branches |
| CollapseRow.AllocateRow | apps/desktop/src/collapse.rs:326-398 | the three passes together give the specified widths |
| Collapse.EveryStackFits | apps/desktop/src/collapse.rs:274-446 | if no row has two source branches and the frame is at least the tree's minimum, every stack at every depth gets its minimum |
| Collapse.KeptExactly | apps/desktop/src/collapse.rs:274-446 | if no row has two source branches, every stack gets its minimum, or every source stack its measure, at every depth exactly when the frame is as wide as the tree's demand |
| Collapse.RowExact | apps/desktop/src/collapse.rs:326-398 | in a row with one source branch that branch gets its minimum if and only if the row's minimum fits |
| Collapse.RowShareExact | apps/desktop/src/collapse.rs:326-398 | in a row with any number of source branches, one gets its minimum exactly when its share is enough |
| Collapse.FitTestIsMinimum | apps/desktop/src/collapse.rs:245-301 | `required` equals `minimum_width` when drawers are used or no rail is open |
| Collapse.SplitsAreRows | apps/desktop/src/collapse.rs:421-446 | a split is emitted for a path exactly when the row at that path departs from its fractions, with that row's fractions |
| Collapse.UnemittedIsClose | apps/desktop/src/collapse.rs:411-431 | a row keeps its own fractions exactly while every solved one is within 0.0001 of its own |
| Collapse.Constrain | apps/desktop/src/collapse.rs:312-446 | the walk that pushes and pops the path emits exactly the specified splits |
| CollapsePresentation.Collect | apps/desktop/src/collapse.rs:170-234 | one leaf for every stack in tree order, with its kind, measure and nominal width |
| CollapsePresentation.TreeHonest | apps/desktop/src/collapse.rs:170-310 | with distinct tiles, looking a stack up in the leaves gives its own leaf, and `has_source` is true exactly of trees in which some tab of some stack is a document |
| CollapsePresentation.FinalHonest | apps/desktop/src/collapse.rs:112-131 | however stacks are folded that stays true, and no source stack becomes a rail |
| CollapsePresentation.KindExactly | apps/desktop/src/collapse.rs:183-198 | a stack is a source when any tab is a document, and otherwise a navigator when any is a navigator or a site |
| CollapsePresentation.RailsExactly | apps/desktop/src/collapse.rs:102-157 | what is presented of each stack: one with a document is never a rail; in a cramped frame or with drawers one with a navigator or site is, and so are the rest with drawers or when the fit test fails; a rail is open as it was presented last |
| CollapsePresentation.OnlyStacksShown | apps/desktop/src/collapse.rs:134-157 | whatever is presented is a stack of the tree, under its first tab |
| CollapsePresentation.BranchExactly | apps/desktop/src/collapse.rs:236-301 | what the row solver is told of a branch that is a stack, from its tabs and its presentation: fixed, reading, source and minimum |
| CollapsePresentation.Present | apps/desktop/src/collapse.rs:102-168 | the stacks and splits presented are those of the final leaves; nothing is constrained when there is room |
| CollapsePresentation.WritingKeptExactly | apps/desktop/src/collapse.rs:102-168 | exactly when every stack with a document in any tab is presented with the largest measure its tabs ask for, in tight frames and in others |
| CollapsePresentation.MeasureIsKept | apps/desktop/src/collapse.rs:102-168 | when the solver's minimum fits the frame every stack with source text is presented with its measure, or, in a frame that is not tight, at most half a pixel less |
| CollapsePresentation.FitTestKeepsMeasure | apps/desktop/src/collapse.rs:117-131 | passing the fit test is enough for that when drawers are used or no rail is open |
| CollapsePresentation.UntightIsWithinHalfPixel | apps/desktop/src/collapse.rs:112-120 | in a frame that is not tight every stack with source text gets its measure or at most half a pixel less |
| CollapsePresentation.HalfPixelMissed | apps/desktop/src/collapse.rs:112-167 | a page with room to spare that is not tight and keeps less than its measure |
| CollapsePresentation.OpenRailCostsMeasure | apps/desktop/src/collapse.rs:125-166 | a tight desk with an open rail that passes the fit test and loses its measure |
| CollapsePresentation.RowFractions | apps/desktop/src/collapse.rs:399-431 | in a presented tree the fraction theorem holds of every row with source text |
| Folding.NormalizedFolds | apps/desktop/src/document_folding.rs:59-94 | the filter, sort and accept loops compute the specified folds |
| Folding.NormalizedExactly | apps/desktop/src/document_folding.rs:59-94 | the folds are in strict order, and an item that spans whole characters and a line break is among them exactly when no fold before it has its span or ends inside it |
| Folding.NormalizedLaminar | apps/desktop/src/document_folding.rs:56-94 | any two folds are nested or disjoint and none has another's span |
| Folding.LaminarInputIsKept | apps/desktop/src/document_folding.rs:79-92 | every such item is offered exactly when any two have different spans that are nested or disjoint |
| Folding.ConcealRanges | apps/desktop/src/document_folding.rs:138-168 | the outermost-only loops compute the specified ranges |
| Folding.ConcealedWellPlaced | apps/desktop/src/document_folding.rs:138-168 | the ranges are non-empty, in order, disjoint and on character boundaries |
| Folding.ConcealedExactly | apps/desktop/src/document_folding.rs:134-168 | a byte is hidden exactly when it lies in the hidden body of some collapsed fold |
| Folding.Identities | apps/desktop/src/document_folding.rs:181-194 | the counting loop gives each fold its kind, opening line and number of equal folds before it |
| Folding.IdentitiesUnique | apps/desktop/src/document_folding.rs:181-194 | no two folds of a snapshot share an identity |
| Folding.OpenerIsLine | apps/desktop/src/document_folding.rs:106-113 | a fold is known by its opening line, whether that ends in a line feed or a carriage return and one |
| Folding.RemapCollapsed | apps/desktop/src/document_folding.rs:198-213 | the folds of the new source whose identity was collapsed in the old one |
| Folding.RemapToSelf | apps/desktop/src/document_folding.rs:196-213 | remapping to the same source keeps exactly the collapsed folds on offer |
| Folding.RemapThrough | apps/desktop/src/document_folding.rs:196-213 | going through another source keeps a subset, and the same exactly when that source has every kept identity the last one has |
| Folding.ForgottenBetween | apps/desktop/src/document_folding.rs:196-213 | three sources of which the middle one lacks the collapsed fold, and going through it forgets that fold |
| Links.NormalizedPath | apps/desktop/src/document_links.rs:188-218 | the loop that pushes and pops names computes the normalized path, with each error |
| Links.NormalizedPortable | apps/desktop/src/document_links.rs:188-218 | a normalized path has portable names only |
| Links.RelativeUrl | apps/desktop/src/document_links.rs:71-104 | the common-prefix and encoding loops print the specified URL |
| Links.RelativeSucceeds | apps/desktop/src/document_links.rs:71-104 | printing succeeds exactly when both paths normalize and name a file |
| Links.RelativeIsSafe | apps/desktop/src/document_links.rs:71-104 | the URL has only unreserved characters, percent triplets and slashes, and its first segment is a dot segment, never a scheme |
| Links.DecodeEncode | apps/desktop/src/document_links.rs:12-19 | percent-decoding undoes percent-encoding for every byte string |
| Links.ResolveLocal | apps/desktop/src/document_links.rs:146-185 | the splitting, checking and following loops compute the specified path |
| Links.RoundTrip | apps/desktop/src/document_links.rs:71-185 | resolving a printed URL, with any query or fragment, gives the normalized target for every pair of paths, ancestors included |
| Links.ResolvedIsLocal | apps/desktop/src/document_links.rs:141-185 | whatever resolves is a path of portable names from a URL that is relative and has no scheme |
| LinkResolution.ResolvesExactly | apps/desktop/src/document_links.rs:146-185 | exactly which URLs resolve: the path is not empty, has no leading slash, no backslash or control character and no colon in its first segment, every segment decodes to UTF-8 text without separators and controls, and none leads above the root; and that the result is where the segments lead |
| LinkResolution.NormalizesExactly | apps/desktop/src/document_links.rs:188-218 | exactly which paths normalize, and that the result is where their components lead |
| LinkResolution.LeadsToOne | apps/desktop/src/document_links.rs:168-218 | where moves lead is one path: at each place the last name put there or the one that never left |
| LinkResolution.NamesResolve | apps/desktop/src/document_links.rs:146-185 | encoded names without a prefix resolve beside the source, with empty and dot segments anywhere behind the first |
| LinkResolution.EncodesExactly | apps/desktop/src/document_links.rs:12-19 | exactly letters, digits and `-._~` are printed as they are, every other byte as a triplet that decodes to it |
| LinkResolution.HexExactly | apps/desktop/src/document_links.rs:156-166 | a triplet takes digits of either case for their values |
| Utf8.TextEncodes | apps/desktop/src/document_links.rs:167-169 | whatever is taken for text is the UTF-8 encoding of scalar values |
| Utf8.EncodedIsText | apps/desktop/src/document_links.rs:167-169 | every such encoding is taken for text, and for text with a control character exactly when it encodes one |
| Links.LinkLabel | apps/desktop/src/document_links.rs:106-130 | labels are refused when empty or not one line of text, and otherwise read back as they were |
| Links.LabelRoundTrip | apps/desktop/src/document_links.rs:124-130 | unescaping undoes the escaping loop |
| LinkResolution.PunctuationExactly | apps/desktop/src/document_links.rs:124-130 | what is escaped in a label is the ASCII punctuation |
| Collection.ValidateItems | crates/knot-composition/src/lib.rs:553-565 | accepts exactly the lists within the limit, of valid items, without a repeated identity |
| Collection.Open | crates/knot-composition/src/lib.rs:430-459 | opens exactly on an absent file or valid items, and never changes the file |
| Collection.CollectionStore.Collect | crates/knot-composition/src/lib.rs:471-479 | exactly when it succeeds; a commit appends the item to a file unchanged since last seen; anything else changes nothing |
| Collection.CollectionStore.Remove | crates/knot-composition/src/lib.rs:481-493 | the same for removing the items of one identity |
| Collection.RemovedInPlace | crates/knot-composition/src/lib.rs:481-493 | a remove takes the one item of an identity out of its place and leaves the others in theirs |
| Collection.CollectionStore.Persist | crates/knot-composition/src/lib.rs:495-551 | replaces the file only if its content is the one last seen; uncertain durability counts as replaced |
| CollectionProtocol.StepInv | crates/knot-composition/src/lib.rs:430-551 | every step of any handle keeps: one holder past the lock, what was compared is still there, the file is the log |
| CollectionProtocol.CommitIsThreeSteps | crates/knot-composition/src/lib.rs:471-551 | an undisturbed collect or remove is begin, compare and replace, with the effect the class states |
| CollectionProtocol.OpenAndDropAreSteps | crates/knot-composition/src/lib.rs:430-459 | opening a handle and dropping it are steps |
| CollectionProtocol.NoUpdateIsLost | crates/knot-composition/src/lib.rs:422-551 | in every reachable state the file is the first content with every commit applied in order |
| CollectionProtocol.LogIsLegal | crates/knot-composition/src/lib.rs:469-493 | each commit was allowed on the file it replaced |
| CollectionProtocol.EachCommit | crates/knot-composition/src/lib.rs:469-493 | each collect of a run put a valid item of a new identity at the end of the file as it was, each remove took an identity it had, within the size limit |
| CollectionProtocol.FileStaysAcceptable | crates/knot-composition/src/lib.rs:553-565 | identities stay unique and the limits hold in every reachable state |
| CollectionProtocol.OnlyRemoveRemoves | crates/knot-composition/src/lib.rs:481-493 | an item disappears only through a committed remove of its identity in between |
| Composition.Work | apps/desktop/src/composition.rs:251-279 | the worker passes an answer on exactly when every receipt and row is of the right destination and item |
| Composition.CompositionState.ChangeTargets | apps/desktop/src/composition.rs:175-191 | new destinations, nothing selected or shown, the generation moved on and the request in flight left alone |
| Composition.CompositionState.RequestOperation | apps/desktop/src/composition.rs:205-286 | the request step, and exactly when it puts which items in flight to which destination |
| Composition.CompositionState.SelectTarget | apps/desktop/src/composition.rs:1396-1406 | the button of a destination: with nothing in flight it is the one selected, and a refresh goes to it |
| Composition.CompositionState.RetrySame | apps/desktop/src/composition.rs:1423-1425 | the retry button: the items waiting go in flight, whole, exactly when their destination is selected and nothing else is in flight |
| Composition.CompositionState.DrainAnswer | apps/desktop/src/composition.rs:288-368 | the drain step on no answer, an error, a stale answer, a closed channel and rows, which are shown in listing order |
| Composition.RowsAreOfDestination | apps/desktop/src/composition.rs:205-368 | in every run of fewer than 2^64 steps every row shown carries a receipt of the selected destination |
| CompositionRuns.SelectedByButton | apps/desktop/src/composition.rs:175-224 | in every run the destination selected is that of the last button pressed with nothing in flight since the destinations changed |
| CompositionRuns.InFlightIsOfButton | apps/desktop/src/composition.rs:205-286 | in every run each request in flight was sent to the destination of the button last pressed by then, with the items asked for, and nothing else has been in flight since |
| CompositionRuns.RetrySends | apps/desktop/src/composition.rs:1423-1425 | the retry button puts the very items waiting in flight to their destination and keeps them waiting |
| CompositionRuns.SentItemsWait | apps/desktop/src/composition.rs:244-247 | items sent wait for the destination they are sent to |
| Composition.StaleExactly | apps/desktop/src/composition.rs:288-300 | a stale answer changes only that the channel closes; it is taken for current exactly at multiples of 2^64 |
| Composition.WrapAdmitsStale | apps/desktop/src/composition.rs:175-191 | after 2^64 changes a stale answer is shown |
| Composition.DrainTakesConfirmed | apps/desktop/src/composition.rs:324-345 | a drain takes off exactly the items that the right destination lists, equal and by its writer |
| Composition.UnconfirmedInOrder | apps/desktop/src/composition.rs:337-342 | what is left waits in the order it had |
| Composition.LeavesRetryExactly | apps/desktop/src/composition.rs:205-368 | an item leaves the retry list exactly by confirmation or by a same-identity request to the same destination without it |
| Composition.OnlyConfirmedLeaves | apps/desktop/src/composition.rs:205-368 | in every run whose requests reuse no waiting identity, or send the waiting items themselves, an item leaves the retry list only when an answer confirms it for the destination it waited for all along, which in a run of fewer than 2^64 steps was asked of that destination |
| Composition.IdentitiesWait | apps/desktop/src/composition.rs:226-247 | the identities waiting and their destination stay until a drain |
| Composition.SameIdReplaces | apps/desktop/src/composition.rs:226-247 | the comparison is by identity: a run in which another item takes an unconfirmed one's place |
| Reachable.Search | tools/check_profile.py:175-190 | the search ends, cycles included, with exactly the packages that normal dependencies reach |
| Reachable.PathTo | tools/check_profile.py:195-200 | the walk up the parents ends at the root |
| Reachable.FoundExactly | tools/check_profile.py:175-202 | exactly the packages reachable by normal edges are found, and each explanation is a shortest walk |
| Outline.HeadingParents | apps/desktop/src/context_navigation.rs:254-268 | each heading gets the nearest preceding strictly shallower one, or none when there is none |
| Outline.ParentIsUnique | apps/desktop/src/context_navigation.rs:253-268 | no other choice of parents meets that description |
| Outline.ChainFalls | apps/desktop/src/context_navigation.rs:253-268 | going up, positions and levels strictly fall, to a heading with none shallower before it |
| Outline.SpansNest | apps/desktop/src/context_navigation.rs:253-268 | the subtrees of headings nest |

## Left out

- Files, permissions, links, directory handles, JSON and BLAKE3: a directory is a map, a rename is one step, a digest is the content, and the encoded length of a record or store is an arbitrary function. Sizes and times are unbounded naturals.
- RecoveryStore.Store.Upsert: liveness answers are those of one moment within an operation; `RecoveryProtocol` allows any answers that never call a running session dead.
- RecoveryProtocol.StepInv: one set of liveness answers serves the whole of an operation, whereas the code asks again for each record; a session that ends while an operation is planned, and is seen live and then dead, is not modelled.
- RecoveryStore.Open: what other windows do to the directory between the marker and the prune is left to `RecoveryProtocol`.
- RecoveryFlush.FlushOkExactly: a writer that panics or a channel that closes is not modelled; a call that times out gives up and promises nothing, and `clear` may then already have dropped the deferred copy.
- RecoveryQueue.NothingIsLost: other sessions may have records in the store and lose them, but do not write identities this window edits; the 650 ms and 2 s flushes are a step that can happen at any time.
- RecoveryRuntime.Runtime.Retry: a record is its identity, its size and a revision that counts offers.
- CollapseRow.RowSumExact: widths are real numbers, so single-precision rounding is not captured.
- CollapsePresentation.Present: labels, drawer geometry and the focus to return to are copied through by the code and not modelled; preferences are non-negative numbers, as unsigned ones are.
- Collapse.KeptExactly: rows with two source branches are excluded; `Collapse.RowShareExact` speaks of those one row at a time.
- CollapsePresentation.WritingKeptExactly: a row whose solved fractions are all within 0.0001 of its own is not emitted and keeps its own, so its branches can differ from the solver's widths by that share of the row.
- Folding.Identities: trimming an opening line is an arbitrary function, so Unicode white space is not modelled.
- Links.RelativeUrl: paths have one root; Windows prefixes are not modelled. A relationship attribute of `markup` is a table lookup and left out.
- Collection.CollectionStore.Collect: which single items are valid is an arbitrary predicate; writers other than collection handles are not modelled.
- Composition.CompositionState.DrainAnswer: notices, the items of a legacy import, the organization editor and the marking of retained recipes and alignments are left out; the listing order of rows is a rank.
- Reachable.Search: one workspace root and a resolved graph are assumed; grouping packages by name, where an explanation starts at the first of that name, is left out.
- Views, appearance, the Djot parser, the reference registry, the launcher and the scripts: reading or drawing code whose properties are finite case checks.
