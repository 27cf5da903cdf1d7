# A verified model of kvmctl's core

kvmctl is a command-line client that paces its requests, keeps an append-only
journal of its own invocations, learns flag corrections from that journal, reads
paginated collections from servers it does not trust, and prints and projects
JSON. This project models the parts of it that hold loops, shared state or
arithmetic, and proves what they promise.

| module | models |
|---|---|
| RateLimiter, RateLimiterRuns | the adaptive pacer: slots, cancellation, the rate; and every interleaving of its locked sections |
| Journal, JournalRuns | segment files, torn-tail repair, cleanup, reading from an offset; and whole lives of the journal |
| EditDistance | the two edit-distance routines |
| Derive, DeriveBatches | pairing failed flags with their corrections; exactly when deriving in batches gives what deriving at once gives |
| DeriveRuns, DeriveJournal, DeriveLives | derivation passes with held batches and failing stores: over lines, the scan for the seed over segment files, and end to end over the journal's bytes |
| Pagination, PaginationRuns, PaginationMarks, PaginationHonest, PaginationPages, PaginationCursors, Decimal | fetching every page, against any server and against honest ones |
| FieldSelect, FieldPaths | projecting JSON by dotted paths; which places a path names |
| Csv | printing CSV, and an RFC 4180 reader |
| Fanout | the worker pool as a transition system |
| Retry | the request loop |
| CanonicalMap, Text, Letters | the canonical text of a string map; byte order, words, sorting, letter case |
| Playbooks, FamilyKeys, FamilyRuns, FamilySharing, Slots | fold-aware lookup with lazy rekeying, the fold itself, which families callers can strand, slot binding |

Code that changes things in place is a class or a method with loops, proved
against a specification function; the promises are then proved about that
function. Protocols (`…Runs`, `Fanout`) are steps on a world value, and their
theorems range over every run that the steps allow. `dafny verify dfyconfig.toml`
checks everything.

## What the proofs found

- Deriving a batch and then the next gives what one pass over both gives exactly
  when no failure of the first is corrected only by the second
  (`BatchingChangesNothing`), and a pass gives up a failure once its window has
  passed on the clock. Two things let a correction arrive later all the same.
  Entries are stamped in whole seconds while the clock runs in nanoseconds, so a
  retry journaled just after the pass may be stamped inside the window
  (`CuttingIsHarmlessExactlyWhenDecided`, `CutStampsCanLoseACorrection`). And a retry
  that lost only its line feed is handed out when the day's next append completes
  it, however late (`RetryCompletedTooLate`). The correction is then lost.
- Reading all pages is complete only when the page size the paginator counts on
  agrees with the server's, in a sense that depends on offsets or page numbers and
  on what tells that there is more; otherwise items are skipped, repeated or
  missing and nothing is marked. `CompleteExactlyWhenSizesAgree` is an
  if-and-only-if, `FourOfFive` an instance; `PagesOfAnySize` says the same of a
  server whose pages differ in size, for page numbers and for offsets that leave
  the size to the server.
- A position moves forward exactly as long as the sum fits in 64 bits;
  `PositionsCanOverflow` shows a walk that asks at a negative offset.
- The CSV header is printed without quoting, so a key with a comma, quote or line
  feed does not read back (`OutputReadsBackExactlyWhenKeysArePlain`); a key with a
  comma reads back as two (`CommaSplitsAKey`).
- The comment on the playbook lookup says rekeying never strands a row. A query's
  family is folded in place, words next to each other and in order, while stored
  keys are folded as bags, so a family may hold a variant scattered among its
  words. Then its bag fold is another key, a lookup of that key moves the row, and
  the first query no longer finds it: `DefaultRulesStrandAFamily` shows it with the
  synonyms every configuration ships with. Where folding twice is folding once, a
  family stays findable through lookups of folded keys if and only if it is its own
  fold (`FoldedQueriesStrandExactly`), and through callers' lookups if and only if
  no variant is left among the words of the folded query (`CallersStrandExactly`).
  No row, id or payload is lost, and every key folds to what it folded to before
  (`LookupsStrandNothing`).
- That a folded key is its own fold follows when no canonical word occurs in a
  variant; it is not enough that no canonical phrase is itself a variant
  (`OverlappingRulesFoldTwice`), and without it even a folded family can be
  stranded (`TwoHopsStrandARow`).
- `CallersStrandExactly` holds for synonyms of which no two share a variant word.
  Synonyms that share one, such as "last night" beside "last week", can strand a
  family whose words hold no variant (`SharedWordStrandsARow`), because a phrase may
  fold one way in place and another way as a stored key;
  `UnphrasedCallersStrandExactly` gives the exact condition.
- The comment on the fan-out says workers stop pulling jobs once the context is
  done. They pull on, and settle each job with the context's error, exactly when
  the channel holds a source or the feeder may still put one there
  (`PullsExactlyWhenFed`, `StoppedWorkersPull`); no call follows a cancellation
  (`NoCallFollowsCancel`).
- The comment on derivation says every observation is counted once. A pass that
  fails after its first store call records a prefix that its replay records again
  (`FailedPassRecordsTwice`). Over whole lives, with no assumption on clock or
  stamps, what is recorded is what one pass derives, up to recall anchors, if and
  only if no pass failed midway and none came too late
  (`PassesDeriveWhatOnePassWould`, `SurplusChangesExactly`). Where passes of both
  kinds occur the two can make up for each other (`FaultsCanCancel`); the numbers
  balance in any case.
- The scan that finds a batch's recall families splits raw segments, so it also
  parses a full record that lost its line feed at the end of an older segment,
  which the reader never delivers. Such a recall can anchor a correction to a
  family that one pass over everything delivered never sees
  (`StrayAnchorsACorrection`, `StrayIsScanned`). `RawScanAgreesExactly` says exactly
  when the two seeds are the same.  The corrections may agree even when the seeds
  do not: their anchors are right exactly when none of them is taken from a session
  whose last recall the scan gets wrong (`BatchingWithStrays`,
  `PassesDeriveWhatOnePassWould`).

## Model

| member | source | states |
|---|---|---|
| RateLimiter.AdaptiveLimiter.constructor | internal/cliutil/ratelimit.go:56-70 | a new pacer: rate at the start rate, floor at most 0.5, no ceiling yet, first wait free |
| RateLimiter.NewAdaptiveLimiter | internal/cliutil/ratelimit.go:41-43 | the start rate is also the hard limit; a non-positive one disables pacing |
| RateLimiter.NewAdaptiveLimiterAuto | internal/cliutil/ratelimit.go:50-52 | no hard limit; a non-positive start rate disables pacing |
| RateLimiter.AdaptiveLimiter.BeginWait | internal/cliutil/ratelimit.go:132-152 | the first wait reserves its own reading, a later one the later of its reading and one gap, and what passed between its readings, after the tip; the waiter sleeps exactly when the slot is in the future, and only then joins the pending list |
| RateLimiter.AdaptiveLimiter.RemovePending | internal/cliutil/ratelimit.go:206-213 | removes the first equal pending slot and nothing else |
| RateLimiter.AdaptiveLimiter.CompleteReservation | internal/cliutil/ratelimit.go:170-180 | a used slot leaves the pending list; the tip never ends up behind it |
| RateLimiter.AdaptiveLimiter.ReleaseUnusedReservation | internal/cliutil/ratelimit.go:187-204 | a cancelled tip rewinds to the latest pending slot or now, a cancelled inner slot leaves the tip |
| RateLimiter.AdaptiveLimiter.ObserveHeaders | internal/cliutil/ratelimit.go:97-130 | the rate the headers set, and when they are ignored; the band is kept |
| RateLimiter.AdaptiveLimiter.OnSuccess | internal/cliutil/ratelimit.go:215-247 | every tenth success ramps the rate, below nine tenths of the ceiling and the limit; nothing under headers |
| RateLimiter.AdaptiveLimiter.OnRateLimit | internal/cliutil/ratelimit.go:249-272 | halves the rate down to the floor and records the ceiling; the header budget stays |
| RateLimiter.WithoutFirst | internal/cliutil/ratelimit.go:206-213 | splicing out the first match is what removing from the list means |
| RateLimiterRuns.RunKeepsBoth | internal/cliutil/ratelimit.go:97-272 | the invariant on rates and slots survives every interleaving of reserve, fire, cancel, observe, success and 429 |
| RateLimiterRuns.SlotsAreSpaced | internal/cliutil/ratelimit.go:132-213 | each slot lies at least 1/rate after every earlier slot not given back when it was reserved |
| RateLimiterRuns.SlotsAreNoLater | internal/cliutil/ratelimit.go:132-204 | and no later than it must: a slot is at its own reading, or exactly one gap at its rate and what passed between its two readings after an earlier slot not given back before, or after the moment one was given back; the first is at its own reading |
| RateLimiterRuns.SlotsAreExact | internal/cliutil/ratelimit.go:132-152 | with equal readings and nothing given back yet, a slot is exactly the later of its reading and one gap after the slot before it |
| RateLimiterRuns.PendingIsTheSleepers | internal/cliutil/ratelimit.go:149-213 | the pending list is exactly the sleeping waiters' slots, strictly increasing and bounded by the tip |
| RateLimiterRuns.RepairIsUnreachable | internal/cliutil/ratelimit.go:167-180 | the repair branch of a completion never runs |
| RateLimiterRuns.AbandonedSlotsDelayNobody | internal/cliutil/ratelimit.go:182-204 | a tip in the future belongs to a waiter that still wants it |
| RateLimiterRuns.RateStaysInBand | internal/cliutil/ratelimit.go:56-70 | floor and limit bound the rate in every reachable state |
| RateLimiterRuns.WindowHoldsAtMost | internal/cliutil/ratelimit.go:35-43 | with a limit R, a window of length T holds at most R*T + 1 slots not given back |
| RateLimiterRuns.HeadersSetThePace | internal/cliutil/ratelimit.go:77-272 | from an accepted header pair to the next one, whatever waits, successes and 429s come between, the rate is the lesser of the high-water refill rate and half the remaining allowance per second, within the limit, halved once for each 429 and never below the floor |
| RateLimiterRuns.BudgetIsHighWater | internal/cliutil/ratelimit.go:107-110 | the inferred budget is the maximum of remaining/seconds over all accepted headers, whatever else happened |
| RateLimiterRuns.HeaderlessCeilings | internal/cliutil/ratelimit.go:215-272 | without headers each 429's ceiling is at most 0.9 of the one before, so 0.9^k of the first, down to the floor |
| RateLimiterRuns.HeaderlessStart | internal/cliutil/ratelimit.go:215-247 | without headers and before the first 429 the rate is the start rate raised by a quarter once for every ten successes, within the limit, whatever waits come between |
| RateLimiterRuns.HeaderlessRecovery | internal/cliutil/ratelimit.go:215-272 | after a 429 without headers the rate is half of what met it, raised by a quarter once for every ten successes, within the limit and nine tenths of the rate that met the 429, and never below the floor |
| Journal.JournalDir.RepairTail | internal/learn/journal.go:290-321 | a torn last line of the day's segment is closed, nothing else changes |
| Journal.JournalDir.Write | internal/learn/journal.go:270-284 | bytes go to the end of the day's segment, created in name order when missing |
| Journal.JournalDir.Cleanup | internal/learn/journal.go:359-383 | removes oldest segments while a cap is broken, never the newest, and stops at the first it cannot remove |
| Journal.JournalDir.AppendEntry | internal/learn/journal.go:251-288 | repair, one write of line and line feed, cleanup |
| Journal.JournalDir.ScanSegment | internal/learn/journal.go:424-439 | the complete lines of a segment that parse, in order, and the byte after the last of them |
| Journal.JournalDir.ReadJournalFrom | internal/learn/journal.go:393-443 | every complete entry at or after the offset, and the offset to go on from |
| JournalRuns.ReadLinesSplit | internal/learn/journal.go:424-439 | reading splits at any line boundary and does not depend on what follows it |
| JournalRuns.ReadFromOrdered | internal/learn/journal.go:393-443 | a read returns entries in strictly increasing positions, all at or after the offset and before the returned one |
| JournalRuns.SecondReadIsEmpty | internal/learn/journal.go:393-443 | reading again from the returned offset returns nothing |
| JournalRuns.PriorThenRest | internal/learn/journal.go:385-443 | a read from scratch is what lies before an offset followed by a read from it |
| JournalRuns.CleanupDropsOldest | internal/learn/journal.go:354-383 | cleanup removes an oldest-first prefix and never the newest: each segment removed began more than 14 days ago or left more than 5 MiB in all, and it stops only at one that breaks neither cap or cannot be removed |
| JournalRuns.CleanupMeetsCaps | internal/learn/journal.go:359-383 | when removals succeed, one segment is left or both caps are met |
| JournalRuns.AppendedShape | internal/learn/journal.go:266-321 | an append grows the newest segment or opens a newer one, and touches no other |
| JournalRuns.ResumedReadsAreExactlyOnce | internal/learn/journal.go:385-443 | over any life of the journal with torn tails, rollover, cleanup and resumed reads, the reader was handed entries of deleted segments, then exactly what survives, none twice |
| JournalRuns.TornWriteRoundTrip | internal/learn/journal.go:251-321 | a read from scratch returns every whole append in order, and besides only full records that lost nothing but their line feed and were closed by a later append of the day |
| JournalRuns.DroppingForgetsDays | internal/learn/journal.go:354-383 | deleting oldest segments leaves what the appends of the remaining days alone would have made |
| JournalRuns.EveryDeliverableAppendIsRead | internal/learn/journal.go:251-443 | end to end: after any life and one more read, the reader holds exactly the deliverable appends of the surviving days, in order |
| JournalRuns.ScanSeesUnterminatedTail | internal/learn/derive.go:342-363 | the backward scan sees what the reader sees, and one more entry exactly when a segment ends in a full record without line feed |
| EditDistance.EditDistance | internal/learn/derive.go:393-422 | the result is reachable in that many single edits and in no fewer |
| EditDistance.LevenshteinDistance | internal/cli/helpers.go:2116-2153 | the same for the two-row routine, with its arguments swapped or not |
| EditDistance.NoShorterRun | internal/cli/helpers.go:2115-2153 | no run of insertions, deletions and replacements is shorter than the table's corner |
| EditDistance.ShortestRun | internal/cli/helpers.go:2129-2151 | from every table cell a run of exactly that many edits can be read off |
| EditDistance.DistIsEditDistance | internal/learn/derive.go:393-422 | the recurrence is the true minimum, so the two routines agree |
| EditDistance.Symmetric | internal/cli/helpers.go:2123-2125 | swapping the arguments does not change the distance |
| Derive.TokensName | internal/learn/derive.go:384-391 | the name of a flag token is what stands behind its dashes within white space; it is rendered behind two dashes, and as nothing when there is none |
| Derive.TokenParts | internal/learn/derive.go:384-391 | every string is such a token |
| Derive.FindBest | internal/learn/derive.go:259-282 | one pass in any order leaves a flag of least distance and says whether another ties with it |
| Derive.BestIsNearest | internal/learn/derive.go:283-297 | an untied best near enough is the one nearest flag; otherwise there is none |
| Derive.InferCorrectedFlag | internal/learn/derive.go:247-298 | a flag is returned if and only if exactly one new flag attains the least distance and is within the bound, and it is that flag, in whatever order the map is visited |
| Derive.CorrectedFlagForPair | internal/learn/derive.go:231-245 | a flag is returned if and only if one heals the failure: the suggested one when the retry used it, and without a suggestion the one flag the retry introduced that is close enough and closer than all others |
| Derive.PairEntry | internal/learn/derive.go:176-226 | the pairing rule for one failure, and whether it is still open |
| Derive.PairFlagCorrections | internal/learn/derive.go:160-229 | all pairs of the batch with their recall anchors, and whether any failure is still open |
| Derive.FamiliesAreAnchors | internal/learn/derive.go:163-175 | the anchor of a failure is its session's last recall at or before it, else the seed's |
| Derive.PairsAreExact | internal/learn/derive.go:66-82 | one pass derives a correction if and only if some healable failure and the next invocation of the same command and session, succeeding within a quarter of an hour, make it: with a flag that heals the failure and differs from the failed one |
| Derive.PairsComeInOrder | internal/learn/derive.go:160-229 | the corrections are exactly one for each failure that has one, in the order of the failures |
| Derive.HealsExactly | internal/learn/derive.go:231-298 | the flag chosen is the one that heals the failure, told without the pass over the flags |
| Derive.CorrectedFlagsWereUsed | internal/learn/derive.go:231-298 | whatever was failed or suggested, every flag put forward names a flag the retry used |
| Derive.UnusedSuggestionsYieldNothing | internal/learn/derive.go:237-242 | a failure whose suggestion the retry did not use yields nothing, even when another new flag is near |
| Derive.HeldBackExactly | internal/learn/derive.go:196-205 | the batch is held back if and only if some healable failure, stamped no more than a quarter of an hour before the clock, has not been followed by an invocation like it |
| DeriveJournal.ScanRecallFamiliesReverse | internal/learn/derive.go:342-363 | one segment from its last line back, unterminated line included, notes each active session's first recall met and stops when all are found |
| DeriveJournal.SessionRecallFamiliesBeforeBatch | internal/learn/derive.go:303-340 | the scan over the segments up to the offset, newest first, finds each active session's last recall family in everything those bytes hold |
| DeriveRuns.ScanAgreesExactly | internal/learn/derive.go:303-363 | the scan seeds a batch as the delivered entries would if and only if no undelivered recall is a session's last and names another family |
| DeriveLives.RawScanAgreesExactly | internal/learn/derive.go:303-363 | the same of the segment files' bytes and the entries the resumed reads handed out |
| DeriveLives.StrayIsScanned | internal/learn/derive.go:326-363 | an instance on bytes: a recall without its line feed at the end of an older segment is scanned and was never read |
| DeriveLives.Deriver.DeriveFlagCorrections | internal/learn/derive.go:97-147 | reading from the stored offset: a held batch changes nothing; a failing store leaves a prefix recorded and the offset; success records all and stores the next offset |
| DeriveBatches.BatchingChangesNothing | internal/learn/derive.go:84-147 | however the entries are stamped, two batches derive what one pass would if and only if no failure of the first, with nothing like it after it there, is corrected by its next like invocation in the second |
| DeriveBatches.SplitsExactly | internal/learn/derive.go:84-147 | the same for any seed: up to anchors if and only if no failure is late, with anchors if and only if moreover the seed names the same family wherever a correction takes its anchor from it; one correction is missed for each late failure |
| DeriveBatches.SeedsDecideAnchors | internal/learn/derive.go:160-229 | two seeds derive the same up to anchors, and the very same if and only if they agree wherever a correction takes its anchor from the seed |
| DeriveRuns.BatchingWithStrays | internal/learn/derive.go:84-147 | with the seed of the scan: up to anchors if and only if no failure is late, with anchors if and only if moreover no correction takes its anchor from a session whose last recall the scan gets wrong |
| DeriveRuns.BatchesDeriveWhatOnePassWould | internal/learn/derive.go:64-147 | over any life, whatever clock and stamps say: what was recorded is what one pass over the consumed entries derives, up to anchors and in order, if and only if no pass failed midway and none came too late, and with the anchors if and only if moreover none was wrong, unless passes of both former kinds occur; and recorded plus missed equals derived plus repeated always |
| DeriveRuns.SurplusChangesExactly | internal/learn/derive.go:88-147 | the surplus of recorded over derived corrections grows exactly in a pass that fails after its first store call, and falls exactly in one that commits a batch correcting a failure given up before |
| DeriveRuns.FaultsCanCancel | internal/learn/derive.go:88-147 | an instance: a correction missed and the same one repeated leave exactly what one pass derives |
| DeriveRuns.FailedPassRecordsTwice | internal/learn/derive.go:88-147 | an instance: a pass that cannot store its offset and its replay record the same correction twice |
| DeriveRuns.StrayAnchorsACorrection | internal/learn/derive.go:303-363 | an instance: two passes anchor a correction to a family that one pass over everything delivered never sees |
| DeriveLives.PassesDeriveWhatOnePassWould | internal/learn/derive.go:64-147 | end to end over the journal's bytes, with torn tails, tails completed late, rollover, held batches and failing stores, whatever clock and stamps say: the same if-and-only-if and the same balance; nothing is invented, and nothing is missing unless a pass came too late |
| DeriveLives.RetryCompletedTooLate | internal/learn/derive.go:196-205 | an instance on bytes: a retry that lost only its line feed is completed by a later append of the day, after a pass gave its failure up; both passes record nothing and one pass derives the correction |
| DeriveRuns.FailedPassesLoseNothing | internal/learn/derive.go:64-147 | with failing passes too, nothing is recorded that a pass over everything delivered would not derive, and unless a pass came too late nothing is missing that one pass over the consumed entries derives; with the anchors as long as none was wrong |
| DeriveBatches.CuttingIsHarmlessExactlyWhenDecided | internal/learn/derive.go:196-205 | with stamps cut to the second, ending a batch changes no answer if and only if no failure that could be corrected was open at the start of that second |
| DeriveBatches.CutStampsCanLoseACorrection | internal/learn/derive.go:196-205 | an instance in which two passes lose the correction one pass derives |
| Pagination.PaginatedGet | internal/cli/helpers.go:545-778 | the loop ends as the turn-by-turn specification says, for every server |
| PaginationRuns.TurnTakesIn | internal/cli/helpers.go:618-751 | what a turn does to any reply: its list is taken in whole, dropped for repeating the page before, or refused for being another collection; going on changes only the cursor |
| PaginationMarks.RepliesDecide | internal/cli/helpers.go:594-757 | against any server, told from the replies alone: each request after the first is the one the reply before it asks for, by its cursor, its has-more flag or a full page; the last reply decides whether the walk fails, shows a preview or returns, and with which of the five marks or none; only a hundredth reply that asks for more is cut off |
| PaginationMarks.RequestsCarryTheParameters | internal/cli/helpers.go:552-560 | every request carries exactly the caller's parameters that are not empty, "0" or "false", unchanged, but for the cursor and, outside cursor walks, a limit that is no positive number, which the declared page size replaces |
| PaginationMarks.RequestsAskForThePageSize | internal/cli/helpers.go:577-592 | the limit a request asks for is the page size its reply is measured by: the caller's when positive, else the declared one |
| Decimal.AtoiReadsItoa | internal/cli/helpers.go:878-909 | a written position reads back |
| Decimal.AtoiExactly | internal/cli/helpers.go:878-909 | a number is read from digits after at most one sign if it fits in 64 bits, and from nothing else |
| Decimal.ItoaIsPlain | internal/cli/helpers.go:878-909 | a position is written without leading zeros or a plus sign |
| Decimal.WrapMovesForward | internal/cli/helpers.go:878-909 | a positive step moves a 64-bit position forward unless it overflows |
| Letters.LowerIgnoresCase | internal/cli/helpers.go:663 | two names fold alike if and only if they differ in the case of letters only |
| PaginationRuns.ReturnsWhatWasSent | internal/cli/helpers.go:594-755 | against any server, at most 100 requests; the result is the lists of its replies to the requests made, in order, less a final one that repeats its predecessor, all of the same collection; a refused walk drops only the reply it is refused for |
| PaginationRuns.NoCursorIsSentTwice | internal/cli/helpers.go:599-702 | with opaque cursors no cursor value is sent twice, to any server |
| PaginationRuns.PositionsMoveForward | internal/cli/helpers.go:705-909 | with offsets or page numbers each request asks further on than the one before, exactly as long as the sum fits in 64 bits: by one page number, by a declared page size, or else by the number of items the server sent, one when it sent none |
| PaginationRuns.PositionsCanOverflow | internal/cli/helpers.go:878-909 | an instance: a walk near the 64-bit limit asks at a negative offset |
| PaginationHonest.HonestServersAreReadInFull | internal/cli/helpers.go:577-778 | with agreeing page sizes an honest server is read to the end, unmarked; only 100 requests cut it short, marked |
| PaginationHonest.CompleteExactlyWhenSizesAgree | internal/cli/helpers.go:577-909 | complete, or a marked prefix, if and only if the page sizes agree, for offsets and page numbers, whether a full page, a has-more flag or nothing tells that there is more |
| PaginationHonest.ShortPagesEndEarly | internal/cli/helpers.go:738-876 | pages shorter than counted on, or a cursor path the server never fills, end the walk unmarked |
| PaginationHonest.MisplacedPagesShow | internal/cli/helpers.go:705-751 | offsets that step by another size than the server's repeat or skip items |
| PaginationHonest.SkippingPastTheEnd | internal/cli/helpers.go:714-731 | a has-more flag can send the walk past the end, unmarked |
| PaginationHonest.FourOfFive | internal/cli/helpers.go:714-731 | an instance: steps of three over pages of two return four of five items, unmarked |
| PaginationPages.PagesOfAnySize | internal/cli/helpers.go:577-909 | by page numbers, or by offsets with the size left to the server: a server that cuts its collection into pages of any sizes is read in full, or a marked prefix, if and only if each page but the last, up to the page limit, holds what the paginator counts on or a has-more flag tells; always when the size is left to the server |
| PaginationCursors.CursorsAreReadInFull | internal/cli/helpers.go:646-702 | a server that hands out a fresh cursor a page is read to the end, equal neighbours included; only 100 requests cut it short, marked; except that the walk stops, marked and without it, at a last page equal to the one before, and with offsets at any such page |
| FieldSelect.SelectingTwiceIsSelectingOnce | internal/cli/helpers.go:1423-1461 | selection is idempotent on every document and selector set, envelopes and null elements included |
| FieldSelect.OutputKeysAreInputKeys | internal/cli/helpers.go:1515-1642 | at every place the output has the input's shape, with keys only left out and null become an empty list |
| FieldSelect.NothingSelectedIsLost | internal/cli/helpers.go:1515-1642 | at every place the output selects exactly the value the document selects there: each is kept at its place, and no other is added; `FieldPaths` says which places those are |
| FieldSelect.FixpointsAreSelected | internal/cli/helpers.go:1515-1642 | the projection leaves a document alone if and only if there is nothing unselected in it |
| FieldSelect.FoundTells | internal/cli/helpers.go:1490-1642 | the match state says exactly whether the selectors reach a value and whether they lead to an empty list |
| FieldSelect.LeftAloneOnAMiss | internal/cli/helpers.go:1423-1461 | the document is left alone when the selectors reach nothing and lead to no empty list; else exactly what they select is left, each value at its place |
| FieldSelect.UnwrapStable | internal/cli/helpers.go:1590-1642 | an unwrapped envelope is still an envelope, down to depth 32 |
| FieldPaths.SelectedExactlyWhereSpelled | internal/cli/helpers.go:1490-1658 | the selectors select something at a place if and only if it spells one of them out in full: apart from list positions and the keys of unwrapped envelopes its keys go by that path's segments one by one, and no shorter selector is spelled on the way; and what is selected is what stands there |
| FieldPaths.WhatIsAskedForIsKept | internal/cli/helpers.go:1423-1642 | at every place that spells a selector the output holds what the document holds there, and still spells one |
| FieldPaths.KebabCutsHumps | internal/cli/helpers.go:1660-1670 | a key is cut by a hyphen exactly before each capital that follows a small letter, and otherwise changes only its case |
| Csv.PrintCsv | internal/cli/helpers.go:1972-2025 | a header of the sorted keys of all objects, then a row for each with its text under each key and nothing where the key is missing or null; with columns, the text reads back as exactly that table if and only if no key needs quoting |
| Csv.PrintRow | internal/cli/helpers.go:2002-2023 | a line that reads back as the item's texts under the columns, in their order, and nothing where a key is missing or null |
| Csv.RowsReadBack | internal/cli/helpers.go:2002-2023 | an RFC 4180 reader recovers exactly the cell texts of every row of at least one column |
| Csv.RowsReadBackExactlyWithColumns | internal/cli/helpers.go:2002-2023 | rows read back if and only if every row has a column |
| Csv.OutputReadsBackExactlyWhenKeysArePlain | internal/cli/helpers.go:2000-2023 | header and rows read back if and only if no key holds a comma, quote or line feed |
| Csv.CommaSplitsAKey | internal/cli/helpers.go:2000-2001 | a key with a comma prints, and reads back, as two columns |
| Fanout.StepKeepsPool | internal/cliutil/fanout.go:100-173 | every step keeps each source in exactly one place and never rewrites a filled slot |
| Fanout.NeverStuck | internal/cliutil/fanout.go:78-173 | until the caller goes on, some step other than a cancellation is possible |
| Fanout.EveryStepIsProgress | internal/cliutil/fanout.go:100-160 | a measure decreases on every step |
| Fanout.RunsAreBounded | internal/cliutil/fanout.go:78-173 | every schedule over n sources and c workers takes at most 4n + c + 4 steps |
| Fanout.AtMostConcurrencyCallsAtOnce | internal/cliutil/fanout.go:85-107 | under any schedule at most as many calls are under way as was asked for, one at least, and at most twice as many sources wait in the channel |
| Fanout.AsManyCallsCanGoOn | internal/cliutil/fanout.go:85-141 | some schedule has as many calls under way as there are sources or as was asked for |
| Fanout.CollectSlots | internal/cliutil/fanout.go:162-172 | results and errors are read off the slots in source order |
| Fanout.EverySourceIsReportedOnce | internal/cliutil/fanout.go:63-173 | under any schedule, cancellation and panics each source is in exactly one list, both in source order; the function was called once on each source not reported as stopped, never on the others, and without a cancellation on all; the value or error listed is what that call returned |
| Fanout.NoCallFollowsCancel | internal/cliutil/fanout.go:124-130 | once the context is done no run calls the function again |
| Fanout.WhatIsQueuedIsPulled | internal/cliutil/fanout.go:104-155 | cancelled or not, whatever was or is put into the channel has been pulled when the caller goes on |
| Fanout.PullsExactlyWhenFed | internal/cliutil/fanout.go:64-155 | from a cancelled pool, as from any, some run still pulls a source if and only if the channel holds one or the feeder may still win the race to put one there |
| Fanout.StoppedWorkersPull | internal/cliutil/fanout.go:64-155 | an instance: a worker pulls a source after the context ended |
| Retry.DoInternal | internal/client/client.go:1106-1352 | for every script of replies: the loop goes on through the attempts that may be followed by another, and ends at the first that may not, with the verdict that one calls for |
| Retry.UnsafeIsSentOnce | internal/client/client.go:1109-1111 | a request not safe to replay is sent at most once |
| Retry.RetriesAreBounded | internal/client/client.go:1106-1352 | for every script, re-sends within the policy number at most the allowed retries, each wait ends within the budget with the doubling back-off, and the k-th follows a failure or 429 that the script's k-th attempt met; every later re-send follows a 429 and a positive wait |
| Retry.RunMeetsTheScript | internal/client/client.go:1106-1352 | the loop takes the script's attempts one by one in order, and ends on the first one whose turn ends it |
| Retry.ResendsExactlyWhenItMay | internal/client/client.go:1213-1352 | the loop outlasts a script if and only if after each of its attempts the request was safe to replay, the policy or a spent policy's 429 asked for another one and the sleep ended in time; the waits that show it are the loop's own, and its clock is their sum with the attempts |
| Retry.VerdictsExactly | internal/client/client.go:1213-1352 | every ended run, by its last attempt: a status below 400 is answered, any other but 429 that may not be re-sent is the platform's error, an unread body is a network failure and so is a failure to send that may not be re-sent while the caller is there, a 429 that may not be re-sent is a rate limit, and everything else ends with the context |
| Retry.LoopEndsByDeadline | internal/client/client.go:985-1352 | the unbounded loop makes no more attempts than the retries and the nanoseconds to the deadline |
| Retry.SetupBoundsTheLoop | internal/client/client.go:996-1121 | without a caller's deadline the client's timeout, 60 seconds when none is set, bounds the loop, and with one no wait outlasts it; what may be sent again is a declared read, or a retryable request not declared a mutation; the retries allowed are the client's, and at most n - 1 under a policy of n attempts; a declared mutation is sent once |
| Retry.RateLimitedExactlyBeforeThePolicyIsSpent | internal/client/client.go:1265-1315 | a run ends as rate limited if and only if its last attempt met a 429 and the request may not be re-sent at all, or the policy is not yet spent and the wait does not fit the budget; beyond the policy a 429 is waited out |
| CanonicalMap.CanonicalStringMap | internal/client/client.go:538-549 | the text is that of the keys in ascending order, however the map is visited |
| CanonicalMap.EscapeIsInjective | internal/client/client.go:546 | escaped texts are equal only for equal strings |
| CanonicalMap.EscapeReadsBack | internal/client/client.go:546 | an escaped string decodes, as a form does, to itself, and one without a byte to escape stays as it is |
| CanonicalMap.EscapeIsPlain | internal/client/client.go:546 | an escaped text holds neither separator |
| CanonicalMap.FieldsOfJoin | internal/client/client.go:548 | a joined text falls apart into its parts again |
| Text.AscendingIsUnique | internal/client/client.go:543 | a set of keys has one ascending list |
| CanonicalMap.CanonicalTextsIdentifyMaps | internal/client/client.go:665-669 | two canonical texts are equal if and only if the maps are |
| Playbooks.PlaybookTable.GetExact | internal/learn/playbooks.go:198-218 | the first row under exactly this key |
| Playbooks.PlaybookTable.ScanByFold | internal/learn/playbooks.go:224-244 | the first row under another key that folds to this one |
| Playbooks.PlaybookTable.Rekey | internal/learn/playbooks.go:251-263 | the row's key is rewritten when the store accepts it; the row is returned either way |
| Playbooks.PlaybookTable.LookupPlaybookByFamily | internal/learn/playbooks.go:169-194 | folded key, raw key, scan, in that order; a hit by the last two is rekeyed |
| Playbooks.FindsWhatFoldingEverythingFinds | internal/learn/playbooks.go:153-194 | a row is found if and only if some key is the family, the raw phrasing, or folds to it: what folding every key finds; a row under the family goes first, then one under the phrasing, then the first whose key folds |
| Playbooks.RekeyingIsHarmless | internal/learn/playbooks.go:246-263 | for every family and phrasing: keys stay unique, ids and payloads stay, and at most the row found gets another key, the family |
| Playbooks.NextLookupIsExact | internal/learn/playbooks.go:162-166 | after a lookup that wrote, the family is found at the first step, in the same row |
| Playbooks.LastsExactlyWhenClosed | internal/learn/playbooks.go:153-263 | for any fold, family, phrasing and kind of queries: what is found stays findable through every table and series of lookups if and only if no such query moves an answer to a key that is no answer |
| Playbooks.FoldedQueriesStrandExactly | internal/learn/playbooks.go:153-194 | when a folded key is its own fold, a family stays findable through lookups of folded keys if and only if it is its own fold; with a phrasing, if and only if both stay put, fold to the other, or fold to the family |
| Playbooks.AlikeQueriesStrandExactly | internal/learn/playbooks.go:153-194 | through lookups of any family whose phrasing folds like it: if and only if the family is its own fold, or its fold is the phrasing or nothing and no third key folds alike |
| Playbooks.LookupsStrandNothing | internal/learn/playbooks.go:153-168 | no series of lookups, with or without failing writes, loses a row or changes what its key folds to; so a family that is its own fold is found after exactly when it was before |
| Playbooks.RekeyingIsOneTime | internal/learn/playbooks.go:162-166 | a row under its folded key is never moved again by queries whose phrasing, if any, folds to their family |
| FamilyRuns.MatchSynonymAt | internal/learn/entities/config.go:203-225 | the first rule whose variant stands, word by word, at that place; none only when no rule's does |
| FamilyRuns.FoldSynonyms | internal/learn/entities/config.go:173-201 | the words with each match, left to right and none overlapping, replaced by its canonical words |
| FamilyRuns.PhraseIsFoldedInPieces | internal/learn/entities/config.go:173-225 | the phrase is cut from left to right into single words and variants of the first rule that stands there, and only those are replaced, each by its rule's canonical words |
| FamilyRuns.PhraseFoldsAlike | internal/learn/entities/config.go:173-201 | folding a phrase in place, word by word, does not change what its bag of words folds to, for rules that map straight and share no variant word |
| FamilyRuns.FoldedExactly | internal/learn/entities/config.go:234-271 | a phrase's key is its own fold if and only if no rule fits its words as a bag |
| FamilyRuns.CallersStrandExactly | internal/learn/playbooks.go:153-194 | for such rules a caller's family stays findable through every table and every series of callers' lookups if and only if no variant is left, scattered, among the words of the folded query |
| FamilySharing.UnphrasedCallersStrandExactly | internal/learn/playbooks.go:153-194 | for all rules that map straight, shared variant words or not, and a lookup without phrasing: if and only if no variant is left among the words of the folded query and no phrase that folds to the family as a bag folds elsewhere in place |
| FamilySharing.DisjointNeverDiverts | internal/learn/entities/config.go:173-271 | when no word belongs to two variants no phrase folds elsewhere in place than as a bag, so the second condition is void |
| FamilySharing.SharedWordStrandsARow | internal/learn/entities/config.go:117-157 | an instance: with "last week" beside the shipped "last night" a lookup strands a family whose words hold no variant |
| FamilyRuns.DefaultRulesStrandAFamily | internal/learn/playbooks.go:153-194 | an instance with the shipped synonyms: a query's own row is moved by a lookup of the folded key and no longer found |
| FamilyRuns.TwoHopsStrandARow | internal/learn/entities/config.go:117-157 | an instance: with synonyms of two hops, in the order the code leaves them, a lookup strands a row of a folded family |
| FamilyKeys.FoldTokenBag | internal/learn/entities/config.go:234-271 | the bag each rule has rewritten as often as it fits, within the guard, as a bag in no particular order |
| FamilyKeys.FoldFamilyKey | internal/learn/playbooks.go:132-140 | the folded key is the one sorted list of the folded bag of words |
| Text.JoinIsSingleSpaced | internal/learn/playbooks.go:136-139 | the words of a folded key stand one single space apart |
| FamilyKeys.FoldIsARewriting | internal/learn/entities/config.go:243-260 | the folded bag is reached by firing fitting rules only, each replacing its variant by its canonical words |
| FamilyKeys.StraightRulesLeaveNothing | internal/learn/entities/config.go:243-260 | rules that map straight leave no variant behind, folding again changes nothing, and the loop's guard never cuts in |
| FamilyKeys.StraightRulesFoldOnce | internal/learn/playbooks.go:127-140 | with such rules a folded key is its own fold, for every key |
| FamilyKeys.OverlappingRulesFoldTwice | internal/learn/entities/config.go:117-141 | an instance: canonical phrases that are no variants can still need a second fold |
| Slots.ResolveSlots | internal/learn/playbooks.go:276-326 | the k-th slot takes the k-th resolvable entity in byte order, duplicates skipped |
| Slots.NextToken | internal/learn/playbooks.go:299-323 | the inner loop finds the next resolvable entity not yet claimed |
| Slots.LastPlaceWins | internal/learn/playbooks.go:299-325 | a slot named several times keeps the entity of its last place that still found one |
| Slots.EachEntityFillsOneSlot | internal/learn/playbooks.go:265-326 | no entity fills two slots, each binding is a resolvable entity of the query with one of its canonical names, and the query's order is irrelevant |
| Slots.SlotsTakeEntitiesInOrder | internal/learn/playbooks.go:276-326 | the k-th slot is bound to the k-th of the query's resolvable entities in byte order, under the first of its names in byte order |

## Left out

- Floating-point rounding and nanosecond truncation in the pacer: rates and times are real numbers, and the clock of the zero time, which makes the first wait free, is a missing last request.
- The lateness of a timer: the window bound of the pacer is about reserved slots, which a send follows as soon as its waiter wakes.
- JSON text, its encoding and its errors: the journal assumes that a record parses back, starts with an opening brace, holds no line feed and does not parse when cut short; `JournalRuns.LineCodecExists` shows that such an encoding exists.
- File-system races between processes, failing reads of the directory or of a segment, a corrupt offset file, and a clock that goes back across days.
- The switches that turn journal capture off, and the default stamp and session key of an entry; that recall entries carry a session key is an assumption of `BatchingChangesNothing` and `CuttingIsHarmlessExactlyWhenDecided`, not of the derivation runs.
- How a stored correction is rendered: its command path stays a list of words, its example a set of flags, and the candidate's signature and payload are not built.
- White space beyond ASCII when flag names are trimmed and keys are split, and letters beyond ASCII when field names are compared or folded.
- Cleanup between derivation passes, and read errors of the scan for recall families: the derivation's lives delete no segment.
- Offsets with a declared page size against a server whose pages differ in size: its answer to an offset inside a page is the server's own affair. Pages of one size are covered for every declared size.
- Normalising a query beyond synonyms: `FamilyRuns` and `FamilySharing` fold lowercase words without punctuation, stopwords or entity names.
- The single-page mode of the paginator, rebuilding the envelope around the result, and how collection, cursor and has-more flag are found in a reply: a reply is reduced to those.
- Parsing the selector text and its warnings, duplicate keys of one JSON object, and JSON whitespace.
- How a cell's value becomes text, and the fallbacks of the CSV printer for input that is no list of objects.
- Panics of the function that names a source, and a worker goroutine that exits without returning.
- HTTP details, the response cache, dry runs, the verify gate, the budgets of the platform session and the limiter's own updates in the request loop: an attempt is its outcome and its delays. Whether a name-resolution failure is permanent is a flag of the outcome.
- When the wait and the context of a sleep end at the very same moment, either may win: the model lets a script choose.
- Byte strings for edit distance on flags: the two-row routine compares bytes and the other one code points; the theorems hold for either, and the two agree where a byte is a character.
- Database errors of the playbook lookup, and building the rules from the synonym map; the order of rules is arbitrary in the model.
- Command wiring, rendering, configuration, transport and permission checks: no state or loop of interest.
