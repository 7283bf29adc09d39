# Verified model of the usage ledger's decision loops

A Dafny project that models the in-memory decision logic of a usage ledger: how transcript
events are matched, deduplicated and landed, how sampling coverage is reconstructed, how backups
are kept and the status projection published, how a meter's movement is reconciled with local
usage, how tracker evidence resolves, how a rate book is accepted and read, and what the two
append-only logs say. `dafny verify dfyconfig.toml` checks everything.

Code that updates variables in loops is modelled as methods with loop invariants, proved against
specification functions or stated results; objects that change state are classes; protocols with
crashes and interleavings are state machines over their steps. What the source promises is then
proved about those functions and machines.

| file | what it models |
|---|---|
| `LocalSource.dfy` | the greedy glob matcher and the search for the newest matching file |
| `UsageEvents.dfy`, `ReplayKey.dfy`, `PayloadDigest.dfy` | event identity, what the replay fingerprint decides, what the payload digest's text decides |
| `Deduplication.dfy`, `DeduplicationLaws.dfy` | the replay loop over a list and two index maps, and its laws |
| `TimeMeasure.dfy`, `Coverage.dfy`, `SamplingGaps.dfy` | postponements, owed opportunities, silences and resets |
| `IngestBatches.dfy`, `IngestLanding.dfy`, `IngestCrashSafety.dfy`, `IngestConvergence.dfy` | the batch splitter, the landing protocol, its crash prefixes and re-runs |
| `Retention.dfy`, `BackupSeries.dfy` | tiered retention, prune, create, and every reachable state of a backup root |
| `Projection.dfy` | snapshot, temporary file and rename with concurrent publishers |
| `Reconciliation.dfy`, `ResidualPatterns.dfy` | interval arithmetic of residuals, rolling sums, pattern classification |
| `TaskIdentity.dfy` | order-free resolution of tracker evidence |
| `RateBook.dfy`, `Valuation.dfy` | the ambiguity check of a rate book and the lookup of the card that prices an instant |
| `JsonText.dfy`, `Diagnostics.dfy` | JSON string escaping and the diagnostic log, with a reader for both |
| `Statusline.dfy` | the status-line change log |
| `Common.dfy`, `Orders.dfy`, `Decimals.dfy` | shared datatypes, sorting and orders, decimal texts |

## What the proofs found

Where a promised property fails, a lemma gives a concrete input and another says exactly when the
property holds. Where the code and its documentation disagree, the model follows the code.

- The glob matcher decides the glob relation for every pattern exactly on names without `*`
  (`ExactOnStarFreeNames`): a star in a name meets a star in the pattern as an ordinary character.
- Component names inside the digest's coverage field are only comma-joined, although the field
  writer is documented to keep a name with a separator from aliasing: a coverage shares its payload
  with no other exactly when it is complete or names one component, non-empty, that does not itself
  read as two (`CoverageUnmistakableExactlyWhen`). The fields themselves never alias.
- The replay fingerprint never confuses two instants, nor two counts within a session, but it writes
  sessions and component names unescaped: `SessionsShareAKeyExactlyWhen` and
  `UnmistakableExactlyWhen` say which can be taken for others.
- A pass over several batches can drop an occurrence that moved from one reparsed file to another:
  the insert meets the old row and is skipped, and a later batch deletes that row with its old file
  (`MovedMessageIsLost`). A complete pass holds all its events exactly when no occurrence is so
  placed (`CompletePassHoldsAllExactlyWhen`), and an interrupted pass that is run again, under the
  same batch bounds or others, converges exactly when none is under either
  (`InterruptedPassConverges`); an event survives such a loss exactly when another namespace's
  occurrence of it stays (`CompletePassKeepsEvent`).
- The projection's temporary file is named by process, so at the boundary of the publishing
  function two publishers in one process could rename a truncated file into place; the file is
  always whole exactly when no two publishers share a process (`WholeExactlyWhenPrivate`). The
  program's own callers publish one at a time within a process.
- The verified archive that is newest by age survives a prune exactly when some bucket keeps
  anything or it is the one chosen as newest verified (`NewestByAgeSurvives`): the pointer's
  archive is chosen first, whatever its age. A failed cut is documented to be adopted as unverified; it
  is adopted with whatever its manifest says, which is verified when only the last write failed
  (`Create`).
- The task-kind winner lookup does not skip classification labels although the assertions did, so
  it can name a label that asserted nothing. Over everything a tracker can say of a record, it never
  does exactly under mappings in which no classification label comes, in text order, before an
  ordinary value of the same kind (`WinnersAssertExactlyWhen`).
- Evidence is documented as ordered by rank, provenance and raw value; the code sorts the rendered
  texts. Ranks are always in order (`RanksInOrder`), labels are not: one that extends another can be
  rendered before it (`LongerLabelFirst`). The order is the documented one exactly when every label
  that extends another still comes after it once the value is appended (`EvidenceInOrderExactlyWhen`).
  The texts are joined with a bare semicolon, where a semicolon and a space are documented.
- The rate book reads a card's end date as the first day out of force, the price lookup as the last
  day in force. On any book they answer alike exactly when each card on its last day is outranked by
  the governing one (`LookupFollowsTheBookExactlyWhen`). On a book consistent once names are folded
  that is a matter of width alone, except that a card with an empty date interval can tie with the
  governing one, and then the later revision wins (`WidthDecides`). A peak card on its last day still
  beats the default (`ExpiredPeakStillPrices`), and so can a default that was never in force
  (`EmptyCardStillPrices`).
- Acceptance is decided on names as spelled, the lookup on folded names, so names that differ only in
  case are accepted and then price together (`FoldedNamesBothPrice`); every query has one price of a
  kind exactly when no two money cards clash once folded (`OnePriceExactlyWhenFoldedApart`).
- The ambiguity check refuses more than it must: a card with an empty date interval, or two cards
  that share a weekday but no date of that weekday, can refuse a book (`EmptyIntervalRefuses`,
  `ConservativeRefusal`); two cards really share an instant exactly when they conflict and meet within
  a week (`ShareAnInstantExactlyWhen`).
- Everything in a diagnostic line is escaped except the run identifier, so every log reads back
  exactly when that identifier needs no escaping (`LogsReadBackExactlyWhenPlain`); minted
  identifiers never do.
- A status-line render that dies between its two writes is documented to cost a duplicate line at
  worst; it can also hide a later change (`CutShortHidesAReturn`). In any run a log is faithful
  throughout exactly when no render is wrongly suppressed (`FaithfulThroughoutExactlyWithoutGaps`).
  The last-value file is named by session alone, so accounts that share a session, and sessions that
  share a stem, suppress each other's lines; logs are faithful exactly when stems are apart
  (`FaithfulExactlyWhenStemsApart`).
- Collapsing nearby resets can hide a sampling hole that contains only the second of them
  (`CollapsingHidesAHole`); it never changes a report exactly when there is nothing to collapse
  (`HarmlessExactlyWhenApart`).

## Choices and spellings

The laws of the table hold for many spellings, orders and cases; which of them the code chose is
stated in lemmas of its own, so that a change of any of them is noticed.

- Payloads and keys: `CoverageSpellings`, `QualitySpellings`, `ClassificationSpellings`, `KeySpelling`.
- Names, levels and escapes of the diagnostic log: `NameSpellings`, `AdmittedExactlyWhen`,
  `MintedRunSpelling`, `EscapeSpellings`; what its reader takes beyond what the writer puts out:
  `OtherEscapesRead`, `LoneSurrogateFails`.
- Status-line payloads, in which order they are refused and which members are read: `SessionSpellings`,
  `DirectorySpellings`, `WindowShapes`, `UnknownProfileExactlyWhen`, `RefusedPayloadExactlyWhen`,
  `FileNameChars`.
- Orders of texts and paths, globs, gaps, cards and an explained movement without a coefficient:
  `TextLessExactlyWhen`, `PathLessOfSiblings`, `StarAndMark`, `GapEnds`, `ConflictsExactlyWhen`,
  `NoCoefficientExplainsNothing`.

## Model

| member | source | states |
|---|---|---|
| LocalSource.LocalFileGlobMatch | src/local_source.rs:162-188 | the loop terminates on every input; an answer of match is always a glob match, and on names without a star the answer is the glob relation |
| LocalSource.GreedySound | src/local_source.rs:162-188 | from any loop state, answering yes is witnessed by a declarative match at the current position or at the last star |
| LocalSource.GreedyComplete | src/local_source.rs:162-188 | backtracking only to the last star loses no match on star-free names |
| LocalSource.ExactOnStarFreeNames | src/local_source.rs:162-188 | a name has no star if and only if the matcher decides the glob relation on it for every pattern |
| LocalSource.OrdinaryMatchesItself | src/local_source.rs:162-188 | in the glob relation a pattern of ordinary characters describes itself alone |
| LocalSource.NewestMatchingFile | src/local_source.rs:105-156 | the stack walk finds the latest of all matching files at or below the root, of equally late ones the greatest path, or none when there is none; no match is later, nor as late under a greater path |
| LocalSource.NewestIsUnique | src/local_source.rs:105-156 | that file is determined by the set of matches, so directory order cannot change it |
| ReplayKey.KeyDecodes | src/dedup.rs:346-378 | within a session two events share a key if and only if they agree on the instant, the input and both cache counts and the components' text: nothing else is read and none of these is lost |
| ReplayKey.KeysKeepTimesApart | src/dedup.rs:499-504 | events that share a key were at one instant, whatever separators their session and component names hold |
| ReplayKey.SessionsShareAKeyExactlyWhen | src/dedup.rs:346-378 | events of two sessions can share a key if and only if the sessions are one, or one reads as the other followed by a counts segment |
| ReplayKey.UnmistakableExactlyWhen | src/dedup.rs:370-375 | no other components are written alike if and only if there are none, or one whose name does not itself read as a counted component and another name |
| UsageEvents.FullKeySpelling | src/dedup.rs:346-378 | how a key with an instant, a session and a component is spelled |
| UsageEvents.CanonicalPayload | src/dedup.rs:395-470 | the appending code builds exactly the tag-length-value text of the payload's fields, in order |
| UsageEvents.PayloadSpelling | src/dedup.rs:395-470 | the fields of a payload, their order and their spelling |
| PayloadDigest.FieldUnique | src/dedup.rs:463-470 | one field is a prefix code: tag, value and what follows can be read back whatever separators they hold |
| PayloadDigest.PayloadDecodes | src/dedup.rs:395-470 | two digest inputs are equal if and only if input count, both cache counts, unknown components and the texts of the three qualifications are |
| PayloadDigest.CommaAliasesCoverage | src/dedup.rs:417-431 | two different coverages share a digest input when a component name holds a comma |
| PayloadDigest.CoverageDecodes | src/dedup.rs:417-431 | coverages with comma-free names share a payload if and only if they are equal or both name nothing |
| PayloadDigest.CoverageUnmistakableExactlyWhen | src/dedup.rs:417-431 | a coverage shares its payload with no other if and only if it is complete, or names one non-empty component that does not read as two |
| UsageEvents.StrongIdentityIsFirst | src/transcripts/parser.rs:404-410 | the strong identity is what follows the prefix in the first source that begins with it, and there is none exactly when no source does |
| Deduplication.Deduplicate | src/dedup.rs:130-209 | the loop over the list and both index maps computes the per-identity fold over the events |
| Deduplication.AbsorbStrong | src/dedup.rs:140-159 | one strong event's turn computes the fold's step and keeps both indexes exact |
| Deduplication.AbsorbHeuristic | src/dedup.rs:161-199 | one heuristic event's turn, including removal from the middle and renumbering, computes the fold's step and keeps both indexes exact |
| Deduplication.ReindexAfterRemoval | src/dedup.rs:211-221 | every index above the removed slot is decremented, every other kept, no key lost |
| Deduplication.ExactAfterRemoval | src/dedup.rs:181-221 | removing a slot, renumbering and freeing its key keeps an index naming exactly the slots that hold a key |
| DeduplicationLaws.EventsAreConserved | src/dedup.rs:130-209 | input events are the kept, the replays, the strong collisions and two per heuristic collision; kept identities are distinct |
| DeduplicationLaws.DecomposesByIdentity | src/dedup.rs:130-209 | deduplicating a batch is deduplicating any set of identities and the rest apart: kept events, collisions and counters |
| DeduplicationLaws.CanonicalByRound | src/dedup.rs:130-209 | the kept list is, in order of round start, the first largest occurrence of each identity whose round is open at the end |
| DeduplicationLaws.StrongRoundNeverCloses | src/dedup.rs:130-209 | a strong identity's round starts at its first event and never closes |
| DeduplicationLaws.StrongIdentityKeepsLargest | src/dedup.rs:130-209 | every strong identity that occurs is kept once, with its maximum output |
| DeduplicationLaws.DeduplicationIsIdempotent | src/dedup.rs:130-209 | deduplicating the kept list returns it with no replay and no collision |
| DeduplicationLaws.StrongMeetingCounts | src/dedup.rs:140-159 | meeting the kept event of its strong identity, an event is one replay if the two usages agree in all but output, coverage and quality, and one collision otherwise |
| DeduplicationLaws.NoCollisionExactlyWhenAlike | src/dedup.rs:140-159 | a batch has no strong collision if and only if events of one strong identity differ only in output, coverage and quality |
| DeduplicationLaws.WithoutIdentityCounts | src/dedup.rs:161 | the events counted as without identity are exactly those with no strong one |
| DeduplicationLaws.CollisionsAreDisputes | src/dedup.rs:180-199 | every quarantined pair is of two events of the batch under the identity it names, with their payloads' digests, which differ |
| Coverage.MergePostponements | src/coverage.rs:434-446 | merging covers exactly the same instants and leaves strictly separated intervals |
| Coverage.PostponementOverlap | src/coverage.rs:509-519 | the clipped sum is the number of covered nanoseconds, never more than the slice, so the subtraction never clamps |
| TimeMeasure.ClippedSumIsMeasure | src/coverage.rs:509-519 | for separated intervals the sum of clipped lengths counts each covered instant once |
| Coverage.Postponements | src/coverage.rs:382-430 | the streak loop yields separated intervals covering exactly the holds of each finished attempt |
| Coverage.StreakIsRun | src/coverage.rs:384-397 | the streak reaches k exactly when the last k attempts were all rejected under one credential |
| Coverage.BackoffDoubles | src/meter/due.rs:379-403 | the back-off waits two cadences at the threshold, doubles with each further rejection up to thirty times, and never exceeds its cap |
| Coverage.PostponedExactlyWhen | src/coverage.rs:382-430 | an instant is postponed if and only if some finished attempt's capped retry delay or back-off, longer than the cadence in force, has not run out |
| Coverage.LongerStreakWaitsLonger | src/meter/due.rs:379-403 | a longer streak never waits less, and no streak waits beyond the cap |
| Coverage.CoveredStartIsFirst | src/coverage.rs:456-472 | the covered start is the first instant of the interval at which a policy is in force, none when there is none |
| Coverage.SliceTurn | src/coverage.rs:488-505 | every slice has a cadence, owes what the one policy in force there is charged, and moves on strictly |
| Coverage.ExpectedOpportunities | src/coverage.rs:478-506 | the count is, per snapshot, the whole cadences in the unpostponed time of each stretch at which it is the last in force, and the span is all of the covered time; an interval that ends before it starts yields one slice under the policy at its end, and no span |
| Coverage.ExpectedFromRecords | src/coverage.rs:207-236 | the same from unsorted records, through sorting, holds and merging |
| Coverage.RecordsAreOrdered | src/coverage.rs:207-236 | attempts are read in the order they started and policies in the order they took effect, every record once |
| Coverage.OwedIsShares | src/coverage.rs:503 | what is owed is the sum, over the policies, of how often each cadence fits in the time charged to it and not once more |
| Coverage.OnePolicyOwes | src/coverage.rs:478-506 | under one policy the opportunities owed are the whole cadences of the unpostponed time |
| Coverage.ChargesPartition | src/coverage.rs:294-300 | every unpostponed instant under a policy is charged to exactly one snapshot |
| Coverage.PostponingOwesLess | src/coverage.rs:478-506 | postponing more never makes more owed |
| SamplingGaps.Gaps | src/coverage.rs:524-536 | the loop yields the gaps between consecutive instants and the ends |
| SamplingGaps.GapsTile | src/coverage.rs:524-536 | the gaps tile the interval: their durations add up to it and their boundaries are the instants |
| SamplingGaps.LongestGapIsLongestSilence | src/coverage.rs:539-541 | the longest gap is as long as the longest stretch with no instant inside |
| SamplingGaps.LongestIsLast | src/coverage.rs:539-541 | of equally long gaps the last is reported |
| SamplingGaps.DedupResets | src/coverage.rs:579-597 | the loop keeps an instant unless it is within the window after the last one kept |
| SamplingGaps.KeptRepresents | src/coverage.rs:579-597 | kept resets are resets, lie apart by more than the window, and none is further than the window behind one |
| SamplingGaps.RepresentativesAreUnique | src/coverage.rs:579-597 | only one list represents the resets so |
| SamplingGaps.KeptIgnoresOrder | src/coverage.rs:576-597 | the same instants in any order keep the same representatives |
| SamplingGaps.ReportedExactly | src/coverage.rs:548-574 | a gap is reported if and only if it is a hole at a reset it spans that no kept reset, shortly before it, hides from outside the gap or under a slower cadence |
| SamplingGaps.HarmlessExactlyWhenApart | src/coverage.rs:548-597 | collapsing resets changes no report of any interval, attempts and policies if and only if no two resets lie within the window |
| SamplingGaps.CollapsingHidesAHole | src/coverage.rs:548-597 | a gap that is a hole only at the second of two close resets is not reported |
| SamplingGaps.TolerancesInSeconds | src/coverage.rs:191-196 | a gap is a hole when it lasts more than the cadence and a minute, and two resets are one up to five seconds apart |
| IngestBatches.SplitIntoBatches | src/ingest.rs:756-792 | the batches concatenate to the input, respect both bounds, and each is closed only when its successor's first event would overflow one |
| IngestBatches.GreedyStaysAhead | src/ingest.rs:756-792 | after equally many batches the greedy split has consumed at least as much as any other |
| IngestBatches.GreedyIsOptimal | src/ingest.rs:756-792 | no contiguous split within both bounds uses fewer batches |
| IngestLanding.Ledger.PersistIngestBatch | src/store/ingest.rs:171-411 | one transaction deletes the reparsed files' occurrences, inserts a prefix of the events' occurrences, empty only when there are none, unless stored already, and stores pass records only when all were drained |
| IngestLanding.Ledger.LandPass | src/ingest.rs:596-727 | the nested loops terminate, commit a complete chain of transactions of the pass, and leave the store that chain leaves |
| IngestCrashSafety.ChainLands | src/ingest.rs:596-727 | a chain has landed exactly the events before the place it has reached |
| IngestCrashSafety.ChainOrders | src/ingest.rs:596-727 | along a chain the places only move forward |
| IngestCrashSafety.WatermarksComeLast | src/ingest.rs:536-571 | a complete chain lands each event once and in order; any shorter prefix stores no watermark |
| IngestCrashSafety.QuarantineComesWithTheFirstChunk | src/ingest.rs:596-727 | any prefix of a pass has stored the quarantine once its first chunk is drained and not before, and has raised the generation once a transaction |
| IngestCrashSafety.DeletionPrecedesLanding | src/ingest.rs:536-571 | a reparsed file's old rows are deleted by exactly one transaction, no later than its first fresh row lands |
| IngestConvergence.ChainRows | src/ingest.rs:596-727 | the rows a chain leaves depend only on the place reached, not on how the clock cut the batches |
| IngestConvergence.CompletePassKeeps | src/store/ingest.rs:171-411 | after a complete pass an occurrence of the pass is stored if and only if it was not lost to a later deletion, any other if and only if its file was not reparsed whole |
| IngestConvergence.CompletePassHoldsAllExactlyWhen | src/ingest.rs:596-727 | a complete pass leaves every one of its occurrences stored if and only if it loses nothing |
| IngestConvergence.CompletePassKeepsEvent | src/store/ingest.rs:190-212 | after a complete pass a canonical event of the pass is stored if and only if its own occurrence was not lost or another occurrence of it stays |
| IngestConvergence.OneBatchLosesNothing | src/ingest.rs:536-571 | a pass that fits one batch loses nothing |
| IngestConvergence.InterruptedPassConverges | src/ingest.rs:596-727 | a pass interrupted after any prefix and run again, split under the same or other bounds, ends with the uninterrupted rows if and only if neither split places anything so as to be lost |
| IngestConvergence.InterruptedPassHoldsAll | src/ingest.rs:596-727 | a pass that loses nothing under either split, interrupted anywhere and run again, ends holding every one of its occurrences |
| IngestConvergence.MovedMessageIsLost | src/ingest.rs:549-571 | a concrete pass, split as a bound of one event splits it, every complete run of which leaves one of its messages unstored |
| Retention.RetainBucket | src/backup.rs:688-707 | the bucket loop adds exactly the names the bucket keeps |
| Retention.BucketSize | src/backup.rs:688-707 | a bucket keeps one archive a period, as many as the smaller of its count and the number of periods |
| Retention.BucketIsByAge | src/backup.rs:688-707 | an archive is kept if and only if it is the newest verified of its period and fewer than the count of periods are newer |
| Retention.BucketByInstantExactlyWhen | src/backup.rs:688-707 | of archives created at different instants a bucket keeps exactly the latest of each of its latest periods |
| Retention.BucketKeepsTheLatest | src/backup.rs:628-707 | a bucket never keeps an archive created earlier, of a lower generation or under a lesser name than another of its period |
| Retention.SameDayExactlyWhen | src/backup.rs:650-658 | two instants are in one daily period if and only if they are on one UTC day |
| Retention.SameWeekExactlyWhen | src/backup.rs:660-670 | two instants are in one weekly period if and only if they are in one week from Monday |
| Retention.EachCountKeepsItsPeriod | src/backup.rs:628-681 | each count keeps what its own period's bucket keeps, and together they keep what each would alone |
| Retention.NewestVerifiedIsNewest | src/backup.rs:712-733 | the never-deleted archive is the pointed one when verified, otherwise the newest verified |
| Retention.SelectRetained | src/backup.rs:628-681 | the selection holds exactly the newest verified archive and what any bucket keeps |
| BackupSeries.DestinationRoot.ListArchives | src/backup.rs:543-592 | the listing holds every archive once, none before one created later |
| BackupSeries.DestinationRoot.Prune | src/backup.rs:739-782 | refuses exactly when nothing is verified; otherwise deletes exactly the verified archives retention gives up, reports both sets, and is a history of the state machine |
| BackupSeries.DestinationRoot.Create | src/backup.rs:796-847 | a failed or refused run keeps the pointer and every earlier archive, adopting a failed cut, with its manifest as it stands, only under a free name; a verified one is renamed, pointed to, then pruned around; every run is a history of the state machine |
| BackupSeries.InterruptedPruneConverges | src/backup.rs:739-782 | a prune that stopped after any set of its deletions and is run again under the same retention leaves exactly what the uninterrupted prune would |
| BackupSeries.InterruptedPrunesConverge | src/backup.rs:739-782 | in any history of prunes under one retention, however often they crash and are begun again, the first to finish leaves what one uninterrupted prune would |
| BackupSeries.PruningIsStable | src/backup.rs:739-782 | a second prune under the same retention deletes nothing |
| BackupSeries.KeepingMoreKeepsMore | src/backup.rs:628-707 | raising any keep count only grows what a prune leaves |
| BackupSeries.NeverDoomed | src/backup.rs:739-782 | the newest verified archive, the pointed archive and every unverified one are never deleted |
| BackupSeries.NewestByAgeSurvives | src/backup.rs:712-733 | the archive newest by age survives if and only if some bucket keeps anything or it is the one chosen as newest |
| BackupSeries.LatestSurvivesExactlyWhen | src/backup.rs:712-733 | the verified archive created last survives a prune if and only if some count is positive or no other verified archive is pointed to |
| BackupSeries.DailyPruneExactlyWhen | src/backup.rs:628-782 | with a count of days alone a prune of archives created at different instants keeps exactly the last and the last of each of so many days |
| BackupSeries.StepIsSafe | src/backup.rs:796-847 | every step, a crash included, keeps the safety invariant |
| BackupSeries.EveryReachableStateIsSafe | src/backup.rs:712-847 | in every reachable state, whatever retention each run was given, a present pointer names an existing archive and a prune in progress spares it and leaves a verified one |
| BackupSeries.StepsPreserve | src/backup.rs:898-923 | no step removes an unverified archive, only its re-verification changes one, only a failed re-verification takes the last verified one, only the pointer write moves the pointer, and only a prune deletes |
| Projection.StateDir.AtomicWrite | src/projection.rs:338-360 | writing piece by piece then renaming leaves the target holding exactly the bytes and no temporary |
| Projection.StateDir.Publish | src/projection.rs:118-130 | the file holds the latest committed state under its own generation, and the publication is a history of the state machine |
| Projection.StepIsSound | src/projection.rs:338-360 | with private temporaries every step of any publisher keeps every publisher's bytes its own and the target whole |
| Projection.NobodyWaits | src/projection.rs:338-360 | a commit is always possible, a publisher under way can always go on, and a rename that fails keeps the target and leaves no temporary |
| Projection.HistoryIsSound | src/projection.rs:118-130 | in every interleaving of publishers, commits and crashes the target is absent or one committed state, none newer than the database |
| Projection.SharedTemporaryTears | src/projection.rs:338-360 | two publishers of one process have a history that leaves a truncated target |
| Projection.WholeExactlyWhenPrivate | src/projection.rs:338-360 | the target is whole in every reachable state if and only if no two publishers share a process |
| Reconciliation.QuantizationWidens | src/reconciliation.rs:409-422 | the band holds the reading; a coarser resolution or unknown semantics only widens it |
| Reconciliation.BandHoldsTheTruth | src/reconciliation.rs:409-422 | the band of a reading holds every true value that rounds to it, down, up, to nearest or in an unknown way |
| Reconciliation.BandIsWhatRounds | src/reconciliation.rs:409-422 | of a reading on the grid it holds no more than those values and the end that rounds to the next reading; a rounded band is one resolution wide |
| Reconciliation.CornersContain | src/reconciliation.rs:918-958 | four corner products bound every product of contained numbers of any sign |
| Reconciliation.ResidualIsContained | src/reconciliation.rs:918-966 | the interval contains every residual the evidence admits that fits a credit amount |
| Reconciliation.TrueResidualIsContained | src/reconciliation.rs:918-966 | the interval contains the residual of the true readings, whatever rounding reported them |
| Reconciliation.SaturateIsNearest | src/reconciliation.rs:918-966 | an endpoint beyond sixty-four bits becomes the nearest amount that fits |
| Reconciliation.PointResidualIsContained | src/reconciliation.rs:918-966 | in particular the point residual, when the coefficient lies in its own uncertainty |
| Reconciliation.EndpointsAreAdmitted | src/reconciliation.rs:918-966 | both endpoints, before saturation, are residuals the evidence admits, so the interval is tight |
| Reconciliation.WideningNeverNarrows | src/reconciliation.rs:918-966 | a coarser resolution, wider coefficient or wider timing band yields an interval containing the earlier one |
| Reconciliation.RollingContains | src/reconciliation.rs:294-345 | summing intervals end by end contains the summed residuals |
| Reconciliation.RollingSumsAdd | src/reconciliation.rs:294-370 | points and interval ends add up over the runs of residuals, neither widened nor narrowed |
| Reconciliation.ExplainedIsNearest | src/reconciliation.rs:837-846 | truncating division with the half-divisor gives a nearest whole number and is odd in the credits |
| Reconciliation.ExplainedChangeIsBest | src/reconciliation.rs:836-855 | after the clamp, no movement a meter can make explains the credits better |
| ResidualPatterns.ClassifyPatterns | src/reconciliation.rs:185-238 | the loops compute the classification; it is persistently positive if and only if the running total of three or more residuals rises with each, negative if and only if it falls with each |
| ResidualPatterns.NegationMirrors | src/reconciliation.rs:185-238 | negating every residual swaps the persistent patterns and preserves the others, through truncating means |
| ResidualPatterns.PatternsExclude | src/reconciliation.rs:185-238 | the alternating pattern is reported alone, and positive never with negative |
| ResidualPatterns.NetsToZeroExactlyWhen | src/reconciliation.rs:203-238 | alternation is reported if and only if four or more residuals alternate in sign and their total is within a fifth of what moved |
| ResidualPatterns.StepBetweenLevels | src/reconciliation.rs:203-238 | residuals at one level and then another are a step if and only if the levels differ by at least the mean distance from zero |
| ResidualPatterns.RollingVerdict | src/reconciliation.rs:294-370 | a discrepancy is reported if and only if enough intervals sum to one that excludes zero, and then some single interval excludes zero; points all above zero under a sum above zero are a persistently positive discrepancy, all below a negative one |
| TaskIdentity.ProvenanceRoundTrip | src/attribution.rs:284-303 | a provenance identifier parses back to its origin, whatever the name holds |
| TaskIdentity.ProvenanceInjective | src/attribution.rs:284-303 | so identifiers are injective |
| TaskIdentity.FromProvenanceExactlyWhen | src/attribution.rs:284-303 | a text is read as an origin if and only if it is that origin's identifier |
| TaskIdentity.ResolutionDecides | src/attribution.rs:696-741 | the winner lookup never fails, and the result says of the candidates whether nothing, one kind or several are asserted at the lowest asserting rank |
| TaskIdentity.ResolvesExactlyOnAgreement | src/attribution.rs:696-741 | resolved if and only if all kinds asserted at that rank agree |
| TaskIdentity.OrderNeverMatters | src/attribution.rs:660-741 | candidate lists with the same elements resolve alike, evidence and winner included |
| TaskIdentity.EvidenceIsOfTheSet | src/attribution.rs:888-905 | the rendered evidence depends only on the set of candidates |
| TaskIdentity.SemicolonsSplitBack | src/attribution.rs:888-905 | evidence texts without a semicolon are what splitting the rendered evidence gives back |
| TaskIdentity.LoneValueResolvesExactlyWhen | src/attribution.rs:696-741 | a lone mapped value resolves to its kind unless it is a size, difficulty, verification or specification label or marks the task critical |
| TaskIdentity.RanksInOrder | src/attribution.rs:888-905 | a field's evidence always comes before a label's, whatever their names and values |
| TaskIdentity.EvidenceInOrderExactlyWhen | src/attribution.rs:884-905 | over everything a tracker's readings can say of a record, the evidence is in the documented order of rank, provenance and raw value if and only if every label that extends another stays after it with the value appended |
| TaskIdentity.LongerLabelFirst | src/attribution.rs:884-905 | a record whose two labels are rendered against the documented order |
| TaskIdentity.WinnersAssertExactlyWhen | src/attribution.rs:726-735 | over all candidates a tracker's readings can emit, the named winner asserted the kind if and only if no classification label of the mapping precedes an ordinary value of its kind |
| RateBook.NewSchedule | src/domain/rate_card.rs:426-444 | refuses exactly the documented inputs; otherwise contains exactly the named days and minutes |
| RateBook.OverlapIsCommonMinute | src/domain/rate_card.rs:449-463 | two schedules overlap if and only if some weekday and minute lies in both |
| RateBook.OverlapIsCommonDate | src/rate_book.rs:182-194 | two cards share a date if and only if the interval test passes and neither interval is empty |
| RateBook.CheckConsistency | src/rate_book.rs:133-180 | accepts if and only if no two cards conflict; otherwise names the first conflicting pair |
| RateBook.VerdictIgnoresOrder | src/rate_book.rs:133-180 | the verdict does not depend on the order of the cards |
| RateBook.AcceptedBookIsUnambiguous | src/rate_book.rs:128-180 | in an accepted book at most one unscheduled and one scheduled card of a key price any instant |
| RateBook.RefusalMeansSharing | src/rate_book.rs:133-180 | dated cards conflict if and only if they share key, date, and schedule-lessness or a weekday minute |
| RateBook.EmptyIntervalRefuses | src/rate_book.rs:182-194 | a card that is in force on no date can still conflict |
| RateBook.ShareAnInstantExactlyWhen | src/rate_book.rs:150-178 | two cards of one key and footing state a price for one real instant if and only if they conflict and are both in force on one of seven dates |
| RateBook.ConservativeRefusal | src/rate_book.rs:150-178 | two cards that each price some instant, and never the same, are refused |
| Valuation.FindRate | src/valuation.rs:230-275 | one pass finds a card no other applicable card outranks, none only when none applies |
| Valuation.FindDefaultRate | src/valuation.rs:284-314 | the same over unscheduled cards |
| Valuation.FoundDefaultIsLatest | src/valuation.rs:284-314 | the default found began no earlier than any other applicable one, and ties go to the higher identifier, then the later import |
| Valuation.FoundRateIsNarrowest | src/valuation.rs:230-275 | a scheduled rate is found whenever one applies, with the fewest minutes a day and of equally narrow ones the latest |
| Valuation.BothPriceExactlyWhen | src/valuation.rs:391-407 | two cards of one footing price a common query if and only if they are money cards that clash once their names are folded |
| Valuation.OnePriceExactlyWhenFoldedApart | src/valuation.rs:216-275 | every query has at most one default and one scheduled price if and only if no two money cards clash once folded |
| Valuation.AcceptedAndNamesApart | src/rate_book.rs:133-180 | an accepted book whose names fold apart is such a book |
| Valuation.GovernedExactlyWhenPriced | src/valuation.rs:216-275 | a query has a governing card if and only if some card prices it, and only one when no folded money cards clash |
| Valuation.LookupFollowsTheBookExactlyWhen | src/valuation.rs:384-448 | on any book the lookup answers by the book's dates if and only if every card on its last day is outranked by a governing card |
| Valuation.WidthDecides | src/valuation.rs:409-448 | on a book consistent once folded, a governing card outranks a card on its last day if and only if it is scheduled and no wider, or both are defaults, and is the later revision should they tie in footing, width and first day, which takes an empty date interval |
| Valuation.DefaultLookupHandsOver | src/valuation.rs:284-314 | the default lookup finds the default in force by the book if and only if no default on its last day outranks it, which on a folded-consistent book of non-empty intervals never happens |
| Valuation.ExpiredPeakStillPrices | src/valuation.rs:409-416 | an accepted book on which the lookup picks a peak card already out of force |
| Valuation.EmptyCardStillPrices | src/valuation.rs:409-448 | a consistent book on which the lookup picks a default that was never in force over the governing one |
| Valuation.FoldedNamesBothPrice | src/valuation.rs:391-407 | an accepted book with two governing defaults whose names fold alike |
| JsonText.PushJsonString | src/logging.rs:338-356 | the loop appends exactly the quoted, escaped value |
| JsonText.StringRoundTrip | src/logging.rs:338-356 | reading by section 7 of RFC 8259 gives back the value and stops at its closing quote, for every string and whatever follows |
| JsonText.QuotedHasNoControls | src/logging.rs:338-356 | the output holds no control character |
| JsonText.EscapedExactlyWhen | src/logging.rs:338-356 | exactly the quote, the backslash and the control characters are escaped |
| JsonText.SurrogatesRead | src/logging.rs:338-356 | the reader takes two surrogates for the one character beyond the first plane, as section 7 of RFC 8259 has it |
| JsonText.UnescapedReadsBackExactlyWhenPlain | src/logging.rs:323-329 | a text put between quotes unescaped reads back if and only if it needs no escape |
| Diagnostics.DiagnosticLogger.Emit | src/logging.rs:311-335 | appends one whole line when the level admits the event, otherwise nothing, so the output stays the log of all emissions |
| Diagnostics.BareIsQuoted | src/logging.rs:311-335 | keys and names that need no escape are written as the escaping writer would write them |
| Diagnostics.LineReadsBack | src/logging.rs:311-335 | a line reads back as its entry, fields included, when the run identifier is plain |
| Diagnostics.OutputReadsBack | src/logging.rs:311-335 | with a plain run identifier a logger's output reads back as the admitted emissions in order |
| Diagnostics.LogsReadBackExactlyWhenPlain | src/logging.rs:311-335 | at a level that admits any event, every log reads back if and only if the run identifier is plain |
| Diagnostics.RunReadsBackExactlyWhenPlain | src/logging.rs:323-329 | in a line the run identifier reads back if and only if it needs no escape |
| Diagnostics.EntryIsOneLineExactlyWhen | src/logging.rs:311-356 | an entry is one line, whatever its fields, if and only if the run identifier holds no newline |
| Diagnostics.MintedRunIsPlain | src/logging.rs:63-71 | identifiers the program mints need no escape |
| Diagnostics.MintedRunsAreDistinct | src/logging.rs:63-71 | two minted identifiers are equal only for one process, instant and number |
| Diagnostics.SecretsNeverShow | src/logging.rs:280-285 | field lists that differ only in redacted texts are written alike |
| Statusline.AdmitWindows | src/statusline.rs:193-227 | the loop admits exactly the entries of the admitted shape |
| Statusline.WindowsReadBack | src/statusline.rs:259-294 | windows written to the last-value file read back as the readings they are compared by |
| Statusline.StemIsOneComponent | src/statusline.rs:296-318 | a stem is one safe file name component, and equals the session identifier if and only if that already is one |
| Statusline.RecordDirectory.Record | src/statusline.rs:102-186 | refuses for the stated reasons in the stated order, otherwise records exactly when the windows moved |
| Statusline.RenderableExactlyWhenAdmitted | src/statusline.rs:102-160 | some render asks for a line if and only if it names a session, a window, a usable account and no empty directory |
| Statusline.StepKeepsFaithExactlyWithoutGap | src/statusline.rs:161-186 | a step keeps a stem's log faithful if and only if it is not a render the last-value file wrongly suppresses |
| Statusline.FaithfulThroughoutExactlyWithoutGaps | src/statusline.rs:161-186 | in any run, crashes and rewritten last-value files included, a stem's log is faithful at every moment if and only if no render of it is wrongly suppressed |
| Statusline.BenignRunsAreFaithful | src/statusline.rs:161-186 | in every run without a crash, whatever last-value files are lost or damaged beyond reading, each stem's log without repeats is its renders without repeats |
| Statusline.UndisturbedRunsAreCrisp | src/statusline.rs:161-186 | with no file disturbed the log holds no repeat |
| Statusline.CutShortHidesAReturn | src/statusline.rs:169-186 | a render that dies between its writes can hide a later change |
| Statusline.FaithfulExactlyWhenStemsApart | src/statusline.rs:154-186 | every account's log is faithful for each session, whatever renders of them are admitted, if and only if the stems keep apart the accounts and sessions a render can name |

## Left out

- PayloadDecodes: compares the three qualifications as texts; which coverages a text can stand for is CoverageUnmistakableExactlyWhen, and estimator names, methods and uncertainty bounds are not taken apart further.
- PersistIngestBatch: rows are occurrences, by namespace and native identifier or by parser and fingerprint; component counts, session rows and the canonical event row's own columns are not part of the store.
- BenignRunsAreFaithful: assumes a damaged last-value file does not read as other readings; FaithfulThroughoutExactlyWithoutGaps covers every rewriting.
- DefaultLookupHandsOver: its second half is for non-empty date intervals; the first half says what decides otherwise.
- Integer widths of instants, counters and generations: unbounded here, except where the code saturates or caps (streaks, delays, credit amounts, residual endpoints).
- Files, permissions, fsync, SQLite, TOML and JSON parsing: directories are maps; a commit, a rename, the pointer write and the deletion of one archive are single steps. The pointer write truncates before it writes and a deletion removes file after file; nothing is claimed about a crash inside either.
- SHA-256 is a function parameter over the digest's input text; the theorems are about that text.
- Texts are sequences of characters; where the code counts bytes, one character stands for one byte.
- Calendar months and years, name folding, reset-time parsing and the projection's file format are function parameters.
- Schedules and policies are taken as parsed: the texts of retry and back-off policies and of hour ranges are not modelled.
- The progress lines of an ingest pass.
- `session_pass`, `evaluate_eligibility`, attribution quality fractions and the size, difficulty and routing axes of a task: folds and single comparisons, or the task-kind argument again.
- The status line's file errors and the text of a record line; percentages are reals, not binary floating point.
- Rendering, rate arithmetic in floating point, authentication, restore and drill wrappers.
- Crashes inside a status-line append; a crash between the append and the last-value write is a step of the model.
