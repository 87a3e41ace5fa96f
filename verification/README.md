# Verified model of the safety platform's core services

This project models the parts of the platform whose behaviour depends on arithmetic, on the order of
database statements, or on a history of calls, and proves what they keep. The model follows the code; where
the code does something its documentation does not say, the code is what is modelled.

**Duplicate search of the check-in service (Go).** `Vectors`, `NewtonRoot`, `CosineScore`, `SelfSimilarity`,
`HashVector` and `MockIndex` model the hand-written ten-round Newton square root, the cosine computed with it,
the byte-bucket vector normalised with it, and the Qdrant client with its latched in-memory fallback. The client
is a state machine over the points where a call reads the mode flag, gets the remote answer, and holds the lock;
the class `QdrantClient` performs those steps on its fields.

**Duplicate check and statistics of the analytics service (Julia).** `Embedding`, `Dedup`, `DedupTies`,
`DedupTieRun`, `DedupOverlap`, `Confidence`, `Trends` and `Participation` model the word-hash embedding,
`deduplicate_report` and `find_duplicates` over an index that obeys the search contract (the best `limit` stored
points by cosine, in descending order, ties in any order; upsert by id), the confidence score, the histograms, and
the participation figures.

**Check-ins, monitor and alerts (Go).** `SafetyState`, `SafetyProperties`, `SafetyOwners`, `SafetyRuns`,
`AlertProperties` and `SafetyService`. Every database statement is one atomic step. A run is any sequence of steps, so all interleavings
of any number of requests with the single monitor are covered; a step that does not apply leaves the state alone.
The class `SafetyDb` holds the tables; each service method is proved to perform exactly its own statements, with arbitrary
steps of others in between, and the theorems about runs therefore apply to it. A failing statement may or may not
have been applied (`Outcome`).

**DAO voting (Go).** `DaoState`, `DaoProperties` and `DaoService`, in the same style, with the vote table compared to
a replay of the history of vote writes.

Floats are real numbers here.

## Findings

- A text re-submitted to the in-memory index is not always found: its score against its own stored vector is
  above 0.7 exactly when its bucket weight lies between 1 and 48,837,655,610,677,778
  (`HashVector.ReportMatchesItself`). Every text of up to 9,804,800 bytes with a non-zero byte qualifies;
  19,843,328 characters `~` do not, although 128 fewer do.
- On the Julia side a text without words is never a duplicate, not even of itself (`Dedup.BlankNeverDuplicate`).
- The matches of `deduplicate_report` are not always a prefix of what `find_duplicates` returns for the same index
  and text, only their scores are: two stored points tied at 0.85 or more with fewer than ten points above them may
  be answered in either order. This is the exact condition (`DedupTies.PrefixIffTiesRankLow`), and two ordinary calls
  reach such an index: store "u u u v" and "u v v v", then ask for "u v" (`DedupTieRun.TieReachable`).
- Overlapping `deduplicate_report` calls can store near-identical points. The index stays separated throughout a run
  exactly when no applied upsert finds a point that arrived, under another id, since its own search and scores 0.85
  or more (`DedupOverlap.SeparatedIffNoCollision`, `DedupOverlap.OverlapBreaksSeparation`).
- A completed check-in can be overwritten as missed, with an alert, because both updates select by id alone. This can
  happen exactly while the running sweep still holds the row (`SafetyProperties.OverwriteWindow`,
  `SafetyRuns.CompletedThenMissed`). A completion whose update ran by the scheduled time is safe; one whose recorded
  time is within the schedule need not be (`SafetyRuns.StampedOnTimeThenMissed`).
- The other way round, a check-in that was marked missed and alerted can be overwritten as completed, exactly while a
  request that read it as pending is under way (`SafetyProperties.CompletionWindow`, `SafetyRuns.MissedThenCompleted`).
- Vote counts can change after the deadline exactly when a write that passed its checks in time is still under way
  and would change a recorded vote (`DaoProperties.ClosedUnlessUnderWay`), and a quorum can be met that way
  (`DaoProperties.CountsChangeAfterDeadline`). `passed` is never set, because nothing moves a proposal out of `active`.
- The analytics service counts votes `for` and `against`, while the ledger stores `yes` and `no`
  (`Participation.LedgerVotesUncounted`).
- A reported voter retention of 100 means 99.95 or more before rounding (`Participation.ReportedRetention`).

## Model

| member | source | states |
|---|---|---|
| Vectors.CauchySchwarz | services/checkin-dao/services/qdrant.go:177-182 | the squared inner product the loop builds never exceeds the product of the two energies it builds, for all vectors and every prefix |
| NewtonRoot.NewtonError | services/checkin-dao/services/qdrant.go:189-195 | the iterate after k rounds satisfies z^2 = x(1 + r_k), where r_0 = x/4 - 1 and r_(k+1) = r_k^2 / (4(1 + r_k)) |
| NewtonRoot.IteratesDescend | services/checkin-dao/services/qdrant.go:191-193 | from the first round on iterates never underestimate the root, never increase, and square their error |
| NewtonRoot.ErrorQuarters | services/checkin-dao/services/qdrant.go:191-193 | from the first round on each round divides the error by at least four |
| NewtonRoot.SquaredErrorBound | services/checkin-dao/services/qdrant.go:189-195 | after ten rounds 0 <= z^2 - x <= x max(x/4^11, 1/(4^9 x)) for every x > 0 |
| NewtonRoot.Sqrt | services/checkin-dao/services/qdrant.go:189-195 | the loop computes the tenth iterate, positive and within that bound |
| CosineScore.CosineBounds | services/checkin-dao/services/qdrant.go:173-187 | every score lies in [-1, 1] although both norms use the approximate root |
| CosineScore.CosineSymmetric | services/checkin-dao/services/qdrant.go:173-187 | the score does not depend on the order of its arguments |
| CosineScore.CosineNeverOverstates | services/checkin-dao/services/qdrant.go:115 | a pair that passes a threshold also has an exact cosine above it |
| CosineScore.SelfScore | services/checkin-dao/services/qdrant.go:173-195 | a vector scores 1/(1 + r) against itself, r being the root's error at its energy |
| CosineScore.CosineSquared | services/checkin-dao/services/qdrant.go:173-187 | for any two vectors the squared score times both energies, each enlarged by its root's error, is the squared inner product, with its sign; 0 without energy |
| CosineScore.CosineSimilarity | services/checkin-dao/services/qdrant.go:173-187 | the three-sum loop computes the score, including the 0 for different lengths and zero vectors |
| SelfSimilarity.SelfSimLowerBound | services/checkin-dao/services/qdrant.go:189-195 | a lower bound for the self-score at every energy, through both uses of the root |
| SelfSimilarity.SelfScoreThreshold | services/checkin-dao/services/qdrant.go:114-117 | the self-score passes 0.7 exactly for bucket weights up to MAX_WEIGHT |
| HashVector.HashToVector | services/checkin-dao/services/registry.go:162-180 | the in-place bucket loop and the rescaling compute the normalised vector of bucket sums |
| HashVector.Normalise | services/checkin-dao/services/registry.go:168-178 | the rescaling in place divides by the ten-round root, and leaves a zero vector alone |
| HashVector.ByteMovesItsBucket | services/checkin-dao/services/registry.go:165-167 | changing a byte changes the bucket of its position modulo 128 by the difference, and no other bucket |
| HashVector.HashCoordinate | services/checkin-dao/services/registry.go:162-180 | each coordinate times the root of the energy is its bucket sum over 255, and is never negative; weight 0 gives the zero vector |
| HashVector.SelfScoreOfReport | services/checkin-dao/services/registry.go:162-180 | the self-score of a text is a function of its bucket weight alone |
| HashVector.ZeroReport | services/checkin-dao/services/registry.go:174 | a text of weight 0 scores 0 against every vector |
| HashVector.ReportMatchesItself | services/checkin-dao/services/registry.go:158-159 | a text passes the search threshold against its own stored vector exactly when its weight is between 1 and MAX_WEIGHT |
| HashVector.ShortReportsMatchThemselves | services/checkin-dao/services/registry.go:162-180 | every text of up to 9,804,800 bytes with a non-zero byte passes |
| HashVector.UniformReportMatchesItself | services/checkin-dao/services/registry.go:162-180 | a text repeating character c over k full rounds of the buckets matches itself exactly when 1 <= 128 (c k)^2 <= MAX_WEIGHT |
| HashVector.LongReportMissesItself | services/checkin-dao/services/registry.go:162-180 | 19,843,328 characters `~` do not pass against themselves, 128 fewer do |
| HashVector.MillionByteSelfScore | services/checkin-dao/services/registry.go:162-180 | every text of up to a million bytes with a non-zero byte scores at least 0.99 against itself |
| MockIndex.FirstMatchesExact | services/checkin-dao/services/qdrant.go:112-122 | a passing point with k passing points before it is result number k, for every k below the limit |
| MockIndex.OnlyMatchesFound | services/checkin-dao/services/qdrant.go:112-122 | every result is such a point |
| MockIndex.RunConsistent | services/checkin-dao/services/qdrant.go:62-171 | in every interleaving of calls the in-memory data is the local stores in order, local searches are exact, remote searches hand on every hit, memory is unused before the fallback, and history only grows |
| MockIndex.FallbackLatched | services/checkin-dao/services/qdrant.go:90-95 | mock mode is never left; with no remote request outstanding no later call reaches the remote side or fails |
| MockIndex.ResubmittedTextFound | services/checkin-dao/services/registry.go:153-160 | over every run, a text stored in memory and searched again with fewer than five earlier passing points is found exactly when its weight allows it |
| MockIndex.QdrantClient.constructor | services/checkin-dao/services/qdrant.go:29-34 | a new client is remote and empty |
| MockIndex.QdrantClient.StoreEmbedding | services/checkin-dao/services/qdrant.go:62-105 | append in mock mode, one remote call otherwise, and on no answer latch the mode and store locally; the recursion ends |
| MockIndex.QdrantClient.SearchSimilar | services/checkin-dao/services/qdrant.go:107-171 | in mock mode the first matches; otherwise an answer exactly for a decodable reply below status 400, with the id and payload of every hit in turn; with the same fallback |
| MockIndex.FindDuplicates | services/checkin-dao/services/registry.go:153-160 | the five first matches of the hashed identifier and description, or the remote hits one by one; nothing without a client |
| Embedding.RawMass | services/analytics/src/similarity.jl:5-11 | before normalisation the coordinates sum to 1.5 times the number of words |
| Embedding.CoordinateCounts | services/analytics/src/similarity.jl:5-11 | a coordinate is the number of words it is index of by the hash modulo 128, plus half the number it is index of by the hash shifted 32 bits |
| Embedding.RawReorder | services/analytics/src/similarity.jl:5-11 | reordering the words changes nothing |
| Embedding.RawRepeat | services/analytics/src/similarity.jl:5-11 | repeating the words k times scales every coordinate by k |
| Embedding.UnitOfScaled | services/analytics/src/similarity.jl:13-16 | parallel raw vectors normalise to the same embedding |
| Embedding.UnitEnergy | services/analytics/src/similarity.jl:13-16 | a non-zero raw vector normalises to energy 1 |
| Embedding.EmbeddingNonNegative | services/analytics/src/similarity.jl:1-19 | embeddings have no negative coordinate |
| Embedding.RearrangedTextsCoincide | services/analytics/src/similarity.jl:1-29 | texts that reorder or repeat the same words have one embedding and cosine 1 |
| Embedding.SimilarityBounds | services/analytics/src/similarity.jl:21-29 | scores of non-negative vectors lie in [0, 1] |
| Embedding.SimilaritySquared | services/analytics/src/similarity.jl:21-29 | the squared score times both energies is the squared inner product, with its sign; 0 without energy |
| Embedding.ReachesIffSquares | services/analytics/src/similarity.jl:21-29 | for non-negative vectors the score reaches t exactly when dot^2 >= t^2 times both energies |
| Embedding.SimilaritySymmetric | services/analytics/src/similarity.jl:21-29 | the score does not depend on the order of its arguments |
| Embedding.ComputeEmbedding | services/analytics/src/similarity.jl:1-19 | the word loop on the array and the normalisation compute the embedding |
| Embedding.DivideByNorm | services/analytics/src/similarity.jl:13-16 | the division in place by the exact norm, skipped for a zero vector |
| Dedup.ReportIndex.DeduplicateReport | services/analytics/src/similarity.jl:38-79 | which verdict when; the matches are exactly the hits of 0.85 or more in their order, the best match is the first; the point is stored under its id exactly when fresh and applied |
| Dedup.VerdictMatches | services/analytics/src/similarity.jl:43-55 | the same of the verdict: increasing positions select every hit of 0.85 or more and nothing else |
| Dedup.ReportIndex.FindDuplicates | services/analytics/src/similarity.jl:31-36 | search failure, or exactly the hits reaching the threshold in their order; non-empty exactly when some point of the whole index reaches it |
| Dedup.FilterIsPrefix | services/analytics/src/similarity.jl:43 | on a descending list the threshold filter keeps exactly a prefix |
| Dedup.FilterOfPrefix | services/analytics/src/similarity.jl:35 | filtering commutes with cutting the list |
| Dedup.DuplicateIffNear | services/analytics/src/similarity.jl:41-55 | a report is a duplicate exactly when some point of the whole index scores 0.85 or more; the best match is the maximum; the index is unchanged |
| Dedup.RunSeparated | services/analytics/src/similarity.jl:38-79 | after any sequence of calls from an empty index, with re-used ids and failing requests, distinct stored points score below 0.85 |
| Dedup.SecondCallIsDuplicate | services/analytics/src/similarity.jl:38-79 | after a call that ended as duplicate or stored, any rearrangement or repetition of the same words is a duplicate and changes nothing |
| Dedup.BlankNeverDuplicate | services/analytics/src/similarity.jl:13-16 | a text without words is never a duplicate |
| DedupTies.RankedScoreAtMost | services/analytics/src/qdrant.jl:62-86 | the i-th best score is the same in all answers of the search contract, whatever the limit and the ties |
| DedupTies.DedupAgreesWithFind | services/analytics/src/similarity.jl:31-55 | the verdict is a duplicate exactly when the search result is non-empty, and the scores of its matches are a prefix of the result's, cut at ten |
| DedupTies.PrefixIffTiesRankLow | services/analytics/src/similarity.jl:31-55 | the verdict's matches are a prefix of the search result in all answers exactly when every tie at 0.85 or more is outscored by at least ten stored points |
| DedupTies.TieBreaksPrefix | services/analytics/src/similarity.jl:31-55 | any other tie has two answers of the index whose order differs |
| DedupTies.RankingExists | services/analytics/src/qdrant.jl:62-86 | every index has a full ranking for every query, so the search contract can always be met |
| DedupTieRun.TieReachable | services/analytics/src/similarity.jl:31-55 | for any two words on separate coordinates, after storing "u u u v" and "u v v v" the matches of "u v" need not be a prefix |
| DedupOverlap.SeparatedIffNoCollision | services/analytics/src/similarity.jl:41-61 | over every run of overlapping calls, the index is separated throughout exactly when no applied upsert finds a point that arrived in its window under another id and scores 0.85 or more |
| DedupOverlap.StepSeparated | services/analytics/src/similarity.jl:57-61 | one step breaks a separated index exactly when it is such an upsert |
| DedupOverlap.UndisturbedOverlapSeparated | services/analytics/src/similarity.jl:41-61 | in particular calls whose windows stay empty keep the index separated |
| DedupOverlap.OverlapBreaksSeparation | services/analytics/src/similarity.jl:41-61 | two calls with one text that both search first leave two points with cosine 1 |
| Confidence.ConfidenceBounds | services/analytics/src/analytics.jl:140-151 | scores in [low, 1] give a confidence in [0, 1] that the cap never changes and that is at least 0.7 low + 0.06 |
| Confidence.FullConfidence | services/analytics/src/analytics.jl:145-150 | the confidence is 1 exactly with five matches or more, all perfect |
| Confidence.MatchKeepsConfidence | services/analytics/src/analytics.jl:145-150 | one more match does not lower the confidence exactly when it reaches the mean less a slack that is 0 from five matches on |
| Confidence.ScoreMovesConfidence | services/analytics/src/analytics.jl:145-150 | one of n scores changed by d moves the confidence by 0.7 d / n; a missing score counts as 0 |
| Confidence.StoredNonNegative | services/analytics/src/similarity.jl:57-61 | every vector stored in any run is non-negative |
| Confidence.SearchConfidence | services/analytics/src/analytics.jl:140-151 | after any run, the confidence of what `find_duplicates` returns is at least 0.655 exactly when some stored point scores 0.85 or more, and 0 otherwise |
| Trends.CountByValue | services/analytics/src/analytics.jl:13-25 | counting per distinct value yields the histogram |
| Trends.CountByRow | services/analytics/src/analytics.jl:27-33 | counting row by row yields the same histogram |
| Trends.CountIsMultiplicity | services/analytics/src/analytics.jl:15-17 | the count of a value is its multiplicity in the column |
| Trends.CountsConserved | services/analytics/src/analytics.jl:13-33 | the counts add up to the number of rows in whatever order they are listed |
| Trends.TrendingIsTop | services/analytics/src/analytics.jl:35-36 | min(5, number of categories) distinct categories in descending order of rows, none outcounted by one left out |
| Trends.TrendingShare | services/analytics/src/analytics.jl:35-36 | the trending categories cover at least their proportional share of the rows |
| Trends.ReportTrends | services/analytics/src/analytics.jl:1-45 | the whole report, with missing columns and the empty table |
| Participation.VoteDistribution | services/analytics/src/analytics.jl:109-117 | the vote loop counts the three known words and ignores the rest |
| Participation.DistributionCovers | services/analytics/src/analytics.jl:109-117 | the three counts never exceed the rows, and equal them exactly when every vote is a known word |
| Participation.ReturnedVotersBound | services/analytics/src/analytics.jl:124-129 | returned plus distinct voters never exceed the votes, with equality exactly when nobody votes more than twice |
| Participation.RetentionBounds | services/analytics/src/analytics.jl:124-129 | retention is exactly the percentage of returned among distinct voters, 0 with at most one proposal, 100 exactly when every voter returned, and bounded by votes per voter |
| Participation.ReportedRetention | services/analytics/src/analytics.jl:128-136 | the rounded retention is a percentage and reads 100 exactly from 99.95 on |
| Participation.TurnoutIsMean | services/analytics/src/analytics.jl:119-122 | the average is a hundred times the sum of the values present over their number, and no number when none is present |
| Participation.TurnoutBounds | services/analytics/src/analytics.jl:119-134 | turnouts in [0, 1] give an average in [0, 100], rounded or not |
| Participation.NearestIs | services/analytics/src/analytics.jl:134-136 | rounding goes to the only number less than a half away, and to the even one of two |
| Participation.DaoParticipation | services/analytics/src/analytics.jl:92-138 | the whole report, rounded, with missing columns, missing turnouts and the empty table |
| Participation.LedgerVotesUncounted | services/analytics/src/analytics.jl:109-114 | on the ledger's vote words the distribution shows nothing for or against |
| Participation.GuardRedundantOnLedger | services/analytics/src/analytics.jl:125 | on the table of any ledger run, fewer than two proposals mean no returned voter |
| SafetyProperties.StepInv | services/checkin-dao/services/checkin.go:55-188 | every statement of a request or of the monitor keeps the invariant on sweep, marks, completions and counts |
| SafetyProperties.RunInv | services/checkin-dao/services/checkin.go:55-188 | so does every interleaving |
| SafetyProperties.NeverPendingAgain | services/checkin-dao/services/checkin.go:75-79 | a check-in that left pending never returns to it; owner and time never change |
| SafetyProperties.EscalatedOnce | services/checkin-dao/services/checkin.go:152-188 | in every run each check-in is marked missed at most once and causes at most one monitor alert, after a reported mark |
| SafetyProperties.SweepAccounting | services/checkin-dao/services/checkin.go:163-187 | only check-ins past their time are marked, marked ones are not pending, and between sweeps alert attempts equal reported marks |
| SafetyProperties.OnTimeIsFinal | services/checkin-dao/services/checkin.go:75-79 | a completion whose update ran by the scheduled time stays completed and is never escalated, in any run |
| SafetyProperties.OverwriteWindow | services/checkin-dao/services/checkin.go:172-174 | a check-in no longer pending can still be marked missed exactly when the running sweep holds its row |
| SafetyProperties.CompletionWindow | services/checkin-dao/services/checkin.go:71-79 | a missed check-in can still become completed exactly when a request that read it as pending is under way |
| SafetyOwners.OwnersServed | services/checkin-dao/services/checkin.go:163-186 | in every run an alert the monitor inserted is a safety alert for the owner of the missed check-in, and only the owner's requests complete it |
| SafetyOwners.EscalationsApart | services/checkin-dao/services/checkin.go:182-183 | in every run two escalations have alert rows of their own |
| SafetyRuns.CompletedThenMissed | services/checkin-dao/services/checkin.go:152-188 | a run in which a reported completion is overwritten as missed and alerted |
| SafetyRuns.StampedOnTimeThenMissed | services/checkin-dao/services/checkin.go:75-79 | a run in which the overwritten row even carries a completion time within the schedule |
| SafetyRuns.MissedThenCompleted | services/checkin-dao/services/checkin.go:71-79 | a run in which a missed and alerted check-in is overwritten as completed |
| AlertProperties.FirstResolverWins | services/checkin-dao/services/emergency.go:70-93 | in every run an alert is resolved exactly when both fields are set, they are the first resolving update's, and a row read back shows the first update before the read, or is untouched without one |
| AlertProperties.ResolverReadsResolution | services/checkin-dao/services/emergency.go:70-93 | a resolver whose own update met the alert reads a resolved row with the first resolver's values |
| AlertProperties.EarlyResolverReadsActive | services/checkin-dao/services/emergency.go:70-93 | an update that ran before the alert's insert met nothing, and its read shows an active row |
| AlertProperties.ResolutionFrozen | services/checkin-dao/services/emergency.go:72-76 | an alert that is no longer active is never written again |
| SafetyService.SafetyDb.ScheduleCheckIn | services/checkin-dao/services/checkin.go:27-53 | rejected before the clock, otherwise one pending row; its step in the state machine |
| SafetyService.SafetyDb.CompleteCheckIn | services/checkin-dao/services/checkin.go:55-90 | which error for which row, and otherwise the read, the clock reading and the write by id, with any steps of others before and after the clock reading |
| SafetyService.SafetyDb.WriteCompletion | services/checkin-dao/services/checkin.go:75-79 | the update by id with the recorded time |
| SafetyService.SafetyDb.ProcessMissedCheckIns | services/checkin-dao/services/checkin.go:152-188 | the row loop is a run of sweep steps among steps of others; at its end every row whose mark was applied has left pending and every reported mark has had its own alert attempted |
| SafetyService.SafetyDb.ProcessRow | services/checkin-dao/services/checkin.go:163-187 | one round of that loop: skip, failed mark, or mark and alert for the user of that row |
| SafetyService.SafetyDb.MarkRow | services/checkin-dao/services/checkin.go:171-178 | the update by id of the status alone |
| SafetyService.SafetyDb.RaiseAlert | services/checkin-dao/services/checkin.go:182-186 | one active safety alert for the user of the row just marked, or a recorded failure |
| SafetyService.SafetyDb.TriggerAlert | services/checkin-dao/services/emergency.go:34-68 | one active alert row, or an error that changes nothing but what the failed insert applied |
| SafetyService.SafetyDb.ResolveAlert | services/checkin-dao/services/emergency.go:70-93 | the clock reading, the conditional update and the read among steps of others; an alert the update met comes back resolved by this resolver if it was active, else as it was |
| DaoProperties.LastCastCounts | services/checkin-dao/services/dao.go:143-148 | in the replay a user's last explicit vote is the effective one, before or after an automatic yes |
| DaoProperties.SumUpsert | services/checkin-dao/services/dao.go:143-148 | an upsert moves a sum by one out of the key's old choice and into the new one |
| DaoProperties.CastMovesTally | services/checkin-dao/services/dao.go:143-148 | a vote that lands moves the report by one out of the user's recorded choice and into the new one |
| DaoProperties.SumCountsUsers | services/checkin-dao/db/migrations.go:72-80 | with unique keys and weight 1 the SQL sums count users |
| DaoProperties.StepInv | services/checkin-dao/services/dao.go:23-155 | every statement keeps unique keys, weight 1, and the table equal to the replay for every proposal and user |
| DaoProperties.TallyIsReplay | services/checkin-dao/services/dao.go:173-186 | the three sums are the numbers of voters by replayed vote, the total is the number of distinct voters, and the quorum is met exactly when they are enough |
| DaoProperties.RunTallyIsReplay | services/checkin-dao/services/dao.go:173-186 | the same after every run from the empty database |
| DaoProperties.CreatedQuorum | services/checkin-dao/services/dao.go:30-42 | in every run a proposal meets its quorum exactly with the number of distinct voters asked for at its creation, and with five when none was |
| DaoProperties.ExplicitVoteSurvives | services/checkin-dao/services/dao.go:57-62 | in every interleaving the table shows a user's last explicit vote, however late the automatic yes lands |
| DaoProperties.QuorumLatched | services/checkin-dao/services/dao.go:185-186 | along every run the total never falls and a met quorum stays met |
| DaoProperties.ClosedUnlessUnderWay | services/checkin-dao/services/dao.go:130-148 | past the deadline the counts can change exactly when a differing write is under way |
| DaoProperties.CountsChangeAfterDeadline | services/checkin-dao/services/dao.go:130-148 | a run in which a vote lands after the deadline and meets the quorum |
| DaoService.DaoLedger.CreateProposal | services/checkin-dao/services/dao.go:23-69 | which error when; the stored row with its proposer, deadline and quorum, five when less than one is asked for; the two inserts with any steps of others between |
| DaoService.DaoLedger.RegisterProposer | services/checkin-dao/services/dao.go:57-62 | the automatic yes where no vote is recorded; an existing vote stays |
| DaoService.VoteCounted | services/checkin-dao/services/dao.go:143-186 | a first vote of a user adds one to its choice in the reports and to nothing else, whatever others do before it lands |
| DaoService.DaoLedger.CastVote | services/checkin-dao/services/dao.go:115-155 | which error when; a reported "yes", "no" or "abstain" stands in the table as that choice and, as a first vote, adds one to that sum alone; any steps of others between read and upsert |
| DaoService.DaoLedger.WriteVote | services/checkin-dao/services/dao.go:143-148 | the upsert by (proposal, user) |
| DaoService.DaoLedger.GetResults | services/checkin-dao/services/dao.go:167-203 | the report of the moment the sums are read: each sum, the total and the quorum in terms of the replayed votes |

## Left out

- Floating point: `float32`, `float64` and `Float32` are reals, without rounding, overflow or NaN. Go's `sqrt(0)` is NaN; `sqrt` is modelled for positive arguments, and a zero vector is left alone as `norm > 0` does.
- HashVector.ReportMatchesItself: the threshold on the weight is that of real arithmetic; with `float32` sums the exact boundary may differ.
- Julia's `lowercase`, `split`, `hash`, `sort`, `unique` and date formatting are library calls: words enter as 64-bit hashes, columns as their values, the sorted entries through the contract of sorting. The library square root is a parameter that is exact on non-negative numbers.
- Qdrant itself: the Julia index obeys a stated search contract; the Go client's remote side is a reply of any kind. A missing score in a remote hit, and payloads other than the report id, are not part of this model.
- MockIndex.FallbackLatched: a call that read the flag before another one set it may still reach the remote side; the theorem speaks from the moment none is outstanding.
- A negative search limit does not occur in the code and is not modelled.
- HTTP, Twilio, webhooks and their goroutines: only table effects of an alert are modelled, without location, note, updated_at and creation columns.
- PostgreSQL: statements are atomic and may fail before or after being applied; row locks do not outlast a statement, SKIP LOCKED is any subset of the overdue rows, foreign keys to users and deletion by cascade are not part of this model.
- SafetyService.SafetyDb.ProcessMissedCheckIns: a failed query is a sweep without rows; an iteration that breaks off early is covered by the state machine but not by this method; the monitor's ticker and shutdown are not modelled.
- SafetyProperties.EscalatedOnce: for the single monitor the program starts; several monitors could alert twice for one check-in. Without an emergency service no alert is attempted.
- A recorded time may be any clock reading up to the statement that writes it, also one before the request's read; the service methods take it where the code does.
- A failed read of a check-in or a proposal is reported like a missing row and changes nothing; `GetCheckIn`, `ListCheckIns`, `GetProposal`, `ListProposals` and `ListAlerts` only read.
- `checkin_stats` is not part of this model.
- HashVector.ZeroReport: a fact about the function; a text of zero bytes only is not a report that can be submitted, since an empty identifier is rejected and a NUL character is not valid in a TEXT column.
- Proposal closing: no code performs it, so no step does.
- The report registry's query builder, report submission and status updates; registration and authentication; the gateway; attestation; the frontend.
