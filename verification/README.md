# Verified model of the market-documents algorithms

The repository compares annual reports of listed companies: it downloads them, stores aligned
passages, measures how a topic changed from the earlier to the later report, ranks passages for
search, and evaluates those rankings. This project models the self-contained algorithms of that
pipeline in Dafny and proves what they promise.

| module | what it models |
|---|---|
| `Sequences`, `Sums` | lists, stable sorting, insertion-ordered dictionaries, whole and real sums, Cauchy-Schwarz, square roots |
| `Hits`, `Units` | passage rows, their aggregation per report side, their regrouping per alignment unit |
| `Evidence`, `EvidenceFields`, `EvidenceBounds` | change-evidence statistics in both of their versions, what each field says of the unit changes, the versions' agreement and their bounds |
| `TopicChange`, `Shapley`, `TopicMix` | the conjunction metric, the exact splits of density and share changes, the distance between subcategory compositions |
| `Ranks`, `Spearman`, `ClosedForm`, `ClosedFormTies` | tie-averaged ranks, rank correlation, the closed form over dictionary ranks and where ties part the two |
| `Matching` | offsetting removed and new units of equal magnitude |
| `RankingMetrics`, `RankingGrades`, `Demotion` | nDCG and what it says of the grades, stable demotion and the short-fragment rate |
| `SignalIdentity`, `Corpus` | the guarded identity migration app_0016 and the backfill of app_0010, as tables changed in place |
| `Downloader` | candidate selection and the download loop against a store of files |
| `Pagination` | the compact page range |

Conventions. Reals stand for floating-point numbers. The square root is a parameter `sqrt` about which
only `IsSqrt` is assumed: on every non-negative number it is a non-negative root. The discount
`1 / log2(i + 2)` is a parameter about which only positivity and (strict) decrease are assumed. A
`Counter` or `dict` read with a default is a `map` read through `Get`; where its order matters it is a
`Dict`, a list of distinct keys with a map. A code path that raises is a constructor of the result
(`NoData`, `DivisionByZero`) or a `false`/`None` result. Each method is proved equal to, or against, a
specification function or predicate, and the lemmas are about that specification.

## Model

| member | source | states |
|---|---|---|
| Hits.Aggregate | scripts/research_7f8_discover_metrics_consolidation.py:290-307 | every counter of a side (words, passages, core, category, subcategory, negated, passages with a hit) is the total over exactly the rows of that side and those statuses |
| Hits.AddRow | scripts/research_7f8_discover_metrics_consolidation.py:295-306 | folding one row raises each counter by that row's contribution at every key, and a category's passage count by one only when one of its counts is positive |
| Hits.SourceOfHits | scripts/research_7f8_discover_metrics_consolidation.py:465-468 | the seven core categories are read from the core counts, the taxonomy's four from the custom hits |
| Hits.CategoryIsSumOfSubcategories | scripts/research_7f8_discover_metrics_consolidation.py:299-302 | on every aggregated side a category's hits are the hits of its subcategories together, over any list that names each once |
| Units.UnitDeltas | scripts/research_7f8a_topic_conjunction_evidence.py:116-125 | the loop lists each alignment unit once, in order of first appearance, with later minus earlier hits summed over all its rows, its last status and its least page |
| Units.UnitsInOrder | scripts/research_7f8a_topic_conjunction_evidence.py:118-125 | the listed units are those of the rows, in the order in which they first appear |
| Units.LastStatusIsLast | scripts/research_7f8a_topic_conjunction_evidence.py:123 | the status is that of the unit's last row |
| Units.FirstPageIsLeast | scripts/research_7f8a_topic_conjunction_evidence.py:124 | the page is the least among the unit's rows, or 10^6 where none lies below it |
| Units.ChangeOfOwnRows | scripts/research_7f8a_topic_conjunction_evidence.py:118-125 | a unit's change is the side difference of its own rows, whatever the other rows are |
| Units.CreditStep | scripts/research_7f8_discover_metrics_consolidation.py:475-477 | crediting one more row keeps the tallies equal to the per-unit hit totals of the rows read so far |
| Units.RegroupingConserves | scripts/research_7f8_discover_metrics_consolidation.py:290-307 | conservation: for every row list the unit changes sum to later minus earlier hits, plus the hits of rows on neither side |
| Units.NetIsSideDifference | scripts/research_7f8_discover_metrics_consolidation.py:465-488 | on rows that are all EARLIER or LATER the net over units equals the difference of the two aggregated sides, for core and custom categories |
| Units.SideHits | scripts/research_7f8_discover_metrics_consolidation.py:465-468 | totalling the per-row hits gives the aggregated counter that the metric builders read |
| Evidence.GroupRows | scripts/research_7f8_discover_metrics_consolidation.py:473-478 | the grouping loop leaves exactly the per-unit tallies and the last status of each unit |
| Evidence.ChangedUnits | scripts/research_7f8_discover_metrics_consolidation.py:479-485 | the second loop keeps the non-zero unit changes in order and counts every unit's change under its last status |
| Evidence.ChangeEvidence | scripts/research_7f8_discover_metrics_consolidation.py:471-500 | the reported statistics are those of the non-zero unit changes, and the per-status changes are each status's own and add up to the net |
| Evidence.TotalAfterCount | scripts/research_7f8_discover_metrics_consolidation.py:483 | counting under any key, old or new, moves the grand total by exactly the amount counted |
| Evidence.VersionsAgree | scripts/research_7f8a_topic_conjunction_evidence.py:128-145 | refinement: `evidence` and `change_evidence` coincide on every list of deltas in net, gross, unit count, signed L2 ratio, top share and (up to sign) net/gross, zero cases included, although one guards on the root and takes a maximum while the other guards on the sum of squares and sorts |
| Evidence.CrossCheck | scripts/research_7f8a_topic_conjunction_evidence.py:201-205 | from raw rows both routes report the same net, gross, unit count, signed ratio, top share and (up to sign) net/gross, and their net is the side difference |
| Evidence.NonZeroSum | scripts/research_7f8a_topic_conjunction_evidence.py:129-130 | dropping unchanged units leaves the net alone |
| EvidenceBounds.EvidenceInRange | scripts/research_7f8a_topic_conjunction_evidence.py:288-294 | for every list with a non-zero delta: 1 <= n_eff <= n_units (1 exactly for a single unit, n_units exactly for equal magnitudes), 1/n_eff <= top1 <= 1, abs(E_ng) <= 1, E_l2 = E_ng * sqrt(n_eff) with its sign, E_l2 squared at most n_units with equality exactly for equal deltas |
| EvidenceBounds.WholeNumberBounds | docs/topic-conjunction-evidence-challenge-7f8a.md:286-292 | the same bounds before any division: sum of squares against square of sum, largest magnitude and number of units, with the exact equality cases |
| EvidenceBounds.SpreadNonNegative | scripts/research_7f8a_topic_conjunction_evidence.py:132-133 | n times the sum of squares is at least the square of the sum, with equality exactly on constant lists |
| EvidenceBounds.SupportSplitsGross | scripts/research_7f8a_topic_conjunction_evidence.py:134-144 | when net is not zero, supporting plus opposing units and hits are all units and gross, and supporting minus opposing hits is abs(net) |
| EvidenceFields.SupportCounts | scripts/research_7f8a_topic_conjunction_evidence.py:134-144 | over the deltas as given: supporting units are the positions whose delta has the sign of the net and opposing ones those with the other, and their hits are the sizes at those positions |
| EvidenceFields.NoNetNoSupport | scripts/research_7f8a_topic_conjunction_evidence.py:134-144 | with no net change all four support counts are 0 |
| EvidenceFields.EvidenceMeans | scripts/research_7f8a_topic_conjunction_evidence.py:129-140 | the changed units are counted; each ratio meets its equation in net, gross and sum of squares over all deltas, and the top share is that of a delta of largest size; with no changed unit every field is 0 |
| EvidenceFields.TopThreeShare | scripts/research_7f8_discover_metrics_consolidation.py:488-498 | no three different units hold a larger share of gross than the top-three share, and some three (or all, if fewer) hold exactly that |
| EvidenceFields.NothingChanged | scripts/research_7f8_discover_metrics_consolidation.py:486-498 | with no changed unit every field of the first version is 0 |
| EvidenceBounds.RiskGross | scripts/research_7f8_discover_metrics_consolidation.py:634-655 | gross introduction minus gross removal is the net risk change, and their sum is gross churn |
| TopicChange.ConjunctionIsMedian | scripts/research_7f8_discover_metrics_consolidation.py:455-462 | the two scripts' rules are one function: the middle one of zero and the two legs |
| TopicChange.ConjunctionIsContinuous | docs/topic-conjunction-evidence-challenge-7f8a.md:126-148 | the chosen rule has no cliff: it moves by at most the larger move of its two legs |
| TopicChange.HarmonicRuleIsContinuous | docs/topic-conjunction-evidence-challenge-7f8a.md:145-148 | the harmonic rule has no cliff: for all legs it moves by at most twice the larger move of its two legs |
| TopicChange.SingleLegRulesJump | docs/topic-conjunction-evidence-challenge-7f8a.md:126-148 | the cliff: for every non-zero leg and every eps > 0, the other leg has values within eps of zero, one on each side, at which the count-only (and the density-only) rule is the whole leg and nothing |
| TopicChange.RulesOrdered | scripts/research_7f8a_topic_conjunction_evidence.py:86-103 | where the legs agree, abs(C_min) <= abs(C_harm) <= abs(C_geo) <= the larger leg, abs(C_harm) <= 2 abs(C_min), and all rules keep the sign of the count leg |
| TopicChange.RulesAreMeans | scripts/research_7f8a_topic_conjunction_evidence.py:98-103 | for agreeing legs C_geo squared is their product and C_harm times their sum twice their product; otherwise both are 0 |
| TopicChange.LegGap | scripts/research_7f8a_topic_conjunction_evidence.py:160-162 | the legs differ by the length change times a weighting of the two counts |
| TopicChange.LegOrder | scripts/research_7f8a_topic_conjunction_evidence.py:160-162 | for non-negative hits the count leg is the larger one when the report grew and the smaller one when it shrank |
| TopicChange.LegSelection | scripts/research_7f8_discover_metrics_consolidation.py:555 | for positive word counts and non-negative hits, exactly which leg the metric reports: zero unless count change and excess over proportional scaling agree; then density when hits and length moved the same way, count when they moved oppositely |
| TopicChange.LegSelectionCases | scripts/research_7f8_discover_metrics_consolidation.py:545-555 | flat counts and proportional scaling report 0; opposite movement always reports the non-zero count leg; same-way movement the density leg or 0 |
| TopicChange.SwapNegates | scripts/research_7f8_discover_metrics_consolidation.py:455-462 | swapping earlier and later negates the metric |
| Shapley.DensitySplit | scripts/research_7f8_discover_metrics_consolidation.py:397-400 | the harmonic-mean-normalised count change is the count's Shapley value of the density change and the remainder is the length's, equal to 1000 * mean hits * (1/w2 - 1/w1) |
| Shapley.ShareSplit | scripts/research_7f8_discover_metrics_consolidation.py:401-408 | own and other are the Shapley values of the share change; own is positive, negative or zero exactly as the category moved, provided either report has other hits; other has the opposite sign of the others' change, provided either report has hits in the category; guarded empty share included |
| Shapley.SplitsAreExact | scripts/research_7f8_discover_metrics_consolidation.py:384-425 | from two aggregated sides: the metrics exist exactly when both sides have words and taxonomy hits, and then both pairs of parts add up to their changes and are the Shapley values |
| Shapley.MetricsMultiplied | scripts/research_7f8_discover_metrics_consolidation.py:384-425 | count, density, volume and share meet their equations in hits, words and the hits of the four categories, and the conjunction is the middle one of zero and the two legs reported beside it |
| Shapley.PartsThroughNothing | scripts/research_7f8_discover_metrics_consolidation.py:403-407 | a report passed through without any hits has share 0: the two parts of going from no own hits to no other hits |
| TopicMix.FormsAgree | scripts/research_7f3_m3_ranking_calibration.py:106-128 | the fixed-list form equals the present-subcategories form, none cases included, whenever the fixed list holds every recorded subcategory, in whatever order |
| TopicMix.FinancialFormsAgree | scripts/research_7f3_m3_ranking_calibration.py:106-128 | and so for the twelve financial-condition subcategories that the script lists |
| TopicMix.MixDistance | scripts/research_7f8_discover_metrics_consolidation.py:318-323 | the distance exists exactly when both sides have hits, lies in [0,1], is 0 exactly for equal compositions and 1 exactly when no subcategory is shared |
| TopicMix.MixFormula | scripts/research_7f8_discover_metrics_consolidation.py:318-323 | in the counts themselves: one minus the distance, squared, times both sums of squares is the square of the sum of products |
| TopicMix.ScalingKeepsComposition | scripts/research_7f3_m3_ranking_calibration.py:106-110 | multiplying all counts by a non-zero factor leaves the composition alone |
| TopicMix.MixIgnoresVolume | scripts/research_7f3_m3_ranking_calibration.py:106-128 | only proportions matter: scaling either side's counts, each by its own factor, changes neither form of the distance, none cases included |
| Ranks.Rank | scripts/research_7f8_discover_metrics_consolidation.py:352-363 | the nested loops give every position the number of smaller values plus the middle place among the equal ones |
| Ranks.BlockCounts | scripts/research_7f8_discover_metrics_consolidation.py:356-362 | a maximal block i..j of the sorted order has exactly i values below it and holds all values equal to it |
| Ranks.RanksPreserveOrder | scripts/research_7f8_discover_metrics_consolidation.py:352-363 | ranks order positions exactly as their values do, and equal values share a rank |
| Ranks.RankSum | scripts/research_7f8_discover_metrics_consolidation.py:352-363 | ranks sum to n(n+1)/2 whatever the ties |
| Spearman.CorrelationBounded | scripts/research_7f8_discover_metrics_consolidation.py:366-371 | a defined correlation lies in [-1,1] for all lists, ties and unequal lengths included |
| Spearman.UndefinedWhenConstant | scripts/research_7f8_discover_metrics_consolidation.py:371 | the result is not a number exactly when one of two non-empty lists is constant |
| Spearman.PerfectCorrelation | scripts/research_7f8_discover_metrics_consolidation.py:366-371 | the correlation is 1 exactly when both lists order every pair of positions alike, ties included |
| Spearman.PerfectOpposition | scripts/research_7f8_discover_metrics_consolidation.py:366-371 | the correlation is -1 exactly when one list orders every pair of positions opposite to the other, ties included |
| Spearman.NegatingNegates | scripts/research_7f8_discover_metrics_consolidation.py:352-371 | turning one list's values round negates the correlation, for all lists, ties and undefined cases included |
| Spearman.CorrelationOfRanks | scripts/research_7f8_discover_metrics_consolidation.py:366-371 | with no mean taken: the coefficient's square times the two moments of the ranks is the square of their joint moment, whose sign it has |
| Spearman.NoDataWhenEmpty | scripts/research_7f8_discover_metrics_consolidation.py:368 | averaging fails exactly when a list is empty |
| ClosedForm.DictionaryRankCounts | scripts/research_7f3_m3_ranking_calibration.py:429-432 | with or without ties, a dictionary rank is the number of values not above, less one |
| ClosedForm.OffsetSquaresSum | scripts/research_7f3_m3_ranking_calibration.py:435 | without ties, the squared distances of the ranks from the middle sum to n(n^2-1)/12 (stated for doubled distances) |
| ClosedForm.FormsAgree | scripts/research_7f3_m3_ranking_calibration.py:428-435 | on two equally long lists (n >= 2) of distinct values the closed form over 0-based dictionary ranks equals the Pearson correlation of tie-averaged ranks |
| ClosedForm.FormsDisagreeOnConstants | scripts/research_7f3_m3_ranking_calibration.py:428-435 | on a constant list the closed form still yields a number where the Pearson form is undefined |
| ClosedForm.FormsAgreeOnPerfection | scripts/research_7f3_m3_ranking_calibration.py:428-435 | ties or not, the closed form is 1 exactly for lists in the same order, and so exactly where the Pearson form, if defined, is |
| ClosedForm.ClosedFormDefined | scripts/research_7f3_m3_ranking_calibration.py:433-435 | the closed form divides by zero exactly on fewer than two values |
| ClosedFormTies.GapsCancel | scripts/research_7f8_discover_metrics_consolidation.py:359-361 | averaging over ties: however a list's ties are broken, its ranks move by amounts that cancel against any weights tied positions share |
| ClosedFormTies.ClosedFormFallsShort | scripts/research_7f3_m3_ranking_calibration.py:428-435 | against a list that only breaks its ties, a list with ties gets strictly less from the closed form than from the Pearson form |
| ClosedFormTies.AgreementIsDistinctness | scripts/research_7f3_m3_ranking_calibration.py:428-435 | exact condition: the forms agree against every list of distinct values if and only if the list itself has no ties |
| Matching.MatchEqual | scripts/research_7f8a_topic_conjunction_evidence.py:325-329 | the greedy loop counts the size of the multiset intersection, so neither order nor direction matters |
| Matching.CountOffsetting | scripts/research_7f8a_topic_conjunction_evidence.py:320-329 | the count is the largest number of disjoint pairs of a REMOVED and a NEW unit whose non-zero changes are equal or opposite: no set of pairs is larger, and some set is as large |
| Matching.PairingBound | scripts/research_7f8a_topic_conjunction_evidence.py:320-329 | no pairing of equal magnitudes, each position used once, has more pairs than that |
| Matching.PairingExists | scripts/research_7f8a_topic_conjunction_evidence.py:320-329 | some pairing has that many: the greedy count is a maximum |
| RankingMetrics.BestIdsGainMost | web/evaluation/metrics.ts:41-56 | no list of distinct ids gains more than equally many of the best graded ids |
| RankingMetrics.LeadCarries | web/evaluation/metrics.ts:41-43 | summation by parts: a lead in every prefix of plain gain is a lead in discounted gain |
| RankingMetrics.NdcgInRange | web/evaluation/metrics.ts:47-56 | nDCG lies in [0,1] for every grading and every cut, negative ones included, whenever the top that is kept has no repeated id and the cut is harmless: not negative, or no more ids ranked than graded, or nothing left of the ideal, or nothing of worth cut from it |
| RankingMetrics.NdcgPerfect | web/evaluation/metrics.ts:47-56 | with a strictly decreasing discount, and under the same two conditions, nDCG is 1 exactly when the ranking's top gains, place by place, what the ideal gains |
| RankingMetrics.NdcgOfIdealOrder | web/evaluation/metrics.ts:47-56 | a ranking that begins with all graded ids in non-increasing grade order stays in [0,1], and scores exactly 1 when the ideal is not zero, if and only if the cut is harmless |
| RankingMetrics.NdcgBoundIsDistinctness | web/evaluation/metrics.ts:47-56 | exact condition on the ranking: for every k, the bound holds for all gradings for which the cut is harmless (for k >= 0, all gradings) if and only if the first k ids have no repetition |
| RankingMetrics.NdcgBoundIsHarmlessCut | web/evaluation/metrics.ts:52-54 | exact condition on the cut: for every grading, length and k, the bound holds for all rankings of distinct ids of that length if and only if the cut is harmless |
| RankingMetrics.NdcgOfRepeatedId | web/evaluation/metrics.ts:52-55 | the smallest case of an id repeated within the cut: the best id twice scores above 1 |
| RankingMetrics.NdcgOfNegativeCut | web/evaluation/metrics.ts:52-54 | the smallest harmful cut: with k = -1, three distinct ids ranked and two graded, the score is above 1 |
| RankingGrades.NdcgOfOne | web/evaluation/metrics.ts:12-17 | an id shown alone beside a highly relevant one left out scores 1, 2/3, 1/3 or 0 by its grade |
| RankingGrades.NdcgOfPlace | web/evaluation/metrics.ts:41-43 | the only graded id, at place i of the cut, scores the discount of i over that of 0, and 0 outside the cut |
| RankingGrades.NdcgOfFallingGrades | web/evaluation/metrics.ts:47-56 | a ranking that begins with all graded ids by falling grade scores 1 at every depth, or 0 when nothing is relevant or shown |
| RankingGrades.NdcgPerfectByGrade | web/evaluation/metrics.ts:47-56 | with a strict discount the score is 1 if and only if no better grade stands behind a worse one inside the cut and no better, or while there is room relevant, id is left out |
| RankingGrades.NdcgOfMisorder | web/evaluation/metrics.ts:47-56 | a better grade behind a worse one inside the cut scores below 1 |
| Demotion.DemotionIsStable | web/evaluation/rerank-experiments.ts:40-49 | demotion is a permutation that keeps the order inside both groups |
| Demotion.DemoteOrder | web/evaluation/rerank-experiments.ts:45-49 | the returned ids are those of the candidates, each place used exactly once, unflagged before flagged and rising within both groups |
| Demotion.FragmentRateCounts | web/evaluation/metrics.ts:102-106 | the rate times the number shown, k or fewer, is the number of fragments among them; of nothing shown it is 0 |
| Demotion.DemotionIsOptimal | web/evaluation/metrics.ts:102-106 | for every k the demoted list's flagged fraction is minimal among all permutations of the candidates |
| Demotion.DemotionIsUnique | web/evaluation/rerank-experiments.ts:40-49 | it is the only order-keeping ranking that does as well in every prefix |
| SignalIdentity.SignalTable.constructor | migrations_app/versions/app_0014_versioned_shared_artifacts.py:179-203 | the table begins empty, at app_0015's constraints |
| SignalIdentity.SignalTable.Upgrade | migrations_app/versions/app_0016_stable_signal_artifact_identity.py:63-83 | on any consistent table no step fails, no row changes, and all constraints of app_0016 hold |
| SignalIdentity.SignalTable.Downgrade | migrations_app/versions/app_0016_stable_signal_artifact_identity.py:93-122 | refuses with the state untouched exactly when a row lacks a signal id; otherwise no step fails, every row is kept and NOT NULL and the full unique constraint hold again |
| SignalIdentity.SignalTable.Insert | migrations_app/versions/app_0016_stable_signal_artifact_identity.py:68-83 | a row is taken exactly when every constraint in force still holds with it; otherwise nothing changes |
| SignalIdentity.AcceptedBefore | migrations_app/versions/app_0014_versioned_shared_artifacts.py:182-200 | at app_0015 a row under a fresh key is taken if and only if it has a signal id that no row of the same side, category, subcategory (absent ones being equal) and version has |
| SignalIdentity.AcceptedAfter | migrations_app/versions/app_0016_stable_signal_artifact_identity.py:68-83 | at app_0016 it is taken if and only if it has a signal or alignment id and neither, where present, is that of a row of the same scope |
| SignalIdentity.RunKeepsConsistent | migrations_app/versions/app_0016_stable_signal_artifact_identity.py:63-122 | over every run of upgrade, downgrade, insert and delete the table is at one of the two revisions with all of that revision's constraints met |
| SignalIdentity.ReachableRows | migrations_app/versions/app_0016_stable_signal_artifact_identity.py:68-83 | hence every row always carries an identity, both partial indexes hold at app_0016 and the full constraint at app_0015 |
| SignalIdentity.DowngradeKeepsRows | migrations_app/versions/app_0016_stable_signal_artifact_identity.py:93-122 | a downgrade either refuses, exactly when a row lacks a signal id, or keeps every row but for the two dropped columns |
| SignalIdentity.UpgradeDowngrade | migrations_app/versions/app_0016_stable_signal_artifact_identity.py:63-122 | upgrading then downgrading is the identity |
| SignalIdentity.DowngradeUpgrade | migrations_app/versions/app_0016_stable_signal_artifact_identity.py:93-122 | downgrading then upgrading is the identity if and only if no row has an alignment or passage id, or the downgrade refuses |
| SignalIdentity.UpgradeIsTransparent | migrations_app/versions/app_0016_stable_signal_artifact_identity.py:68-73 | the partial index means for old-style rows what the full constraint meant: any writes that know nothing of the new columns, made between upgrade and downgrade, leave what they leave without either |
| Corpus.LoadMapping | migrations_app/versions/app_0010_shared_passage_corpus.py:230-236 | the batches load every pair exactly once, and fail exactly when a key repeats |
| Corpus.IdMapHoldsPairs | migrations_app/versions/app_0010_shared_passage_corpus.py:230-236 | a mapping without repeated keys is held whole: each pair, and nothing else |
| Corpus.CorpusTable.InsertNewest | migrations_app/versions/app_0010_shared_passage_corpus.py:182-188 | existing entries stay, and every other key that holds something and is mapped gets one entry with its mapped id and a newest content |
| Corpus.CorpusTable.BackfillViaMapping | migrations_app/versions/app_0010_shared_passage_corpus.py:227-238 | fails, leaving the table alone, exactly when the mapping repeats a key; an empty mapping changes nothing |
| Corpus.CorpusTable.Backfill | migrations_app/versions/app_0010_shared_passage_corpus.py:172-190 | afterwards one entry per key that was there or holds something, with the id derived from the key and the newest content unless one already existed |
| Corpus.BackfillCorpus | migrations_app/versions/app_0010_shared_passage_corpus.py:156-224 | both tables are filled if and only if the embedding keys' texts tell the keys apart; otherwise both are as before |
| Corpus.MappingOfKeys | migrations_app/versions/app_0010_shared_passage_corpus.py:200-208 | the mapping repeats a key exactly when two held keys share a text, and otherwise maps each held key to its derived id |
| Corpus.BackfillTwice | migrations_app/versions/app_0010_shared_passage_corpus.py:157-160 | idempotence: a second backfill of the same rows changes nothing |
| Corpus.BackfillResumed | migrations_app/versions/app_0010_shared_passage_corpus.py:157-160 | safe re-run: from any part of a completed backfill, a re-run ends in a completed backfill of what was there at first, and keeps that part |
| Corpus.NullingIsSafe | src/market_documents/publishing/schema.py:246-261 | nulling any row's text leaves the COALESCE read unchanged if and only if the rows of each source passage agree on their text, also with what the corpus held before |
| Corpus.EmbeddingTextsDiffer | migrations_app/versions/app_0010_shared_passage_corpus.py:200-208 | with source ids of one length and no colon in model names, the joined key texts tell keys apart |
| Corpus.EmbeddingTextsCollide | migrations_app/versions/app_0010_shared_passage_corpus.py:200-208 | with a colon in a model name two different keys share a text, and rows that hold both fail the condition on which loading the mapping and committing the backfill depend |
| Downloader.Discover | jse_iar_downloader/jse_iar_downloader/downloader.py:296-303 | the loop over the dictionary yields the deduplicated candidates of which UnrepeatedFacts speaks |
| Downloader.UnrepeatedFacts | jse_iar_downloader/jse_iar_downloader/downloader.py:296-303 | links are pairwise different and in the order in which they were first found, cover every link found, and each kept candidate is the earliest of its link's highest priority |
| Downloader.KeptCandidates | jse_iar_downloader/jse_iar_downloader/downloader.py:296-303 | two kept candidates differ in year or address, each was found, and every one found has a kept one of its year and address with at least its priority |
| Downloader.DuplicateMovesUp | jse_iar_downloader/jse_iar_downloader/downloader.py:296-303 | a better duplicate found last takes the first one's place, ahead of an equally good candidate found in between |
| Downloader.ChooseBestByYear | jse_iar_downloader/jse_iar_downloader/downloader.py:399-405 | every year's group is that year's candidates, stably sorted by falling priority |
| Downloader.RankedForFacts | jse_iar_downloader/jse_iar_downloader/downloader.py:399-405 | a group holds exactly the year's candidates, priorities never rise, and equal priorities keep their order of discovery |
| Downloader.TriedInOrder | jse_iar_downloader/jse_iar_downloader/downloader.py:296-303 | from discovery to trying: a year's candidates stand by falling priority, and equal priorities in the order in which their links were first found |
| Downloader.Downloader.DownloadCandidate | jse_iar_downloader/jse_iar_downloader/downloader.py:332-396 | record and store after one candidate, for an existing file, 404, error, non-PDF, PDF, and a write that is refused or breaks after opening the file |
| Downloader.AttemptFacts | jse_iar_downloader/jse_iar_downloader/downloader.py:332-396 | an attempt changes its own file only, and that only by a `downloaded` or by a write that breaks, which leaves part of the file and an `error`; successful records describe the file then on disk; without overwriting an existing file settles the matter with no request |
| Downloader.AnswerSettles | jse_iar_downloader/jse_iar_downloader/downloader.py:366-396 | a request is made exactly when overwriting or the file is missing; a body is a report if and only if it begins with %PDF or its type contains application/pdf, and each answer and each end of a write has its status, error and effect on the file |
| Downloader.RecordsNameCandidates | jse_iar_downloader/jse_iar_downloader/downloader.py:344-360 | every record carries its candidate's ticker, name, year, page, address and method, and one without a report describes no content |
| Downloader.Downloader.TryYear | jse_iar_downloader/jse_iar_downloader/downloader.py:478-490 | the loop leaves the record and store of trying candidates in order up to the first success |
| Downloader.FirstSuccess | jse_iar_downloader/jse_iar_downloader/downloader.py:478-490 | the record kept is the first `downloaded` or `already_exists` in priority order, or the last attempt when there is none |
| Downloader.Downloader.Run | jse_iar_downloader/jse_iar_downloader/downloader.py:443-491 | records and store of all companies and years, each year's candidates tried on what the earlier ones left |
| Downloader.OneRecordEach | jse_iar_downloader/jse_iar_downloader/downloader.py:443-491 | exactly one record per company and year, companies and years in order |
| Downloader.PlaceAt | jse_iar_downloader/jse_iar_downloader/downloader.py:443-455 | the record of company m for its y-th year is number m times the number of years plus y |
| Downloader.YearDiscovered | jse_iar_downloader/jse_iar_downloader/downloader.py:455-476 | a year is recorded as not discovered, in the company's name, if and only if no candidate was found for it |
| Downloader.RunsKeep | jse_iar_downloader/jse_iar_downloader/downloader.py:339-396 | over whole runs every changed file has a `downloaded` record if no write breaks after opening its file, and without overwriting only if none does; without overwriting, files are only added, successful records describe what is on disk at the end, and no request is made for a place on disk at the start |
| Downloader.OverwritingRunsKeep | jse_iar_downloader/jse_iar_downloader/downloader.py:372-396 | exact condition when overwriting: whatever was on disk, every changed file has a `downloaded` record if and only if every place where a write broke has one by the end |
| Downloader.BrokenWriteHidden | jse_iar_downloader/jse_iar_downloader/downloader.py:351-396 | two candidates for a missing file, the first one's write breaking: the year is recorded as `already_exists` under the second one's address, which was never asked, and part of the file stays |
| Downloader.OverwritingIgnoresDisk | jse_iar_downloader/jse_iar_downloader/downloader.py:351-396 | a run that overwrites makes the same records and requests whatever is on disk |
| Downloader.RepeatRun | jse_iar_downloader/jse_iar_downloader/downloader.py:455-491 | a repeat run requests nothing for any place on disk, keeps every successful file byte for byte and records it as already existing |
| Downloader.DiscoveryIgnoresDisk | jse_iar_downloader/jse_iar_downloader/downloader.py:455-476 | which years come out undiscovered does not depend on the disk |
| Pagination.BuildPageRange | web/components/PaginationNav.tsx:18-34 | up to seven pages are listed plainly; beyond that the result lists exactly the ends, the current page and those within two of it, in order, with an ellipsis for each gap, for any current page |
| Pagination.EachPageOnce | web/components/PaginationNav.tsx:29-32 | every page from the first to the last listed is listed, or hidden by exactly one ellipsis |
| Pagination.PageRangeCovers | web/components/PaginationNav.tsx:14-34 | for 1 <= current <= total: strictly increasing pages, all of them up to a total of seven, and beyond that exactly 1, total and those within two of current; every page of 1..total listed or hidden exactly once, at most nine entries |

Where code and documentation differ, the model follows the code:

- `web/evaluation/metrics.ts:45-46` promises a fallback to binary gains for ungraded relevant ids; the
  function has no such parameter and gives ungraded ids a gain of zero.
- `migrations_app/versions/app_0010_shared_passage_corpus.py:157-160` calls the backfill safe to re-run.
  It is idempotent whenever it completes, but a colon in a model name can make two embedding keys share
  one text, and the mapping table's primary key then aborts the whole migration.
- `scripts/research_7f8_discover_metrics_consolidation.py:401-408`: the own part has the sign of the
  category's change only if at least one of the two reports has hits in another category. If neither has,
  the share is 1 in both and the own part is 0 whatever the category did.
- `jse_iar_downloader/jse_iar_downloader/downloader.py:376-396`: a write that fails after opening the file is
  caught like a failed request. The record says `error`, but part of the file stays, and the next candidate of
  the year, or the next run, takes it for a report that already exists.

## Left out

- Databases, HTTP, HTML and PDF parsing, regular expressions, tokenisation, React rendering and printing: external systems; request outcomes, digests and PDF inspection are parameters of the downloader.
- Floating-point rounding, `log2` and `sqrt` as computed: reals and the conventions above.
- Passage alignment, scoring, classification and publication promotion: not part of this model.
- `recallAtK`, `precisionAtK`, `reciprocalRank`, `topk`, `subcategory_concentration`, net tone, and the company-median, geometric-mean and log-ratio candidates.
- `risk_candidates` beyond its gross counts (rates, shingle overlap): only the gross part is tied to the other measures.
- Hits.Aggregate: a row's custom counts are a list in which a pair may even repeat, where the program's dictionary holds each pair once; every row has all core categories, as the loader builds them, so a missing core key is not modelled.
- Downloader.Discover: it starts from the list of resolved candidates; the page strategies that find them and the resolution of intermediate pages are not modelled.
- Downloader.Downloader.DownloadCandidate: creating the directory and reading an existing file are taken to succeed, and the requested delays are not modelled; the content type is the header as already lower-cased.
- Downloader.RepeatRun: discovery is taken to find the same candidates in both runs.
- Corpus.CorpusTable.InsertNewest: rows of equal age may contribute either content, as SQL leaves open; derived ids are taken as given, so collisions of the hash behind them are not modelled.
- Corpus.BackfillCorpus: the transaction is modelled by restoring the first table when the second backfill fails.
- SignalIdentity.SignalTable.Upgrade: non-unique indexes, the chunk index and the views that the migration also creates are abstracted away; constraints are checked per statement, and foreign keys are not modelled.
- SignalIdentity.SignalTable.constructor: updates of existing rows are not among the steps, only inserts and deletes.
