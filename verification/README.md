# PubMed term-based clustering, modelled in Dafny

This project models the clustering core of the `pubmed-predictions` repository.

## What is modelled

**The clustering engine.** `PubMedTermBasedClusterer` clusters PubMed abstracts by mutual best match. Each abstract takes the other abstract whose term counts score highest against its own. The first such abstract in list order wins ties. Two abstracts that choose each other seed a cluster. The later of the two becomes the root, and every abstract that chooses, directly or through others, an abstract of that tree inherits the root's cluster through a breadth-first traversal. Abstracts that no root reaches each get a cluster of their own. A best-match cycle of three or more abstracts is one such case. Finally the abstracts are grouped by cluster.

**What the engine relies on:**
- The dot-product scorer.
- The `Cluster` accumulator, a class whose counters the traversal updates in place.
- The token processor that turns text into term counts.
- The language model builder that sums those counts over an abstract's text.
- The data-file readers: one parses a file of ids; the other parses a file of labeled ids and groups the ids by label, with dense label ids in order of first appearance.

**Conventions:**
- Abstracts are identified by their index in the input list.
- The scoring strategy is a function parameter from two count maps to an integer.
- Term counters are `map<string, int>`, where a missing term reads as 0.
- A data file is the sequence of its lines, each with its line terminator.

**Modules:**

| module | file | role |
|---|---|---|
| `Counts` | `counts.dfy` | `Counter` semantics (`+= 1`, `update`) and the `Abstract` record |
| `Text` | `text.dfy` | the `str` operations used: `split`, `join`, `strip`, `replace`, `count`, `lower` and the case and digit tests; the `if w` filter that keeps the non-empty pieces |
| `Scorer` | `scorer.dfy` | `BaseScorer` and `SimpleAbstractScorer` |
| `ClusterLib` | `cluster.dfy` | the `Cluster` class |
| `MutualBestMatch` | `mutual_best_match.dfy` | the specification: each abstract's best match, the parent/child forest and root agenda the build loop leaves, and which root each abstract is reached from |
| `PubMedClustering` | `pubmed_clustering.dfy` | the build step, the traversal loop and their invariants |
| `Clusterer` | `clusterer.dfy` | `_process_assignments`, `assign_best_abstracts` and `build_clusters` |
| `TokenProcessor` | `token_processor.dfy` | `_tokenize`, `extract` and the token tests |
| `LanguageModel` | `language_model.dfy` | `build_language_model` |
| `DataProcessing` | `data_processing.dfy` | the file readers and `get_labeled_data` |

**Observations the proofs make about the source:**
- The build loop always leaves a forest.
  - Every abstract is either a root or the child of exactly one parent.
  - A root is the later abstract of a mutual pair.
  - So the traversal's "already processed" branch can never be taken. The model proves it unreachable.
- One abstract alone makes `max` raise `ValueError` over an empty sequence. No abstracts gives no clusters.
- `assign_best_abstracts` gives every orphan a new `Cluster` with id `len(clusters)`. It does not append these clusters to `clusters`.
- In the id readers, the `if row` filter never drops a row when a separator is given, because a split always has at least one piece. A blank line therefore reaches `int("")` and raises `ValueError`.

## Model

| member | source | states |
|---|---|---|
| Counts.Inc | pubmed/token_processor_lib.py:92-100 | `counter[t] += 1`: `t` gains one, every other term keeps its count, and `t` becomes a key |
| Counts.Update | pubmed/cluster_lib.py:14 | `Counter.update`: every term's count is the sum of the two counts, and the keys are the union |
| Counts.UpdateCommutes | pubmed/language_model_builder.py:28-29 | adding counters is commutative |
| Counts.UpdateAssociates | pubmed/language_model_builder.py:28-29 | adding counters is associative |
| Counts.UpdateEmptyRight | pubmed/cluster_lib.py:14 | updating with an empty counter changes nothing |
| Counts.UpdateEmptyLeft | pubmed/language_model_builder.py:26-29 | an empty counter updated with `d` is `d` |
| Counts.IncIsUpdate | pubmed/token_processor_lib.py:92 | `+= 1` on one term is an update with a one-term counter |
| Counts.UpdateInc | pubmed/token_processor_lib.py:92-103 | incrementing inside the right operand of an update is incrementing the result |
| Text.Split | pubmed/language_model_builder.py:27 | `split(sep)` on one character: at least one piece, and no piece holds the separator or is longer than the text |
| Text.JoinSplit | pubmed/language_model_builder.py:27 | joining the pieces with the separator rebuilds the text, so splitting loses nothing |
| Text.SplitJoin | pubmed/token_processor_lib.py:60-62 | splitting a join of separator-free pieces gives the pieces back |
| Text.SplitCount | pubmed/token_processor_lib.py:61-62 | there is one more piece than separators |
| Text.SplitAtSeparator | pubmed/language_model_builder.py:27 | splitting at a separator gives the pieces of the text before it, then the pieces of the text after it |
| Text.DoubleSeparatorEmptyPiece | pubmed/language_model_builder.py:27 | two consecutive separators anywhere in a text leave an empty piece between them: the pieces before, one empty piece, then the pieces after |
| Text.FirstPiece | pubmed/token_processor_lib.py:60-62 | the first piece of a split is a prefix of the text, empty exactly when the text is empty or starts with the separator |
| Text.NonEmpty | pubmed/token_processor_lib.py:122 | `[w for w in parts if w]`: every kept piece is a non-empty input piece, every non-empty piece is kept, and each as often as it occurs (the same multiset with the empty piece removed) |
| Text.NonEmptySingle | pubmed/token_processor_lib.py:122 | a single piece is kept exactly when it is non-empty |
| Text.NonEmptyAppend | pubmed/token_processor_lib.py:122 | filtering a concatenation filters each part in turn, so the kept pieces keep their input order |
| Text.NonEmptySplitCons | analysis/data_processing_utils.py:40 | the non-empty pieces of a split, one character at a time: a leading separator adds nothing, and any other character starts a new piece or joins the first kept piece of the rest |
| Text.Count | pubmed/token_processor_lib.py:61 | `s.count(c)` is at most `len(s)`, and 0 exactly when `c` is absent |
| Text.ReplaceChar | pubmed/token_processor_lib.py:111 | `replace` of one character: same length, with each occurrence replaced and every other character kept in place |
| Text.Strip | analysis/data_processing_utils.py:39 | `strip()`: a slice of the input that neither starts nor ends with whitespace, with only whitespace cut on either side |
| Text.StripIdempotent | pubmed/token_processor_lib.py:117 | a string with no surrounding whitespace is its own strip, and stripping twice is stripping once |
| Text.LowerChar | pubmed/token_processor_lib.py:88 | a lowered character is never upper case, and it differs from the input exactly when the input is upper case |
| Text.Lower | pubmed/token_processor_lib.py:88 | `lower()` lowers every character in place and keeps the length |
| Text.UpperLowerDiffers | pubmed/token_processor_lib.py:88-94 | lower-casing an upper-case token changes it |
| Scorer.DotProductScore | pubmed/scorer_lib.py:23-30 | `dot_product_score`, defined as the sum over the target's terms of the target count times the model count (0 when the model lacks the term); its contract states that an empty target scores 0, and the lemmas below state the rest |
| Scorer.SumProductsPick | pubmed/scorer_lib.py:30 | the sum over terms can take any term first, so its order does not matter |
| Scorer.SumProductsShared | pubmed/scorer_lib.py:30 | terms missing from the model contribute nothing |
| Scorer.SumProductsSwap | pubmed/scorer_lib.py:30 | the per-term products are symmetric |
| Scorer.DotProductSharedTerms | pubmed/scorer_lib.py:24-30 | only terms in both abstracts contribute to the score |
| Scorer.DotProductSymmetric | pubmed/scorer_lib.py:24-30 | `score(a, b) == score(b, a)` |
| Scorer.DotProductDisjoint | pubmed/scorer_lib.py:30 | abstracts with no shared term score 0 |
| Scorer.SumProductsNonNegative | pubmed/scorer_lib.py:30 | non-negative counts give a non-negative sum |
| Scorer.DotProductNonNegative | pubmed/scorer_lib.py:30 | with non-negative counts the score is non-negative |
| Scorer.GetScore | pubmed/scorer_lib.py:8-20 | `BaseScorer.get_score` always raises `NotImplementedError`; `SimpleAbstractScorer.get_score` is exactly `dot_product_score` of the same arguments |
| ClusterLib.Cluster.constructor | pubmed/cluster_lib.py:7-10 | a new cluster has the given id, empty counts and no abstracts |
| ClusterLib.Cluster.AddCountsFromAbstract | pubmed/cluster_lib.py:12-14 | `num_abstracts` grows by exactly one; every term's count grows by the abstract's count; an abstract with empty counts leaves the counts unchanged; the id is a constant |
| MutualBestMatch.BestBelow | pubmed/pubmed_clustering_lib.py:80-83 | the highest-scoring candidate among the first `n`, never the abstract itself; ties go to the earliest candidate |
| MutualBestMatch.BestMatch | pubmed/pubmed_clustering_lib.py:77-83 | there is no best match exactly when the list holds one abstract (`max` of an empty sequence); otherwise the result is the highest-scoring other abstract, the earliest among equals |
| MutualBestMatch.BestAmongUnique | pubmed/pubmed_clustering_lib.py:80-83 | the first-seen tie-break makes the best match unique |
| MutualBestMatch.Best | pubmed/pubmed_clustering_lib.py:80-83 | with at least two abstracts, the best match exists and is the earliest highest-scoring other abstract |
| MutualBestMatch.MutualTest | pubmed/pubmed_clustering_lib.py:86 | during the build, "best match already a child of this abstract" holds exactly when the two are mutual best matches and this abstract is the later one |
| MutualBestMatch.RootStepShape | pubmed/pubmed_clustering_lib.py:86-94 | the mutual branch appends the abstract to the roots, after every earlier root, and leaves the children untouched |
| MutualBestMatch.ChildStepShape | pubmed/pubmed_clustering_lib.py:95-97 | the other branch adds the abstract to its best match's children and nothing else |
| MutualBestMatch.BuildStep | pubmed/pubmed_clustering_lib.py:68-97 | a call for an abstract either appends it to the roots and leaves the parent/child map unchanged, or leaves the roots unchanged |
| MutualBestMatch.BuildStepEdges | pubmed/pubmed_clustering_lib.py:86-97 | a call removes no parent/child edge and adds at most one, from the abstract's best match to the abstract, and only when no root is appended |
| MutualBestMatch.PrefixStepShape | pubmed/pubmed_clustering_lib.py:68-97 | the call for the k-th abstract keeps the shape the first k-1 calls left |
| MutualBestMatch.BuildStepShape | pubmed/pubmed_clustering_lib.py:85-97 | one build step keeps the shape of the forest, now including the abstract |
| MutualBestMatch.ShapeAtStart | pubmed/pubmed_clustering_lib.py:46-51 | before the loop there are no roots and no children |
| MutualBestMatch.BuildPrefixShape | pubmed/pubmed_clustering_lib.py:53-61 | after the first `k` abstracts, the roots and children are those of the abstracts seen so far |
| MutualBestMatch.BuildForestShape | pubmed/pubmed_clustering_lib.py:53-61 | after the loop, the roots are exactly the mutual roots, in increasing order; `j` is a child of `p` exactly when `j` is not a mutual root and `p` is its best match |
| MutualBestMatch.RootOrOneParent | pubmed/pubmed_clustering_lib.py:53-61 | every abstract is a root or the child of exactly one parent, never both |
| MutualBestMatch.ReachedAtStep | pubmed/pubmed_clustering_lib.py:129-131 | a child of an abstract reached in `d - 1` steps is reached in `d` steps, from the same root |
| MutualBestMatch.AncestorIsRoot | pubmed/pubmed_clustering_lib.py:110-131 | a reached abstract's walk ends at a mutual root |
| MutualBestMatch.ReachedAtUnique | pubmed/pubmed_clustering_lib.py:110-131 | a reached abstract has one distance from its root only |
| MutualBestMatch.ReachedRoot | pubmed/pubmed_clustering_lib.py:110-131 | a reached abstract's walk has a single length and ends at a mutual root |
| MutualBestMatch.Root | pubmed/pubmed_clustering_lib.py:110-131 | the root whose cluster a reached abstract inherits is a mutual root, and it is the end of every walk from the abstract |
| MutualBestMatch.JoinsBestMatch | pubmed/pubmed_clustering_lib.py:127-131 | a reached abstract's best match is reached too, from the same root |
| MutualBestMatch.LinkStep | pubmed/pubmed_clustering_lib.py:129-131 | following one more parent link keeps the same root |
| MutualBestMatch.LinkedAtUnique | pubmed/pubmed_clustering_lib.py:110-131 | a walk along parent links reaches a root after one number of steps only |
| MutualBestMatch.LinkedIsReached | pubmed/pubmed_clustering_lib.py:86-97 | walking the best-match links is the same walk as reaching, and it ends at the same root |
| MutualBestMatch.LongCycleIsOrphaned | pubmed/pubmed_clustering_lib.py:139-142 | no member of a best-match cycle of length at least 3 is reached at any distance |
| MutualBestMatch.LongCycleNotReached | pubmed/pubmed_clustering_lib.py:139-142 | members of a best-match cycle of length at least 3 are never reached, so they become orphans |
| PubMedClustering.SumCountsPick | pubmed/pubmed_clustering_lib.py:125 | a cluster's summed counts can take any member first, so the visiting order does not matter |
| PubMedClustering.SeededStep | pubmed/pubmed_clustering_lib.py:85-97 | a build step either queues nothing or queues the abstract with a new cluster |
| PubMedClustering.SeededValues | pubmed/pubmed_clustering_lib.py:92-94 | the clusters the build assigns are exactly the clusters it lists |
| PubMedClustering.BlankStep | pubmed/pubmed_clustering_lib.py:92-93 | appending `Cluster(len(clusters))` keeps the clusters numbered by position and untouched |
| PubMedClustering.BuildAssignmentTree | pubmed/pubmed_clustering_lib.py:68-97 | raises exactly when there is no other abstract. Mutual branch: exactly one fresh cluster is appended, with id equal to the old `len(clusters)`; the abstract is assigned that cluster and queued; `children_of` is unchanged. Otherwise only `children_of[best]` gains the abstract |
| PubMedClustering.AssignChildren | pubmed/pubmed_clustering_lib.py:129-131 | every child gets the parent's cluster and is appended to the agenda once; nothing else is assigned or reassigned |
| PubMedClustering.MembersStep | pubmed/pubmed_clustering_lib.py:120-125 | processing an abstract adds it to its own cluster's members only |
| PubMedClustering.KidsUnassigned | pubmed/pubmed_clustering_lib.py:127-130 | the children of an abstract not yet processed are not assigned yet |
| PubMedClustering.AgendaStep | pubmed/pubmed_clustering_lib.py:111-131 | popping the head and queueing its children accounts for every assigned abstract once, as processed or queued |
| PubMedClustering.ReachStep | pubmed/pubmed_clustering_lib.py:129-130 | processing an abstract keeps "assigned means a root or a child of a processed abstract" |
| PubMedClustering.PropagateStep | pubmed/pubmed_clustering_lib.py:129-131 | processing an abstract keeps "each child of a processed abstract shares its cluster, one level below it" |
| PubMedClustering.DeeperUpdate | pubmed/pubmed_clustering_lib.py:129-131 | the children of a processed abstract sit one level below it |
| PubMedClustering.VisitReady | pubmed/pubmed_clustering_lib.py:119-121 | an unprocessed agenda head is assigned, so `cluster_by_abstract[parent]` does not raise |
| PubMedClustering.VisitStep | pubmed/pubmed_clustering_lib.py:119-131 | processing the agenda head keeps every traversal invariant |
| PubMedClustering.TalliedNone | pubmed/pubmed_clustering_lib.py:108 | before anything is processed, every cluster has absorbed nothing |
| PubMedClustering.CounterStep | pubmed/pubmed_clustering_lib.py:123-125 | `add_counts_from_abstract` on the parent's cluster adds one member and its counts to that cluster only |
| PubMedClustering.TraversalEnd | pubmed/pubmed_clustering_lib.py:110 | once the agenda is empty, every assigned abstract has been processed |
| PubMedClustering.TraversalStart | pubmed/pubmed_clustering_lib.py:108-110 | the loop invariant holds on entry, with the agenda's roots as the only assigned abstracts |
| PubMedClustering.UnvisitedShrinks | pubmed/pubmed_clustering_lib.py:110-120 | each processed abstract shrinks the set of unvisited ones, so the loop terminates |
| PubMedClustering.Requeue | pubmed/pubmed_clustering_lib.py:127-131 | the parent's children join its cluster and are queued, one level below it; earlier assignments are kept |
| PubMedClustering.Visit | pubmed/pubmed_clustering_lib.py:119-131 | processing the agenda head keeps the traversal invariants and the per-cluster tallies |
| PubMedClustering.AgendaFront | pubmed/pubmed_clustering_lib.py:111-117 | on the build's forest the agenda head is never already processed, so the skip branch is never taken |
| PubMedClustering.TraverseAssignmentTree | pubmed/pubmed_clustering_lib.py:99-131 | every assigned abstract is processed exactly once, and every child receives its parent's cluster. Each cluster's `num_abstracts` grows by its member count, and its counts by the sum of its members' counts |
| PubMedClustering.BuiltIsForest | pubmed/pubmed_clustering_lib.py:53-61 | the build loop leaves a forest: distinct roots, children below `n` and never roots |
| PubMedClustering.BuiltLinks | pubmed/pubmed_clustering_lib.py:53-97 | the forest holds exactly the best-match links, and its roots are the mutual roots |
| PubMedClustering.TraversedUpClosed | pubmed/pubmed_clustering_lib.py:99-131 | every assigned abstract is a root at depth 0 or sits one level below its parent, in its parent's cluster |
| PubMedClustering.AssignedIsLinked | pubmed/pubmed_clustering_lib.py:99-131 | every assigned abstract is linked up to a root and carries that root's cluster |
| PubMedClustering.LinkedIsAssigned | pubmed/pubmed_clustering_lib.py:99-131 | every abstract linked up to a root gets assigned |
| PubMedClustering.TraversedIsLinked | pubmed/pubmed_clustering_lib.py:99-131 | the traversal assigns exactly the abstracts linked up to a root, each to that root's cluster |
| PubMedClustering.TraversedIsReached | pubmed/pubmed_clustering_lib.py:53-64 | after the build loop, the traversal assigns exactly the abstracts reached from a mutual root, each to that root's cluster |
| Clusterer.ProcessedRoots | pubmed/pubmed_clustering_lib.py:92-94 | each root keeps the cluster the build gave it |
| Clusterer.ProcessedReach | pubmed/pubmed_clustering_lib.py:63-64 | the assigned abstracts are exactly the reached ones, each sharing its root's cluster |
| Clusterer.ProcessedTree | pubmed/pubmed_clustering_lib.py:53-66 | build then traversal gives one distinct cluster per root; the reached abstracts are assigned to their root's cluster |
| Clusterer.SharedRoots | pubmed/pubmed_clustering_lib.py:92-94 | with distinct root clusters, two abstracts share a cluster exactly when they share a root |
| Clusterer.TreeClusters | pubmed/pubmed_clustering_lib.py:63-66 | every assigned cluster is listed, and two abstracts share one exactly when they hang from the same root |
| Clusterer.BuildAll | pubmed/pubmed_clustering_lib.py:53-61 | the build loop raises exactly on one abstract; otherwise it leaves the forest and agenda of the specification, with fresh, numbered, blank clusters |
| Clusterer.TallyTree | pubmed/pubmed_clustering_lib.py:64 | after the traversal, each listed cluster has id equal to its position, a member count, and counts equal to the sum of its members' counts |
| Clusterer.ProcessAssignments | pubmed/pubmed_clustering_lib.py:42-66 | raises exactly on one abstract; no abstracts gives no clusters. Otherwise the clusters are one per root, exactly the reached abstracts are assigned, each to its root's cluster, and every cluster's counters equal its members' totals |
| Clusterer.OrphansSeparate | pubmed/pubmed_clustering_lib.py:139-142 | giving each orphan an unlisted cluster of its own yields a full assignment |
| Clusterer.MembersWithOrphans | pubmed/pubmed_clustering_lib.py:139-142 | orphans' clusters take no members from the listed clusters |
| Clusterer.TotalsWithOrphans | pubmed/pubmed_clustering_lib.py:139-142 | the listed clusters keep their totals after orphans are added |
| Clusterer.AddOrphans | pubmed/pubmed_clustering_lib.py:139-142 | every unassigned abstract gets a new cluster with id `len(clusters)`, empty and not shared; assigned abstracts are kept |
| Clusterer.AssignBestAbstracts | pubmed/pubmed_clustering_lib.py:133-144 | raises exactly on one abstract. Every abstract is assigned. An abstract's cluster is listed exactly when it was reached. Two abstracts share a cluster exactly when they hang from the same root. Each orphan has a fresh, empty, unlisted cluster with id `len(clusters)` |
| Clusterer.CollectStep | pubmed/pubmed_clustering_lib.py:157-158 | adding an abstract to its cluster's set keeps each set exact, creating the entry on first use |
| Clusterer.CollectedGroups | pubmed/pubmed_clustering_lib.py:156-160 | the sets of the complete dictionary are the groups of the assignment |
| Clusterer.GroupByCluster | pubmed/pubmed_clustering_lib.py:156-160 | the sets listed are exactly the abstracts of each assigned cluster, one set per cluster |
| Clusterer.GroupsAreClusters | pubmed/pubmed_clustering_lib.py:154-160 | on a full assignment the groups partition the input, and each group is a class of "same root, or the same orphan" |
| Clusterer.BuildClusters | pubmed/pubmed_clustering_lib.py:146-160 | raises exactly on one abstract. Otherwise the sets partition the input. Two abstracts share a set exactly when they hang from the same root, so each orphan is alone in its set |
| TokenProcessor.IsMixedCase | pubmed/token_processor_lib.py:46-49 | a mixed-case token is never all upper case; when nothing after the first character is lower case, a token is mixed case exactly when it is not all upper case |
| TokenProcessor.IsCapitalizationIdiomatic | pubmed/token_processor_lib.py:52-55 | a token is idiomatic exactly when it is all upper case or not lower case after its first character |
| TokenProcessor.UpperIsIdiomatic | pubmed/token_processor_lib.py:45-55 | an upper-case token is idiomatic but not mixed case |
| TokenProcessor.WordIsNotIdiomatic | pubmed/token_processor_lib.py:45-55 | a capitalised or lower-case word is not idiomatic |
| TokenProcessor.LowerThenUncasedIsMixed | pubmed/token_processor_lib.py:46-55 | any lower-case letter followed only by characters without case counts as mixed case, and so as idiomatic, because a remainder without cased characters is not `islower()` |
| TokenProcessor.IsDateLike | pubmed/token_processor_lib.py:58-64 | a date-like token starts with a digit, and one without a slash holds one or two dashes |
| TokenProcessor.JoinChars | pubmed/token_processor_lib.py:59-62 | each character of a join is the separator or a character of a piece |
| TokenProcessor.DigitsBetween | pubmed/token_processor_lib.py:59-62 | when every piece is digits, the token is non-empty and holds only digits and the separator |
| TokenProcessor.DateLikeChars | pubmed/token_processor_lib.py:57-64 | a date-like token holds digits and slashes only, or digits and one or two dashes only |
| TokenProcessor.DateFromGroups | pubmed/token_processor_lib.py:57-64 | groups of digits joined by slashes, or by one or two dashes, are date-like |
| TokenProcessor.FilterDashes | pubmed/token_processor_lib.py:66-68 | the result has no dash, is shorter by the number of dashes, and is the input when it had none |
| TokenProcessor.FilterDashesHead | pubmed/token_processor_lib.py:66-68 | the first character is dropped if it is a dash and kept otherwise |
| TokenProcessor.FilterDashesAppend | pubmed/token_processor_lib.py:66-68 | filtering a concatenation filters each part, so the kept characters stay in order |
| TokenProcessor.Normalized | pubmed/token_processor_lib.py:109-115 | the cleaned text keeps the length and cleans each character in place |
| TokenProcessor.ApplyPairsKeeps | pubmed/token_processor_lib.py:114-115 | a character no pair replaces is kept |
| TokenProcessor.ApplyPairsReplaces | pubmed/token_processor_lib.py:114-115 | a character becomes its pair's replacement when no earlier pair takes it and no later pair rewrites the replacement |
| TokenProcessor.ReplacementTable | pubmed/token_processor_lib.py:19-31 | every replacement is ASCII, and every replaced character lies outside ASCII and the filter characters |
| TokenProcessor.FilteredToSpace | pubmed/token_processor_lib.py:110-111 | a filter character ends up as a space |
| TokenProcessor.SpecialToVariant | pubmed/token_processor_lib.py:113-115 | a special character ends up as its common variant |
| TokenProcessor.OtherKept | pubmed/token_processor_lib.py:109-115 | every other character is kept |
| TokenProcessor.SubscriptParenthesisKept | pubmed/token_processor_lib.py:109-115 | the subscript parenthesis becomes `(` and stays, because the filter characters are replaced first |
| TokenProcessor.StripAll | pubmed/token_processor_lib.py:117 | the pieces are each stripped, in order |
| TokenProcessor.TokensOf | pubmed/token_processor_lib.py:117-124 | at least one token per space-separated piece (one more than the spaces), and exactly that many when the text has no dash |
| TokenProcessor.StripKeepsOut | pubmed/token_processor_lib.py:117-121 | stripping never brings in a character the piece lacked |
| TokenProcessor.StrippedPieces | pubmed/token_processor_lib.py:117-121 | the stripped pieces contain no separator and are no longer than the text |
| TokenProcessor.TokensShape | pubmed/token_processor_lib.py:117-124 | the tokens are first the stripped space pieces, then the non-empty dash pieces when the text has a dash; no token is longer than the text |
| TokenProcessor.Tokenize | pubmed/token_processor_lib.py:107-124 | filter characters become spaces; then the replacement pairs are applied in order; the tokens are the stripped space pieces, followed by the non-empty dash pieces when there is a dash |
| TokenProcessor.TokenTerms | pubmed/token_processor_lib.py:76-103 | a skipped token adds nothing; a counted idiomatic token is counted under its own and its lower-case form, even as a filter word; any other counted token under its lower-case form unless that is a filter word |
| TokenProcessor.TokenTermsKeys | pubmed/token_processor_lib.py:88-103 | every count a token adds is positive, and only for the token, its lower-case form and a differing lemma |
| TokenProcessor.SkippedAddsNothing | pubmed/token_processor_lib.py:76-86 | tokens that are too short, numeric or date-like add nothing |
| TokenProcessor.WithLemmaCounts | pubmed/token_processor_lib.py:96-97 | the lemma adds one exactly when a lemmatizer is given and the lemma differs from the lower-case form |
| TokenProcessor.IdiomaticTokenTerms | pubmed/token_processor_lib.py:91-97 | an idiomatic token adds one to its own form and one to its lower-case form, even when it is a filter word (two when the forms coincide), plus one for a differing lemma |
| TokenProcessor.PlainTokenTerms | pubmed/token_processor_lib.py:99-103 | a non-idiomatic filter word is dropped; any other token adds one to its lower-case form, plus one for a differing lemma |
| TokenProcessor.NoLemmatizerTerms | pubmed/token_processor_lib.py:89-103 | without a lemmatizer, a token counts only under its own and its lower-case form |
| TokenProcessor.TermsNonNegative | pubmed/token_processor_lib.py:70-105 | no count `extract` produces is negative |
| TokenProcessor.ShortTokensNoTerms | pubmed/token_processor_lib.py:77-78 | tokens shorter than `MIN_TOKEN_LENGTH` are never counted |
| TokenProcessor.ShortTextNoTerms | pubmed/token_processor_lib.py:11 | text shorter than 3 characters yields no counts |
| TokenProcessor.TermsStep | pubmed/token_processor_lib.py:76-103 | each token adds its own counts to the running counter |
| TokenProcessor.CountToken | pubmed/token_processor_lib.py:77-103 | one pass of the loop adds exactly the token's counts to the running counter |
| TokenProcessor.Extract | pubmed/token_processor_lib.py:70-105 | `extract` is the sum of each token's counts over the tokens of the cleaned text |
| LanguageModel.SumExtractsAppend | pubmed/language_model_builder.py:27-29 | the sum over two runs of pieces is the sum of the two sums |
| LanguageModel.SumExtractsStep | pubmed/language_model_builder.py:27-29 | each piece adds its extracted counts |
| LanguageModel.SumExtractsRemove | pubmed/language_model_builder.py:27-29 | any piece may be summed last |
| LanguageModel.SumExtractsPermutation | pubmed/language_model_builder.py:27-29 | the model does not depend on the order of the pieces |
| LanguageModel.SumExtractsNonNegative | pubmed/language_model_builder.py:29 | summing non-negative counters gives non-negative counts |
| LanguageModel.SumExtractsEmpty | pubmed/language_model_builder.py:29 | summing empty counters gives empty counts |
| LanguageModel.ModelNonNegative | pubmed/language_model_builder.py:26-31 | every count of a language model is non-negative |
| LanguageModel.ShortPiecesEmpty | pubmed/language_model_builder.py:26-31 | empty text, or text of short pieces only, yields an empty model |
| LanguageModel.BuildLanguageModel | pubmed/language_model_builder.py:20-31 | only the `"text"` field is read, and a missing one raises `KeyError`. The model is the sum of `extract` over the single-space pieces of the text |
| DataProcessing.DigitChar | analysis/data_processing_utils.py:42 | the digit character of a value below 10 has that value |
| DataProcessing.ParseSigned | analysis/data_processing_utils.py:42 | a literal converts exactly when it is digits after at most one sign; its value is that of the digits, negated after a minus sign; text without a digit does not convert |
| DataProcessing.ParseInt | analysis/data_processing_utils.py:42 | `int(s)` converts exactly when `s.strip()` is digits after at most one sign; the value is that of the digits, negated after a minus sign; text without a digit raises `ValueError` |
| DataProcessing.ParseIntExamples | analysis/data_processing_utils.py:42 | `int("12a")`, `int("1 2")` and `int("+-5")` raise `ValueError` |
| DataProcessing.RejectedLiteral | analysis/data_processing_utils.py:42 | a non-digit anywhere after the first character of a literal without surrounding whitespace makes `int` raise |
| DataProcessing.ShowNat | analysis/data_processing_utils.py:42 | the decimal digits of a natural number: non-empty, all digits |
| DataProcessing.ShowInt | analysis/data_processing_utils.py:42 | `str(n)`: non-empty, no surrounding whitespace, digits and a minus sign only |
| DataProcessing.DigitsValueShowNat | analysis/data_processing_utils.py:42 | reading back the digits of `n` gives `n` |
| DataProcessing.ParseSignedShowInt | analysis/data_processing_utils.py:42 | converting `str(n)` gives `n` |
| DataProcessing.ParseIntShowInt | analysis/data_processing_utils.py:42 | `int(str(n)) == n` |
| DataProcessing.Words | analysis/data_processing_utils.py:38-40 | `split()` without a separator: non-empty pieces without whitespace, and none exactly when the text is all whitespace |
| DataProcessing.WordsAreNonEmptyPieces | analysis/data_processing_utils.py:38-40 | `split()` without a separator returns the non-empty pieces left when every whitespace character is a separator: runs of whitespace separate words, and leading or trailing whitespace adds no empty word |
| DataProcessing.Row | analysis/data_processing_utils.py:38-40 | with a separator a stripped line has at least one field, none holding the separator; without one it has no field exactly when the line is blank |
| DataProcessing.Rows | analysis/data_processing_utils.py:38-40 | one row per line, the row of that line |
| DataProcessing.ParseRows | analysis/data_processing_utils.py:42 | the list succeeds exactly when every non-empty row converts; otherwise it raises the first failing row's error. It has at most one value per row, and when no row is empty, every row's value in order |
| DataProcessing.ParseRowsKept | analysis/data_processing_utils.py:42 | a successful list has one value per non-empty row, the i-th value being the conversion of the i-th non-empty row |
| DataProcessing.UnlabeledRow | analysis/data_processing_utils.py:42 | `int(row[0])` succeeds exactly when the row is non-empty and its first field converts, giving that value; an empty row raises `IndexError`, any other failure is `ValueError` for the field |
| DataProcessing.LabeledRow | analysis/data_processing_utils.py:52 | `(int(row[0]), row[1])` succeeds exactly when the row has two fields and the first converts, giving the id and the label; an id that does not convert raises `ValueError` even when the label is missing; every other failure is `IndexError` |
| DataProcessing.PmidsFromUnlabeled | analysis/data_processing_utils.py:32-42 | at most one id per line; with a separator character no line is skipped, and the read succeeds exactly when every line's first field converts, giving each line's id in file order |
| DataProcessing.PmidsFromLabeled | analysis/data_processing_utils.py:45-52 | at most one pair per line; with a separator character no line is skipped, and the read succeeds exactly when every line has two fields whose first converts, giving each line's id and label in file order |
| DataProcessing.StripLine | analysis/data_processing_utils.py:39 | stripping a line drops its terminator |
| DataProcessing.ParseRowsAll | analysis/data_processing_utils.py:42 | when every row is non-empty and converts, the result is every row's value, in order |
| DataProcessing.IdLine | analysis/data_processing_utils.py:38-42 | the line `str(pmid)` is one field, which converts to the id |
| DataProcessing.UnlabeledLine | analysis/data_processing_utils.py:38-42 | the line `str(pmid)` of an unlabeled file gives the id |
| DataProcessing.UnlabeledRoundTrip | analysis/data_processing_utils.py:32-42 | a file of ids, one per line, reads back as the ids in file order; the separator argument is used and `dataset.separator` is ignored |
| DataProcessing.LabeledLine | analysis/data_processing_utils.py:48-52 | the line "id, separator, label" gives the id and the label |
| DataProcessing.LabeledRoundTrip | analysis/data_processing_utils.py:45-52 | a labeled file reads back as the ids and labels in file order |
| DataProcessing.BlankLine | analysis/data_processing_utils.py:38-42 | a blank line raises `ValueError` for `int("")` when a separator is given, and is skipped without one |
| DataProcessing.MissingLabel | analysis/data_processing_utils.py:48-52 | a labeled line with only an id raises `IndexError` |
| DataProcessing.NonNumericId | analysis/data_processing_utils.py:52 | a labeled line whose first field has no digit raises `ValueError` for that field, before the label is looked at |
| DataProcessing.FirstSeen | analysis/data_processing_utils.py:72 | the distinct labels in order of first appearance are at most as many as the rows |
| DataProcessing.FirstSeenLabels | analysis/data_processing_utils.py:72 | every label gets one id, and only labels get ids |
| DataProcessing.FirstSeenOrder | analysis/data_processing_utils.py:72 | a label with a higher id first appears after every label with a lower id has appeared |
| DataProcessing.Labels | analysis/data_processing_utils.py:68 | one label per row |
| DataProcessing.Pmids | analysis/data_processing_utils.py:67-69 | one id per row |
| DataProcessing.GroupsCover | analysis/data_processing_utils.py:74-76 | every group is non-empty; every id is in its label's group; a group holds only ids of its label |
| DataProcessing.AddToGroup | analysis/data_processing_utils.py:74 | `groups[id].add(pmid)` on a `defaultdict(set)`: the key is created if missing, and the other groups are unchanged |
| DataProcessing.SeenStep | analysis/data_processing_utils.py:72 | a row's label is appended to the labels seen unless it is already there |
| DataProcessing.GroupStep | analysis/data_processing_utils.py:74 | a row's id joins its label's group |
| DataProcessing.NoGroupYet | analysis/data_processing_utils.py:72-74 | a label not seen before has no ids yet |
| DataProcessing.KnownGroupsStep | analysis/data_processing_utils.py:74 | a known label's group gains the row's id |
| DataProcessing.KnownLabelStep | analysis/data_processing_utils.py:72-74 | a repeated label reuses its id, and that id's group gains the row's id |
| DataProcessing.KnownIdsStep | analysis/data_processing_utils.py:74 | adding to an existing group leaves the ids and their order unchanged |
| DataProcessing.NewIdsStep | analysis/data_processing_utils.py:72 | a new label gets the next id, `len(id_by_label)` |
| DataProcessing.NewGroupsStep | analysis/data_processing_utils.py:74 | a new label's group holds the row's id alone |
| DataProcessing.NewLabelStep | analysis/data_processing_utils.py:72-74 | a new label gets the next id, whose group is inserted last with the row's id |
| DataProcessing.RowStep | analysis/data_processing_utils.py:68-74 | each row keeps the loop's state: dense ids in order of first appearance, and groups by label |
| DataProcessing.SetDefault | analysis/data_processing_utils.py:72 | `setdefault` returns the stored value, storing the default first when the key is missing |
| DataProcessing.AddToDefaultGroup | analysis/data_processing_utils.py:74 | adding to a `defaultdict(set)` creates the key at the end of the key order when it is missing |
| DataProcessing.PmidsStep | analysis/data_processing_utils.py:69 | `pmids.append(pmid)` extends the ids in file order |
| DataProcessing.LabelIdsFinal | analysis/data_processing_utils.py:76 | after the last row, the groups in key order are the groups by label, in order of first appearance |
| DataProcessing.CollectLabels | analysis/data_processing_utils.py:64-76 | the ids are in file order, duplicates included. There is one group per distinct label, ordered by label id, each holding that label's ids |
| DataProcessing.GetLabeledData | analysis/data_processing_utils.py:55-76 | the read fails exactly when reading the labeled file fails, with the same error; otherwise the ids in file order and the groups by label |

## Left out

- PubMedClustering.TraverseAssignmentTree: requires the forest shape the build loop leaves (`IsForest`; `PubMedClustering.BuiltIsForest` proves the build leaves it). On that shape the "already processed" branch is proved unreachable. The traversal is not modelled on parent/child maps with cycles, which the build never produces.
- Clusterer.BuildClusters: states the groups as a partition by cluster, not their order in the returned list. That order follows insertion into `cluster_by_abstract`, which depends on the unspecified order of Python sets.
- Clusterer.GroupByCluster: visits the assigned abstracts in an unspecified order, so the list order is not stated.
- Abstracts are identified by their index in the list. Python compares them by identity, so the same `Abstract` object appearing twice in the list is not modelled.
- The scoring strategy returns an integer. `dot_product_score` of integer counts is an integer, but a strategy returning floats is not modelled.
- The `normalized_counts` property (pubmed/cluster_lib.py:16-21) divides as floating point and is not modelled.
- TokenProcessor.Skipped: `is_numeric` depends on Python's `float()` parsing and stays an uninterpreted predicate on the token processor.
- Text.IsUpper: `isupper`, `islower`, `isdigit` and `lower` are modelled on ASCII letters and digits only. Other cased Unicode letters and digits are not.
- The lemmatizer and the filter-word list come from NLTK. They are parameters of `TokenProcessor`: an optional function and a set.
- DataProcessing.ParseInt: models `int()` as optional surrounding whitespace, one optional sign and ASCII digits. Underscores between digits, non-ASCII digits and the limit of 4300 digits that recent Python versions put on `int()` of a string are not modelled.
- DataProcessing.Row: the separator is one character or none. Separators of several characters are not modelled.
- Reading the files is not modelled: a file is the sequence of its lines, and opening or decoding it is left out.
- `get_abstracts`, `_build_abstracts_from_pmids`, `predict_clusters` and `predict_clusters_and_evaluate` fetch abstracts over the network or from the cache. They are not modelled, nor is pubmed/pubmed_extractor_lib.py.
- Saving and loading abstracts (h5py files in pubmed/abstract_lib.py) is not modelled. `Abstract` is a record of its id, its fields and its counts.
- Logging calls are left out.
- `_clusters_to_pmids` only maps indices to ids and is not modelled.
