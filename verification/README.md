# Accumulo client core: a verified model

This project models the parts of Shoal's Accumulo client library where the
branching, the state and the ordering live, and proves what they are for. The
modules follow the source files.

* **Column visibility** (`VisibilityTree`, `VisibilityParser`,
  `VisibilityGrammar`, `VisibilityNormal`, `ColumnVisibility`,
  `Authorizations`, `DecisionCache`, `VisibilityEvaluator`). The index-moving
  parser accepts exactly the grammar, and its tree evaluates without error to
  the grammar's denotation. Normalization keeps the meaning, reaches a normal
  form and is idempotent; flattening and parsing undo each other. The decision
  cache is the front of an unbounded recency list, and under every
  interleaving of evaluations with changes of authorizations it never holds,
  and the evaluator never returns, an answer that differs from the uncached
  one.
* **Batch writer** (`WriterPlan`, `TabletServers`, `WriterSend`,
  `BatchWriter`). Tablet servers are an object the code calls; from the calls
  it receives and the reply of each session it commits a prefix of each failed extent and all of
  every other one; starting a session commits nothing, and a session that
  fails while mutations are applied or while it is closed commits any prefix
  of what each extent received. Over every run of
  calls, failing ones included, nothing is committed twice, a nil result of
  Flush or Close means that exactly the accepted mutations are committed, and,
  when routing follows the row, each row's mutations commit in the order they
  were added. A flush returns nil exactly when its rounds settle.
* **Range planning** (`TabletExtents`, `Keys`, `Ranges`, `RangePlanner`). The
  tablets may change between any two calls of the locator; the planner's
  segments still partition the range in key order. On a gap-free map that does
  not change the planner ends.
* **Result stream** (`ResultStream`). For every schedule of splits, stale
  assignments, replans, cut batches and failures, a stream that ends without
  an error has returned exactly each range's entries, in order, and has closed
  every session it opened.
* **Split rounds** (`TableSplits`, `SplitRounds`). The requested rows are
  always the disjoint union of confirmed and pending rows, and a nil result
  against a truthful manager means every requested row is a tablet boundary.
* **Constraint numbers** (`TableConstraints`). Any number of clients add and
  remove constraints by compare-and-set on one versioned store.
* **Hadoop VLong** (`HadoopVLong`). The encoder against a decoder that takes
  its own body length, and against the library's reader.

`Bytes` holds byte strings and their order, `Wrappers` two result types.

## How the model is built

Code that changes state step by step is a class or a method with loops, proved
against a specification function; the theorems are lemmas about those
functions and methods over whole runs. A nil slice is `None` where the source
tells it from an empty one. Everything outside the process is data: the
replies of servers, the manager, the tablet map and the clock arrive as
scripts, and a script that ends early stands for a context that ended (for the
writer, for a tablet that is not found). Each section the source runs under a
lock is one step.

Six properties one might expect are false of the code; each is proved with
its exact condition.

* A range bounded by keys, with an excluded end key whose row is a tablet's
  end row followed by NUL, passes for fitting the tablet although it can hold
  keys past it (`accumulo/range.go:313-318`). `RangePlanner.PlansStayInside`
  and `ResultStream.CompleteExactlyWhen` give the condition on the range
  alone, `RangePlanner.EscapingMap` and `ResultStream.LostEntry` the map and
  the table that show the failure. The partition holds without it.
* `firstKeyOfRow` is the first live key of a row; one deletion marker of the
  row sorts before it (`Keys.TombstoneBeforeFirstKey` says which), so an
  extent's range and its rows disagree on exactly two keys
  (`Ranges.ExtentRangeHoldsItsRows`).
* A metadata row does not parse back to its extent when the table id holds a
  semicolon (`TabletExtents.ParseInvertsEntry`).
* A successful constraint write adds exactly one key unless the table holds an
  empty property under the lowest number not visible
  (`TableConstraints.WinningWriteAddsOneKey`,
  `TableConstraints.EmptyPropertyIsReplaced`); from a table without empty ones
  none ever arises (`TableConstraints.EveryWinningWriteAddsOneKey`).
* Removing a constraint frees its number unless another property names the
  number too, with a sign or leading zeros (`TableConstraints.RemovalRemoves`,
  `TableConstraints.LeadingZeroSurvives`); on a table with canonical names that
  cannot arise (`TableConstraints.EveryRemovalRemoves`).
* The VLong reader asks for one byte more than was written unless the value is
  in -112..127 (`HadoopVLong.ReaderAgreesExactly`), so a string survives being
  written and read back exactly when it is at most 127 bytes long
  (`HadoopVLong.StringRoundTrip`).

Two edges of the code are kept as they are: a decision cache with a capacity
below one still holds one entry, and the search for a constraint number wraps
from the largest 32-bit number to the smallest, which names no constraint.

## Model

| member | source | states |
|---|---|---|
| `VisibilityTree.UnescapeTerm` | accumulo/column_visibility.go:193-207 | the unescaping loop computes the recursive reading of backslash escapes, failing on a trailing backslash or any escape but backslash and quote |
| `VisibilityTree.UnescapeEscape` | accumulo/column_visibility.go:193-207 | every label, a backslash put before each of its backslashes and quotes, is well-escaped and unescapes to itself |
| `VisibilityTree.EscapeUnescape` | accumulo/column_visibility.go:193-207 | a well-escaped body is the only way to write the label it names |
| `VisibilityTree.LeafHasLabel` | accumulo/column_visibility.go:156-180 | every word and every well-escaped quoted term has a label, and a word's label is the word |
| `VisibilityTree.EvaluateIsHolds` | accumulo/column_visibility.go:708-745 | short-circuit evaluation of any well-formed tree never errs and equals its truth value as a boolean formula over the labels held |
| `VisibilityTree.HoldsMonotone` | accumulo/column_visibility.go:708-745 | more labels never turn a true formula false |
| `VisibilityParser.Parser.ConsumeQuotedTerm` | accumulo/column_visibility.go:535-554 | the index stays in bounds and stops right behind the closing quote, or the same error is returned at the same offset |
| `VisibilityParser.Parser.ParseLevel` | accumulo/column_visibility.go:373-532 | the moving-index loop terminates in bounds and agrees with the recursive reading of one level: tree, stopping index and error |
| `VisibilityParser.NewColumnVisibility` | accumulo/column_visibility.go:254-272 | the constructor runs the parser over the whole expression; the empty one gives the empty tree |
| `VisibilityGrammar.QuotedSound` | accumulo/column_visibility.go:535-554 | a quoted term that is consumed has a well-escaped body |
| `VisibilityGrammar.QuotedComplete` | accumulo/column_visibility.go:535-554 | every well-escaped body is consumed up to its quote |
| `VisibilityGrammar.LoopSound` | accumulo/column_visibility.go:373-505 | whatever a level of the parser accepts is the rendering of a well-formed syntax tree, and the node built has that tree's shape |
| `VisibilityGrammar.LevelComplete` | accumulo/column_visibility.go:373-505 | the parser accepts the rendering of every well-formed syntax tree at any place and depth |
| `VisibilityGrammar.TreeDenotes` | accumulo/column_visibility.go:429-453 | the roll-up at a closing parenthesis does not change what the expression denotes |
| `VisibilityGrammar.ParserAcceptsExactlyTheGrammar` | accumulo/column_visibility.go:373-554 | a non-empty expression is accepted if and only if it is the rendering of a well-formed syntax tree |
| `VisibilityGrammar.ParsedSyntax` | accumulo/column_visibility.go:254-272 | an accepted expression renders a syntax tree whose shape the parsed node has, with every term's offsets inside the expression |
| `VisibilityGrammar.ParseRendered` | accumulo/column_visibility.go:373-532 | parsing what was rendered succeeds and gives the tree of the syntax |
| `VisibilityGrammar.EvaluationIsDenotation` | accumulo/column_visibility.go:708-745 | for every grammatical expression and every label set, parse then evaluate is the denotation, with no error |
| `VisibilityNormal.CompareIsOrder` | accumulo/column_visibility.go:212-243 | node comparison depends on the expressions alone, not on offsets |
| `VisibilityNormal.OrderDecides` | accumulo/column_visibility.go:212-235 | terms come first, by their bytes, then any-of, then all-of, each by its number of children |
| `VisibilityNormal.OrderByFirstDifference` | accumulo/column_visibility.go:224-232 | between operators of one kind and size the first child that differs decides |
| `VisibilityNormal.OrderEqual` | accumulo/column_visibility.go:212-243 | comparing equal means being the same expression |
| `VisibilityNormal.OrderAntisymmetric` | accumulo/column_visibility.go:212-243 | swapping the sides negates the comparison |
| `VisibilityNormal.OrderTransitive` | accumulo/column_visibility.go:212-243 | the comparison is transitive, strictly if either step is |
| `VisibilityNormal.NormalReachesNormalForm` | accumulo/column_visibility.go:325-354 | every node of the result has at least two children, strictly increasing, none of its parent's type |
| `VisibilityNormal.NormalFixesNormalForm` | accumulo/column_visibility.go:325-354 | normalization leaves every normal form alone |
| `VisibilityNormal.NormalIdempotent` | accumulo/column_visibility.go:325-354 | normalizing twice is normalizing once |
| `VisibilityNormal.NormalKeepsMeaning` | accumulo/column_visibility.go:325-354 | the normalized expression has the same value for every label set |
| `VisibilityNormal.NormalBySet` | accumulo/column_visibility.go:325-354 | the normal form of a node depends on the set of its children's normal forms alone |
| `VisibilityNormal.SameChildrenRearranged` | accumulo/column_visibility.go:325-354 | permuting or repeating the children of a node is such a rearrangement |
| `VisibilityNormal.NormalIgnoresOrderAndRepeats` | accumulo/column_visibility.go:325-354 | expressions that differ only in the order and the repetition of children, at any depth, have the same normal form |
| `ColumnVisibility.DedupInPlace` | accumulo/column_visibility.go:341-347 | the in-place filter keeps one of each run of equal neighbours |
| `ColumnVisibility.NormalizeNode` | accumulo/column_visibility.go:325-354 | roll-up, sort, in-place dedup and collapse of a node give the normal form of its expression |
| `ColumnVisibility.FlattenNode` | accumulo/column_visibility.go:299-322 | the printer appends exactly the text of the node's expression |
| `ColumnVisibility.Flatten` | accumulo/column_visibility.go:290-297 | flattening prints the normalized tree, and nothing for the empty one |
| `ColumnVisibility.FlattenThenParse` | accumulo/column_visibility.go:290-354 | parsing the flattened form of any accepted expression succeeds, compares equal to the normalized tree, and flattens to the same bytes |
| `ColumnVisibility.FlattenKeepsMeaning` | accumulo/column_visibility.go:290-354 | the flattened expression evaluates like the original for every label set, and neither errs |
| `ColumnVisibility.FlattenIsCanonical` | accumulo/column_visibility.go:290-354 | two expressions flatten to the same bytes if and only if they have the same normal form |
| `ColumnVisibility.FlattenSorts` | accumulo/column_visibility.go:290-354 | two terms are printed in byte order, whichever came first |
| `ColumnVisibility.FlatLength` | accumulo/column_visibility.go:299-322 | the text is as long as its terms, one operator between neighbours and one pair of parentheses around each operator below another kind: nothing else is printed |
| `Authorizations.SplitDecides` | accumulo/authorizations.go:225-231 | in a strictly sorted list the one place where a label could stand decides membership |
| `Authorizations.SortedUnique` | accumulo/authorizations.go:135-145 | strictly sorted lists are equal if and only if they hold the same labels |
| `Authorizations.Labels.Search` | accumulo/authorizations.go:225-231 | binary search finds the place that separates smaller labels from the rest, and says whether the label is held |
| `Authorizations.Labels.Add` | accumulo/authorizations.go:54-72 | the list stays strictly sorted and gains exactly the label; true if and only if it was new |
| `Authorizations.Labels.Remove` | accumulo/authorizations.go:74-85 | the list stays strictly sorted and loses exactly the label; true if and only if it was held |
| `Authorizations.Labels.Contains` | accumulo/authorizations.go:87-93 | membership in the set |
| `Authorizations.Labels.Equal` | accumulo/authorizations.go:135-145 | the element-wise loop decides set equality |
| `Authorizations.EvaluateMonotone` | accumulo/column_visibility.go:708-745 | what a label set may see, every larger one may see |
| `DecisionCache.StoreIsRecencyPrefix` | accumulo/column_visibility.go:592-607 | a store on the bounded cache is a store on the unbounded recency list, cut to the bound: only the least recently used key goes |
| `DecisionCache.TouchIsRecencyPrefix` | accumulo/column_visibility.go:582-590 | the bounded and the unbounded list make the same move on a hit, and none on a miss |
| `DecisionCache.TouchMovesToFront` | accumulo/column_visibility.go:582-590 | a hit moves its entry, with its value, to the front and leaves the others in order; a miss changes nothing |
| `DecisionCache.StoreComesFirst` | accumulo/column_visibility.go:592-607 | a put decision stands at the front, in place of the earlier one for its key |
| `DecisionCache.CacheHoldsMostRecent` | accumulo/column_visibility.go:562-609 | after any run of gets and puts the cache is the front of the recency list, with distinct keys, within its bound |
| `DecisionCache.CacheKeepsLatestUses` | accumulo/column_visibility.go:562-609 | after any run each entry holds the value last put, entries stand in the order of their last put or hit, and a key that was used but is not held was last used before every key that is, the cache being full |
| `DecisionCache.Cache.MoveToFront` | accumulo/column_visibility.go:582-590 | the list element moves to the front, the others keep their order, map and list stay in bijection |
| `DecisionCache.Cache.Get` | accumulo/column_visibility.go:582-590 | returns the stored decision and refreshes it |
| `DecisionCache.Cache.Evict` | accumulo/column_visibility.go:599-604 | removes the last element from the list and its key from the map |
| `DecisionCache.Cache.MakeRoom` | accumulo/column_visibility.go:598-605 | evicts from the back until there is room for one more |
| `DecisionCache.Cache.Put` | accumulo/column_visibility.go:592-607 | map and list together perform the store on the recency view |
| `VisibilityEvaluator.NextKeepsSound` | accumulo/column_visibility.go:643-682 | each critical section, and each change of labels, keeps every cached decision equal to the uncached answer under the current labels |
| `VisibilityEvaluator.EveryRunIsSound` | accumulo/column_visibility.go:614-682 | over every interleaving of any number of callers, cached decisions are the uncached ones under the current labels and each answer is the uncached one under the labels at its first critical section |
| `VisibilityEvaluator.AnswersAsBegun` | accumulo/column_visibility.go:657-682 | over every interleaving each answer is the uncached one under the labels last set before a call for its expression began |
| `VisibilityEvaluator.FinishCaches` | accumulo/column_visibility.go:676-680 | a call that finishes under the labels it began with leaves its answer in the cache |
| `VisibilityEvaluator.CachedAnswersAtOnce` | accumulo/column_visibility.go:661-667 | a cached expression is answered in the first critical section, by its uncached answer |
| `VisibilityEvaluator.UncachedErrsOnlyOutsideGrammar` | accumulo/column_visibility.go:657-682 | evaluation errs if and only if the expression is non-empty and outside the grammar |
| `VisibilityEvaluator.QuotedAnswers` | accumulo/column_visibility.go:657-682 | any non-empty label, escaped and in quotes, is answered by whether it is held |
| `VisibilityEvaluator.WordAnswers` | accumulo/column_visibility.go:657-682 | a word is answered by whether it is held |
| `VisibilityEvaluator.Evaluator.SetAuthorizations` | accumulo/column_visibility.go:643-653 | new labels, a new generation, an empty cache |
| `VisibilityEvaluator.Evaluator.Lookup` | accumulo/column_visibility.go:661-667 | a hit is the uncached answer under the current labels; the labels and generation in force are taken along |
| `VisibilityEvaluator.Evaluator.Remember` | accumulo/column_visibility.go:676-680 | stores only if the generation has not moved, and the cache stays coherent |
| `VisibilityEvaluator.Evaluator.EvaluateExpression` | accumulo/column_visibility.go:657-682 | a whole call returns the uncached answer |
| `WriterPlan.PlanGroups` | accumulo/batch_writer.go:626-667 | the plan holds each mutation once, each server and extent once, and each extent's list is exactly what was routed to it, in order |
| `WriterPlan.PlanConfines` | accumulo/batch_writer.go:626-667 | when routing follows the row, all mutations of a row are in one extent's list |
| `WriterPlan.CutConserves` | accumulo/batch_writer.go:92-98 | committed and uncommitted parts of a plan are the plan, as multisets |
| `WriterPlan.SuffixesAreRest` | accumulo/batch_writer.go:886-903 | the suffixes computed from the reported prefixes are exactly what the servers did not commit |
| `WriterPlan.RoundRetriesRest` | accumulo/batch_writer.go:549-563 | a round that did not fail retries exactly the uncommitted mutations, and one that submitted nothing committed nothing |
| `WriterPlan.RoundConserves` | accumulo/batch_writer.go:524-587 | under any routing, committed plus retried is what the round started from |
| `WriterPlan.RoundKeepsRowOrder` | accumulo/batch_writer.go:524-587 | when routing follows the row, a row's committed mutations followed by its uncommitted ones are its mutations in order |
| `TabletServers.Servers.Apply` | accumulo/batch_writer.go:694-702 | a call adds to what its extent has received; one that fails ends the session, which commits a prefix of what each extent received |
| `TabletServers.Servers.Close` | accumulo/batch_writer.go:92-98 | a session that is closed commits a prefix of what each failed extent received and all of every other |
| `TabletServers.PartDelivered` | accumulo/batch_writer.go:694-702 | what a session with a failed Apply committed of the calls it received, seen from the plan |
| `WriterSend.PlanMutations` | accumulo/batch_writer.go:626-667 | the two-level index maps build the grouped plan, or report the first row that could not be routed |
| `WriterSend.NextBatch` | accumulo/batch_writer.go:817-837 | one batch is a non-empty front within the bound unless it is a single mutation, and could not take the next mutation |
| `WriterSend.MutationBatches` | accumulo/batch_writer.go:817-837 | the batches joined are the mutations, each batch greedy under the bound |
| `WriterSend.ReadFailed` | accumulo/batch_writer.go:839-885 | the error report is accepted if and only if every failed extent was submitted, is named once and has a count within what was submitted |
| `WriterSend.DecodeUpdateErrors` | accumulo/batch_writer.go:839-951 | malformed, rejected or retry, with the uncommitted suffixes in plan order |
| `WriterSend.ApplyBatches` | accumulo/batch_writer.go:694-702 | one extent's batches are applied once each, in order, up to the call that fails; on every path the servers have received a front of the plan |
| `WriterSend.SendServer` | accumulo/batch_writer.go:680-722 | one session's outcome; what the servers commit follows from the calls made and is what the reply says of the plan; on every path each extent received a prefix of its mutations, never one twice, and all of them before a close; something is submitted if and only if an Apply was made |
| `WriterSend.SendPlans` | accumulo/batch_writer.go:590-624 | each plan is sent in one session: the servers' log grows by exactly the committed part of each plan, once, in plan order, and the outcomes are combined |
| `BatchWriter.RoundAccount` | accumulo/batch_writer.go:524-587 | a round keeps the account: committed plus left is what was added, as a multiset and, with routing by row, in order for each row |
| `BatchWriter.BatchWriter.ClearPending` | accumulo/batch_writer.go:503-507 | empties the buffer with its byte count and its start time |
| `BatchWriter.BatchWriter.FinishFailure` | accumulo/batch_writer.go:724-731 | latches and drops the buffer if and only if something was submitted |
| `BatchWriter.BatchWriter.RetryOrFail` | accumulo/batch_writer.go:571-587 | another attempt runs only within the retry bound, after invalidation and wait |
| `BatchWriter.BatchWriter.Attempts` | accumulo/batch_writer.go:524-587 | the attempt loop ends in one of three ways: all committed, latched after an Apply, or nothing submitted and nothing changed; nil exactly when the rounds settle |
| `BatchWriter.BatchWriter.FlushLocked` | accumulo/batch_writer.go:509-588 | nil if and only if some attempt within the retry bound leaves nothing to retry, and then everything added is committed exactly once; otherwise latched if and only if an Apply was made; an attempt in which a server rejects, fails after the start or reports nonsense always latches; an error without the latch leaves the buffer as before; a latched failure is returned again |
| `BatchWriter.BatchWriter.Add` | accumulo/batch_writer.go:268-328 | byte count, start time and memory bound are kept; nil if and only if the call is valid and the flushes it needs succeed, none being made while there is room; an error without the latch leaves the new mutation out; a latched failure is returned and never replaced |
| `BatchWriter.BatchWriter.AddBuffered` | accumulo/batch_writer.go:305-328 | append, flush at the bound, and take the mutation back out when the flush failed without submitting |
| `BatchWriter.BatchWriter.Flush` | accumulo/batch_writer.go:354-368 | nil if and only if the flush settles, with an empty buffer and a settled account; a refusing server always latches; an unlatched error changes nothing; a latched failure is returned |
| `BatchWriter.BatchWriter.Close` | accumulo/batch_writer.go:373-395 | the first call closes, nil exactly when its flush settles; later ones return its result and commit nothing |
| `BatchWriter.BatchWriter.AutomaticFlush` | accumulo/batch_writer.go:479-501 | a background flush that does not settle is latched as automatic; a buffer that is not due is left alone |
| `BatchWriter.PerformCall` | accumulo/batch_writer.go:268-395 | every call of every kind keeps the writer's invariant, the latch and what was committed after the latch or the close; only an Add adds, its own input, and a latching call adds nothing else; a call with quiet servers returns nil |
| `BatchWriter.RunWriter` | accumulo/batch_writer.go:268-588 | over every run against every server behaviour, the log being written by the servers from the calls they receive: at each call what had been added is what was accepted and at most one mutation whose Add failed; the log only grows and holds nothing that was not added or more often than it was, so inputs that differ are never committed twice, failing runs included; at each nil Flush or Close exactly the accepted mutations are committed; with routing by row each row's commits are in the order added; a run with quiet servers returns nil throughout |
| `BatchWriter.AddedDistinct` | accumulo/batch_writer.go:268-328 | when the inputs of a run differ, what it added has no repeats |
| `BatchWriter.QuietSettles` | accumulo/batch_writer.go:524-570 | when every row's tablet is found and every server commits, a flush succeeds |
| `BatchWriter.FlushOutlives` | accumulo/batch_writer.go:524-587 | a flush outlives as many attempts as it may retry in which rows are not located or sessions do not start, if the next one finds every row and every server |
| `BatchWriter.IdleNeverSettles` | accumulo/batch_writer.go:536-538 | no attempt beyond those allowed is made: if none of them starts a session the flush fails |
| `BatchWriter.RefusalEndsFlush` | accumulo/batch_writer.go:945-946 | an attempt in which a reply carries a violation or an authorization failure, names an extent that was not sent, one twice or an impossible count, or in which an Apply or the close fails, makes the flush fail after an Apply |
| `BatchWriter.NeverTwice` | accumulo/batch_writer.go:509-588 | a log within an added list without repeats holds no mutation twice |
| `TabletExtents.IndexByte` | accumulo/tablet_extent.go:64-85 | the first place of a byte, or none if and only if it does not occur |
| `TabletExtents.ParseInvertsEntry` | accumulo/tablet_extent.go:31-85 | parsing an extent's metadata row gives the extent back if and only if the table id has no semicolon |
| `TabletExtents.EntryInvertsParse` | accumulo/tablet_extent.go:31-85 | whatever parses renders back to the same metadata row |
| `TabletExtents.EndOrderIsEntryOrder` | accumulo/tablet_extent.go:135-146 | within a table the end-row order is the byte order of metadata rows |
| `TabletExtents.CompareExtentsEqual` | accumulo/tablet_extent.go:124-161 | comparing equal means being the same extent |
| `TabletExtents.ExtentOrderDecides` | accumulo/tablet_extent.go:124-161 | the table decides, then the end row with an absent one last, then the previous one with an absent one first |
| `Bytes.FirstByteDecides` | accumulo/key.go:92-119 | the byte order under every comparison: the first byte that differs decides, and a row precedes its extensions |
| `Keys.KeysEqual` | accumulo/key.go:92-119 | comparing equal means being the same key |
| `Keys.KeysAntisymmetric` | accumulo/key.go:92-119 | swapping the sides negates the comparison |
| `Keys.KeysTransitive` | accumulo/key.go:92-119 | the order is transitive, strictly if either step is |
| `Keys.FirstDifferenceDecides` | accumulo/key.go:92-119 | row, family, qualifier and visibility in byte order, then the later timestamp, then the deletion marker: the first component that differs decides |
| `Keys.FirstKeyIsFirst` | accumulo/range.go:182-190 | the first key of a row separates live keys of smaller rows from the rest |
| `Keys.FirstKeyFollows` | accumulo/range.go:182-190 | the following form separates, for every key, rows up to this one from the rest, but for the one tombstone of the next row |
| `Keys.TombstoneBeforeFirstKey` | accumulo/key.go:111-118 | exactly one key of the row, a deletion marker, sorts before the row's first key |
| `Ranges.NewRange` | accumulo/range.go:24-38 | a row range has no deletion marker as a bound (what it contains: `RowRangeContains`) |
| `Ranges.NewKeyRange` | accumulo/range.go:45-60 | neither has a key range (what it contains: `KeyRangeContains`) |
| `Ranges.RowRangeContains` | accumulo/range.go:24-38 | for every live key a row range contains it exactly when its row is within both rows under their inclusion flags; refused exactly when the end precedes the start |
| `Ranges.KeyRangeContains` | accumulo/range.go:45-60 | for every key a key range contains it exactly when it is between both keys under their inclusion flags; refused exactly for a deletion marker or an end before the start |
| `Ranges.ExtentRangeHoldsItsRows` | accumulo/tablet_extent.go:107-121 | an extent's range contains a key if and only if the extent contains its row, for every key but exactly two tombstones |
| `Ranges.ClipSplits` | accumulo/batch_scanner.go:428-440 | clipping splits a range's keys at the first key after the tablet, losing and repeating none |
| `Ranges.FittingKeysInside` | accumulo/range.go:306-319 | a fitting range that does not end just past the tablet holds only live keys of the tablet |
| `Ranges.FitsMeansInside` | accumulo/range.go:306-319 | fitting means staying inside if and only if the range does not end just past the tablet |
| `Ranges.FitsExactlyWhen` | accumulo/range.go:306-319 | a range fits if and only if no live key before its end lies in a row past the tablet, or it ends just past it; so nothing is split that fits |
| `RangePlanner.LocateAdvances` | accumulo/discovery.go:229-230 | on a gap-free map the tablet found after a tablet's end row comes later |
| `RangePlanner.PlanningEnds` | accumulo/batch_scanner.go:113-136 | on a gap-free map that does not change every range is planned, with at most one location for each tablet left |
| `RangePlanner.PlanBatchScan` | accumulo/batch_scanner.go:102-139 | the loop over ranges plans each in turn, locating afresh at every boundary, and reports the first nil range or the first failed location |
| `RangePlanner.PlanOneRange` | accumulo/batch_scanner.go:112-137 | the loop over tablets produces the recursive plan of the range for every sequence of located tablets |
| `RangePlanner.SegmentsPartition` | accumulo/batch_scanner.go:102-139 | however tablets change between two locations, every key of the range is in exactly one segment, every other key in none |
| `RangePlanner.SegmentsAscend` | accumulo/batch_scanner.go:102-139 | every key of a segment precedes every key of a later one |
| `RangePlanner.SegmentsPlaced` | accumulo/batch_scanner.go:102-139 | every segment is routed into its tablet and fits it |
| `RangePlanner.SegmentInside` | accumulo/range.go:294-319 | a placed segment whose range cannot end just past a tablet holds only live keys of its tablet |
| `RangePlanner.PlansStayInside` | accumulo/range.go:294-319 | every plan stays inside its tablets if and only if the range cannot end just past one, and the same if and only if for plans on unchanging maps |
| `RangePlanner.EscapingMap` | accumulo/range.go:313-318 | otherwise a map with one boundary lets a key escape |
| `ResultStream.PlanReadsRange` | accumulo/batch_scanner.go:102-139 | the entries of the segments, one after the other, are the entries of the range in key order, wherever the tablets were when it was planned |
| `ResultStream.PlanReadsRanges` | accumulo/batch_scanner.go:102-139 | a plan of several ranges reads each range in turn, every segment placed in its tablet |
| `ResultStream.CompleteExactlyWhen` | accumulo/range.go:306-319 | tablets return a range's entries for every table and every sequence of locations if and only if the range cannot end just past a tablet, and the same if and only if on unchanging maps |
| `ResultStream.LostEntry` | accumulo/range.go:313-318 | otherwise a table of one entry loses it |
| `ResultStream.ReplanKeepsEntries` | accumulo/scan_stream.go:413-448 | a range planned again, tablets moving meanwhile, still stands for the same entries in the same order |
| `ResultStream.Stream.OpenSource` | accumulo/scan_stream.go:372-448 | an opened session returns exactly the segment's entries and is counted; a replan stands for the same entries, only if allowed, one replan further; a start that succeeds, at once or after one relocation, opens; a range that no longer fits is replanned whenever its new tablets are located |
| `ResultStream.Stream.RecordClose` | accumulo/scan_stream.go:295-315 | an open session is closed exactly once |
| `ResultStream.Stream.PrependSources` | accumulo/scan_stream.go:265-271 | replanned sources go before those still queued |
| `ResultStream.Stream.OpenNextSession` | accumulo/scan_stream.go:245-262 | opens, replans, ends or fails, and delivered plus ahead is kept; a source that can be started is, and one that must and can be replanned is replaced by its new sources before the rest of the queue |
| `ResultStream.Stream.TakeTurn` | accumulo/scan_stream.go:197-239 | one turn of the loop ends, replans, or fetches from the session that is open or started, exactly as the specification of a turn says |
| `ResultStream.Stream.FinishSession` | accumulo/scan_stream.go:275-290 | a drained session is released and nothing is lost |
| `ResultStream.Stream.Receive` | accumulo/scan_stream.go:212-226 | the whole batch fetched becomes pending, also when it came with an error, which waits behind it |
| `ResultStream.Stream.Advance` | accumulo/scan_stream.go:197-240 | the loop hands out the next entry or ends the stream, with at most one session open and everything fetched delivered or pending |
| `ResultStream.Stream.Next` | accumulo/scan_stream.go:172-240 | a buffered entry comes before the error fetched with it, the error comes next, an ended stream stays ended; until it is closed whatever was fetched was delivered or is pending; without an error it returns an entry exactly when one is left; a call that gets through leads where its schedule says |
| `ResultStream.Stream.Close` | accumulo/scan_stream.go:337-356 | releases the session once, drops what was buffered, keeps an earlier error, is idempotent |
| `ResultStream.OpenStream` | accumulo/scan_stream.go:118-151 | plans every range and expects their entries in the order given; fails if and only if there is no range, a nil one or a failed location |
| `ResultStream.QuietGetsThrough` | accumulo/scan_stream.go:197-239 | servers that start every scan and return it whole let every call through that may try every segment |
| `ResultStream.RunStream` | accumulo/scan_stream.go:172-356 | over every run, tablets moving between any two locations: what was returned is a prefix of the expected entries, all of them when done without error; a stream that ended without being closed has returned every entry fetched, also those fetched with an error; every opened session is closed by the end; every schedule that gets through, with starts, relocations, replans and batches cut anywhere, ends without an error and has returned everything |
| `TableSplits.NormalizeSplitRows` | accumulo/table_add_splits.go:513-535 | the same rows, strictly ascending; refused if and only if there is none or one is empty, naming the first empty one |
| `TableSplits.WithoutRows` | accumulo/table_add_splits.go:539-555 | filtering leaves exactly the rows not completed |
| `TableSplits.WithoutAscends` | accumulo/table_add_splits.go:539-555 | filtering keeps strict order |
| `TableSplits.RemoveSplitRows` | accumulo/table_add_splits.go:539-555 | the first slots of the same array hold what is left, in order |
| `TableSplits.FindSplitTablet` | accumulo/table_add_splits.go:494-509 | the tablet found holds the row; over tablets that do not overlap, none is found if and only if none holds it |
| `TableSplits.PlanTableSplits` | accumulo/table_add_splits.go:456-488 | every pending row is strictly inside the tablet it is requested for, already a tablet's end, or held by none; one request and one refresh per tablet, each request's rows in ascending order |
| `SplitRounds.RefreshExisting` | accumulo/table_add_splits.go:383-416 | the rows reported are the non-empty end rows of the extents the manager accepted |
| `SplitRounds.ApplySplitPlan` | accumulo/table_add_splits.go:339-376 | groups are tried in order until the context ends, whatever earlier ones answered, with one request each; completed rows are the refreshed ones and those of groups reported split, even beside an error |
| `SplitRounds.RowsAccounted` | accumulo/table_add_splits.go:295-333 | after any number of rounds the requested rows are the disjoint union of confirmed and pending rows |
| `SplitRounds.PendingAscends` | accumulo/table_add_splits.go:539-555 | pending rows stay strictly ascending through all rounds |
| `SplitRounds.RequestsStayInside` | accumulo/table_add_splits.go:339-376 | every row ever submitted is strictly inside its tablet, was pending and had not been confirmed |
| `SplitRounds.CompletedAreBoundaries` | accumulo/table_add_splits.go:339-416 | what a truthful round completes is a tablet boundary after it |
| `SplitRounds.ConfirmedAreBoundaries` | accumulo/table_add_splits.go:295-333 | against a truthful manager and without merges, every confirmed row is a boundary when the run ends |
| `SplitRounds.CleanRoundLeavesUnresolved` | accumulo/table_add_splits.go:295-333 | a round in which everything submitted is confirmed leaves only rows no tablet holds |
| `SplitRounds.AddSplits` | accumulo/table_add_splits.go:295-333 | the round loop over the given rounds in order: nil if and only if the last round left nothing and did not fail; no round follows a failed one; the budget is kept; every other ending has its cause |
| `SplitRounds.AddTableSplits` | accumulo/table_add_splits.go:209-268 | the whole call: the log is the given rounds in order, confirmed and pending rows are the caller's rows, nil if and only if the last round left nothing and did not fail, a reply that fails ends the run as a failed operation, and nil means every row is a boundary of any truthful table |
| `TableConstraints.ParseFormat` | accumulo/table_constraints.go:264-287 | parsing a formatted number gives it back |
| `TableConstraints.ParseForms` | accumulo/table_constraints.go:264-287 | a sign or a leading zero is accepted and changes nothing but the sign; beyond 32 bits there is no number |
| `TableConstraints.KeyNumber` | accumulo/table_constraints.go:264-287 | a constraint's property name reads back as its number, if positive |
| `TableConstraints.ParseConstraints` | accumulo/table_constraints.go:264-287 | exactly the properties with a positive 32-bit suffix and a class, sorted by number, whatever order the map is walked in |
| `TableConstraints.NextConstraintNumber` | accumulo/table_constraints.go:291-301 | the lowest free number from one, counting in 32 bits |
| `TableConstraints.NextNumberBound` | accumulo/table_constraints.go:291-301 | the search stops within one more than the count installed |
| `TableConstraints.ConstraintNumberOf` | accumulo/table_constraints.go:304-311 | the lowest number of the class, if it is installed |
| `TableConstraints.ChosenIsFree` | accumulo/table_constraints.go:83-93 | the chosen number is used neither by the table nor by anything the call could see |
| `TableConstraints.WinningWrite` | accumulo/table_constraints.go:91-100 | a write that wins changes one property, keeps every installed constraint, adds one under a free number, and leaves no class under two numbers |
| `TableConstraints.WinningWriteAddsOneKey` | accumulo/table_constraints.go:91-100 | a winning write adds exactly one key unless the lowest number not visible has an empty property of the table's own, or all numbers are taken and the property of the wrapped one is there |
| `TableConstraints.EveryRunHasNoEmpty` | accumulo/table_constraints.go:57-109 | a table without empty constraint properties never gets one, over every interleaving |
| `TableConstraints.EveryWinningWriteAddsOneKey` | accumulo/table_constraints.go:91-100 | so along every run from such a table every winning write, while a number is free, adds exactly one key |
| `TableConstraints.EmptyPropertyIsReplaced` | accumulo/table_constraints.go:264-287 | a store where the write replaces an empty constraint property instead |
| `TableConstraints.RemoveKeeps` | accumulo/table_constraints.go:245-259 | removal installs nothing |
| `TableConstraints.RemovalRemoves` | accumulo/table_constraints.go:245-259 | after a removal the number is free if and only if no other property, written with a sign or zeros, names it |
| `TableConstraints.LeadingZeroSurvives` | accumulo/table_constraints.go:264-287 | a table where a removal leaves its number installed |
| `TableConstraints.EveryRemovalRemoves` | accumulo/table_constraints.go:245-259 | from a table whose properties are named as AddConstraint names them, along every run, a removal leaves its number free |
| `TableConstraints.NextKeeps` | accumulo/table_constraints.go:57-109 | every step of every client keeps one number per class, also when a write's answer is lost |
| `TableConstraints.EveryRunKeeps` | accumulo/table_constraints.go:57-109 | over every interleaving of any number of clients no class is ever under two of the table's own numbers |
| `TableConstraints.OnlyRemovalUninstalls` | accumulo/table_constraints.go:245-259 | no step but removing its own number takes an installed constraint away or overwrites it |
| `TableConstraints.Decide` | accumulo/table_constraints.go:83-91 | parse, look up and number search decide what the protocol's step decides |
| `TableConstraints.AddConstraint` | accumulo/table_constraints.go:57-109 | the attempt loop: a write is made only when the class is not visible and proposes what the protocol's step would, all but the last met a conflict, and each outcome, failure included, follows from the last attempt |
| `HadoopVLong.AppendVLong` | hdfs/hdfs.go:461-483 | the counting and shifting loops, in signed bytes without overflow, append the code of the value |
| `HadoopVLong.HeadFixesLength` | hdfs/hdfs.go:461-483 | one to nine bytes; the head alone fixes sign and length; one byte if and only if the value is in -112..127 |
| `HadoopVLong.DecodeEncode` | hdfs/hdfs.go:461-483 | taking the encoder's own body length recovers every 64-bit value and what follows it |
| `HadoopVLong.PrefixFree` | hdfs/hdfs.go:461-483 | the code is injective and prefix-free |
| `HadoopVLong.EncodeDecode` | hdfs/hdfs.go:461-483 | a byte string is a code the encoder writes if and only if it is the shortest for a 64-bit value |
| `HadoopVLong.InputStream.ReadBytes` | hdfs/hdfs.go:291-298 | all the bytes asked for, or an error with the stream at its end |
| `HadoopVLong.InputStream.ReadVLong` | hdfs/hdfs.go:485-512 | value and bytes taken, as a function of the bytes ahead |
| `HadoopVLong.InputStream.ReadText` | hdfs/hdfs.go:324-337 | a length, then that many bytes; a negative length is refused |
| `HadoopVLong.FoldBytes` | hdfs/hdfs.go:504-507 | the shift-and-or loop in 64 bits |
| `HadoopVLong.WrapFoldIsFold` | hdfs/hdfs.go:504-507 | its result is the big-endian number of all the bytes, cut to 64 bits |
| `HadoopVLong.ReaderAsksOneMore` | hdfs/hdfs.go:494-500 | the reader takes exactly one byte more than was written, unless the code is one byte |
| `HadoopVLong.ReaderAgreesExactly` | hdfs/hdfs.go:485-512 | the reader recovers value and place if and only if the value is in -112..127; the value alone also when all eight body bytes equal the byte that follows; it fails if and only if a longer code ends the stream |
| `HadoopVLong.StringRoundTrip` | hdfs/hdfs.go:420-426 | whatever follows, a string is read back up to its end if and only if it is at most 127 bytes long; with nothing behind it a longer one is never read back |

## Left out

- Multi-scan sessions, their followers and the matching of failed segments: the result order is the server's, which adds side conditions rather than depth.
- The Thrift form of keys and ranges: it does not denote the key set `Contains` does, so a session is modelled as the entries of the range whose rows its tablet holds.
- Location retries in the scanner: each location is one answer, a tablet that holds the row or a failure.
- The stream of a single `Scanner`: the same cursor over one segment that may not be replanned.
- Goroutines, timers, wake-ups and locks: each locked section is one step, and server plans are sent one after the other in plan order, so no two of them interleave.
- Backoff and jitter of the retry schedules: floating point that no theorem needs.
- Error texts, error wrapping and the descriptive fields of a rejection: errors are kinds, with the parser's offsets kept.
- The expression check of `EvaluateTree` and nil receivers of `Authorizations`: one-line guards.
- The wire conversion of a mutation in `Add`: its failure returns before the buffer is touched, like that of an empty mutation.
- Overflow of the writer's byte count and of the evaluator's generation counter: both are unbounded here.
- Table resolution, table state, table identity and manager discovery before the first split round: plumbing.
- The FATE encoding of a split request: whether it fails is part of the round's script.
- Conditional writer, connector, admin, security, namespace and property calls, `rfile/`, `cmd/`, `capi/`, `python/` and `deploy/`: wrappers over code outside the model.
- RunStream: asks that no range can end just past a tablet, because the code loses entries otherwise; `ResultStream.CompleteExactlyWhen` shows the condition is exact.
