# Verification of the Ra optimizer's adaptive core

This project models, in Dafny, the parts of the Ra query optimizer whose behaviour is hardest to see
from any single function, and proves what they keep over whole runs, over all texts and over all inputs.

**Adaptive execution** (`Options`, `RelAlgebra`, `RuntimeStats`, `Triggers`, `PlanSwitch`, `Checkpoints`,
`ExecutorSpec`, `Executor`, `JoinSwap`, `ExecutorRuns`, `TriggerCounts`, `MemoryTriggers`, `NoThrashing`,
`ThrashingRuns`, `EvaluationCount`, `RowCounts`). The executor is a class that updates statistics, checkpoints,
strategies, the plan and the adaptation log in place. A ghost list of the calls made so far ties it to a state
machine (`Valid()`), and the theorems are about every run of that machine: when the plan keeps its meaning, that
adaptations target unfinished operators, when strategies settle, that the log replays to the state. The meaning of a
plan is the bag of its rows over named columns.

**Body stripper** (`Text`, `BodyLexer`, `BodyStripper`, `GrammarStrip`, `Promotion`, `Translation`, `BraceKinds`,
`GrammarItems`, `ItemGrammars`, `StripperLimits`). The script's loops are methods over positions in the text; they
are proved equal to a left-to-right reading of the text, and that reading to a transformation of a grammar: first of
gaps and balanced bodies, and then of directives and productions with markers, C actions and Rust twins. Braces are
matched exactly when the body can be parsed into strings, comments and nested braces. The translation of a body is
characterised by its words and by its discards, without reference to the code that performs it.

**Rule extraction at build time** (`SexpScanner`, `SexpTheorems`, `ScannerReach`, `PatternDesugar`,
`RewriteExtraction`, `Whitespace`, `StructuredRewrite`, `MacroReader`). The character scanner is proved to decide a
property of the printed tree, textual replacement to be a transformation of the tree, and the search for macro calls
to find exactly the calls that a text was made of. A reader of macros gets back what a block said from the macro
made of it.

**Ternary cost model** (`PackedTernary`, `Quantize`, `FloatArithmetic`, `Dimensions`, `CostModel`, `TrainingSpec`,
`Trainer`, `TrainingRuns`, `Gradients`, `Predictions`, `OptimizerSteps`). Packing is on bit vectors, quantisation on
reals. Inference and training compute with an arithmetic that is a parameter, so that the results hold however
additions and multiplications round; where a law is needed (zero times anything is zero), it is a hypothesis, and
exact arithmetic is shown to have it. What the network computes, what its gradients are and how far the optimizer
moves a weight is proved in exact arithmetic.

**Benchmark statistics, batches and cache keys** (`Outliers`, `CriticalValue`, `QError`, `BatchSpec`,
`BatchExecutor`, `BatchRuns`, `BatchDecisions`, `QueryKey`, `RealFacts`).

Methods and classes follow the code that updates things step by step; each is proved against a specification
function, and the theorems are lemmas about those functions. Where the code does not do what its comments or
tests promise, the code was kept: a lemma gives an input for which the promise fails, and another the exact
condition under which it holds.

## What the code does not promise

- A swap recommended for any operator swaps the inputs of the root of the plan. For semi and anti joins at the
  root this changes the result (`JoinSwap.SemiAntiSwapCounterexample`); for the others it never does.
- Strategies can move back and forth: when rows are reported after a completion that lowered the count of an
  operator switched up (`NoThrashing.LateRowsThrash`), when an operator registers again
  (`ThrashingRuns.RenewedThrashes`), and even with reports in order when the product of the two cardinality ratios is
  below one (`NoThrashing.SettlesExactly`). The ratios are not checked when a configuration is made. For an operator
  that registers once the runs in which it happens are known exactly (`ThrashingRuns.SettlesUnlessRelapsing`).
- Skew triggers never fire through the executor's calls (`MemoryTriggers.SkewNeverFires`), and memory triggers only
  for a negative memory ratio, since nothing the calls report fills a sketch or measures memory. The ratio is not
  checked either: when it is negative and adaptation is possible, an operator can spill, except under limits so low
  that row counts always come first (`MemoryTriggers.OnlyRowCountsExactly`).
- The stripper is not idempotent on all grammars. A second run can stop when a translated `(void)` statement
  contains the newline that closes a line comment, and can change its input when a `]` in front of a body closes a
  bracket of an earlier gap (`StripperLimits`). It is idempotent when brackets are closed in their own gaps and the
  translated bodies are balanced (`GrammarStrip.SecondRunChangesNothing`, `Promotion.Idempotent`); a translation is
  balanced exactly when its body is with each newline in a discard read as a space
  (`Promotion.PromoteBalancedExactly`). In all cases a run leaves its input alone exactly when all braces match and
  no body is a rule's (`Promotion.FixedPointExactly`).
- The stripper says that it classifies a brace by the last token that is not a comment, and that it never touches
  directives. It reads the comments: behind `// see docs.` a directive's body is taken for a rule's, and behind
  `/* note */` a rule's is not (`StripperLimits.CommentsMislead`). A brace in a comment between bodies opens a body
  (`StripperLimits.BraceInComment`). For comments that close their braces the output is the promised one exactly when
  the last comment before every brace leaves its kind alone and no braces in a comment are behind the end of a rule
  (`GrammarItems.StripsExactly`).
- The pattern scanner reads a head up to a space or `)` only, so a head before a line break is rejected, and it
  does not count a parenthesis that touches the token before it (`SexpTheorems`). The layouts that it decides
  correctly under every table of operators are known exactly (`ScannerReach.DecidesExactly`).
- Trimming a call and dropping its trailing comma are without effect in `normalize_rewrite_code`: every call
  starts with the marker and ends with a parenthesis (`RewriteExtraction.CallsDelimited`).
- The comment on `QueryKey` speaks of case folding; the code keeps letter case, so that queries which
  differ in case share a key only when they are the same (`QueryKey.CaseIsKept`).
- Quantising a quantised matrix again can lose its codes (`Quantize.RequantisingCanLoseCodes`).
- An unobserved output does move under weight decay, which is on by default (`TrainingRuns.DecayMovesUnobserved`).
- Row-count corrections are overwritten when the next snapshot is loaded (`BatchRuns.NextSnapshotForgetsCorrections`).
  They depend on hash-map order, already for two tables of equal size (`BatchRuns.FeedbackOrderMatters`), unless all
  feedback that matches a table prescribes the same count (`BatchRuns.OrderFreeExactly`).
- Running a batch executor again without a reset appends to the old history (`BatchRuns.HistoriesAccumulate`).

## Model

| member | source | states |
|---|---|---|
| RelAlgebra.EvalColumns | crates/ra-core/src/algebra.rs:112-155 | every row that a well-formed plan returns has exactly the plan's columns |
| JoinSwap.PairsExchange | crates/ra-adaptive/src/plan_switch.rs:139-165 | the bag of joined pairs is the same whichever input the outer loop runs over (exchange of the double sum) |
| JoinSwap.UnmatchedExchange | crates/ra-adaptive/src/plan_switch.rs:151-155 | the null-padded right rows before a swap are the null-padded left rows after it |
| JoinSwap.SwapTwice | crates/ra-adaptive/src/plan_switch.rs:143-165 | swapping the inputs of a join is its own inverse |
| JoinSwap.SwapKeepsMeaning | crates/ra-adaptive/src/plan_switch.rs:143-165 | for inner, cross and the three outer joins, all inputs, databases and conditions, the swapped join returns the same bag of rows |
| JoinSwap.SemiAntiSwapKeepsOnlyEmptyResults | crates/ra-adaptive/src/plan_switch.rs:151-155 | the swap of a semi or anti join returns the same bag exactly when both return nothing |
| JoinSwap.SemiAntiSwapCounterexample | crates/ra-adaptive/src/plan_switch.rs:151-155 | two one-row tables on which swapping a semi or anti join changes the result |
| JoinSwap.SwapSafeExactly | crates/ra-adaptive/src/plan_switch.rs:143-165 | swapping is safe for all inputs exactly for the join types other than semi and anti |
| PlanSwitch.RecommendationTargetsTrigger | crates/ra-adaptive/src/plan_switch.rs:107-212 | a recommendation targets the triggering operator, is never a new plan, starts from the strategy in force and always changes it, to hash join on an underestimate and nested loop otherwise |
| PlanSwitch.RecommendationExactly | crates/ra-adaptive/src/plan_switch.rs:107-212 | skew always swaps and memory pressure always spills; what each cardinality event leads to from each strategy, and exactly when nothing is recommended |
| RuntimeStats.RatioGrowsWithRows | crates/ra-adaptive/src/runtime_stats.rs:49-60 | counting more rows, with saturation, never lowers the ratio of a positive estimate |
| RuntimeStats.PlanStats.RecordRows | crates/ra-adaptive/src/runtime_stats.rs:170-177 | rows are added, with saturation, to a registered operator only, and the result says whether there was one |
| Triggers.TriggerSet.CheckOperator | crates/ra-adaptive/src/triggers.rs:123-129 | the events of an operator are those of the three checks, in order |
| Triggers.TriggerSet.CheckCardinality | crates/ra-adaptive/src/triggers.rs:131-159 | pushes exactly the cardinality events behind the events already there |
| Triggers.TriggerSet.CheckSkew | crates/ra-adaptive/src/triggers.rs:161-180 | pushes an event for the first skewed column and none else |
| Triggers.TriggerSet.CheckMemory | crates/ra-adaptive/src/triggers.rs:182-206 | pushes a memory event exactly when the ratio to the truncated budget exceeds the limit |
| Triggers.EventsExceedThreshold | crates/ra-adaptive/src/triggers.rs:123-206 | every event names the checked operator and has a deviation above its threshold |
| Triggers.CardinalityEventsSound | crates/ra-adaptive/src/triggers.rs:131-159 | with ratios of at least one, underestimate events mean more rows than estimated and overestimate events fewer, so they exclude each other |
| Triggers.SkewEventsSound | crates/ra-adaptive/src/triggers.rs:161-180 | at most one skew event, and none exactly when no column is skewed |
| TriggerCounts.CardinalityExactly | crates/ra-adaptive/src/triggers.rs:131-159 | which cardinality events occur, from the row count, the estimate and the limits without division, negative estimates included |
| TriggerCounts.CardinalityFromCounts | crates/ra-adaptive/src/triggers.rs:140-157 | the deviation of an underestimate times the estimate is the row count, and of an overestimate times the row count the estimate |
| TriggerCounts.MemoryFromCounts | crates/ra-adaptive/src/triggers.rs:182-206 | memory pressure occurs exactly for a peak above the limit times the truncated budget of eight bytes a row, unless that is zero, and its deviation times the budget is the peak |
| TriggerCounts.SkewExactly | crates/ra-adaptive/src/triggers.rs:161-180 | skew occurs exactly when in some non-empty column the most frequent value has more than its fraction of the rows |
| TriggerCounts.SkewFromCounts | crates/ra-adaptive/src/triggers.rs:168-178 | it is reported for the first such column, with a deviation that times the total is the count of that value |
| Checkpoints.CheckpointManager.Record | crates/ra-adaptive/src/checkpoint.rs:119-131 | appends one checkpoint whose sequence number is its index |
| Checkpoints.CheckpointManager.FindLast | crates/ra-adaptive/src/checkpoint.rs:135-140 | finds the last checkpoint of an operator, from the end of the list |
| Checkpoints.CheckpointManager.Safe | crates/ra-adaptive/src/checkpoint.rs:150-172 | answers whether a transition is safe, as the specification of safety has it |
| Checkpoints.CheckpointManager.MarkMaterialized | crates/ra-adaptive/src/checkpoint.rs:187-199 | marks the latest checkpoint of the operator and changes nothing else |
| Checkpoints.LatestHasGreatestSequence | crates/ra-adaptive/src/checkpoint.rs:135-140 | the latest checkpoint of an operator has the greatest sequence number of its checkpoints |
| Executor.AdaptiveExecutor.WithConfig | crates/ra-adaptive/src/executor.rs:137-151 | a new executor is in the initial state, with no calls made |
| Executor.AdaptiveExecutor.RegisterOperator | crates/ra-adaptive/src/executor.rs:154-158 | the new state is that of the state machine after the call, and the call is remembered |
| Executor.AdaptiveExecutor.RegisterJoin | crates/ra-adaptive/src/executor.rs:162-165 | the same for joins, whose strategy is set as well |
| Executor.AdaptiveExecutor.ReportRows | crates/ra-adaptive/src/executor.rs:179-197 | the same for reported rows, with the adaptations returned being those added to the log |
| Executor.AdaptiveExecutor.ReportCompleted | crates/ra-adaptive/src/executor.rs:200-207 | the same for completion, whether or not adaptation is enabled |
| Executor.AdaptiveExecutor.ForceEvaluate | crates/ra-adaptive/src/executor.rs:211-216 | the same for a forced evaluation |
| Executor.AdaptiveExecutor.EvaluateAndAdapt | crates/ra-adaptive/src/executor.rs:265-298 | the loop over events applies and logs exactly what the state machine does, and stops at the limit |
| Executor.AdaptiveExecutor.TryAdapt | crates/ra-adaptive/src/executor.rs:300-319 | applies a recommendation exactly when there is one and it is safe |
| Executor.AdaptiveExecutor.ApplyInPlace | crates/ra-adaptive/src/executor.rs:321-338 | changes the strategy or the plan as the adaptation says and nothing else |
| ExecutorRuns.ApplyKeepsInvariant | crates/ra-adaptive/src/executor.rs:153-324 | one call keeps the invariant, only appends to the log, and adapts only its own, unfinished operator |
| ExecutorRuns.ReachableStates | crates/ra-adaptive/src/executor.rs:153-298 | in every reachable state latest checkpoints agree with row counts and have the greatest sequence, sequences are indices, the log is as long as the count and within the limit, and every logged deviation exceeds its threshold |
| ExecutorRuns.AdaptationsAreSafe | crates/ra-adaptive/src/executor.rs:265-319 | whatever the calls so far, the next one applies adaptations only to its operator, before its completion, at the rows it has emitted |
| ExecutorRuns.OnlyRowCountsAdapt | crates/ra-adaptive/src/executor.rs:153-216 | with a memory ratio that is not negative, every adaptation logged in any run was triggered by a row count, and none is a spill |
| MemoryTriggers.OnlyRowCountsExactly | crates/ra-adaptive/src/executor.rs:153-298 | that is so for every run exactly when adaptation is disabled or limited to none, the memory ratio is not negative, or one adaptation is allowed and the cardinality limits are so low that it always goes to a row count |
| MemoryTriggers.SkewNeverFires | crates/ra-adaptive/src/executor.rs:153-298 | under no configuration does any run log an adaptation triggered by skew |
| MemoryTriggers.IdleOperatorSpills | crates/ra-adaptive/src/triggers.rs:182-206 | with a negative memory ratio two calls make an operator without rows spill |
| ExecutorRuns.PlanFollowsLog | crates/ra-adaptive/src/executor.rs:321-338 | the plan in force is the original or its swap, by the parity of the swaps logged |
| ExecutorRuns.RunsKeepMeaning | crates/ra-adaptive/src/executor.rs:265-338 | no run changes what the query returns unless its root is a semi or anti join |
| ExecutorRuns.RunThatSwaps | crates/ra-adaptive/src/executor.rs:179-197 | under the default configuration two calls swap the root join |
| ExecutorRuns.RunsSafeExactly | crates/ra-adaptive/src/executor.rs:265-338 | all runs preserve all queries with a root join of a type exactly when the type is not semi or anti |
| ExecutorRuns.LogReplays | crates/ra-adaptive/src/executor.rs:265-338 | at every moment of a run the history of registrations and logged switches so far, replayed in order, gives the strategies in force, and each switch starts from the strategy then in force |
| NoThrashing.StrategySettles | crates/ra-adaptive/src/executor.rs:179-338 | with positive ratios whose product is at least one, a node registered once, and no rows after a completion that lowered its count once an underestimate had switched it, the node switches at most once on an overestimate and then at most once on an underestimate, never back |
| NoThrashing.ExclusiveExactly | crates/ra-adaptive/src/triggers.rs:131-159 | no row count and estimate exceed both limits exactly when the product of the positive ratios is at least one, or the first ratio is larger than any that can be measured |
| NoThrashing.SettlesExactly | crates/ra-adaptive/src/executor.rs:179-338 | enabled, with positive ratios and room for two adaptations, all such runs settle exactly for those configurations |
| NoThrashing.OverlapThrashes | crates/ra-adaptive/src/executor.rs:265-298 | where both limits are exceeded at once, two or three calls in order move a strategy up and down again |
| NoThrashing.LateRowsThrash | crates/ra-adaptive/src/executor.rs:179-207 | five calls, with rows after a completion that lowered the count, switch a strategy down, up and down again |
| ThrashingRuns.EvaluateSwitches | crates/ra-adaptive/src/executor.rs:265-298 | what one evaluation switches: up, down, both or nothing, from the row count, the limits, the strategy and the adaptations left |
| ThrashingRuns.SettlesUnlessRelapsing | crates/ra-adaptive/src/executor.rs:179-338 | under every configuration, the strategy of a node that registers once settles exactly when no call evaluates the node while it is open, has the minimum of rows but too few, and has an adaptation left, after an underestimate has switched it up |
| ThrashingRuns.RenewedThrashes | crates/ra-adaptive/src/executor.rs:153-197 | four calls, with a second registration and no completion, switch a strategy up and down again |
| EvaluationCount.EvaluationsOfEqualReports | crates/ra-adaptive/src/executor.rs:179-197 | k equal reports evaluate triggers k / (interval / gcd) times, as long as the counter does not saturate |
| EvaluationCount.GcdIsGreatest | crates/ra-adaptive/src/executor.rs:192-194 | what the period is computed from: a common divisor that every common divisor divides |
| RowCounts.RowsExactly | crates/ra-adaptive/src/executor.rs:154-207 | in every run an operator has the rows it was last completed with, or none if it registered since, plus all reported ones unless adaptation is disabled, with saturation; its estimate is the one it was registered with |
| RowCounts.ReportEvaluatesExactly | crates/ra-adaptive/src/executor.rs:179-197 | a report evaluates triggers exactly when adaptation is enabled and the interval divides the count then reached, an interval of zero dividing only zero |
| BodyLexer.SkipString | scripts/strip_inline_c_bodies.py:139-151 | returns the end of the literal, escapes and missing closing quotes included |
| BodyLexer.MatchBrace | scripts/strip_inline_c_bodies.py:111-136 | the loop finds exactly the match of the recursive scanner; no match stands for the exception |
| BodyLexer.PassesOver | scripts/strip_inline_c_bodies.py:111-136 | at every depth the scanner passes over a well-formed body without finding a match |
| BodyLexer.BalancedExactly | scripts/strip_inline_c_bodies.py:111-151 | a text is matched up to its last brace exactly when it is the print of a tree of characters, literals, comments and nested braces |
| BodyLexer.MatchedBody | scripts/strip_inline_c_bodies.py:111-136 | a matched body is balanced, and matched alike in every source that has the same text in the braces |
| BodyStripper.ClassifyOpen | scripts/strip_inline_c_bodies.py:81-108 | the backward loops give the kind of the text before the brace, with its bracket marker and 41-character window |
| BraceKinds.KindExactly | scripts/strip_inline_c_bodies.py:81-104 | a text is a rule's exactly when it ends in a dot and spaces, possibly followed by one bracketed marker and spaces |
| BraceKinds.TwinExactly | scripts/strip_inline_c_bodies.py:154-171 | a twin is announced exactly when spaces and closed comments lead up to the keyword |
| BraceKinds.NoteDecides | scripts/strip_inline_c_bodies.py:68-104 | the last comment before a brace decides alone whether the brace is a rule's: it is behind a line comment that reads like the end of a rule, and behind no other |
| BodyStripper.NextNonspaceIsActionRust | scripts/strip_inline_c_bodies.py:154-171 | skips spaces and comments as the recursive reading does |
| BodyStripper.FindBodies | scripts/strip_inline_c_bodies.py:61-78 | yields exactly the bodies of the text, in order, or fails |
| BodyStripper.CollectEdits | scripts/strip_inline_c_bodies.py:182-206 | one edit per rule body, with its twin deleted or its text promoted |
| BodyStripper.Transform | scripts/strip_inline_c_bodies.py:182-215 | editing back to front gives the text read once from left to right; a report leaves the source alone |
| BodyStripper.SplicesToStripped | scripts/strip_inline_c_bodies.py:211-215 | the edits of a text, spliced into it, give its left-to-right reading from every position |
| GrammarStrip.KindLocal | scripts/strip_inline_c_bodies.py:81-108 | the kind of a body behind another one depends on its own gap only |
| GrammarStrip.KindAnchored | scripts/strip_inline_c_bodies.py:81-108 | text put in front of a gap that starts with a directive or comment does not change the kind behind it |
| GrammarStrip.TextFollowsGrammar | scripts/strip_inline_c_bodies.py:61-215 | the output for a printed list of gaps and bodies is that list stripped by the kinds of its gaps, printed: everything outside edited bodies is unchanged |
| GrammarItems.StripsExactly | scripts/strip_inline_c_bodies.py:11-36 | every source made of spacing, comments, plain text, directives, and productions with optional marker, C action and twin is accepted, and the output is the same items without C actions, exactly when no comment in front of a brace changes what the brace opens and no braces in a comment are behind the end of a rule; item by item nothing else changes, and an action without a twin becomes one whose body is its translation word by word |
| GrammarItems.SecondRunOnItems | scripts/strip_inline_c_bodies.py:11-18 | on such sources without such comments a second run returns its input, the stripped items, when the promoted actions are balanced with their discards on one line |
| ItemGrammars.RerunOnItems | scripts/strip_inline_c_bodies.py:11-18 | a second run returns its input whatever the comments do, when all bodies that the script translates are balanced with their discards on one line |
| GrammarStrip.SecondRunChangesNothing | scripts/strip_inline_c_bodies.py:11-18 | with local brackets and balanced promotions a second run returns its input |
| GrammarStrip.AcceptedExactly | scripts/strip_inline_c_bodies.py:61-78 | the script raises no error on exactly the printed grammars |
| Translation.PromoteExactly | scripts/strip_inline_c_bodies.py:53-58 | a text is the translation of a body exactly when it arises so: the body cut into maximal words and other characters, each word `pstate` replaced by `ctx.user`, the result cut into the discards that stand in it from left to right and the text between them, each discard replaced by `let _ = w;` |
| Translation.DiscardExactly | scripts/strip_inline_c_bodies.py:56-57 | a discard is found exactly where `(void)`, spaces, a word, spaces and a semicolon follow one another |
| Promotion.PromoteBalancedExactly | scripts/strip_inline_c_bodies.py:53-58 | the translation of any body is balanced exactly when the body is with each newline in a discard read as a space |
| Promotion.KeptCommentsJoin | scripts/strip_inline_c_bodies.py:53-58 | so is every balanced body in which no discard contains the newline that closes a line comment |
| Promotion.Idempotent | scripts/strip_inline_c_bodies.py:182-215 | the script is idempotent on every grammar with local brackets whose translated bodies are balanced with their discards on one line |
| Promotion.PlainCodeKeepsComments | scripts/strip_inline_c_bodies.py:56-57 | in a body whose parse has no line comment no discard contains such a newline, however many lines it spans |
| Promotion.FixedPointExactly | scripts/strip_inline_c_bodies.py:182-215 | a run returns any source unchanged exactly when all its braces are matched and no body of it is a rule's |
| StripperLimits.SplitDiscardBreaksRerun | scripts/strip_inline_c_bodies.py:54-58 | a grammar with a discard around the end of a line comment, whose output a second run cannot read |
| StripperLimits.StrayBracketBreaksRerun | scripts/strip_inline_c_bodies.py:94-102 | a grammar with a stray bracket whose output a second run changes |
| StripperLimits.CommentsMislead | scripts/strip_inline_c_bodies.py:68-108 | a directive that loses its body to a comment ending in a dot, and a rule that keeps its action behind a comment |
| StripperLimits.BraceInComment | scripts/strip_inline_c_bodies.py:61-78 | a comment with an opening brace that the script fails on, and one whose text it rewrites |
| SexpScanner.CountChildrenAt | crates/ra-engine/build.rs:807-844 | the loop with its depth and token flag counts what the recursive reading counts |
| SexpScanner.CheckSexpInvalid | crates/ra-engine/build.rs:721-772 | the loop rejects exactly what the recursive reading rejects |
| SexpScanner.LookupExactly | crates/ra-engine/build.rs:682-687 | the operator looked up is the first of its name |
| SexpTheorems.CountIsSeenKids | crates/ra-engine/build.rs:807-844 | at every depth and before any text, the count is the number of children that the layout shows |
| SexpTheorems.ScannerExactly | crates/ra-engine/build.rs:721-772 | in every layout, the scanner rejects a printed term exactly when it faults some node |
| SexpTheorems.ScannerDecidesWellFormedness | crates/ra-engine/build.rs:721-772 | in every spaced layout, it rejects exactly the terms with a variable or unknown head or a wrong number of children |
| ScannerReach.DecidesExactly | crates/ra-engine/build.rs:721-844 | a layout is decided correctly under every table of operators exactly when all heads are read right and each operator is written with n children throughout exactly when it is seen with n throughout, or when some head is a variable |
| SexpTheorems.HeadBeforeLineBreakRejected | crates/ra-engine/build.rs:730-734 | a head followed by a tab or line break is always rejected |
| SexpTheorems.GluedChildMiscounted | crates/ra-engine/build.rs:816-822 | a binary node whose second child touches the first is rejected |
| PatternDesugar.NormalizeIsDesugar | crates/ra-engine/build.rs:673-679 | replacing text in a printed term gives the print of the term with its union-all nodes turned into `union true` |
| PatternDesugar.DesugarUnionsKeeps | crates/ra-engine/build.rs:673-679 | desugaring keeps layouts readable and spaced |
| PatternDesugar.NormalizedUnionChecked | crates/ra-engine/build.rs:901-907 | a normalised union-all of two inputs passes the check exactly when its inputs do |
| RewriteExtraction.ScanClosing | crates/ra-engine/build.rs:861-877 | finds the parenthesis that closes the call, if any |
| RewriteExtraction.FindCall | crates/ra-engine/build.rs:857-923 | finds the next marker and where the search goes on, for closed and unclosed calls |
| RewriteExtraction.NormalizeCode | crates/ra-engine/build.rs:847-926 | the loop terminates and yields one rule per call found, in order |
| RewriteExtraction.ExpandKeepsDepth | crates/ra-engine/build.rs:851 | expanding the short marker keeps the depth of parentheses |
| RewriteExtraction.CallsDelimited | crates/ra-engine/build.rs:879-884 | every call starts with the marker and ends with a parenthesis |
| RewriteExtraction.CallsFound | crates/ra-engine/build.rs:851-923 | from marker-free gaps and balanced calls, which may nest markers, exactly the calls are found, in order |
| RewriteExtraction.OneRulePerCall | crates/ra-engine/build.rs:847-926 | such a text yields one rule per call, in order |
| StructuredRewrite.ExtractStructuredRewrites | crates/ra-engine/build.rs:281-350 | the loop over lines yields the macro of the rule that the recursive reading collects |
| StructuredRewrite.AnyLine | crates/ra-engine/build.rs:288-300 | every line that is no other heading is one of the items that blocks are made of |
| StructuredRewrite.BlockRead | crates/ra-engine/build.rs:288-328 | a block of fields in any order among blank lines, comments and fences is read as the last value of each field and all conditions in order |
| StructuredRewrite.MacroFound | crates/ra-engine/build.rs:857-878 | a macro with a balanced body is found as it is |
| StructuredRewrite.BlockRecovered | crates/ra-engine/build.rs:281-350 | such a block yields exactly the macro of its fields, pattern or applier, or none when a field is missing; and with balanced fields the search for macros finds that macro as it is |
| MacroReader.BlockReadsBack | crates/ra-engine/build.rs:281-350 | a reader of macro texts gets back from the macro of a block its identifier, its left side, its applier or else its right side, and all conditions in order, when identifier and left side hold no quotes and the rest no line breaks; and there is a macro exactly when left side and applier or right side are there and not empty |
| MacroReader.LastValueExactly | crates/ra-engine/build.rs:307-315 | the value of a field is that of the last item of its name, where an empty `apply:` does not count |
| MacroReader.ConditionsInOrder | crates/ra-engine/build.rs:316-328 | the conditions of two runs of items are those of the first and then those of the second |
| MacroReader.PartsInOrder | crates/ra-engine/build.rs:322-327 | within an item they come part by part, trimmed and without empty ones |
| QueryKey.Normalize | crates/ra-cache-api/src/key.rs:49-64 | the loop computes the collapsed text |
| QueryKey.NewKey | crates/ra-cache-api/src/key.rs:20-35 | the key's text is the words of the query joined by single spaces, and has the same words |
| QueryKey.NormalizedIsJoinedWords | crates/ra-cache-api/src/key.rs:49-64 | the normalised text is the maximal runs of non-white characters joined by single spaces |
| QueryKey.NormalizedWords | crates/ra-cache-api/src/key.rs:49-64 | normalising keeps the words |
| QueryKey.NormalizeTwice | crates/ra-cache-api/src/key.rs:49-64 | normalising is idempotent |
| QueryKey.SameKeyExactly | crates/ra-cache-api/src/key.rs:10-34 | the keys made for two queries agree exactly when their words, profiles and types do |
| QueryKey.CaseIsKept | crates/ra-cache-api/src/key.rs:12-13 | all queries that agree up to letter case share a key exactly when they are the same text |
| QueryKey.UpperCaseKey | crates/ra-cache-api/src/key.rs:12-13 | a query and its upper-cased form share a key exactly when it has no lower-case letter |
| PackedTernary.Packed.Pack | crates/ra-bitnet/src/lib.rs:103-133 | packing then reading is lossless on ternary lists of every length, four to a byte from the lowest bits up with 01 for 1 and 10 for -1, and unused bits stay zero |
| PackedTernary.FillSlot | crates/ra-bitnet/src/lib.rs:115-117 | or-ing a code into an empty slot fills it and leaves the other slots alone |
| Quantize.AbsmeanTernaryPack | crates/ra-bitnet/src/quantize.rs:21-42 | the packed list holds the rounded codes and the scale is the mean magnitude or its fallback |
| Quantize.ScaleExactly | crates/ra-bitnet/src/quantize.rs:28-35 | the mean magnitude is that of a single weight, and of two lists together weighted by their lengths; below 1e-10 the scale is 1 |
| Quantize.CodeOfWeight | crates/ra-bitnet/src/quantize.rs:49-60 | a code is non-zero exactly from half the scale on, with the sign of the weight |
| Quantize.SomeCodeIsNonZero | crates/ra-bitnet/src/quantize.rs:29-40 | a non-empty list with mean magnitude of at least 1e-10 has a non-zero code |
| Quantize.CodesAreOptimal | crates/ra-bitnet/src/quantize.rs:37-40 | no other ternary codes with the same scale have a smaller squared error |
| Quantize.QuantisingReducesError | crates/ra-bitnet/src/quantize.rs:21-42 | the squared error is strictly below that of all-zero codes |
| Quantize.RequantisingExactly | crates/ra-bitnet/src/quantize.rs:28-40 | quantising scale times codes gives the codes back exactly when their mean stays above the fallback limit, the scale is at least 1/2, or all codes are zero |
| Quantize.RequantisingCanLoseCodes | crates/ra-bitnet/src/quantize.rs:35-36 | two weights whose codes are lost the second time |
| CostModel.FlattenAt | crates/ra-bitnet/src/lib.rs:247-250 | cell `[r][c]` is at `r * cols + c` of the row-major flattening |
| CostModel.Unpack | crates/ra-bitnet/src/lib.rs:548-568 | every unpacked cell is its code times the scale |
| CostModel.BitNetCostModel.FromWeights | crates/ra-bitnet/src/lib.rs:238-270 | every fast weight is the code of the source weight at the same place times the scale of its matrix |
| CostModel.BitNetCostModel.RebuildFastWeights | crates/ra-bitnet/src/lib.rs:481-485 | after loading, the fast weights are again what the saved part stands for, so predictions are those of the saved model |
| CostModel.BitNetCostModel.HiddenLayer | crates/ra-bitnet/src/lib.rs:461-479 | the loop over inputs and neurons gives each neuron's own sum in input order, cut off at zero |
| CostModel.BitNetCostModel.PredictCpuMs | crates/ra-bitnet/src/lib.rs:345-352 | returns the prediction of output 0, in any arithmetic |
| CostModel.BitNetCostModel.PredictAll | crates/ra-bitnet/src/lib.rs:361-373 | returns the prediction of every output by the same specification, so its first entry equals `PredictCpuMs` exactly |
| Predictions.PredictionFromMean | crates/ra-bitnet/src/lib.rs:345-373 | in exact arithmetic adding a vector to features and mean changes no prediction, and at the mean softplus is applied to the output bias plus the second weights against the rectified hidden biases |
| Predictions.PredictionChange | crates/ra-bitnet/src/lib.rs:461-479 | where no neuron switches, changing the features changes the input of softplus by the second weights against what passes the active neurons of the first weights against the change, scaled by the inverse deviations |
| Predictions.SignalsExactly | crates/ra-bitnet/src/lib.rs:463-474 | the inputs of the rectifiers are the hidden biases at the mean, and change by the first weights against the scaled change of the features |
| Predictions.PredictsOutputs | crates/ra-bitnet/src/lib.rs:345-373 | a prediction is softplus of the output of the network whose weights are codes times scales, by rows |
| Predictions.ForwardFromMean | crates/ra-bitnet/src/train.rs:468-505 | the trainer's linear outputs do not change either when a vector is added to features and mean, and at the mean are those of the rectified hidden biases |
| Predictions.ForwardChange | crates/ra-bitnet/src/train.rs:468-505 | where no neuron switches they change by the product of both layers' weights against the scaled change of the features |
| FloatArithmetic.ExactObeysZeroLaws | crates/ra-bitnet/src/train.rs:544-550 | exact arithmetic has the laws of zero that the training theorems ask for |
| Trainer.AdamUpdate | crates/ra-bitnet/src/train.rs:535-551 | the loop updates moments and weights element by element from their old values |
| Trainer.ComputeGradNorm | crates/ra-bitnet/src/train.rs:507-531 | the norm is taken over all four gradients in one sum |
| Trainer.MaskedLoss | crates/ra-bitnet/src/train.rs:225-236 | loss and gradient of the observed outputs only |
| Trainer.BitNetTrainer.FromWeights | crates/ra-bitnet/src/train.rs:143-172 | fine-tuning starts from the given weights with zero moments |
| Trainer.BitNetTrainer.NormalizeFeatures | crates/ra-bitnet/src/train.rs:468-474 | each feature is shifted by its mean and scaled |
| Trainer.BitNetTrainer.ForwardHidden | crates/ra-bitnet/src/train.rs:477-489 | sums before and after the rectifier, per neuron in input order |
| Trainer.BitNetTrainer.ForwardOutput | crates/ra-bitnet/src/train.rs:497-505 | linear outputs, per output in neuron order |
| Trainer.BitNetTrainer.BackwardOutput | crates/ra-bitnet/src/train.rs:246-257 | output-weight gradients and what flows back, from the interleaved loop |
| Trainer.BitNetTrainer.BackwardHidden | crates/ra-bitnet/src/train.rs:259-274 | hidden gradients, blocked where the neuron was off |
| Trainer.BitNetTrainer.ApplyGradients | crates/ra-bitnet/src/train.rs:276-343 | clips, decays and moves all four groups of weights, and counts the step |
| Trainer.BitNetTrainer.TrainStepMasked | crates/ra-bitnet/src/train.rs:208-346 | the step in place gives the state and loss of the step function; with nothing observed nothing changes |
| Trainer.BitNetTrainer.TrainBatchMasked | crates/ra-bitnet/src/train.rs:364-381 | a batch gives the state of a run over its samples, and the average loss of those with something observed |
| Gradients.Exchange | crates/ra-bitnet/src/train.rs:251-257 | a matrix's columns weighted by one vector and its rows weighted by another give the same double sum |
| Gradients.OuterLayerGradient | crates/ra-bitnet/src/train.rs:246-257 | in exact arithmetic any change of the second layer changes the linear outputs, weighted by what flows back, by exactly that change against the computed gradients |
| Gradients.InnerLayerGradient | crates/ra-bitnet/src/train.rs:251-274 | so does any change of the first layer that switches no hidden neuron on or off |
| Gradients.LossGradientExpansion | crates/ra-bitnet/src/train.rs:225-236 | moving the outputs changes the masked loss by the computed gradient against the move plus the mean squared move of the observed outputs |
| Gradients.LossIsMeanSquare | crates/ra-bitnet/src/train.rs:225-236 | the loss times the number of observed outputs is the sum of their squared errors |
| TrainingRuns.NeverObservedNeverMoves | crates/ra-bitnet/src/train.rs:189-198 | over any run without weight decay from zero first moments, the weights and bias of a never-observed output do not change, in any arithmetic with the laws of zero |
| TrainingRuns.ExactIsUndecayed | crates/ra-bitnet/src/train.rs:286-288 | exact arithmetic with a sensible configuration meets the hypotheses of that theorem |
| TrainingRuns.HiddenTargetsAreNotRead | crates/ra-bitnet/src/train.rs:225-236 | the whole final state of a run does not depend on targets that the masks hide, in any arithmetic |
| TrainingRuns.DecayMovesUnobserved | crates/ra-bitnet/src/train.rs:298-303 | in exact arithmetic one step moves an unobserved weight exactly when decay, learning rate and the weight are non-zero |
| TrainingRuns.ClippingCapsNorm | crates/ra-bitnet/src/train.rs:276-282 | in exact arithmetic the clipped gradients have the old norm, or the maximal norm where that is less |
| OptimizerSteps.ClipsExactly | crates/ra-bitnet/src/train.rs:276-282 | gradients are scaled by the factor between 0 and 1 that brings the sum of their squares down to the square of the maximal norm, and by 1 if it is not above that |
| OptimizerSteps.StepExactly | crates/ra-bitnet/src/train.rs:276-343 | one step, weight by weight in all four groups, from the clipped gradient, with decay for matrices but not for biases |
| OptimizerSteps.MomentsExactly | crates/ra-bitnet/src/train.rs:535-551 | after any run from zero moments both moments of every weight are sums of what pulled at it, and of the squares of that, with weights (1 - beta) * beta^(n - 1 - i), each moment with its own beta |
| OptimizerSteps.MovesExactly | crates/ra-bitnet/src/train.rs:535-551 | every step of such a run moves every weight down the first of these sums over the root of the second, both corrected for their start |
| OptimizerSteps.ConstantPullDescends | crates/ra-bitnet/src/train.rs:535-551 | as long as the same pull d acts on a weight every step moves it by exactly -lr * d / (abs(d) + eps), so never along the pull |
| OptimizerSteps.FirstStepExactly | crates/ra-bitnet/src/train.rs:276-343 | the first step moves every weight so, with d the clipped gradient plus decay |
| Outliers.SortSorts | crates/ra-bench/src/statistical_analysis.rs:486-487 | what sorting does: the same members in ascending order |
| Outliers.HalfAtMostMedian | crates/ra-bench/src/statistical_analysis.rs:482-494 | at least half of a list, rounded up, is at most its median |
| Outliers.RemovalInOrder | crates/ra-bench/src/statistical_analysis.rs:323-340 | the result picks members from left to right, and picks exactly those whose modified z-score is within the threshold |
| Outliers.MedianExactly | crates/ra-bench/src/statistical_analysis.rs:482-494 | the median is the mean of the two middle members of any ascending list of the same members, or its one middle member |
| Outliers.RemovalExactly | crates/ra-bench/src/statistical_analysis.rs:323-340 | a point stays exactly if 0.6745 times its distance from the median is at most the threshold times the median of these distances, or that median is zero |
| Outliers.HalfIsKept | crates/ra-bench/src/statistical_analysis.rs:323-340 | with a threshold of at least 0.6745 at least half of the data, rounded up, is kept |
| Outliers.HalfIsKeptExactly | crates/ra-bench/src/statistical_analysis.rs:333-339 | half of all data is kept exactly for those thresholds |
| Outliers.MedianOfAffine | crates/ra-bench/src/statistical_analysis.rs:482-494 | the median commutes with every affine map with a non-zero factor, negative ones included |
| Outliers.RemovalIgnoresUnits | crates/ra-bench/src/statistical_analysis.rs:323-340 | outlier removal commutes with every affine map with a non-zero factor, negative ones included |
| CriticalValue.TCriticalValue | crates/ra-bench/src/statistical_analysis.rs:529-550 | for a falling p-value the result separates p above the target from p at most the target to within the last half interval, or is the upper bound when p is still too large there |
| CriticalValue.CrossingIsNear | crates/ra-bench/src/statistical_analysis.rs:526-550 | every crossing of the target lies within 1000 / 2^101 of the result |
| QError.QErrorIsSymmetric | crates/ra-adaptive/src/batch.rs:725-729 | the Q-error is symmetric |
| QError.QErrorAtLeastOne | crates/ra-adaptive/src/batch.rs:724-729 | it is at least 1, and 1 exactly for equal estimates up to clamping |
| QError.QErrorTriangle | crates/ra-adaptive/src/batch.rs:725-729 | the multiplicative triangle inequality |
| QError.QErrorIsLeast | crates/ra-adaptive/src/batch.rs:725-729 | it is the least factor by which each of the two counts, read as at least one row, is bounded by the other |
| QError.AverageAtMostMaximum | crates/ra-adaptive/src/batch.rs:732-743 | the average of Q-errors lies between 1 and their maximum |
| QError.CorrectedEstimate | crates/ra-adaptive/src/batch.rs:553-574 | when the table's count was the estimate, the correction is (7 e + 3 a) / 10, truncated |
| QError.CorrectedExactly | crates/ra-adaptive/src/batch.rs:557-571 | for any estimate but zero the table's count is scaled by (7 estimated + 3 actual) / (10 estimated) and truncated, between one row and the largest count |
| QError.MatchesExactly | crates/ra-adaptive/src/batch.rs:563-564 | feedback is about a table exactly when its estimate lies strictly between half and one and a half of the table's rows, or within half a row of an empty table |
| QError.CorrectionNeverRaisesQError | crates/ra-adaptive/src/batch.rs:557-574 | correcting never raises the Q-error against the actual count |
| QError.FixedPointsExactly | crates/ra-adaptive/src/batch.rs:565-573 | the correction leaves an estimate alone exactly when it is at most three rows short |
| QError.IterationsReachLimit | crates/ra-adaptive/src/batch.rs:565-573 | repeated correction reaches the actual count from above and stops exactly three rows short from below |
| BatchExecutor.NewExecutor | crates/ra-adaptive/src/batch.rs:230-246 | an executor is refused exactly for batches of size zero |
| BatchExecutor.Executor.Reset | crates/ra-adaptive/src/batch.rs:716-721 | clears history, count and names and keeps the adapter |
| BatchExecutor.Executor.LoadTables | crates/ra-adaptive/src/batch.rs:323-329 | every table of the snapshot overwrites its count and is named once |
| BatchExecutor.Executor.ApplyIncrementalFeedback | crates/ra-adaptive/src/batch.rs:552-591 | the two nested loops correct as the specification does, in the order given |
| BatchExecutor.Executor.ExecuteBatch | crates/ra-adaptive/src/batch.rs:299-402 | records the batch and updates the state, or changes nothing when the timeline fails |
| BatchExecutor.Executor.Run | crates/ra-adaptive/src/batch.rs:270-296 | the loop over snapshots gives the state of the run function and the batch that failed, if one did |
| BatchRuns.RunTilesTimeline | crates/ra-adaptive/src/batch.rs:270-284 | from an empty history, batch i covers its range of the batch size, all snapshots in ceil(total / size) batches or up to the failing one |
| BatchRuns.TilesAreConsecutive | crates/ra-adaptive/src/batch.rs:276-283 | ranges are non-empty, start at 0, and each begins where the one before ended |
| BatchRuns.EveryHistoryIsAccounted | crates/ra-adaptive/src/batch.rs:340-378 | over any sequence of runs and resets the reoptimised records number the count, which never exceeds the maximum, each was decided as its error and confidence call for, and no record's average Q-error is above its maximum |
| BatchDecisions.EveryRecordTells | crates/ra-adaptive/src/batch.rs:340-378 | over any sequence of runs and resets every record is reoptimised exactly when fewer than the maximum before it are, and some operator's Q-error exceeds the threshold (1 in place of an error without feedback) or the confidence after the batch is below the minimum; an operator is marked exactly when it was before, or the batch is reoptimised and its Q-error exceeds the threshold; the average is that of the errors |
| BatchDecisions.NewRecordsTell | crates/ra-adaptive/src/batch.rs:270-296 | after any commands, what the records of the next run tell is what its timeline shows for their ranges |
| BatchDecisions.CountsAfterBatch | crates/ra-adaptive/src/batch.rs:323-591 | after a batch every table of the snapshot has its count there, unless counts are updated incrementally and feedback corrects it: then the last such feedback decides; all others keep theirs |
| BatchDecisions.NamesAfter | crates/ra-adaptive/src/batch.rs:323-329 | the names are those of all tables seen, each listed once |
| BatchRuns.HistoriesAccumulate | crates/ra-adaptive/src/batch.rs:281-289 | without a reset the history of an earlier run stays in front of the next one |
| BatchRuns.LastMatchDecides | crates/ra-adaptive/src/batch.rs:553-589 | the last operator that matches a table decides its count alone |
| BatchRuns.FeedbackOrderMatters | crates/ra-adaptive/src/batch.rs:553-561 | two tables of equal size whose two feedback entries correct both counts, differently for the two orders |
| BatchRuns.OrderFreeExactly | crates/ra-adaptive/src/batch.rs:553-589 | a table's corrected count is the same for every order of the feedback exactly when all feedback that corrects the table prescribes the same count |
| BatchRuns.NextSnapshotForgetsCorrections | crates/ra-adaptive/src/batch.rs:323-326 | loading a snapshot with the same tables leaves nothing of the corrections |

## Left out

- Floating point: `f32` and `f64` are reals; rounding, NaN and infinities are not modelled, except that inference
  and training hold for every addition and multiplication.
- Plans other than joins, filters and scans: a scan stands for any input whose rows the database supplies, and
  conditions are arbitrary functions of a row.
- `choose_join_strategy`, the hash-join threshold, table statistics, elapsed time and the execution report: nothing
  that is modelled depends on them.
- The 64-bit width of checkpoint sequence numbers and the 32-bit width of batch counters; row counts saturate at 64 bits as in the code.
- `HashMap` iteration order: sketches, tables and feedback are lists in the order in which the map yields them.
- Trainer.BitNetTrainer.TrainStepMasked: matrices are flattened by rows throughout, as the optimizer sees them; the loops of the one long source method are methods of their own.
- That `sigmoid` is the derivative of `softplus`: both are parameters, so the gradients are characterised on either side of the activation.
- The learnable scalar head, `fit_normalization`, random initialisation and JSON storage of the cost model.
- Quantize.AbsmeanTernaryPack: the declared count must equal the number of weights, as the source's debug assertion has it.
- Outliers.SortSorts: sorting is the library's; the lemma states what it returns, on values and not in place.
- `two_tailed_t_pvalue`, the incomplete beta function and `lgamma`: the p-value is a falling function; that it falls is the source's comment, not proved.
- Confidence values of batches, which go through a logarithm, and the adaptive executor inside a batch are part of what the timeline observes.
- SexpScanner.CheckSexpInvalid: the whitelist and the test for numeric literals are parameters; reading literals out of code and the lint for rule pairs are not part of this model.
- RewriteExtraction.NormalizeCode: what becomes of one call (removing `is_database` lines, conditions, unknown operators, two-way rules) is a parameter.
- StructuredRewrite.ExtractStructuredRewrites: takes the lines of the body; splitting a text into lines is the library's.
- BatchExecutor.Executor.ExecuteBatch: the statistics adapter of `ra_stats` is a map from table names to row counts, in which adding a table replaces its entry; its confidence and staleness are not modelled.
- GrammarItems.StripsExactly: comments around bodies close every brace they open, as the script reads them, and hold no `]` for a bracket opened before them; what the script does with those is covered for the text only (`BodyStripper.SplicesToStripped`, `GrammarStrip.AcceptedExactly`).
- Regular expressions of the stripper: `\w` and `\s` mean ASCII letters, digits, underscore and white space.
- The command line, file access and counters of the stripper.
- QueryKey.CaseIsKept: letter case is that of ASCII letters.
- Unicode: texts are sequences of characters, and white space is a fixed set of them.
