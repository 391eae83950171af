# BlazeRules in Dafny

BlazeRules compiles condition trees into register programs, turns the programs into plans over a shared pool
of predicates, and evaluates the plans on packed row masks, 2048 rows at a time. Around that core stand an
NDJSON reader that fills columns in parallel, dictionaries and lookup sets, a static conflict analysis, a SQL
expression parser, and an agent that serves evaluation over HTTP. This project models those parts and proves
what they promise. Code that updates state step by step is modelled as classes and methods over arrays and
fields, each proved against a specification function; the theorems are about those functions. Protocols between
threads are step relations, and their theorems range over every interleaving.

`dafny verify dfyconfig.toml` checks everything.

## How the parts fit together

**From a condition tree to a row mask.** `RuleCompiler` gives a tree its meaning on a row and emits operations;
operation i writes register i. `GlobalPlan` shares predicates by key and builds plan nodes, one per register.
`EvalPlan` is the evaluator on a plan with its memo and its one survivor list, `EvalTree` the same evaluator on a
tree. `ExprEvaluator` is the evaluator as it is written, on byte masks, with the memo and both survivor buffers
as fields. One theorem joins each pair of layers, and `RuleRun.EvaluateRule` puts them together: bit i of the
bytes the evaluator returns is the meaning of the tree on row i, and the padding is zero.

`RuleSet` compiles and plans a whole set of rules over one pool and shows that every plan is its rule again.
`PlanShape` and `CostShape` read off the condition tree whether the plan is safe, in the written order and in the
order of costs. `EvalExactness` and `EvalSettings` say for which expressions and settings the evaluator is exact, and
`RuleExactness` joins the two over rows of a table.

**From columns to leaf masks.** `Columns` is a batch as the kernels see it, typed values buffers with validity bits, and
the rows of cells that they stand for. `LeafEval` evaluates a predicate on a morsel of columns as the code does: zone
first, then the kernel of its kind with converted thresholds, nulls and padding. `LeafExactness` gives for every kind of
predicate the exact condition under which that mask is the predicate's answer on the rows. `LeafMeaning` writes out what
each kind of leaf, and NOT over it, answers: in comparisons, values, ids and digits, with nulls. Beside them stand
`LeafKernels`, `Casts`, `Ipv4Text` and, for encoded strings and closed values, `LeafMasks`; `MaskKernels`, `ByteMask`
and `Bits` take bytes to rows.

**The whole batch.** `Batch` runs the morsels in any order and reduces matches to one decision per row, and
`MorselWrites` shows that not even the interleaving of the threads' single writes matters. `BatchRun.EvaluateBatch`
goes from condition trees and columns to decisions, masks and counts, for every batch and every interleaving.

**From bytes to columns.** `NdjsonSplit` cuts a buffer behind newlines, `Transposer` appends one document at a
time and rolls back a broken one, `ColumnMerge` merges the workers' columns, and `ParallelIngest` proves that
all of it gives the table of a single pass. `RejectTraces` says exactly which rejected lines that excepts, and
`DocumentMeaning` which of a document's fields make up its row.

**Beside them.** `DictEncoder`, `ClosedValues` and `Ipv4Lookup` are the static sets; `Conflict` is the interval
analysis; `SqlExpr`, `SqlParser`, `SqlForms` and `SqlRoundTrip` are the expression language; `HttpPipeline`,
`HttpOutcomes`, `BoundedQueue` and `EnginePool` are the agent; `Arena` is the allocator of masks.

## Where the code does not keep a promise

Each of these is proved as an exact condition or by a concrete input, and the code is modelled as it is.

- The survivor list is one buffer for the whole recursion. For each setting, a rule is evaluated exactly on every
  morsel if and only if no AND of two or more children lies inside a child of an AND other than the first, or the
  setting never lists a row (`EvalSettings.SettingExactIff`, `RuleExactness.RuleExactIff`). With the defaults,
  (a and b) and (c and d) goes wrong (`RuleExactness.NestedGoesWrong`). In the default order of costs a nested AND is
  safe if and only if it is in the one cheapest child of every AND around it (`CostShape.CostShapeIff`).
- `invert_op` returns CONTAINS_ALL and FLAGS_ALL unchanged, so NOT over them answers the unnegated test
  (`Predicates.FlipExactIff`, `RuleCompiler.NegatedLeafExactIff`).
- The numeric kernels compare with the converted threshold, the zone shortcuts with the real one. The conversion
  truncates for an integer column, rounds for a float column, and is undefined for 3000000000 on an INT32 column,
  which the compiler accepts (`Casts.CastExactIff`, `Casts.RangeCastExactIff`, `LeafKernels.ZoneAgreesIff`,
  `LeafKernels.ZoneRangeAgreesIff`, `LeafExactness.ThresholdsGoWrong`).
- Some kernels read a buffer as another type than it has, and the compiler lets them: equality of two columns of unlike
  kinds, flag tests on float columns, temporal tests on columns that are not 64-bit integers, distances on integer
  columns (`LeafExactness.LeafExactIff`).
- Equality of two columns of closed values reads eight-byte words from a start computed with a stride of four, so in
  morsels after the first it compares other rows (`LeafExactness.WordsComparedIff`).
- A text that is not an address is read as 0.0.0.0, so it passes the tests of exactly the subnets that start there
  (`Ipv4Text.UnreadableMatchesIff`).
- `end + 1u` wraps at the last IPv4 address, so a range that reaches it swallows nothing behind it and the search
  looks at the wrong range (`Ipv4Lookup.LookupExactIff`, `WrapCounterexample`).
- A listed value that holds the unit separator makes two different predicates share one key, and the second rule is
  evaluated with the first one's predicate (`PredicateKey.SeparatorCollidesIff`, `RuleSet.SharedRuleGoesWrong`).
- `set_bit` never clears a bit. After an aborted row the next null can read as valid and the next false as true
  (`ColumnBuffer.NextNullIff`, `NextFalseIff`, `AbortUndoneIff`). A worker that starts with the rejected line is not
  affected, so the table depends on where the buffer is cut, unless the line appended nothing but cells that leave no
  trace (`RejectTraces.UnnoticedIff`, `FirstUnnoticed`).
- Unknown ids are -1 on both sides, so an unresolved row equals an unresolved listed value
  (`DictEncoder.InExactIff`).
- A repeated closed value shifts the positions used for rows against the ids used for rules
  (`ClosedValues.PositionsAreIdsIff`, `RepetitionShifts`).
- CONTAINS_ALL over a closed list ignores listed values without an id below 63. A value that was preloaded into the
  column has such an id, and then the same rule matches no row (`ClosedValues.AllClosedIff`, `AllListedIff`,
  `LeafMasks.ContainsAllIff`).
- A buffer that the fast reader stumbles over is read again from a reset table, which drops the rows added before
  (`ParallelIngest.RestartKeepsIff`).
- A rule that contradicts itself on a field is reported dead only if it compares the field twice
  (`Conflict.DeadExactIff`, `LoneEmptyRangeUnreported`), and "stricter" compares shared fields only, so the stricter rule need not imply the
  other (`Conflict.StricterExactIff`, `StricterMisleads`).

## Model

| member | source | states |
|---|---|---|
| BatchRun.EvaluateBatch | src/core/orchestrator.cpp:1436-1535 | From condition trees and columns to decisions: for every schema, batch, machine, number of threads and interleaving of morsels each row ends as if the rules that mean to match it had been applied in order; rule masks, match counts and union are those of the meanings. Asked of the rules: leaves that the compiler accepts for the schema and that are exact in every morsel (LeafExactness.LeafExact: thresholds and bounds that survive their conversion, columns that their kernels can read), no listed value with the separator, no NOT over an operator without a complement, and with selection vectors no AND where a later child holds one (order of costs: nested ANDs only in the one cheapest child) |
| BatchRun.MaskMorsel | src/core/orchestrator.cpp:1438-1477 | A morsel's work for such rules: zones, predicate masks in evaluation order, and the rule loop with the survivor buffer handed from rule to rule; every mask is its rule's meaning on the morsel's rows |
| BatchRun.EvalPredicates | src/core/orchestrator.cpp:1459-1465 | Filled in evaluation order, every pool entry's mask ends as the one eval_predicate writes from the columns and zones, for all predicates that the compiler accepts |
| BatchRun.ComputeZones | src/core/orchestrator.cpp:1451-1457 | A column has a zone, with its least and greatest value in the morsel, exactly when several numeric predicates read it and it has no nulls |
| BatchRun.PlannedSound | src/compiler/compiler.cpp:442-709 | Compiling and sharing keep leaves exact: NOT flips no comparison to a threshold that its conversion harms |
| LeafEval.EvalPredicate | src/core/orchestrator.cpp:1050-1144 | For every kind of predicate: the mask that zone verdict or kernel give on the columns' buffers, with nulls and padding zero |
| LeafEval.EvalComparison | src/core/orchestrator.cpp:1061-1066 | A comparison takes the zone's verdict if there is one and compares with the converted threshold otherwise |
| LeafEval.EvalEmpty | src/core/orchestrator.cpp:1096-1113 | IS_EMPTY on texts is a length test with the nulls put on top, IS_NOT_EMPTY one without |
| LeafExactness.LeafHolds | src/core/orchestrator.cpp:1050-1144 | Under its condition a leaf's mask is the predicate's answer on every row of every batch, morsel and machine, with a zone or without |
| LeafExactness.LeafExactIff | src/core/orchestrator.cpp:1050-1144 | For every predicate that the compiler accepts for a schema: its masks are always its answers if and only if its threshold or bounds survive their conversion, or, for the other kinds, its kernel reads its columns as what they are |
| LeafExactness.ThresholdsGoWrong | src/core/kernels.cpp:53-57 | x >= 0.5 and x > 3000000000 on an INT32 column are not always right |
| LeafExactness.WordsComparedIff | src/core/orchestrator.cpp:570-579 | Equality of two columns of closed values is right on every batch if and only if the morsel is the first |
| LeafExactness.ComparisonBits | src/core/orchestrator.cpp:1061-1066 | Where the threshold survives its conversion, row i of a comparison's mask is false on a null and otherwise the column's value >, <, >=, <=, == or != the threshold, by operator code, with a zone or without |
| LeafExactness.KernelBits | src/core/orchestrator.cpp:80-90 | Always, without a zone: the same six comparisons with the converted threshold |
| LeafExactness.ThresholdSays | src/core/kernels.cpp:53-57 | The condition on a threshold, written out: nothing on doubles; on floats the rounded one on the right side; on integers the range of 32 or 64 bits, and a whole number, or for > and <= one not below 0, for < and >= one not above 0 |
| LeafExactness.KindsSay | src/core/orchestrator.cpp:1118-1133 | The condition on the other kinds, written out in column types: which columns flag, temporal and distance tests read rightly, and which pairs equality compares rightly |
| Columns.CellSays | src/core/orchestrator.cpp:111-114 | A row's cell is the buffer's value as it stands, in each kind of storage, and null exactly where the validity bit is off |
| LeafMeaning.NumericSays | src/core/orchestrator.cpp:80-90 | Codes 0 to 5 are >, <, >=, <=, == and != against the threshold; a null passes none |
| LeafMeaning.WindowSays | src/core/orchestrator.cpp:1136-1141 | The same for window values |
| LeafMeaning.RangeSays | src/core/orchestrator.cpp:1067-1073 | Code 8 is between with its ends, 9 without; a null passes neither |
| LeafMeaning.CrossSays | src/core/orchestrator.cpp:533-549 | Codes 14 to 19 compare two numeric columns, the first one on the left; a null on either side passes none |
| LeafMeaning.CrossTextSays | src/core/orchestrator.cpp:551-595 | Two columns that are not numbers know equality and inequality of their values |
| LeafMeaning.CategoricalSays | src/core/orchestrator.cpp:1074-1091 | On ids: IN, CONTAINS_ANY and INTERSECTS pass exactly a listed id, their opposites exactly the others, EQ the first listed one, CONTAINS_ALL the only one |
| LeafMeaning.LabelsSay | src/core/orchestrator.cpp:378-441 | On bit sets: ANY passes exactly if some set position below 63 is listed, its opposites if none is, CONTAINS_ALL if every listed id below 63 is set |
| LeafMeaning.NullSays | src/core/orchestrator.cpp:1094-1117 | IS_NULL, IS_NOT_NULL, IS_EMPTY (null or the empty text) and IS_NOT_EMPTY |
| LeafMeaning.FlagsSay | src/core/orchestrator.cpp:597-645 | Flag tests digit by digit on the 64-bit two's complement: some common digit, all of the mask's digits, none in common |
| LeafMeaning.SubnetSays | src/core/orchestrator.cpp:840-866 | Subnet tests AND the text's address, or the low 32 digits of an integer, with the mask and compare with the network; a null passes neither |
| LeafMeaning.NotIsFalseOnNull | src/compiler/compiler.cpp:649-696 | NOT over a comparison, categorical, two-column, flag, subnet, pattern, lookup or window test is false where a column it reads is null |
| LeafMeaning.NotIsNegation | src/compiler/compiler.cpp:649-696 | Elsewhere it is the negation, except over CONTAINS_ALL and FLAGS_ALL, where NOT changes nothing |
| LeafMeaning.NotNullSays | src/compiler/compiler.cpp:663-667 | NOT over a null or emptiness test is the opposite test |
| LeafMeaning.NotIsComplement | src/compiler/compiler.cpp:697-708 | NOT over a range, length, string, temporal, distance or arithmetic test and over a derived leaf is the complement, true on nulls |
| LeafMeaning.ConnectivesSay | src/compiler/compiler.cpp:631-708 | The compiled program of an AND holds exactly if it has children and all hold, of an OR if some child holds, of a NOT over anything but a leaf if the child does not |
| Columns.MorselShows | src/core/orchestrator.cpp:111-114 | The validity buffer from the morsel's byte on shows which of the morsel's rows are null |
| CostShape.CostShapeIff | src/compiler/compiler.cpp:893-935 | With AND children sorted by cost, a rule's plan is safe whatever order the sort leaves among equals if and only if in each AND of several children a child with a nested AND costs less than every other |
| CostShape.PlanPrices | src/compiler/compiler.cpp:893-901 | A node costs what its condition does, whatever the order of the children |
| CostShape.CondCostSays | src/compiler/compiler.cpp:893-901 | An AND or OR costs the least of 5 and its children's costs, a NOT over a condition the lesser of 6 and its child's |
| RuleSet.CompileRules | src/compiler/compiler.cpp:1297-1310 | Each rule is compiled with registers of its own, all are planned: the pool holds the rules' predicates in the order of their first use and nothing else, and every plan is for its rule's program |
| RuleSet.EmitNumbered | src/compiler/compiler.cpp:478-483 | Operation i of a compiled rule writes register i and reads earlier ones only |
| RuleSet.EmitClean | src/compiler/compiler.cpp:442-709 | Compiling, flips included, keeps the separator out of listed values |
| RuleSet.PlannedIsOk | src/compiler/compiler.cpp:903-971 | In a set of rules without the separator, every node of every plan is its rule's operation: replacing predicates by pool indices changes no rule |
| RuleSet.EveryRuleExact | src/core/orchestrator.cpp:1468-1477 | Every rule of such a set, without a NOT over CONTAINS_ALL or FLAGS_ALL and with selection vectors off or a safe plan, has its meaning as its mask on all rows, under every other setting |
| RuleSet.SharedRuleGoesWrong | src/compiler/compiler.cpp:915-921 | For every categorical list with a separator in a value, whatever the operator: the rule that lists the same values split there, placed second, gets the first one's predicate and answers wrongly on some row |
| PlanShape.RuleShape | src/compiler/compiler.cpp:909-955 | A rule without nested ANDs has a safe plan in every order of evaluation; in the written order the plan is safe if and only if no later child of an AND of the rule holds one |
| RuleExactness.RuleExactIff | src/core/orchestrator.cpp:1161-1233 | For each setting and each rule whose tests can come out either way on columns of their own: all morsels of the table are evaluated to the rule's meaning if and only if the plan is safe or a full morsel's threshold is below one row; the plan's safety is read off the rule in the written order, and implied by the condition on costs in the other |
| RuleExactness.NestedGoesWrong | src/core/orchestrator.cpp:1203-1222 | With the engine's defaults, (a and b) and (c and d) is evaluated wrongly on some rows of every table whose columns hold numbers on either side of the thresholds, whatever the order |
| RuleExactness.TreeReadsOnce | src/compiler/compiler.cpp:909-955 | A tree-shaped plan whose predicate nodes name different pool entries reads no predicate twice |
| RulePipeline.RuleMaskIsMeaning | src/core/orchestrator.cpp:1468-1477 | For a compiled rule and a plan whose nodes are its operations, without CONTAINS_ALL or FLAGS_ALL under NOT, and with selection vectors off or a safe plan, row i of the mask is set exactly when the condition tree holds on row i, whatever the leftover survivors, the threshold and the order of AND children |
| RuleRun.EvaluateRule | src/core/orchestrator.cpp:1471-1477 | The same for the bytes the evaluator returns: bit i is the tree's meaning on row i and every padding bit is zero; no inner node allocates a mask twice |
| RuleRun.EvaluateRuleInArena | include/blazerules/arena.h:33-38 | The masks that this evaluation allocates, one per inner node at most, all fit an arena of 256 bytes a node, in the order they are asked for, each a stretch of its own |
| RuleCompiler.MeaningIsClassical | src/compiler/compiler.cpp:649-708 | On a row with no null in a column the rule reads, the null rule is classical two-valued logic |
| RuleCompiler.CompileVisitor.Compile | src/compiler/compiler.cpp:442-445 | Compiling appends the operations of the condition, numbers registers from the current counter and returns the last register |
| RuleCompiler.CompileVisitor.CompileChildren | src/compiler/compiler.cpp:631-647 | The children's operations are appended one after the other and their result registers returned in order |
| RuleCompiler.CompileVisitor.Push | src/compiler/compiler.cpp:478-483 | A predicate takes the next register |
| RuleCompiler.CompileExact | src/compiler/compiler.cpp:442-709 | Compiled behind any program, a condition leaves its meaning in its last register on every row |
| RuleCompiler.NegatedLeafExactIff | src/compiler/compiler.cpp:649-696 | A compiled NOT over a flipped leaf answers "decided and not p" on every row if and only if the operator is not CONTAINS_ALL or FLAGS_ALL |
| Predicates.FlipIsExact | src/compiler/compiler.cpp:31-64 | The flipped leaf answers the negation on every row whose columns are known and false on the others |
| Predicates.FlipExactIff | src/compiler/compiler.cpp:31-64 | It does so on every row if and only if the operator is not one that comes back unchanged |
| PredicateKey.KeyInjective | src/compiler/compiler.cpp:772-832 | Two predicates with equal keys are equal, output register aside, when no categorical value holds the separator |
| PredicateKey.SeparatorCollidesIff | src/compiler/compiler.cpp:761-770 | A list of values shares its key with a longer list if and only if one of its values holds the separator |
| PredicateKey.CleanSays | src/compiler/compiler.cpp:766-767 | The separator is the character 31 |
| PredicateKey.SplitAnswersDifferently | src/compiler/compiler.cpp:761-770 | For every operator the values split at the separator have the same key and a different answer on some row |
| PredicateKey.JoinedInjective | src/compiler/compiler.cpp:766-767 | Lists of separator-free values are determined by their joined text |
| PredicateKey.NodesInjective | src/compiler/compiler.cpp:822-826 | Arithmetic node lists are determined by their text |
| GlobalPlan.Share | src/compiler/compiler.cpp:915-921 | A predicate gets the index of the pool entry with its key, a new entry only if there was none; the pool then is the specified one and the key index its inverse |
| GlobalPlan.BuildNode | src/compiler/compiler.cpp:913-950 | The node stands for its operation over the pool that this operation leaves, and an AND's children are sorted by cost |
| GlobalPlan.BuildPlan | src/compiler/compiler.cpp:909-955 | Node i is built from operation i, the root is the final register's node, the children of every AND are in ascending cost, and the pool is the old one with the program's new predicates in order |
| GlobalPlan.CostGrows | src/compiler/compiler.cpp:893-935 | A node keeps its cost while nodes and predicates are added, so what was sorted stays sorted |
| GlobalPlan.MapRegisters | src/compiler/compiler.cpp:931 | Register numbers become the equal node numbers |
| GlobalPlan.BuildGlobalPlan | src/compiler/compiler.cpp:903-971 | Pool keys are pairwise different, the pool is the rules' predicates in order of first use, every rule has a plan for its program over it, and the evaluation order is a sorted permutation of the pool |
| GlobalPlan.PoolAsked | src/compiler/compiler.cpp:909-955 | Every pool entry is a predicate of some rule's operation |
| GlobalPlan.EvalOrder | src/compiler/compiler.cpp:957-970 | Every pool index once, sorted by column, cost and index |
| GlobalPlan.OrderSays | src/compiler/compiler.cpp:957-970 | Of two predicates in that order the first is on the lower column, on one column the cheaper one, at one price the one used first, and no index comes twice |
| GlobalPlan.CostSays | src/compiler/compiler.cpp:742-760 | The price of each kind of predicate |
| GlobalPlan.ColumnSays | src/compiler/compiler.cpp:717-740 | The column it is sorted by; for arithmetic that of the last node, or the one it is compared with |
| GlobalPlan.SortedIsSorted | src/compiler/compiler.cpp:933-935 | The sort by a strict weak order leaves no later element below an earlier one |
| RulePipeline.BuiltIsOk | src/compiler/compiler.cpp:909-955 | Sharing by key is sharing by equality when no value holds the separator: a plan's nodes are its program's operations, in the compiled order unless the order is adaptive |
| RulePipeline.PlanLaid | src/compiler/compiler.cpp:909-955 | The nodes of a compiled condition form a tree whose sibling subtrees occupy disjoint blocks, whatever the order of AND children |
| RulePipeline.NodeIsRegister | src/core/orchestrator.cpp:1161-1233 | Plan node n computes on every row what register n of the program computes |
| RulePipeline.ExecAt | src/compiler/compiler.cpp:909-955 | Register n is the value of operation n over the registers before it |
| EvalPlan.RunIsGo | src/core/orchestrator.cpp:1161-1233 | On tree-shaped plans the memoising evaluator gives the mask and the survivor list of the evaluator on trees, and remembers only nodes of the subtree |
| EvalPlan.RuleExact | src/core/orchestrator.cpp:1161-1233 | For safe rules, or with selection vectors off, the evaluator started with an empty memo equals plain Boolean evaluation, whatever is left in the survivor buffer |
| EvalTree.SafeExact | src/core/orchestrator.cpp:1161-1233 | Every selection-vector setting and threshold gives the plain Boolean value on safe expressions, and thresholds below one row on all; parts without a sparse AND leave the survivors alone |
| EvalTree.FilterIndices | src/core/orchestrator.cpp:1216-1221 | Filtering the rows of one mask by another gives the rows of the conjunction |
| EvalTree.SparseRestExact | src/core/orchestrator.cpp:1213-1223 | The survivor loop over children that leave the list alone computes the conjunction |
| EvalExactness.EvalExactIff | src/core/orchestrator.cpp:1152-1233 | For a rule that reads no predicate twice and has no empty connective: exact on every morsel, setting and leftover list if and only if no AND of several children lies inside a later child of an AND |
| EvalSettings.SettingExactIff | src/core/orchestrator.cpp:1203-1222 | The same for each setting on its own and morsels of at most 2048 rows: exact if and only if the rule is safe, selection vectors are off, or a full morsel's threshold is below one row |
| EvalSettings.WrongAtRoot | src/core/orchestrator.cpp:1203-1222 | Below the full threshold, a wrong list made by an inner AND reaches the root as one wrong mask, whatever the list held before |
| EvalSettings.SparseSays | src/core/orchestrator.cpp:1203-1207 | The survivor path is taken exactly when it is on, there are two children or more, and the rows left are at most the fraction of the morsel |
| EvalSettings.EverListsSays | src/core/orchestrator.cpp:1203-1207 | A setting ever lists a row if it is on and the fraction of 2048 rows is one row at least |
| EvalExactness.UnsafeFails | src/core/orchestrator.cpp:1213-1222 | For any other such rule there are two rows on which the mask is wrong when every AND goes sparse |
| EvalExactness.DriveSurvivors | src/core/orchestrator.cpp:1213-1222 | Evaluating a part with a nested AND overwrites the shared list with that AND's rows, whatever it held |
| ExprEvaluator.Evaluator.constructor | src/core/orchestrator.cpp:1471-1476 | The memo starts empty and the survivor buffer with whatever the thread left in it |
| ExprEvaluator.Evaluator.Eval | src/core/orchestrator.cpp:1161-1233 | The returned bytes encode the specification's mask; memo and survivors end as it says; only inner nodes not remembered before allocate, each once |
| ExprEvaluator.Evaluator.EvalInner | src/core/orchestrator.cpp:1167-1233 | A node that is not remembered allocates one mask, fills it as the specification says and remembers it; its parts ask for theirs once each |
| ExprEvaluator.Evaluator.EvalNot | src/core/orchestrator.cpp:1173-1178 | NOT complements the child's rows and keeps the padding zero |
| ExprEvaluator.Evaluator.EvalOr | src/core/orchestrator.cpp:1187-1201 | OR accumulates its children's masks; without children the zero mask |
| ExprEvaluator.Evaluator.EvalAnd | src/core/orchestrator.cpp:1187-1232 | AND takes the empty, sparse or dense path and ends in the specification's state |
| ExprEvaluator.Evaluator.GoesSparse | src/core/orchestrator.cpp:1203-1207 | The sparse path is taken exactly when selection vectors are on, there are several children, and the first child's count is within the truncated fraction of the rows |
| ExprEvaluator.Evaluator.SparseAnd | src/core/orchestrator.cpp:1208-1226 | Exactly the surviving rows end up set |
| ExprEvaluator.Evaluator.SparseChildren | src/core/orchestrator.cpp:1214-1222 | The loop evaluates the next child, which may fill the shared buffer, and filters, until no child or no survivor is left |
| ExprEvaluator.Evaluator.KeepSet | src/core/orchestrator.cpp:1216-1221 | The buffer keeps, in order, the survivors whose bit is set |
| ExprEvaluator.Evaluator.DenseAnd | src/core/orchestrator.cpp:1228-1232 | The dense path ANDs the children's masks into the first one's copy |
| LeafMasks.NumericMaskIff | src/core/orchestrator.cpp:1061-1066 | On every column of the type with its nulls, and on every machine, the numeric kernel's mask is the predicate's answer if and only if converting the threshold is defined and moves it to the harmless side |
| LeafMasks.RangeMaskIff | src/core/orchestrator.cpp:1067-1073 | The same for the range kernels, if and only if converting both bounds is defined and changes no answer, or the range leaves out its ends and is empty whatever an undefined bound becomes |
| LeafMasks.CodeIsText | src/core/kernels.cpp:265-337 | The dictionary kernels on an id the dictionary knows answer the test on strings, whatever else is listed |
| LeafMasks.CategoricalIsText | src/core/orchestrator.cpp:1074-1091 | A categorical predicate on an encoded row is the test on strings |
| LeafMasks.ResolveValues | src/core/engine.cpp:1403-1415 | The listed values become their ids, -1 when unknown, in order |
| LeafMasks.EncodedRows | src/core/orchestrator.cpp:1083-1091 | On a whole encoded column the kernel's rows are the test on its strings |
| LeafMasks.EvalStrings | src/core/engine.cpp:1473-1561 | Encode, then resolve, then run the kernel, with a validity buffer or none: while the dictionary has room, the mask is the test on strings with nulls false and padding zero |
| LeafMasks.CategoricalIsSet | src/core/orchestrator.cpp:378-441 | Whatever was preloaded or encoded before, the predicate on bit sets is a test on sets of strings: ANY and NONE of the closed listed values, ALL of the listed values with an id below 63 |
| LeafMasks.ContainsAllIff | src/core/orchestrator.cpp:378-399 | CONTAINS_ALL is the test of all closed listed values on every row if and only if no listed value that is not closed has an id below 63 |
| LeafKernels.KernelByte | src/core/kernels.cpp:57-72 | A stored byte holds the tests of its rows ANDed with validity, and zeros behind the last row |
| LeafKernels.EvalKernel | src/core/kernels.cpp:53-74 | The output mask is the row test, false on nulls, with padding zero |
| LeafKernels.FillTrue | src/core/orchestrator.cpp:198-203 | Every row set, padding zero |
| LeafKernels.EvalNull | src/core/orchestrator.cpp:492-509 | Rows that are null, or that are not, with padding zero |
| LeafKernels.ComputeZone | src/core/orchestrator.cpp:261-277 | The zone is the least and the greatest value of the morsel |
| Casts.CastExactIff | src/core/kernels.cpp:53-57 | For every number of the column's type and every result of an undefined conversion, comparing with the converted threshold is comparing with the threshold if and only if the conversion is defined and does not move it to the harmful side |
| LeafKernels.ZoneAgreesIff | src/core/orchestrator.cpp:279-320 | On null-free columns of each type the numeric shortcut's mask equals the kernel's on every morsel and machine if and only if the cast is exact |
| Casts.RangeCastExactIff | src/core/kernels.cpp:209-236 | Converting two bounds changes no range test if and only if both conversions are defined and no number lies between a bound and its conversion on the harmful side, or the range leaves out its ends and is empty whatever an undefined bound becomes |
| LeafKernels.ZoneRangeAgreesIff | src/core/orchestrator.cpp:322-341 | Both range shortcuts agree with the range kernels on every morsel if and only if that condition holds |
| LeafKernels.TryZoneNumeric | src/core/orchestrator.cpp:279-320 | The shortcut reports whether it fired and writes its whole mask if so, nothing otherwise |
| LeafKernels.TryZoneRange | src/core/orchestrator.cpp:322-341 | The same for ranges |
| MaskKernels.AndInto | src/core/orchestrator.cpp:120-130 | Every byte of the destination is ANDed with the source's |
| MaskKernels.OrInto | include/blazerules/bitmask.h:100-117 | Every byte of the destination is ORed with the source's |
| MaskKernels.BitwiseNot | src/core/kernels.cpp:443-458 | Every byte is complemented and the last one's padding cleared |
| MaskKernels.SetBit | src/core/orchestrator.cpp:194-196 | One bit is set, the other bytes unchanged |
| MaskKernels.AndMaskRows | src/core/orchestrator.cpp:120-130 | ANDing bytes is the row-wise conjunction and keeps padding zero |
| MaskKernels.OrMaskRows | include/blazerules/bitmask.h:100-117 | ORing bytes is the row-wise disjunction and keeps padding zero |
| MaskKernels.NotMaskRows | src/core/kernels.cpp:443-458 | The kernel's complement is the row-wise negation and keeps padding zero |
| MaskKernels.SetMaskRows | src/core/orchestrator.cpp:194-196 | Setting a bit sets that row only |
| ByteMask.DrainWord | include/blazerules/bitmask.h:82-87 | Clearing the lowest set bit until none is left yields exactly the word's rows below n, ascending |
| ByteMask.FindSetBits | include/blazerules/bitmask.h:75-98 | Word by word, the appended list is exactly the set rows below n, ascending |
| ByteMask.CollectSetBits | src/core/orchestrator.cpp:205-218 | The same list, byte by byte |
| ByteMask.CountSetBits | include/blazerules/bitmask.h:57-73 | The count is the number of set rows, and the length of that list when padding is zero |
| ByteMask.IndicesExact | include/blazerules/bitmask.h:75-98 | The list is strictly ascending and holds exactly the set rows, which determines it |
| ByteMask.CleanMasksEqual | include/blazerules/bitmask.h:57-98 | Clean masks with the same rows are the same bytes |
| Bits.ClearLowest | include/blazerules/bitmask.h:86 | word and word - 1 differ in the lowest set bit only |
| Decision.WinnerExact | src/core/orchestrator.cpp:1499-1510 | After any prefix of rules the row carries the winner's rank, severity, priority and code: the earliest matching non-shadow rule with the lexicographically greatest triple above the default's; or the default stands |
| Decision.WinnerIff | src/core/orchestrator.cpp:1499-1510 | The winner is rule w if and only if w wins in that sense |
| Decision.DefaultIff | src/core/orchestrator.cpp:1402-1411 | The default stands if and only if every matching non-shadow rule ranks below it |
| Decision.WinnerSays | src/core/orchestrator.cpp:1499-1510 | Written out against every matching non-shadow rule: none has a greater rank, at its rank none a greater severity, at both none a greater priority, and on a full tie the winner comes first; the default keeps its own rank and code |
| Decision.ScoreExact | src/core/orchestrator.cpp:1494-1498 | The score is the capped fold over the matching non-shadow rules in rule order |
| Decision.ScoreSays | src/core/orchestrator.cpp:1495-1497 | One more matching rule adds its contribution if its cap is not positive or not exceeded, and leaves exactly the cap otherwise |
| Decision.ReducedScoreSays | src/core/orchestrator.cpp:1485-1497 | The same of a row's reduction, which a rule that does not match and a shadow rule leave as it is |
| Decision.ScoreShape | src/core/orchestrator.cpp:1494-1498 | For all rules a score is the plain sum, or exactly some positive cap plus the contributions behind it |
| Decision.ScoreIsLeast | src/core/orchestrator.cpp:1494-1498 | With contributions that are never negative it is the least of these, so no cap is left behind |
| Decision.ScoreBounds | src/core/orchestrator.cpp:1494-1498 | Caps never raise a score above the plain sum, and without caps it is the plain sum |
| Decision.LastCapHolds | src/core/orchestrator.cpp:1496 | A score ends at or below the last matching rule's positive cap |
| Decision.GroupRows | src/core/orchestrator.cpp:1538-1560 | One group per label in use, holding that label's rows in ascending order |
| Decision.GroupsPartition | src/core/orchestrator.cpp:1555-1560 | Row i is in its own label's group and in no other |
| Morsels.MorselBytes | src/core/orchestrator.cpp:1441-1443 | Morsels own disjoint whole bytes that together cover the batch's mask |
| Morsels.TalliesAddUp | src/core/orchestrator.cpp:1516-1525 | The morsels' match counts add up to the count over the batch |
| Morsels.RowStep | src/core/orchestrator.cpp:1484-1511 | One more rule for one morsel changes exactly that morsel's matched rows |
| Morsels.UnionByte | src/core/orchestrator.cpp:1482 | ORing a morsel's mask into the union changes its own bytes to the union with one more rule, and no others |
| Morsels.WrittenByte | src/core/orchestrator.cpp:1480 | Copying a morsel's mask changes the rule's output in its own bytes, and nothing else |
| Morsels.AllDone | src/core/orchestrator.cpp:1516-1525 | When every morsel has been through every rule, outputs are the matches and tallies sum to their counts |
| Batch.ReduceByte | src/core/orchestrator.cpp:1486-1510 | Scanning a byte reduces each of its set rows once and no other |
| Batch.Reduce | src/core/orchestrator.cpp:1485-1511 | Scanning a mask reduces each matched row of the morsel once and no other |
| Batch.Evaluation.NextRule | src/core/orchestrator.cpp:1467-1511 | A thread taking a morsel through its next rule, whose mask for the morsel is given, keeps rows, union, outputs and counts equal to the reference at the new progress |
| Batch.TotalCounts | src/core/orchestrator.cpp:1527-1530 | A rule's total is the sum over the threads' counters |
| Batch.EvaluateRules | src/core/orchestrator.cpp:1516-1535 | For every interleaving of morsels over any threads: rows, union, rule masks, match counts and matched count equal the row-by-row reference |
| MorselWrites.AnyInterleaving | src/core/orchestrator.cpp:1467-1511 | For every division of the morsels among threads and every interleaving of their single writes to rows, bytes and counters: rows, union and rule masks end as the row-by-row reference and the threads' counters add up to each rule's matches |
| MorselWrites.OwnerDecides | src/core/orchestrator.cpp:1438-1511 | A place that one thread alone writes to ends as that thread's writes leave it, however the others interleave |
| MorselWrites.PassAt | src/core/orchestrator.cpp:1477-1511 | One rule's pass over a morsel writes to the morsel's own bytes and rows and the thread's own counter, each at most once |
| Ipv4Lookup.BlockIsRange | src/compiler/compiler.cpp:182-188 | A block's range holds exactly the addresses that pass its mask test (section 3.1 of RFC 4632) |
| Ipv4Lookup.CidrSays | src/core/transposer.cpp:86-94 | A block of n prefix digits holds exactly the addresses that agree with the written one in the first n digits; n is clamped to 0 and 32 |
| Ipv4Text.ParseFast | src/core/orchestrator.cpp:742-763 | The loop reads digits and dots with 32-bit wraparound, and anything else as 0.0.0.0 |
| Ipv4Text.ReadDotted | src/core/orchestrator.cpp:742-763 | Every dotted address, printed, is read back |
| Ipv4Text.ReadableIff | src/core/orchestrator.cpp:742-763 | A text is read if and only if it is made of digits and exactly three dots and ends with a digit; a number may be missing in front of a dot |
| Ipv4Text.AddressSays | src/core/orchestrator.cpp:742-763 | What every such text is read as: each decimal number modulo 2^32, moved 24, 16, 8 and no places up modulo 2^32, or-ed together |
| Ipv4Text.UnreadableMatchesIff | src/core/orchestrator.cpp:840-866 | A text that is not read passes the mask test of exactly the networks that start at 0.0.0.0 |
| Ipv4Lookup.SortSorts | src/compiler/compiler.cpp:191-193 | The ranges are ordered and rearranged, none lost |
| Ipv4Lookup.MergeKeeps | src/compiler/compiler.cpp:194-201 | Merging covers the same addresses and leaves gaps behind every range that ends early |
| Ipv4Lookup.NormalizeRanges | src/compiler/compiler.cpp:190-203 | The loop computes that merge of the sorted ranges |
| Ipv4Lookup.RangesContain | src/core/orchestrator.cpp:713-721 | The binary search answers whether the last range that starts at or before the address holds it |
| Ipv4Lookup.LookupSetNormal | src/compiler/compiler.cpp:190-203 | A lookup set is in normal form and covers exactly the listed blocks |
| Ipv4Lookup.LookupExactIff | src/core/orchestrator.cpp:713-721 | The search answers "some listed block matches" for every address if and only if, behind each listed block that ends at 255.255.255.255, the blocks that sort later cover everything from their least start on |
| Ipv4Lookup.TopClosedIff | src/compiler/compiler.cpp:190-203 | That condition on the sorted ranges holds if and only if in the merged list every range behind one that reaches the last address reaches it |
| Ipv4Lookup.LookupSetSeparated | src/compiler/compiler.cpp:190-203 | If only the last sorted range may end there, the merged ranges are disjoint and non-adjacent and the search is exact |
| Ipv4Lookup.WrapCounterexample | src/compiler/compiler.cpp:196 | 0.0.0.0/0 with 0.0.0.1/32 lists 0.0.0.2, which the search does not find |
| DictEncoder.Encoder.constructor | src/core/dict_encoder.cpp:10-25 | Every column starts with its closed values, in order |
| DictEncoder.Encoder.GetOrCreate | src/core/dict_encoder.cpp:27-41 | The value's id; -1 exactly if it is new and the column is at its maximum (columns of other types than entity keys) or at 2147483647 values; else the next id, with the name at its place; other columns unchanged |
| DictEncoder.Encoder.Resolve | src/core/dict_encoder.cpp:43-47 | The id or -1 |
| DictEncoder.Encoder.Preload | src/core/dict_encoder.cpp:49-57 | The column with all values added, and a new generation |
| DictEncoder.Encoder.ReverseLookup | src/core/dict_encoder.cpp:59-63 | The name of an id, empty when there is none |
| DictEncoder.Encoder.Reset | src/core/dict_encoder.cpp:73-77 | All columns empty, and a new generation |
| DictEncoder.Encoder.EncodeStrings | src/core/dict_encoder.cpp:126-159 | Every string gets the id it still has after the batch, nulls stay null |
| DictEncoder.HistoryKeeps | src/core/dict_encoder.cpp:27-57 | Over any sequence of preloads and batches the two maps are inverse bijections on dense ids, and no id changes |
| DictEncoder.EncodedIdLasts | src/core/dict_encoder.cpp:27-41 | The id a value was encoded with, -1 included, is the id it has at the batch's end |
| DictEncoder.InExactIff | src/core/engine.cpp:1403-1415 | IN on ids equals IN on strings if and only if the row's value is known or listed or every listed value is known |
| DictEncoder.LookupExactIff | src/core/engine.cpp:1417-1429 | Membership with unresolved values dropped is exact if and only if a listed row value is known |
| DictEncoder.EncodeThenResolve | src/core/engine.cpp:1502-1561 | Encoding before resolving makes IN exact on every row while the dictionary has room |
| DictEncoder.ResolveFirstMisses | src/core/engine.cpp:1502-1561 | The other order misses a value that the batch itself introduces |
| ClosedValues.RequestedBitset | src/core/orchestrator.cpp:370-376 | The word has exactly the listed positions below 63 set |
| ClosedValues.HistoryStarted | src/core/dict_encoder.cpp:27-57 | After any sequence of preloads and batches the dictionary still starts with the closed values and is inverse to its names |
| ClosedValues.AllClosedIff | src/core/orchestrator.cpp:378-399 | ALL answers for the closed listed values on every row if and only if no listed value that is not closed has an id below 63 |
| ClosedValues.AllListedIff | src/core/orchestrator.cpp:378-399 | On rows of closed values ALL answers for all listed values if and only if every listed value has an id below 63, or one that is not closed has |
| ClosedValues.PositionsAreIdsIff | src/core/transposer.cpp:569-578 | Row positions equal dictionary ids for all closed values if and only if no value stands behind a repetition |
| ClosedValues.RepetitionShifts | src/core/transposer.cpp:573-577 | In a, a, b the value b has position 2 and id 1 |
| ClosedValues.DigitMeaning | src/core/transposer.cpp:787-821 | Whatever was preloaded or encoded before, bit k of a row stands for the k-th closed value and bit k of a request for the value with id k |
| ClosedValues.BitsetExact | src/core/orchestrator.cpp:378-399 | ANY on bit sets is the test on sets of closed values; ALL asks for the listed values with an id below 63 |
| ColumnBuffer.PutBitRows | src/core/transposer.cpp:47-57 | Setting the next bit in clean bytes appends that row |
| ColumnBuffer.PutBitAt | src/core/transposer.cpp:47-52 | In bytes that are not clean the new bit also shows what stood there |
| ColumnBuffer.AppendRepresents | src/core/transposer.cpp:687-707 | Appending a cell to a column of some cells gives the column of one cell more, in values, offsets, bytes, nulls and bits |
| ColumnBuffer.RepresentsOne | src/core/transposer.cpp:687-707 | Cells determine the column byte for byte |
| ColumnBuffer.AppendAligned | src/core/transposer.cpp:687-707 | Appending keeps every vector at one entry per row and offsets rising from 0 to the byte count |
| ColumnBuffer.AbortRestores | src/core/transposer.cpp:1042-1060 | An abort restores length, nulls, values, offsets, bytes and the packed bits of the rows kept |
| ColumnBuffer.AbortUndoneIff | src/core/transposer.cpp:1042-1060 | An abort leaves every column of a kind as it was if and only if the cell sets no bit: a null, or a number, text or false in a column that is not nullable |
| ColumnBuffer.AbortCarries | src/core/transposer.cpp:1042-1060 | An abort keeps values, offsets, lengths and null count of the rows before it, whatever bits are left behind |
| ColumnBuffer.NextNullIff | src/core/transposer.cpp:47-57 | The null behind an aborted row reads as valid if and only if the aborted cell was not null and the row is not the first of a byte |
| ColumnBuffer.NextFalseIff | src/core/transposer.cpp:47-57 | The false behind an aborted row reads as true if and only if the aborted cell was true and the row is not the first of a byte |
| Ingest.AddDocumentSquare | src/core/transposer.cpp:1007-1196 | After a document, accepted or aborted, every projected column has the table's size; an abort harms no kept row |
| Ingest.AddDocumentsSquare | src/core/transposer.cpp:1313-1328 | Rows plus skipped records grow by the number of documents, and the table stays square |
| Transposer.Column.PutNull | src/core/transposer.cpp:687-707 | A null, or the default of a column that is not nullable |
| Transposer.Column.Put | src/core/transposer.cpp:775-973 | A cell appended behind the coercion |
| Transposer.Column.RollBack | src/core/transposer.cpp:1045-1057 | The column cut back to its sizes before the row |
| Transposer.Transposer.constructor | src/core/transposer.cpp:547-609 | A new transposer has an empty square table of the layout's columns and no row begun |
| Transposer.Transposer.MarkSeen | src/core/transposer.cpp:650-655 | True exactly for a column's first field in the row; the generation marks stay the set of filled columns |
| Transposer.Transposer.NextRow | src/core/transposer.cpp:1189-1194 | The next generation marks no column; the 32-bit counter goes on by one and from its last value to 1, with all marks cleared |
| Transposer.Transposer.TakeField | src/core/transposer.cpp:975-978 | A field goes to its column if that is projected and still without one |
| Transposer.Transposer.FillRest | src/core/transposer.cpp:1183-1187 | Every column without a field gets its default |
| Transposer.Transposer.RollBack | src/core/transposer.cpp:1042-1057 | Every touched column is cut back, no other changes |
| Transposer.Transposer.AppendDocument | src/core/transposer.cpp:1007-1196 | The whole state after a document, with counters, samples and marks, is the specification's, and stays square |
| DocumentMeaning.ScanSays | src/core/transposer.cpp:1007-1196 | A document's row holds for each projected column exactly the first cell that the items read give it; they are the items in front of the one that ends the document or, in a flat document, up to the first with which no projected column lacks a field |
| DocumentMeaning.DocumentSays | src/core/transposer.cpp:1007-1196 | An accepted document appends to each projected column its cell or a null and counts a row, a rejected one counts a skipped record and touches only the columns it had reached |
| NdjsonSplit.SplitNdjson | src/core/transposer.cpp:1370-1391 | Chunks tile the buffer, and small buffers are not cut. A large one is cut just behind the first newline from each equal part on, for the number of threads or one part for each 8 MiB begun, whichever is less, and nowhere else |
| NdjsonSplit.NotBehind | src/core/transposer.cpp:1380-1388 | A later aim never ends a chunk before its start |
| NdjsonSplit.SplitLines | src/core/transposer.cpp:1313-1328 | There is exactly one record for each line that holds a character other than carriage return, space and tab, in the order of the text, and it is the line up to its last such character |
| NdjsonSplit.TrimSays | src/core/transposer.cpp:1321-1325 | Trimming keeps a prefix, all behind it are those three characters, and its last character is none of them |
| NdjsonSplit.RecordsSplit | src/core/transposer.cpp:1381-1385 | Cutting behind a newline cuts no record |
| NdjsonSplit.TilesKeepRecords | src/core/transposer.cpp:1427-1435 | Chunk by chunk the records are those of the buffer, in order |
| ColumnMerge.CopyBitmap | src/core/transposer.cpp:1458-1469 | The bits so far followed by the source's, an absent source standing for its implicit value |
| ColumnMerge.MergeBitmaps | src/core/transposer.cpp:1493-1505 | The merged bitmap is the clean encoding of all rows |
| ColumnMerge.MergeNumbers | src/core/transposer.cpp:1507-1536 | The values of all workers, one behind the other |
| ColumnMerge.RebaseOffsets | src/core/transposer.cpp:1568-1572 | A worker's offsets are moved behind the bytes before, the earlier ones kept |
| ColumnMerge.OffsetsContinue | src/core/transposer.cpp:1568-1573 | Rebased offsets continue the offsets in front of them |
| ColumnMerge.MergeTexts | src/core/transposer.cpp:1548-1578 | Offsets and bytes of all rows |
| ColumnMerge.MergeColumn | src/core/transposer.cpp:1476-1582 | For all parts, aborted rows in them or not: the merged column has the values of all cells in order and, one behind the other, the bits that the parts show |
| ColumnMerge.JoinedRepresents | src/core/transposer.cpp:1476-1582 | Parts that hold exactly their cells merge to the column of all cells |
| ParallelIngest.AddDocumentsHold | src/core/transposer.cpp:1313-1328 | When a rejected line has appended only cells that an abort takes back without a trace, the columns hold exactly the accepted rows |
| ParallelIngest.AddDocumentsKeep | src/core/transposer.cpp:1313-1328 | Whatever documents are rejected, the columns hold the values of the accepted rows |
| RejectTraces.UnnoticedIff | src/core/transposer.cpp:1042-1060 | Wherever a rejected document stands among others, the columns hold exactly the accepted rows, if and only if it appended nothing but cells that an abort takes back without a trace |
| RejectTraces.FirstUnnoticed | src/core/transposer.cpp:1427-1435 | A worker that starts with a rejected document holds exactly the rows behind it, whatever the document appended |
| ParallelIngest.AddDocumentsAccounted | src/core/transposer.cpp:657-676 | Row counter, skip count, last message and the first k samples with their global row numbers |
| ParallelIngest.MergeColumns | src/core/transposer.cpp:1471-1584 | Every projected column has the values of the table's rows followed by the workers', with the bits that each of them shows, and the others are unchanged |
| ParallelIngest.MergeCounters | src/core/transposer.cpp:1586-1598 | Counters and samples are those of one pass over all documents |
| ParallelIngest.MergeWorkers | src/core/transposer.cpp:1447-1599 | For all documents: values, bits, size and counters as merged; and where rejected documents leave no trace, the table of adding all workers' documents one by one |
| ParallelIngest.ParseParallel | src/core/transposer.cpp:1393-1445 | For every buffer and number of threads: the values and counters of one pass over the buffer's lines and the bits that the chunks' own tables show; where rejected lines leave no trace, the table of one pass; a buffer not cut and stumbled over starts from a reset table |
| ParallelIngest.RestartKeepsIff | src/core/transposer.cpp:1301-1310 | Reading again from a reset table leaves the columns of the buffer's rows alone, which are the columns of all rows if and only if no earlier document had been accepted |
| ParallelIngest.RestartForgets | src/core/transposer.cpp:1301-1310 | Of the counters it forgets how many documents there were before and how many of them were rejected |
| Conflict.IntersectExact | src/compiler/conflict.cpp:36-45 | A point is in the intersection if and only if it is in both |
| Conflict.EmptyExact | src/compiler/conflict.cpp:16-20 | An interval is reported empty if and only if it has no point |
| Conflict.ContainedExact | src/compiler/conflict.cpp:47-51 | For a nonempty interval, containment of bounds is containment of points |
| Conflict.CollectSound | src/compiler/conflict.cpp:68-90 | A record that satisfies a condition meets everything collected from it |
| Conflict.DeadSound | src/compiler/conflict.cpp:109-111 | A rule reported dead matches no record |
| Conflict.DeadIff | src/compiler/conflict.cpp:59-66 | A rule is reported dead if and only if some field has an empty interval and is constrained at least twice |
| Conflict.DeadSays | src/compiler/conflict.cpp:59-66 | For every rule: reported dead if and only if it compares some field at least twice and no number passes its comparisons with it; != is not looked at |
| Conflict.UnsatisfiableIff | src/compiler/conflict.cpp:59-79 | A conjunction matches no record if and only if its comparisons with some field leave no number |
| Conflict.VoidIff | src/compiler/conflict.cpp:59-79 | The interval collected for a field is empty if and only if the rule's comparisons with it leave no number |
| Conflict.DeadExactIff | src/compiler/conflict.cpp:109-111 | A conjunction is reported dead exactly when it matches nothing, if and only if it contradicts itself on no field or on one that it compares at least twice |
| Conflict.LoneEmptyRangeUnreported | src/compiler/conflict.cpp:59-66 | For instance an empty range as the only constraint matches nothing and is not reported |
| Conflict.ClashSound | src/compiler/conflict.cpp:123-151 | Two rules reported in conflict never match one record |
| Conflict.ClashIff | src/compiler/conflict.cpp:123-151 | For any two rules: reported in conflict on a field if and only if both compare it and no number passes both rules' comparisons, or both look it up in value sets and no value is in a set of each |
| Conflict.StricterSound | src/compiler/conflict.cpp:153-156 | A reported subsumption is containment on every field both constrain |
| Conflict.StricterIff | src/compiler/conflict.cpp:153-156 | For any two rules: the first is reported stricter if and only if some field is compared or looked up by both, on every such field the first leaves something the second leaves too and nothing else, and the second does not so in turn |
| Conflict.ConjunctionExact | src/compiler/conflict.cpp:59-79 | For conjunctions of comparisons other than inequality the collected intervals say exactly what the rule says |
| Conflict.StricterImplies | src/compiler/conflict.cpp:153-156 | If the looser rule is such a conjunction and constrains no field of its own, the stricter rule implies it |
| Conflict.StricterExactIff | src/compiler/conflict.cpp:153-156 | Between conjunctions, a satisfiable rule reported stricter implies the other if and only if the other compares no further field |
| Conflict.StricterMisleads | src/compiler/conflict.cpp:153-156 | For instance a rule reported stricter that matches a record the other does not |
| Conflict.ComparePair | src/compiler/conflict.cpp:121-156 | The loops over shared fields find exactly the clashes and the direction of subsumption |
| Conflict.AnalyzeConflicts | src/compiler/conflict.cpp:103-160 | The report holds exactly the dead rules, the clashing pairs with their fields, and the pairs of stricter rules |
| SqlParser.Parser.ParseAll | src/compiler/sql_expr_parser.cpp:201-205 | The parser ends on every token list with the grammar's tree or its error |
| SqlParser.Parser.ParseOr | src/compiler/sql_expr_parser.cpp:230-243 | The depth is restored and position and result are the grammar's |
| SqlParser.Parser.ParseAnd | src/compiler/sql_expr_parser.cpp:245-257 | The same, without a guard of its own |
| SqlParser.Parser.ParseNot | src/compiler/sql_expr_parser.cpp:259-268 | The same for NOT and what it guards |
| SqlParser.Parser.ParsePrimary | src/compiler/sql_expr_parser.cpp:270-278 | The same for parentheses and comparisons |
| SqlParser.Parser.ParseComparison | src/compiler/sql_expr_parser.cpp:291-381 | The same for all comparison forms and their errors |
| SqlForms.KeywordSays | src/compiler/sql_expr_parser.cpp:223-225 | A keyword is an unquoted word spelt with its letters in either case |
| SqlForms.OperatorSays | src/compiler/sql_expr_parser.cpp:383-397 | Before a number each of the eight operator texts parses to its comparison, `<>` and `!=` to the same, and any other text is the error |
| SqlForms.EqualitySays | src/compiler/sql_expr_parser.cpp:373-380 | Before a quoted or bare word only the four equality texts are known |
| SqlForms.NullSays | src/compiler/sql_expr_parser.cpp:297-308 | IS NULL, IS NOT NULL, and the error behind IS otherwise |
| SqlForms.InSays | src/compiler/sql_expr_parser.cpp:310-331 | IN and NOT IN with any list of numbers, texts and words: the values in order, numbers as they are rendered, with or without a comma behind the last |
| SqlForms.BetweenSays | src/compiler/sql_expr_parser.cpp:334-351 | BETWEEN two numbers keeps both in order |
| SqlForms.LikeSays | src/compiler/sql_expr_parser.cpp:399-413 | LIKE and ILIKE: a wildcard at both ends, at the end, at the start, and none |
| SqlForms.NotsParse | src/compiler/sql_expr_parser.cpp:259-268 | NOT may stand up to 126 times in front of a comparison; one more is the nesting error |
| SqlForms.ParenthesesSay | src/compiler/sql_expr_parser.cpp:270-278 | Up to 63 pairs of parentheses may stand around a comparison; one more is the nesting error |
| SqlRoundTrip.ComparisonParses | src/compiler/sql_expr_parser.cpp:291-381 | A printed comparison parses back to itself, whatever follows |
| SqlRoundTrip.LikeRoundTripIff | src/compiler/sql_expr_parser.cpp:399-413 | A LIKE test comes back from its pattern if and only if its core neither is empty nor starts or ends like the missing wildcard |
| SqlRoundTrip.NotParses | src/compiler/sql_expr_parser.cpp:259-278 | A printed operand parses back exactly within the levels left, and fails with the depth error otherwise |
| SqlRoundTrip.OrParses | src/compiler/sql_expr_parser.cpp:230-243 | The same for a disjunction of such operands |
| SqlRoundTrip.RoundTripIff | src/compiler/sql_expr_parser.cpp:201-278 | Every printable tree comes back from its tokens if and only if it needs at most 128 guarded levels |
| SqlRoundTrip.ReprintStable | src/compiler/sql_expr_parser.cpp:201-381 | Whatever a token list parses to can be printed and parses to the same tree again |
| BoundedQueue.Queue.TryPush | src/agent/main.cpp:52-58 | Accepts exactly when open and below capacity, and then puts the value behind the others |
| BoundedQueue.Queue.Pop | src/agent/main.cpp:60-67 | The front value; the end only for a closed and drained queue |
| BoundedQueue.Queue.Close | src/agent/main.cpp:69-73 | Closed, values kept |
| HttpPipeline.WorkStep | src/agent/main.cpp:1029-1069 | Only accepting a request adds a place for it; only being done with it takes one away |
| HttpPipeline.OwedOnceStep | src/agent/main.cpp:463-468 | Every step keeps: an accepted request has exactly one owner until it has its outcome, and no completion is ever lost to another |
| HttpPipeline.InOnePlaceStep | src/agent/main.cpp:1029-1069 | Every step keeps: a request's data is in at most one place |
| HttpPipeline.WritesAccountedStep | src/agent/main.cpp:1056-1069 | Every step keeps: results written plus results still to write are the request's results |
| HttpPipeline.HonestStep | src/agent/main.cpp:1029-1069 | Every step keeps: with output enabled, a 200 means all results written under durable acknowledgement, and handed over under the other |
| HttpPipeline.OrderedStep | src/agent/main.cpp:1386-1395 | Every step keeps the shutdown order: the output queue closes after the last evaluation worker, and a worker leaves only a closed, drained queue |
| HttpPipeline.RunSafe | src/agent/main.cpp:1029-1069 | All of these hold after every step of every interleaving |
| HttpPipeline.NobodyForgotten | src/agent/main.cpp:1386-1395 | When all workers have left, every accepted request has its outcome |
| HttpPipeline.RunAnswersAll | src/agent/main.cpp:1386-1395 | In every run that ends so, each accepted request was answered exactly once |
| HttpOutcomes.RunOutcomes | src/agent/main.cpp:1029-1069 | After every step of every run, in every mode: an outcome is 503 if and only if the sink queue refused the request's results, 500 if and only if its evaluation failed or, where the sink answers, a write, and 200 if and only if none of these befell it; and whoever one befell has an outcome. What befell a request is read off the steps alone |
| HttpOutcomes.RunWrites | src/agent/main.cpp:1056-1061 | Where the sink answers, a 200 comes only behind as many writes as the evaluation left results |
| HttpOutcomes.FinishedOutcomes | src/agent/main.cpp:1386-1395 | When all workers have left, the answer to every accepted request is the one its story calls for |
| HttpOutcomes.FinishedDelivers | src/agent/main.cpp:1056-1069 | In every such run, early acknowledgement included, every accepted request's results are all written unless its evaluation failed, they were refused, or a write failed |
| HttpOutcomes.RefusedIff | src/agent/main.cpp:52-58 | Results are refused exactly when they meet a closed or a full sink queue |
| HttpOutcomes.RunIsTraced | src/agent/main.cpp:1029-1069 | Every run has steps that make it, so these hold for all of them |
| HttpPipeline.NeverStuck | src/agent/main.cpp:1386-1395 | Until then some worker or the shutting-down thread can move |
| HttpPipeline.StepCosts | src/agent/main.cpp:1029-1069 | Every step but an acceptance lowers a lexicographic measure |
| HttpPipeline.ShutdownEnds | src/agent/main.cpp:1386-1395 | After the evaluation queue is closed, no schedule goes on for ever |
| EnginePool.GuardedStep | src/agent/main.cpp:1033-1037 | Every step keeps the lock discipline around the building of the pool |
| EnginePool.ConservedStep | src/agent/main.cpp:725-751 | Every step keeps: once built, each engine is free or held exactly once, and free plus held is the number of shards |
| EnginePool.PoolOnce | src/agent/main.cpp:708-714 | The built pool lists every engine once |
| EnginePool.BuilderAlone | src/agent/main.cpp:695-723 | When the pool appears nobody is inside the first engine |
| EnginePool.RunKeeps | src/agent/main.cpp:695-751 | Both invariants hold along every run |
| EnginePool.EngineExclusive | src/agent/main.cpp:725-751 | In every interleaving, the build window included, no two workers use one engine and none in use is listed free |
| EnginePool.AcquireNeverWaits | src/agent/main.cpp:731 | A worker that asks the pool never waits for an engine |
| EnginePool.CallOnceNeverWaits | src/agent/main.cpp:697 | No worker is kept waiting by another one's build |
| EnginePool.RunWorkers | src/agent/main.cpp:1310-1312 | In every run there is one worker if requests are deduplicated and else one for each shard, at the least one; without a second shard, and with deduplication, there is never a pool |
| EnginePool.PoolReached | src/agent/main.cpp:695-723 | A worker of a sharded agent without deduplication that comes from its request before anyone has built enters the build, and with a stateless rule set leaves a pool of one engine for each shard |
| EnginePool.BuildsOnce | src/agent/main.cpp:695-723 | A failed build leaves the next caller to build, a finished one does not; a stateless rule set without deduplication gets a pool of one engine for each shard |
| Arena.BatchArena.Allocate | include/blazerules/arena.h:25-31 | The next aligned stretch if it fits, nothing changed otherwise; all stretches since the reset stay aligned, in bounds and one behind the other |
| Arena.BatchArena.AllocateBitmask | include/blazerules/arena.h:33-38 | The new stretch is zeroed and no other byte changes |
| Arena.BatchArena.Reset | include/blazerules/arena.h:40 | Nothing is handed out any more |
| Arena.RegionsApart | include/blazerules/arena.h:25-31 | Two stretches share no byte |
| Arena.UsedBound | src/core/orchestrator.cpp:1156-1159 | k masks of at most 2048 rows use at most 256 k bytes |
| Arena.RuleMasks | src/core/orchestrator.cpp:1161-1172 | A rule with at most capacity / 256 inner nodes gets every mask it asks for, in any order that asks for none twice, as the evaluator does |

## Left out

- The fast NDJSON reader, the field-order learning and the array wrappers: a record is read by an uninterpreted function to its fields, or to a failure; whether the fast reader stumbles is a parameter.
- The coercion of JSON values to column types: fields arrive coerced, and type errors, which keep the row, are not counted.
- `array_any` channels, derived columns, schema and field lookup, and the projection of columns: columns are given by number.
- ParallelIngest.ParseParallel: the reader coerces every value and words every failure; error counts by code, sources and column names of samples are not kept.
- Ingest.AddDocumentSquare: offsets and sizes are unbounded, so the 32-bit offset limit is not modelled.
- EvalExactness.EvalExactIff: the "only if" half needs a rule that reads no predicate twice and has no empty connective; the "if" half (EvalTree.SafeExact) needs neither. The same holds setting by setting.
- RuleExactness.RuleExactIff: the "only if" half needs tests that can come out either way on columns of their own, since a rule whose tests exclude each other may never show the fault.
- BatchRun.EvaluateBatch: a batch's offsets into larger buffers are zero, and every morsel's masks are computed before the schedule starts, each from any leftover list; MorselWrites takes the writes apart.
- LeafEval.EvalPredicate: string, temporal, distance, arithmetic and array-length tests, regular expressions and lookup sets answer as uninterpreted tests of a row; a kernel that reads a buffer as another type answers anything; the scalar categorical loop is the packed one.
- ExprEvaluator.Evaluator.Eval: masks are fresh arrays and the allocating nodes are recorded; RuleRun.EvaluateRuleInArena shows that an arena of 256 bytes an inner node serves them all, and what happens when a smaller one returns null is not modelled.
- GlobalPlan.SortedIsSorted: `std::sort` may leave children of equal cost in any order, the model keeps theirs; the theorems behind it hold for every rearrangement.
- LeafExactness.LeafExactIff: rounding to 32-bit floats is any monotone idempotent function; NaN, infinities, and the rounding of 64-bit integers beyond 2^53 where the zone or a field comparison turns them into doubles are not modelled.
- EvalSettings.SettingExactIff: the product of fraction and row count is exact, so its rounding as a double is not modelled.
- Vector instructions and the choice of a backend: the scalar kernels are the model, and a 128-bit or 256-bit step is not one of its steps.
- Window state: window columns are columns of the batch.
- Batch.EvaluateRules: a thread takes a morsel through one rule at a time without interruption, which MorselWrites.AnyInterleaving takes apart into single writes; a write itself is not taken apart. The threads' predicate masks, affinity and the switches that leave results out are not modelled, and match counts are listed by rule rather than by rule name.
- Decision.ScoreExact: scores are reals, so the rounding of sums is not modelled.
- Decision strings, risk bands and the groups by winning rule: labels and tags are given.
- DictEncoder.Encoder.EncodeStrings: columns that arrive with a dictionary of their own, or already as integers, are not modelled.
- Ipv4Lookup.LookupExactIff: addresses and prefix lengths are given; reading them from text is left out.
- Conflict.AnalyzeConflicts: the report is a set of rule numbers and fields, without order, names and explanations.
- Conflict.StricterExactIff: between conjunctions of comparisons; with OR, NOT or IN in a rule the intervals bound it from one side only, and Conflict.StricterSound is what holds.
- SqlRoundTrip.RoundTripIff: on token lists; the lexer, the `any_match` form and the rendering of numbers in IN lists are left out, and error texts drop the quoted operator.
- HttpPipeline.RunSafe: an evaluation or a write fails at the points where the code catches it; a failure to allocate while a result is handed over is not modelled. The listener, time limits and the 429 answer of a refused request are left out: a refused request is never accepted.
- EnginePool.RunKeeps: a request takes an engine as often as it likes, one stay after the other; which engine serves it and the memory of the shards are not modelled.
- Hot reload, metrics, output formats, S3, file tailing and the dashboard.
