# Range variables and their row iterators (HSQLDB)

This project models the access-path layer of HSQLDB's `RangeVariable`
(`base/branches/largedata/src/org/hsqldb/RangeVariable.java`). A range
variable is one table, view or routine-variable list in the FROM clause of
a query. The planner gives it one or more access paths
(`RangeVariableConditions`). An access path has these parts:

- an index;
- start bounds on a prefix of the index columns (`indexCond`, `opType`);
- end bounds (`indexEndCond`, `indexEndCondition`, `opTypeEnd`);
- the residual predicates (`nonIndexCondition`, `terminalCondition`,
  `excludeConditions`);
- a flag for a path proved FALSE.

The iterators run these paths against the row store:

- `RangeIteratorMain` takes the alternatives (the OR branches) one after the
  other. For each it opens a scan, filters the rows, and emits a row of
  nulls for a left outer join that found no match.
- `RangeIteratorRight` records the rows the first pass matched. In a second
  pass it emits the rows the first pass did not match.
- `RangeIteratorJoined` nests one iterator per range, outer range first.

The model has these files:

| file | module | contents |
|---|---|---|
| `values.dfy` | `Values` | values and rows |
| `expressions.dfy` | `Expressions` | the part of the expression tree the range code inspects: `andExpressions`, and evaluation through an evaluator oracle |
| `storage.dfy` | `Storage` | indexes, scan requests, and the row store as a function from a request to rows |
| `condition_spec.dfy` | `ConditionSpec` | an access path as a value; every builder is a function of the old state |
| `conditions.dfy` | `Conditions` | class `RangeVariableConditions`: the same builders in place, on arrays |
| `range_variable.dfy` | `RangeVariables` | column and qualifier resolution, `hasAnyIndexCondition`, `getRowId` |
| `cursor_spec.dfy` | `CursorSpec` | the main and right-outer iterators as a state machine on values |
| `cursor_lemmas.dfy` | `CursorLemmas` | what that state machine guarantees |
| `range_iterator.dfy` | `RangeIterators` | class `RangeIteratorMain`: main and right-outer iterator in place |
| `joined_spec.dfy` | `JoinedSpec` | the nested-loop driver on values, with its termination measure and the restart theorem |
| `joined_iterator.dfy` | `JoinedIterators` | class `RangeIteratorJoined` over an array of iterator objects |

Each class method that performs an operation of the source is proved
against a function of the matching value module: its new state (and result)
is that function applied to the old state, so the lemmas about the functions
hold of the objects. The helper methods that perform one piece of a loop or
a switch (`FetchRow`, `Classify`, `Examine`, `CopyPointPrefix`, `SwapPrefix`,
`AppendStartBound` and the like) have no function of their own; their
contracts state their effect directly.

An iterator dereferences the index only of the paths it opens. A range runs
its join paths unless its first where path has an index condition, so the
constructors' where path with a null index is never opened. The iterator
contracts therefore ask only for what is opened:

- the constructor, `next` and the joined iterator ask that every path of
  the list the iterator runs names an index and has the start bounds
  getFirstRow reads (`CursorSpec.PlanReady`, `CursorSpec.OnPlan`);
- opening one path asks this of that path alone (`CursorSpec.Openable`);
- the second pass of a right outer range asks it of the first where path
  alone.

## Model

All source paths are under `base/branches/largedata/src/org/hsqldb/`;
the cells give them in full.

| member | source | states |
|---|---|---|
| Expressions.AndExpressionsMeaning | base/branches/largedata/src/org/hsqldb/RangeVariable.java:1456-1457 | a row passes the conjunction andExpressions builds exactly when it passes both operands; a null operand passes everything |
| Expressions.AndExpressionsFalse | base/branches/largedata/src/org/hsqldb/RangeVariable.java:1456-1461 | the conjunction is FALSE exactly when an operand is FALSE, and null exactly when both operands are null |
| Expressions.AndAllMeaning | base/branches/largedata/src/org/hsqldb/RangeVariable.java:1646-1654 | the conjunction folded over a list of bounds passes exactly when the start value and every entry pass |
| Storage.Open | base/branches/largedata/src/org/hsqldb/RangeVariable.java:1025-1041 | an empty iterator yields no rows without reaching the store; no scan yields more rows than the store holds |
| ConditionSpec.Initial | base/branches/largedata/src/org/hsqldb/RangeVariable.java:1424-1427 | a new access path has no index condition, no residual predicate, is not FALSE, and has the shape every builder keeps |
| ConditionSpec.CopyResidual | base/branches/largedata/src/org/hsqldb/RangeVariable.java:1429-1434 | the copy keeps only the residual predicate and the join flag of its base and has no index bounds |
| ConditionSpec.AddToIndexConditions | base/branches/largedata/src/org/hsqldb/RangeVariable.java:1535-1555 | keeps the shape; when the prefix cannot be extended (not EQUAL/IS_NULL so far, no column left, or another column), nothing changes |
| ConditionSpec.AddToIndexConditionsExtends | base/branches/largedata/src/org/hsqldb/RangeVariable.java:1535-1555 | when the prefix can be extended, it grows by one column whose start bound is the predicate; the end bounds, the end condition and the residual are unchanged and the end operator is open (MAX) |
| ConditionSpec.AddToIndexEndConditions | base/branches/largedata/src/org/hsqldb/RangeVariable.java:1557-1585 | keeps the shape; nothing changes when the prefix cannot be extended |
| ConditionSpec.AddToIndexEndConditionsExtends | base/branches/largedata/src/org/hsqldb/RangeVariable.java:1557-1585 | when the prefix can be extended, it grows by one column with start bound NOT (column IS NULL) and end bound the predicate, and the predicate joins the end condition |
| ConditionSpec.AddToResidual | base/branches/largedata/src/org/hsqldb/RangeVariable.java:1450-1461 | joining a predicate to the residual leaves every index bound and the shape alone |
| ConditionSpec.ReplaceStartBound | base/branches/largedata/src/org/hsqldb/RangeVariable.java:1484-1500 | keeps the shape; its effect on the bounds is stated by AddConditionBounds and on the residual by FoldIntoIndexResidual |
| ConditionSpec.TightenEndBound | base/branches/largedata/src/org/hsqldb/RangeVariable.java:1513-1525 | keeps the shape; its effect on the end bounds is stated by AddConditionBounds |
| ConditionSpec.FoldIntoIndex | base/branches/largedata/src/org/hsqldb/RangeVariable.java:1478-1532 | keeps the shape; its effect is stated by AddConditionBounds, FoldIntoIndexResidual and AddConditionPrefix |
| ConditionSpec.AddCondition | base/branches/largedata/src/org/hsqldb/RangeVariable.java:1444-1533 | keeps the shape; its effect is stated by AddConditionBounds, AddConditionResidual, AddConditionPrefix and AddConditionResidualMeaning |
| ConditionSpec.FoldIntoIndexResidual | base/branches/largedata/src/org/hsqldb/RangeVariable.java:1478-1532 | the switch of addCondition touches the residual only when a lower bound displaces a NOT NULL start bound on the last prefix column, and then conjoins the displaced bound |
| ConditionSpec.AddConditionResidual | base/branches/largedata/src/org/hsqldb/RangeVariable.java:1444-1500 | a null predicate changes nothing; otherwise the predicate, and any displaced start bound, are conjoined to the residual; isFalse is set exactly when the conjunction is FALSE; a terminal predicate becomes the terminal condition |
| ConditionSpec.AddConditionPrefix | base/branches/largedata/src/org/hsqldb/RangeVariable.java:1463-1532 | without an index prefix the bounds are unchanged; otherwise the prefix grows by at most one column, only after EQUAL/IS_NULL, and a range operator stays a range operator |
| ConditionSpec.AddConditionFolds | base/branches/largedata/src/org/hsqldb/RangeVariable.java:1444-1478 | on an index prefix addCondition is the switch applied after the predicate joins the residual, and which case applies does not depend on the residual |
| ConditionSpec.AddConditionReplacesStart | base/branches/largedata/src/org/hsqldb/RangeVariable.java:1484-1500 | a lower bound after a NOT start on the last prefix column replaces that column's start bound and the operator, brings the LIKE end bound on a one-column prefix, and leaves the end alone |
| ConditionSpec.AddConditionTightensEnd | base/branches/largedata/src/org/hsqldb/RangeVariable.java:1508-1525 | an upper bound on the last column of a range path with an open end becomes that column's end bound, joins the end condition and sets the end operator; the start is untouched |
| ConditionSpec.AddConditionOtherBounds | base/branches/largedata/src/org/hsqldb/RangeVariable.java:1478-1532 | after EQUAL/IS_NULL the bounds are those addToIndexConditions / addToIndexEndConditions build; in every other case they are unchanged |
| ConditionSpec.AddConditionBounds | base/branches/largedata/src/org/hsqldb/RangeVariable.java:1463-1532 | a GREATER/GREATER_EQUAL predicate after a NOT start on the last prefix column becomes that column's start bound and the operator (with the LIKE end bound on a one-column prefix), the end untouched; a SMALLER/SMALLER_EQUAL predicate on the last column of a range path with an open end becomes that column's end bound, joins the end condition and sets the end operator, the start untouched; after EQUAL/IS_NULL the bounds are those of addToIndexConditions / addToIndexEndConditions; in every other case the bounds are unchanged |
| ConditionSpec.InstallIndex | base/branches/largedata/src/org/hsqldb/RangeVariable.java:1596-1604 | installs the index with fresh arrays as wide as the index, in the shape the builders keep |
| ConditionSpec.OpenUpperEnd | base/branches/largedata/src/org/hsqldb/RangeVariable.java:1608-1625 | keeps the shape, the residual, the index and the prefix length |
| ConditionSpec.ClosedUpperEnd | base/branches/largedata/src/org/hsqldb/RangeVariable.java:1627-1641 | keeps the shape, the residual, the index and the prefix length |
| ConditionSpec.PointBounds | base/branches/largedata/src/org/hsqldb/RangeVariable.java:1642-1660 | keeps the shape, the residual, the index and the prefix length |
| ConditionSpec.AddIndexCondition | base/branches/largedata/src/org/hsqldb/RangeVariable.java:1593-1667 | the result has the shape the other builders expect; AddIndexConditionInstalls and the three case lemmas state the rest |
| ConditionSpec.AddIndexConditionInstalls | base/branches/largedata/src/org/hsqldb/RangeVariable.java:1593-1667 | whatever the operator, the given index is installed with the given prefix length, and the residual and direction are untouched |
| ConditionSpec.UnknownOperatorLeavesStartUnbound | base/branches/largedata/src/org/hsqldb/RangeVariable.java:1661-1666 | as written, an operator without a case installs the index with the given prefix length and no start bound at all |
| ConditionSpec.CheckedAddIndexConditionBounds | base/branches/largedata/src/org/hsqldb/RangeVariable.java:1593-1667 | with the internal error raised, exactly the operators without a case are refused, and every installed path has its first start bound |
| ConditionSpec.AddIndexConditionPoint | base/branches/largedata/src/org/hsqldb/RangeVariable.java:1642-1660 | for EQUAL/IS_NULL the start and end prefixes are both the given prefix, the end condition is the old one conjoined with every prefix bound, and the end operator equals the start operator |
| ConditionSpec.AddIndexConditionLower | base/branches/largedata/src/org/hsqldb/RangeVariable.java:1608-1625 | for NOT, GREATER and GREATER_EQUAL the start prefix is the given prefix, the upper end is open (MAX), and the operator is the first bound's |
| ConditionSpec.AddIndexConditionUpper | base/branches/largedata/src/org/hsqldb/RangeVariable.java:1627-1641 | for SMALLER and SMALLER_EQUAL the scan starts at NOT (column IS NULL) and ends at the given bound, with operators NOT and the bound's |
| ConditionSpec.PointBoundsEffect | base/branches/largedata/src/org/hsqldb/RangeVariable.java:1644-1654 | the copied EQUAL/IS_NULL prefix is both the start prefix and the end prefix |
| ConditionSpec.ReverseIndexCondition | base/branches/largedata/src/org/hsqldb/RangeVariable.java:1669-1688 | keeps the shape; ReverseSwapsBounds states the effect |
| ConditionSpec.ReverseSwapsBounds | base/branches/largedata/src/org/hsqldb/RangeVariable.java:1669-1688 | a point path is untouched; on a range path the start and end bounds swap on the prefix and nowhere else, the scan starts with the old end operator, the end condition is the conjunction of the old start bounds, and the residual is untouched |
| ConditionSpec.BuildersKeepFalseSound | base/branches/largedata/src/org/hsqldb/RangeVariable.java:1456-1461 | addCondition and reverseIndexCondition keep the invariant that a path marked isFalse has FALSE as its residual |
| ConditionSpec.AddIndexConditionKeepsFalseSound | base/branches/largedata/src/org/hsqldb/RangeVariable.java:1593-1667 | addIndexCondition keeps the same invariant |
| ConditionSpec.AddConditionResidualMeaning | base/branches/largedata/src/org/hsqldb/RangeVariable.java:1456-1492 | no predicate is lost: a row passes the new residual exactly when it passes the old residual, the new predicate, and any start bound the predicate displaced |
| ConditionSpec.ReversedEndConditionMeaning | base/branches/largedata/src/org/hsqldb/RangeVariable.java:1675-1684 | after reversal the end condition accepts a row exactly when every former start bound of the prefix does |
| ConditionSpec.PointEndConditionMeaning | base/branches/largedata/src/org/hsqldb/RangeVariable.java:1646-1657 | for an EQUAL/IS_NULL path the end condition accepts a row exactly when the old end condition and every prefix bound do |
| ConditionSpec.ReverseTwiceRestoresBounds | base/branches/largedata/src/org/hsqldb/RangeVariable.java:1669-1688 | when both ends are range operators, reversing twice restores the start and end bound arrays |
| ConditionSpec.RangeOperatorClosesPrefix | base/branches/largedata/src/org/hsqldb/RangeVariable.java:1537-1562 | once a range operator ends the prefix, no sequence of later addCondition calls lengthens it |
| ConditionSpec.AddConditions | base/branches/largedata/src/org/hsqldb/RangeVariable.java:1444-1533 | addCondition applied to each predicate in turn keeps the shape |
| Conditions.RangeVariableConditions.constructor | base/branches/largedata/src/org/hsqldb/RangeVariable.java:1424-1427 | the new object holds ConditionSpec.Initial |
| Conditions.RangeVariableConditions.Copy | base/branches/largedata/src/org/hsqldb/RangeVariable.java:1429-1434 | the new object holds ConditionSpec.CopyResidual of its base |
| Conditions.RangeVariableConditions.AppendStartBound | base/branches/largedata/src/org/hsqldb/RangeVariable.java:1539-1549 | the extending branch of addToIndexConditions, in place on the arrays |
| Conditions.RangeVariableConditions.AddToIndexConditions | base/branches/largedata/src/org/hsqldb/RangeVariable.java:1535-1555 | returns true exactly when the prefix could be extended; the new state is ConditionSpec.AddToIndexConditions of the old |
| Conditions.RangeVariableConditions.AppendEndBound | base/branches/largedata/src/org/hsqldb/RangeVariable.java:1561-1579 | the extending branch of addToIndexEndConditions, in place on the arrays |
| Conditions.RangeVariableConditions.AddToIndexEndConditions | base/branches/largedata/src/org/hsqldb/RangeVariable.java:1557-1585 | returns true exactly when the prefix could be extended; the new state is ConditionSpec.AddToIndexEndConditions of the old |
| Conditions.RangeVariableConditions.ReplaceStartBound | base/branches/largedata/src/org/hsqldb/RangeVariable.java:1484-1500 | the new state is ConditionSpec.ReplaceStartBound of the old |
| Conditions.RangeVariableConditions.TightenEndBound | base/branches/largedata/src/org/hsqldb/RangeVariable.java:1517-1523 | the new state is ConditionSpec.TightenEndBound of the old |
| Conditions.RangeVariableConditions.FoldIntoIndex | base/branches/largedata/src/org/hsqldb/RangeVariable.java:1478-1532 | the new state is ConditionSpec.FoldIntoIndex of the old |
| Conditions.RangeVariableConditions.AddCondition | base/branches/largedata/src/org/hsqldb/RangeVariable.java:1444-1533 | the new state is ConditionSpec.AddCondition of the old, so AddConditionResidual, AddConditionPrefix and AddConditionResidualMeaning hold of the object |
| Conditions.RangeVariableConditions.OpenUpperEnd | base/branches/largedata/src/org/hsqldb/RangeVariable.java:1608-1625 | the start-bound array becomes the caller's list and the new state is ConditionSpec.OpenUpperEnd of the old |
| Conditions.RangeVariableConditions.ClosedUpperEnd | base/branches/largedata/src/org/hsqldb/RangeVariable.java:1627-1641 | the new state is ConditionSpec.ClosedUpperEnd of the old |
| Conditions.RangeVariableConditions.CopyPointPrefix | base/branches/largedata/src/org/hsqldb/RangeVariable.java:1646-1655 | the loop copies the prefix into the end bounds, returns the conjunction of the old end condition with the prefix, and the operator of the last prefix bound |
| Conditions.RangeVariableConditions.PointBounds | base/branches/largedata/src/org/hsqldb/RangeVariable.java:1642-1660 | the new state is ConditionSpec.PointBounds of the old |
| Conditions.RangeVariableConditions.InstallIndex | base/branches/largedata/src/org/hsqldb/RangeVariable.java:1596-1604 | fresh arrays; the new state is ConditionSpec.InstallIndex of the old |
| Conditions.RangeVariableConditions.AddIndexCondition | base/branches/largedata/src/org/hsqldb/RangeVariable.java:1593-1667 | the new state is ConditionSpec.AddIndexCondition of the old state and the caller's list |
| Conditions.RangeVariableConditions.SwapPrefix | base/branches/largedata/src/org/hsqldb/RangeVariable.java:1677-1684 | the loop swaps start and end bounds on the prefix and leaves the rest of both arrays alone; it returns the conjunction of the old start bounds |
| Conditions.RangeVariableConditions.ReverseIndexCondition | base/branches/largedata/src/org/hsqldb/RangeVariable.java:1669-1688 | the new state is ConditionSpec.ReverseIndexCondition of the old |
| RangeVariables.IndexOf | base/branches/largedata/src/org/hsqldb/RangeVariable.java:351-357 | -1 exactly when the name is missing; otherwise the position of its first occurrence |
| RangeVariables.FindColumn | base/branches/largedata/src/org/hsqldb/RangeVariable.java:328-336 | the result is -1 or a position in the visible column list |
| RangeVariables.FindColumnSpec | base/branches/largedata/src/org/hsqldb/RangeVariable.java:328-358 | a column is found exactly when both qualifiers resolve to this range, a NATURAL/USING join does not own the name, and the visible list (variables, else aliases, else table columns) has it; the result is its first occurrence |
| RangeVariables.SchemaQualifiedNeedsTable | base/branches/largedata/src/org/hsqldb/RangeVariable.java:401-441 | a schema-qualified name resolves only against an unaliased table range of that schema, and its table qualifier must then be the table's name |
| RangeVariables.GetTableAlias | base/branches/largedata/src/org/hsqldb/RangeVariable.java:382-385 | the alias is reported when there is one; the contract states only this aliased case (without an alias the table's own name is returned) |
| RangeVariables.TableAliasResolves | base/branches/largedata/src/org/hsqldb/RangeVariable.java:382-424 | for a table range, the name getTableAlias reports is one resolvesTableName accepts |
| RangeVariables.HasAnyIndexCondition | base/branches/largedata/src/org/hsqldb/RangeVariable.java:216-231 | true exactly when the first join path or the first where path has an index condition (both loops read element 0) |
| RangeVariables.WrapLong | base/branches/largedata/src/org/hsqldb/RangeVariable.java:875-880 | the result is in Java's long range and congruent to the input modulo 2^64 |
| RangeVariables.RowIdRoundTrip | base/branches/largedata/src/org/hsqldb/RangeVariable.java:875-880 | for a 32-bit table id and a position below 2^32, the row id gives back the table id (shift right 32) and the position (low 32 bits) |
| RangeVariables.RowIdInjective | base/branches/largedata/src/org/hsqldb/RangeVariable.java:875-880 | for a 32-bit table id and positions in 0 .. 2^32-1, two rows of one table share a row id only if they share a position |
| CursorSpec.Exhausted | base/branches/largedata/src/org/hsqldb/RangeVariable.java:1202-1217 | ending a scan releases it, keeps the alternative and the matched positions; FindNextPads and FindNextPadsUnmatched state when it pads |
| CursorSpec.FindNext | base/branches/largedata/src/org/hsqldb/RangeVariable.java:1146-1218 | stays on the same alternative and pass, and leaves a scan object behind; FindNextEmits and FindNextFindsFirst state which row it emits |
| CursorSpec.Step | base/branches/largedata/src/org/hsqldb/RangeVariable.java:975-987 | one turn of next's loop stays on the alternative and pass, past the first row, with a scan open; only the current path need have an index |
| CursorSpec.FindNextRight | base/branches/largedata/src/org/hsqldb/RangeVariable.java:1263-1307 | stays on the same alternative and pass, and leaves a scan object behind; FindNextRightEmits and FindNextRightFindsFirst state which row it emits |
| CursorLemmas.JudgeEmitsAccepted | base/branches/largedata/src/org/hsqldb/RangeVariable.java:1159-1197 | findNext's filter chain emits a row exactly when it passes the terminal condition, the end condition, both residuals, and is not excluded |
| CursorLemmas.UnindexedWhereRunsJoin | base/branches/largedata/src/org/hsqldb/RangeVariable.java:947-967 | a range whose first where path has no index condition runs its join paths, and is ready exactly when they can be opened, whatever index the where paths hold |
| CursorLemmas.PlainRangeStarts | base/branches/largedata/src/org/hsqldb/RangeVariable.java:99-103 | a range as the constructors build it, whose where path has a null index, starts valid when its join path can be opened |
| CursorLemmas.FalsePathOpensNothing | base/branches/largedata/src/org/hsqldb/RangeVariable.java:1018-1029 | a path marked FALSE opens an empty iterator and never reaches the store; the padding flag is left as armed |
| CursorLemmas.KeyPrefixShape | base/branches/largedata/src/org/hsqldb/RangeVariable.java:1062-1133 | the search key is the per-column key values in prefix order, and it is missing exactly when the first bound is out of range |
| CursorLemmas.FirstRowRequestSpec | base/branches/largedata/src/org/hsqldb/RangeVariable.java:1053-1139 | getFirstRow opens an empty iterator exactly when the first bound is out of range, and otherwise searches from the full key over the prefix with the path's operator and direction |
| CursorLemmas.OutOfRangeFirstBound | base/branches/largedata/src/org/hsqldb/RangeVariable.java:1097-1130 | a first bound below the column type's range empties the scan unless it is GREATER/GREATER_EQUAL; one above empties it unless it is NOT |
| CursorLemmas.FindNextProgress | base/branches/largedata/src/org/hsqldb/RangeVariable.java:1146-1218 | findNext never grows the scan and only ever clears the padding flag; when it emits, it has consumed a row or the pending padding; on the last alternative it leaves no padding pending |
| CursorLemmas.FindNextLookup | base/branches/largedata/src/org/hsqldb/RangeVariable.java:1146-1225 | the matched positions only grow, and only by positions of scanned rows; a range that is not right outer records none |
| CursorLemmas.FindNextEmits | base/branches/largedata/src/org/hsqldb/RangeVariable.java:1146-1199 | an emitted real row came from the scan, passed every filter of the alternative, is the current row, and a right outer range has recorded it |
| CursorLemmas.FindNextFindsFirst | base/branches/largedata/src/org/hsqldb/RangeVariable.java:1146-1199 | when every row before the j-th is dropped by a residual or excluded and the j-th passes every filter, findNext emits exactly the j-th row and leaves the scan just after it |
| CursorLemmas.WhereRejectedIsRecorded | base/branches/largedata/src/org/hsqldb/RangeVariable.java:1180-1188 | a row that fails only the where residual is still recorded as matched by a right outer range |
| CursorLemmas.FindNextPads | base/branches/largedata/src/org/hsqldb/RangeVariable.java:1202-1217 | the null row is emitted only on the last alternative, when padding was pending and the where residual accepts the empty row |
| CursorLemmas.FindNextPadsUnmatched | base/branches/largedata/src/org/hsqldb/RangeVariable.java:1146-1217 | with padding pending on the last alternative, when the join residual drops every row before the scan ends (the terminal condition fails, the end condition of a join path fails, or the rows run out) and the where residual accepts the empty row, findNext emits the null row |
| CursorLemmas.RejectCancelsPadding | base/branches/largedata/src/org/hsqldb/RangeVariable.java:1180-1186 | once a row fails the where residual, findNext ends with the padding flag cleared and emits no null row |
| CursorLemmas.FindNextReleases | base/branches/largedata/src/org/hsqldb/RangeVariable.java:1202-1208 | when findNext reports no row, or the null row, the scan is released and the empty row is current |
| CursorLemmas.StepProgress | base/branches/largedata/src/org/hsqldb/RangeVariable.java:973-987 | one turn keeps the cursor valid, pads only on a left outer range, emits only by consuming part of the alternative, and settles the padding on the last alternative |
| CursorLemmas.StepEmits | base/branches/largedata/src/org/hsqldb/RangeVariable.java:973-987 | one turn emits a filtered real row of the alternative or the null row; anything else has ended the scan with the empty row current |
| CursorLemmas.StepLookup | base/branches/largedata/src/org/hsqldb/RangeVariable.java:973-987 | one turn never forgets a matched position and records none outside a right outer range |
| CursorLemmas.NextFalseRewinds | base/branches/largedata/src/org/hsqldb/RangeVariable.java:973-996 | when next reports no more rows, the cursor is back on the first alternative, before its first row, with no scan and the empty row current |
| CursorLemmas.NextEmits | base/branches/largedata/src/org/hsqldb/RangeVariable.java:973-996 | a real row next emits passed every filter of the alternative it was found on, which is the current one or a later one |
| CursorLemmas.NextLookup | base/branches/largedata/src/org/hsqldb/RangeVariable.java:973-996 | next never forgets a matched position and records none outside a right outer range |
| CursorLemmas.NextPadding | base/branches/largedata/src/org/hsqldb/RangeVariable.java:1209-1215 | the null row comes only from a left outer range, on its last alternative, when the where residual accepts it; it closes the scan and clears the padding flag |
| CursorLemmas.PaddingAtMostOnce | base/branches/largedata/src/org/hsqldb/RangeVariable.java:1209-1215 | after the null row the next call reports the end |
| CursorLemmas.NoPaddingUnlessLeftJoin | base/branches/largedata/src/org/hsqldb/RangeVariable.java:1018-1022 | a range that is not a left outer join emits only real rows |
| CursorLemmas.NextPadsUnmatched | base/branches/largedata/src/org/hsqldb/RangeVariable.java:973-996 | on the last alternative, with its scan open and padding pending, when the join residual drops every row before the scan ends and the where residual accepts the empty row, next emits the null row |
| CursorLemmas.NoPaddingOnceCleared | base/branches/largedata/src/org/hsqldb/RangeVariable.java:973-996 | once the padding flag is down (and the first alternative is not about to be opened), next emits only real rows until it reports the end |
| CursorLemmas.ResetReplays | base/branches/largedata/src/org/hsqldb/RangeVariable.java:1000-1010 | after reset on the first alternative, next depends only on the path list and the matched positions, not on the row, scan or padding flag held before |
| CursorLemmas.ObservableReset | base/branches/largedata/src/org/hsqldb/RangeVariable.java:1000-1010 | reset keeps cursors that agree on what next reads in agreement |
| CursorLemmas.FindNextIgnoresLookup | base/branches/largedata/src/org/hsqldb/RangeVariable.java:1146-1225 | the matched positions never change what findNext emits or the rest of the state it leaves |
| CursorLemmas.FirstRowIgnoresLookup | base/branches/largedata/src/org/hsqldb/RangeVariable.java:1159-1197 | the same, when the first scanned row ends the search |
| CursorLemmas.ExhaustedIgnoresLookup | base/branches/largedata/src/org/hsqldb/RangeVariable.java:1202-1217 | the end of a scan does not read the matched positions |
| CursorLemmas.StepIgnoresLookup | base/branches/largedata/src/org/hsqldb/RangeVariable.java:973-987 | one turn from cursors that agree on what next reads reports the same and leaves them agreeing outside the matched positions |
| CursorLemmas.NextIgnoresLookup | base/branches/largedata/src/org/hsqldb/RangeVariable.java:973-996 | the first pass emits the same rows whatever the matched positions are |
| CursorLemmas.AdvanceIgnoresLookup | base/branches/largedata/src/org/hsqldb/RangeVariable.java:991-993 | moving to the next alternative keeps cursors in agreement |
| CursorLemmas.FindNextRightEmits | base/branches/largedata/src/org/hsqldb/RangeVariable.java:1263-1325 | the second pass emits only scanned rows that pass the end condition and the residual and that the first pass did not match; it records nothing and, at the end, releases the scan |
| CursorLemmas.FindNextRightFindsFirst | base/branches/largedata/src/org/hsqldb/RangeVariable.java:1263-1307 | when every row before the j-th passes the end condition but was matched or fails the residual, and the j-th passes the end condition and the residual and was not matched, the second pass emits exactly the j-th row and leaves the scan just after it |
| CursorLemmas.SetOnOuterRowsValid | base/branches/largedata/src/org/hsqldb/RangeVariable.java:1240-1248 | when the first where path names an index, the second pass starts valid, on that path, with a scan open and the matched positions intact |
| CursorLemmas.MeasureInRange | base/branches/largedata/src/org/hsqldb/RangeVariable.java:973-996 | a valid cursor's measure of calls left lies between 1 and a bound fixed by the range and the store |
| CursorLemmas.NextProgress | base/branches/largedata/src/org/hsqldb/RangeVariable.java:973-996 | every call of next keeps the cursor valid, and every call that emits lowers the measure |
| CursorLemmas.CursorNextProgress | base/branches/largedata/src/org/hsqldb/RangeVariable.java:1250-1261 | the same on either pass; a range that is not left outer emits only real rows |
| RangeIterators.RangeIteratorMain.constructor | base/branches/largedata/src/org/hsqldb/RangeVariable.java:947-967 | the new iterator holds CursorSpec.Start: before its first row, on the where paths when the first of them uses the index, else on the join paths |
| RangeIterators.RangeIteratorMain.Reset | base/branches/largedata/src/org/hsqldb/RangeVariable.java:1000-1010 | the new state is CursorSpec.Reset of the old |
| RangeIterators.RangeIteratorMain.GetFirstRow | base/branches/largedata/src/org/hsqldb/RangeVariable.java:1053-1139 | the loop builds the search key; the request is CursorSpec.FirstRowRequest, so FirstRowRequestSpec and OutOfRangeFirstBound describe it |
| RangeIterators.RangeIteratorMain.InitialiseIterator | base/branches/largedata/src/org/hsqldb/RangeVariable.java:1018-1051 | the new state is CursorSpec.Initialise of the old |
| RangeIterators.RangeIteratorMain.AddFoundRow | base/branches/largedata/src/org/hsqldb/RangeVariable.java:1220-1225 | the new state is CursorSpec.AddFoundRow of the old |
| RangeIterators.RangeIteratorMain.FetchRow | base/branches/largedata/src/org/hsqldb/RangeVariable.java:1151-1157 | takes the next row of the scan as the current row and data, or reports the end |
| RangeIterators.RangeIteratorMain.Release | base/branches/largedata/src/org/hsqldb/RangeVariable.java:1202-1207 | releases the scan and shows the empty row |
| RangeIterators.RangeIteratorMain.Classify | base/branches/largedata/src/org/hsqldb/RangeVariable.java:1159-1197 | returns CursorSpec.Judge of the current row |
| RangeIterators.RangeIteratorMain.Examine | base/branches/largedata/src/org/hsqldb/RangeVariable.java:1159-1197 | classifies the current row and applies the flag and lookup updates of that verdict |
| RangeIterators.RangeIteratorMain.FindNext | base/branches/largedata/src/org/hsqldb/RangeVariable.java:1146-1218 | the new state and the result are CursorSpec.FindNext of the old state |
| RangeIterators.RangeIteratorMain.FinishScan | base/branches/largedata/src/org/hsqldb/RangeVariable.java:1202-1217 | the new state and the result are CursorSpec.Exhausted of the old state |
| RangeIterators.RangeIteratorMain.Step | base/branches/largedata/src/org/hsqldb/RangeVariable.java:975-987 | the new state and the result are CursorSpec.Step of the old state |
| RangeIterators.RangeIteratorMain.Next | base/branches/largedata/src/org/hsqldb/RangeVariable.java:973-996 | the new state and the result are CursorSpec.Next of the old state, so the CursorLemmas about Next hold of the object |
| RangeIterators.RangeIteratorMain.SetOnOuterRows | base/branches/largedata/src/org/hsqldb/RangeVariable.java:1240-1248 | the new state is CursorSpec.SetOnOuterRows of the old |
| RangeIterators.RangeIteratorMain.NextRight | base/branches/largedata/src/org/hsqldb/RangeVariable.java:1250-1261 | the new state and the result are CursorSpec.CursorNext of the old state |
| RangeIterators.RangeIteratorMain.FindNextRight | base/branches/largedata/src/org/hsqldb/RangeVariable.java:1263-1307 | the new state and the result are CursorSpec.FindNextRight of the old state |
| RangeIterators.RangeIteratorMain.LookupAndTest | base/branches/largedata/src/org/hsqldb/RangeVariable.java:1309-1325 | true exactly when the row was not matched and passes the residual; the current data is set only for an unmatched row |
| JoinedSpec.Fresh | base/branches/largedata/src/org/hsqldb/RangeVariable.java:1332-1335 | a new joined iterator is valid, in nested-loop shape, on the outermost range |
| JoinedSpec.ResetAll | base/branches/largedata/src/org/hsqldb/RangeVariable.java:1385-1387 | every cursor is reset |
| JoinedSpec.DigitsBounded | base/branches/largedata/src/org/hsqldb/RangeVariable.java:1343-1364 | every digit of the joined iterator's weight is below the base |
| JoinedSpec.DeeperLowersWeight | base/branches/largedata/src/org/hsqldb/RangeVariable.java:1346-1350 | moving inwards after the current cursor emitted lowers the weight |
| JoinedSpec.OutwardsLowersWeight | base/branches/largedata/src/org/hsqldb/RangeVariable.java:1357-1362 | moving outwards lowers the weight |
| JoinedSpec.Turn | base/branches/largedata/src/org/hsqldb/RangeVariable.java:1344-1346 | the current cursor stays valid on its path list; a row lowers its measure and leaves it positioned; no row leaves it back on its first alternative |
| JoinedSpec.Inwards | base/branches/largedata/src/org/hsqldb/RangeVariable.java:1347-1350 | stays valid, lowers the weight, and moves to the next range |
| JoinedSpec.Outwards | base/branches/largedata/src/org/hsqldb/RangeVariable.java:1357-1362 | stays valid, lowers the weight, and moves to the previous range |
| JoinedSpec.EndOfJoin | base/branches/largedata/src/org/hsqldb/RangeVariable.java:1366-1374 | stays valid and before the first range; every cursor is rewound |
| JoinedSpec.Innermost | base/branches/largedata/src/org/hsqldb/RangeVariable.java:1353-1356 | the joined row is the innermost cursor's row; the outcome is Found exactly when that row is real, and then the data is that row's data |
| JoinedSpec.JoinedNext | base/branches/largedata/src/org/hsqldb/RangeVariable.java:1341-1375 | next keeps the joined iterator valid and terminates (by the weight) |
| JoinedSpec.Step | base/branches/largedata/src/org/hsqldb/RangeVariable.java:1343-1364 | one turn of the loop stays valid, and a turn that does not return lowers the weight |
| JoinedSpec.JoinedNextSteps | base/branches/largedata/src/org/hsqldb/RangeVariable.java:1343-1364 | next is the loop of Step: it returns the outcome of the first turn that has one |
| JoinedSpec.JoinedNextNested | base/branches/largedata/src/org/hsqldb/RangeVariable.java:1341-1375 | next keeps the nested-loop shape |
| JoinedSpec.JoinedFound | base/branches/largedata/src/org/hsqldb/RangeVariable.java:1353-1356 | a joined row is reported only with every range positioned, at the innermost range, whose row is the joined row |
| JoinedSpec.JoinedNullRow | base/branches/largedata/src/org/hsqldb/RangeVariable.java:1353-1354 | next reaches the innermost null row only when the innermost range is a left outer join |
| JoinedSpec.JoinedDone | base/branches/largedata/src/org/hsqldb/RangeVariable.java:1366-1374 | at the end of the join the index is before the first range, there is no row, the data is the innermost empty row, and every cursor is rewound |
| JoinedSpec.JoinedNextTwins | base/branches/largedata/src/org/hsqldb/RangeVariable.java:1341-1375 | from states that agree on what next reads, next reports the same outcome and joined row and leaves states that still agree |
| JoinedSpec.ResetAsWritten | base/branches/largedata/src/org/hsqldb/RangeVariable.java:1390-1397 | reset as written keeps the index where it was and clears the row |
| JoinedSpec.ResetAsWrittenStaysExhausted | base/branches/largedata/src/org/hsqldb/RangeVariable.java:1390-1397 | after the end of the join, reset as written followed by next reports the end again at once |
| JoinedSpec.Reset | base/branches/largedata/src/org/hsqldb/RangeVariable.java:1390-1397 | the corrected reset puts the index on the outermost range and clears the row |
| JoinedSpec.ResetRestarts | base/branches/largedata/src/org/hsqldb/RangeVariable.java:1390-1397 | after the end of the join, the corrected reset followed by next behaves as next on a new iterator: same outcome, same row, and states that agree from then on |
| JoinedIterators.RangeIteratorJoined.constructor | base/branches/largedata/src/org/hsqldb/RangeVariable.java:1332-1335 | the new object holds JoinedSpec.Fresh over the given iterators |
| JoinedIterators.RangeIteratorJoined.TurnCurrent | base/branches/largedata/src/org/hsqldb/RangeVariable.java:1344-1346 | advances only the current range's iterator, to JoinedSpec.Turn |
| JoinedIterators.RangeIteratorJoined.MoveInwards | base/branches/largedata/src/org/hsqldb/RangeVariable.java:1347-1350 | the new state is JoinedSpec.Inwards |
| JoinedIterators.RangeIteratorJoined.MoveOutwards | base/branches/largedata/src/org/hsqldb/RangeVariable.java:1357-1362 | resets the current iterator; the new state is JoinedSpec.Outwards |
| JoinedIterators.RangeIteratorJoined.TakeRow | base/branches/largedata/src/org/hsqldb/RangeVariable.java:1353-1356 | the new state and outcome are JoinedSpec.Innermost |
| JoinedIterators.RangeIteratorJoined.ResetIterators | base/branches/largedata/src/org/hsqldb/RangeVariable.java:1370-1372 | every iterator is reset, as JoinedSpec.ResetAll |
| JoinedIterators.RangeIteratorJoined.Finish | base/branches/largedata/src/org/hsqldb/RangeVariable.java:1366-1374 | the new state is JoinedSpec.EndOfJoin |
| JoinedIterators.RangeIteratorJoined.StepOnce | base/branches/largedata/src/org/hsqldb/RangeVariable.java:1343-1364 | the new state and outcome are JoinedSpec.Step |
| JoinedIterators.RangeIteratorJoined.Next | base/branches/largedata/src/org/hsqldb/RangeVariable.java:1341-1375 | the new state and outcome are JoinedSpec.JoinedNext, so JoinedFound, JoinedDone and JoinedNextTwins hold of the object |
| JoinedIterators.RangeIteratorJoined.Reset | base/branches/largedata/src/org/hsqldb/RangeVariable.java:1390-1397 | the new state is the corrected JoinedSpec.Reset |
| JoinedIterators.RangeIteratorJoined.Release | base/branches/largedata/src/org/hsqldb/RangeVariable.java:1379-1388 | every iterator is reset; nothing else changes |

## Left out

- Session, store and evaluator: the row store is a function from an index and a request to rows, and `testCondition` is an oracle (`Evaluator.atom`). Only FALSE and AND are interpreted. `ExpressionLogical.andExpressions` is not part of this model; its meaning (null is the identity, FALSE absorbs) is taken from how the range code uses it.
- Type conversion in getFirstRow: `compareToTypeRange` and `convertToType` are folded into `Evaluator.bound`, which returns the range verdict and the converted value.
- Correlated subquery materialisation in initialiseIterator, `describe`, `addTableColumns`, `resolveRangeTable`, and registration of the iterator with the session context are left out: none of them affects which rows are produced.
- `currentJoinData` is a local of getFirstRow rather than a reused buffer.
- `RangeIteratorRight` is folded into `RangeIterators.RangeIteratorMain`, with `isOnRightOuterRows` false for a main iterator. `getIterator` choosing the class is `CursorSpec.Start` plus that flag.
- `RangeIterators.RangeIteratorMain.Reset`: reset keeps `condIndex`, `hasLeftOuterRow` and the matched positions, as written. Only a restart after next has returned false (when condIndex is back at 0) is proved to replay (`CursorLemmas.ResetReplays`).
- `JoinedSpec.Valid` requires that no cursor is on the right-outer second pass. The joined iterator never calls setOnOuterRows; that pass is driven elsewhere.
- A condition of range i sees the rows of the enclosing query and of ranges 0..i-1 (`JoinedSpec.CtxAt`). Rows of later ranges are not visible.
- `JoinedSpec.Outcome.NullRow`: when the innermost range of a join emits its null row, next dereferences a null row, which fails in the source. The model reports this as an outcome rather than modelling the exception.
- The joined iterator's `currentData` is null before the first row; the model holds an empty sequence there.
- `RangeIteratorJoined.release` also releases the joined iterator's own `it`, which is always null; that call is not modelled.
- The `getNextRow`, `hasNext`, `getNext` and `setRowColumns` stubs of the base class only raise an error and are not modelled.
- `Conditions.RangeVariableConditions.AddIndexCondition` follows the code as written for an operator without a case (the index is installed with no bounds; see Findings). The checked variant `ConditionSpec.CheckedAddIndexCondition` is stated and proved as a function only; no caller in this model passes such an operator.
- `JoinedIterators.RangeIteratorJoined.Reset` performs the corrected reset (`currentIndex` back to 0, `JoinedSpec.Reset`), not the reset as written, which leaves `currentIndex` alone; the as-written effect is `JoinedSpec.ResetAsWritten` (see Findings).
- RangeVariables.RowIdRoundTrip: stated only for a 32-bit table id and a non-negative position below 2^32. `getPos` returns a Java `int`, and a negative position would borrow from the table id; `GetRowId` itself computes that case as the source does.

## Findings

| source | as written | input that shows it | evidently intended | confidence | as-written member | corrected member |
|---|---|---|---|---|---|---|
| base/branches/largedata/src/org/hsqldb/RangeVariable.java:1390-1397 | `RangeIteratorJoined.reset` resets every range iterator and the base fields but leaves `currentIndex` where `next` put it; after `next` has returned false it is -1 | any join run to its end (next returned false), then reset, then next | reset restarts the join: next after reset behaves as on a new iterator | not executed | JoinedSpec.ResetAsWrittenStaysExhausted | JoinedSpec.ResetRestarts |
| base/branches/largedata/src/org/hsqldb/RangeVariable.java:1661-1662 | the default case of `addIndexCondition` calls `Error.runtimeError` without `throw`, unlike every other call site in the file, so control falls through and sets `indexedColumnCount` and `hasIndex` | an expression list whose first operator is none of NOT, GREATER, GREATER_EQUAL, SMALLER, SMALLER_EQUAL, EQUAL, IS_NULL, with colCount 1 | the internal error is raised and no access path is installed | not executed | ConditionSpec.UnknownOperatorLeavesStartUnbound | ConditionSpec.CheckedAddIndexConditionBounds |
