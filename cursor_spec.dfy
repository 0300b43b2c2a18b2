/**
 * RangeIteratorMain and RangeIteratorRight as a state machine on values.
 *
 * A cursor walks the alternatives (the OR branches) of its range one after
 * the other. For each it opens a scan on the alternative's index, filters
 * the scanned rows through the terminal condition, the end condition, the
 * join residual, the where residual and the exclusion condition, and emits
 * what survives. A left outer range with no match emits one row of nulls;
 * a right outer range records the rows it matched and, in a second pass,
 * emits the rows it did not.
 *
 * The open scan (`it`) is the sequence of rows it has still to hand out;
 * releasing it empties it.
 */
module CursorSpec {
  import opened Values
  import opened Expressions
  import opened Storage
  import opened ConditionSpec

  /** What an iterator reads of its RangeVariable. */
  datatype RangeVar = RangeVar(
    tableId: int,
    isLeftJoin: bool,
    isRightJoin: bool,
    emptyData: seq<Value>,
    indexDistinctCount: int,
    joinConditions: seq<CondState>,
    whereConditions: seq<CondState>)

  /** What the session supplies: the row store, the expression evaluator and
      the current rows of the enclosing ranges. */
  datatype Context = Context(store: Store, ev: Evaluator, outer: seq<seq<Value>>)

  /** The fields of RangeIteratorMain (and the one RangeIteratorRight adds). */
  datatype Cursor = Cursor(
    conditions: seq<CondState>,
    condIndex: nat,
    isBeforeFirst: bool,
    hasLeftOuterRow: bool,
    it: Option<seq<Row>>,
    currentRow: Option<Row>,
    currentData: seq<Value>,
    lookup: set<int>,
    isOnRightOuterRows: bool)

  /** The operators for which getFirstRow puts null in the search key. */
  predicate IsNullKeyOp(op: OpType) {
    op == IsNull || op == Not || op == Max
  }

  /** Every start bound getFirstRow dereferences is present: all but the
      last of the prefix, and the last unless the path operator makes its
      key null. */
  predicate KeyReady(s: CondState)
    requires Shaped(s)
  {
    s.hasIndex ==>
      && (forall i :: 0 <= i < s.indexedColumnCount - 1 ==> s.indexCond.value[i].Some?)
      && (s.indexedColumnCount > 0 && !IsNullKeyOp(s.opType) ==>
            s.indexCond.value[s.indexedColumnCount - 1].Some?)
  }

  /** A path an iterator can open: it names an index and its bounds are
      present where getFirstRow reads them. */
  predicate PathReady(s: CondState) {
    Shaped(s) && s.rangeIndex.Some? && KeyReady(s)
  }

  /** As many join paths as where paths (findNext reads both at condIndex),
      and at least one. */
  predicate Lists(rv: RangeVar) {
    |rv.joinConditions| == |rv.whereConditions| >= 1
  }

  /** Every path of a list can be opened. */
  predicate ListReady(conditions: seq<CondState>) {
    forall i :: 0 <= i < |conditions| ==> PathReady(conditions[i])
  }

  /** The cursor runs one of its range's two path lists. */
  predicate OnList(rv: RangeVar, c: Cursor) {
    Lists(rv) && (c.conditions == rv.joinConditions || c.conditions == rv.whereConditions)
  }

  /** The cursor runs one of its range's two path lists and can open every
      path of it. The list it does not run is never opened, and its index
      may be null. */
  predicate OnPlan(rv: RangeVar, c: Cursor) {
    OnList(rv, c) && ListReady(c.conditions)
  }

  /** The current path can be opened: initialiseIterator reads its index. */
  predicate Openable(c: Cursor) {
    c.condIndex < |c.conditions| && PathReady(c.conditions[c.condIndex])
  }

  /** What the iterators demand of the planner: aligned lists, and every
      path of the list the constructor chooses can be opened. The other
      list is read only for its residuals; for a right outer range the
      second pass also opens the first where path (`SetOnOuterRows`). */
  predicate PlanReady(rv: RangeVar) {
    Lists(rv) && ListReady(Start(rv).conditions)
  }

  /** The path list has one entry per join and where path, so findNext
      can read all three at the current alternative. */
  predicate Aligned(rv: RangeVar, c: Cursor) {
    |c.conditions| == |rv.joinConditions| == |rv.whereConditions|
  }

  /** The state every public method keeps: a path list to run whose paths
      can all be opened (on the second pass only the first where path is
      run, and only it need be openable), an open scan unless before the
      first row, scans no longer than the store, and padding pending only on
      a left outer range. */
  predicate Valid(rv: RangeVar, maxRows: nat, c: Cursor) {
    && OnList(rv, c)
    && c.condIndex < |c.conditions|
    && (!c.isOnRightOuterRows ==> OnPlan(rv, c))
    && (!c.isBeforeFirst ==> c.it.Some?)
    && (c.it.Some? ==> |c.it.value| <= maxRows)
    && (!rv.isLeftJoin ==> !c.hasLeftOuterRow)
    && (c.isOnRightOuterRows ==> c.conditions == rv.whereConditions && c.condIndex == 0 && Openable(c))
  }

  /** The constructor: the where paths drive the scan when the first of them
      uses the index, the join paths otherwise. */
  function Start(rv: RangeVar): (c: Cursor)
    requires |rv.whereConditions| >= 1
  {
    Cursor(if HasIndexCondition(rv.whereConditions[0]) then rv.whereConditions else rv.joinConditions,
           0, true, false, None, None, rv.emptyData, {}, false)
  }

  /** reset: release the scan and forget the current row. The alternative
      reached, the padding flag and the matched rows are kept. */
  function Reset(rv: RangeVar, c: Cursor): (r: Cursor) {
    c.(it := None, currentData := rv.emptyData, currentRow := None, isBeforeFirst := true)
  }

  /** The search-key operator of prefix column i: the path operator for the
      last column, the bound's own operator before it. */
  function KeyOp(s: CondState, i: nat): OpType
    requires PathReady(s) && s.hasIndex && i < s.indexedColumnCount
  {
    if i == s.indexedColumnCount - 1 then s.opType else TypeOf(s.indexCond.value[i].value)
  }

  /** The key value getFirstRow computes for prefix column i, or None when
      the first bound's value is out of the column type's range and the scan
      must be empty. Below the column range only a lower bound survives (as
      an unrestricted start); above it only NOT NULL does. */
  function KeyValue(s: CondState, ev: Evaluator, outer: seq<seq<Value>>, i: nat): Option<Value>
    requires PathReady(s) && s.hasIndex && i < s.indexedColumnCount
  {
    if IsNullKeyOp(KeyOp(s, i)) then Some(Null)
    else
      var e := s.indexCond.value[i].value;
      var b := ev.bound(e, outer);
      if i == 0 && b.range < 0 then
        if TypeOf(e) == GreaterEqual || TypeOf(e) == Greater then Some(Null) else None
      else if i == 0 && b.range > 0 then
        if TypeOf(e) == Not then Some(Null) else None
      else
        Some(b.value)
  }

  /** The first n values of the search key, or None if the scan is empty. */
  function KeyPrefix(s: CondState, ev: Evaluator, outer: seq<seq<Value>>, n: nat): Option<seq<Value>>
    requires PathReady(s) && s.hasIndex && n <= s.indexedColumnCount
  {
    if n == 0 then Some([])
    else
      match KeyPrefix(s, ev, outer, n - 1)
      case None => None
      case Some(key) =>
        match KeyValue(s, ev, outer, n - 1)
        case None => None
        case Some(v) => Some(key + [v])
  }

  /** getFirstRow: an empty scan for an out-of-range first bound, else a
      search from the key over the prefix. */
  function FirstRowRequest(rv: RangeVar, s: CondState, ev: Evaluator, outer: seq<seq<Value>>): ScanRequest
    requires PathReady(s) && s.hasIndex
  {
    match KeyPrefix(s, ev, outer, s.indexedColumnCount)
    case None => EmptyScan
    case Some(key) => FindFirst(key, s.indexedColumnCount, rv.indexDistinctCount, s.opType, s.reversed)
  }

  /** The scan initialiseIterator opens for the current alternative. */
  function OpenRequest(rv: RangeVar, ctx: Context, c: Cursor): ScanRequest
    requires Openable(c)
  {
    var s := c.conditions[c.condIndex];
    if s.isFalse then EmptyScan
    else if s.indexCond.None? then (if s.reversed then LastRow else FirstRow)
    else FirstRowRequest(rv, s, ctx.ev, ctx.outer)
  }

  /** initialiseIterator: the first alternative arms the left outer padding;
      a where path that uses the index disarms it; then the scan is opened. */
  function Initialise(rv: RangeVar, ctx: Context, c: Cursor): (r: Cursor)
    requires Openable(c)
  {
    var s := c.conditions[c.condIndex];
    var armed := if c.condIndex == 0 then rv.isLeftJoin else c.hasLeftOuterRow;
    var pending := if !s.isFalse && s.indexCond.Some? && !s.isJoin then false else armed;
    c.(hasLeftOuterRow := pending, it := Some(Open(ctx.store, s.rangeIndex.value, OpenRequest(rv, ctx, c))))
  }

  /** addFoundRow: a right outer range records the row's position. */
  function AddFoundRow(rv: RangeVar, c: Cursor): (r: Cursor)
    requires c.currentRow.Some?
  {
    if rv.isRightJoin then c.(lookup := c.lookup + {c.currentRow.value.pos}) else c
  }

  /** Two cursor states on the same alternative of the same path list, in
      the same pass. */
  predicate SamePath(a: Cursor, b: Cursor) {
    && a.conditions == b.conditions && a.condIndex == b.condIndex
    && a.isBeforeFirst == b.isBeforeFirst && a.isOnRightOuterRows == b.isOnRightOuterRows
  }

  /** The end of findNext's scan: release it, forget the row, and on the
      last alternative emit the null row if padding is still pending and
      the where residual accepts it. */
  function Exhausted(rv: RangeVar, ctx: Context, c: Cursor): (r: (Cursor, bool))
    requires Aligned(rv, c) && c.condIndex < |c.conditions|
    ensures SamePath(r.0, c) && r.0.it == Some([]) && r.0.lookup == c.lookup
  {
    var released := c.(it := Some([]), currentRow := None, currentData := rv.emptyData);
    if c.hasLeftOuterRow && c.condIndex == |c.conditions| - 1 then
      (released.(hasLeftOuterRow := false),
       Passes(rv.whereConditions[c.condIndex].nonIndexCondition, ctx.ev, Env(ctx.outer, rv.emptyData)))
    else
      (released, false)
  }

  /** What findNext does with a scanned row, in the order it tests:
      a failed terminal condition ends the scan; a failed end condition
      ends it too; a row failing the join residual is skipped; one failing
      the where residual is skipped but counts as matched; an excluded row
      is skipped; any other row is emitted. */
  datatype Verdict = EndScan | EndRange | Skip | Reject | Emit

  function Judge(rv: RangeVar, ctx: Context, conditions: seq<CondState>, i: nat, row: Row): Verdict
    requires i < |conditions| && i < |rv.joinConditions| && i < |rv.whereConditions|
  {
    var s := conditions[i];
    var env := Env(ctx.outer, row.data);
    if s.terminalCondition.Some? && !Holds(s.terminalCondition.value, ctx.ev, env) then EndScan
    else if !Passes(s.indexEndCondition, ctx.ev, env) then EndRange
    else if !Passes(rv.joinConditions[i].nonIndexCondition, ctx.ev, env) then Skip
    else if !Passes(rv.whereConditions[i].nonIndexCondition, ctx.ev, env) then Reject
    else if s.excludeConditions.Some? && Holds(s.excludeConditions.value, ctx.ev, env) then Skip
    else Emit
  }

  /** findNext: the filter chain over the rows left in the scan. A row that
      ends the range clears the padding flag of a where path; a matched row
      clears it whether or not it is emitted. */
  function FindNext(rv: RangeVar, ctx: Context, c: Cursor): (r: (Cursor, bool))
    requires Aligned(rv, c) && c.condIndex < |c.conditions| && c.it.Some?
    ensures SamePath(r.0, c) && r.0.it.Some?
    decreases |c.it.value|
  {
    var rows := c.it.value;
    if rows == [] then Exhausted(rv, ctx, c)
    else
      var row := rows[0];
      var c1 := c.(it := Some(rows[1..]), currentRow := Some(row), currentData := row.data);
      match Judge(rv, ctx, c.conditions, c.condIndex, row)
      case EndScan => Exhausted(rv, ctx, c1)
      case EndRange =>
        Exhausted(rv, ctx, if c.conditions[c.condIndex].isJoin then c1 else c1.(hasLeftOuterRow := false))
      case Skip => FindNext(rv, ctx, c1)
      case Reject => FindNext(rv, ctx, AddFoundRow(rv, c1.(hasLeftOuterRow := false)))
      case Emit => (AddFoundRow(rv, c1).(hasLeftOuterRow := false), true)
  }

  /** One turn of next's loop: open the current alternative's scan if it
      is not open yet, then look for the next row in it. */
  function Step(rv: RangeVar, ctx: Context, c: Cursor): (r: (Cursor, bool))
    requires OnList(rv, c) && Openable(c)
    requires !c.isBeforeFirst ==> c.it.Some?
    ensures r.0.conditions == c.conditions && r.0.condIndex == c.condIndex
    ensures !r.0.isBeforeFirst && r.0.isOnRightOuterRows == c.isOnRightOuterRows && r.0.it.Some?
  {
    FindNext(rv, ctx, if c.isBeforeFirst then Initialise(rv, ctx, c.(isBeforeFirst := false)) else c)
  }

  /** Moving on after an alternative is exhausted: reset, then the next. */
  function Advance(rv: RangeVar, c: Cursor): (r: Cursor) {
    Reset(rv, c).(condIndex := c.condIndex + 1)
  }

  /** RangeIteratorMain.next: run the current alternative; when it has no
      more rows, reset and move to the next one; after the last, go back to
      the first and report exhaustion. */
  function Next(rv: RangeVar, ctx: Context, c: Cursor): (Cursor, bool)
    requires OnPlan(rv, c) && c.condIndex <= |c.conditions|
    requires !c.isBeforeFirst ==> c.it.Some?
    decreases |c.conditions| - c.condIndex
  {
    if c.condIndex < |c.conditions| then
      var r := Step(rv, ctx, c);
      if r.1 then r else Next(rv, ctx, Advance(rv, r.0))
    else
      (c.(condIndex := 0), false)
  }

  /** setOnOuterRows: the second pass of a right outer range runs the first
      where path from its start. */
  function SetOnOuterRows(rv: RangeVar, ctx: Context, c: Cursor): (r: Cursor)
    requires Lists(rv) && PathReady(rv.whereConditions[0])
  {
    Initialise(rv, ctx, c.(conditions := rv.whereConditions, isOnRightOuterRows := true,
                           hasLeftOuterRow := false, condIndex := 0))
  }

  /** lookupAndTest: the row was not matched in the first pass and passes
      the residual. */
  predicate LookupAndTest(rv: RangeVar, ctx: Context, c: Cursor)
    requires c.currentRow.Some? && c.condIndex < |c.conditions|
  {
    && c.currentRow.value.pos !in c.lookup
    && Passes(c.conditions[c.condIndex].nonIndexCondition, ctx.ev, Env(ctx.outer, c.currentRow.value.data))
  }

  /** findNextRight: the scan of the second pass, emitting the rows the
      first pass did not match. */
  function FindNextRight(rv: RangeVar, ctx: Context, c: Cursor): (r: (Cursor, bool))
    requires c.it.Some? && c.condIndex < |c.conditions|
    ensures SamePath(r.0, c) && r.0.it.Some?
    decreases |c.it.value|
  {
    var rows := c.it.value;
    if rows == [] then
      (c.(it := Some([]), currentRow := None, currentData := rv.emptyData), false)
    else
      var row := rows[0];
      var s := c.conditions[c.condIndex];
      var env := Env(ctx.outer, row.data);
      var c1 := c.(it := Some(rows[1..]), currentRow := Some(row), currentData := row.data);
      if !Passes(s.indexEndCondition, ctx.ev, env) then
        (c1.(it := Some([]), currentRow := None, currentData := rv.emptyData), false)
      else if !Passes(s.nonIndexCondition, ctx.ev, env) then
        FindNextRight(rv, ctx, c1)
      else if !LookupAndTest(rv, ctx, c1) then
        FindNextRight(rv, ctx, c1)
      else
        (c1, true)
  }

  /** RangeIteratorRight.next: the second pass once it has been set up,
      the first pass before. For a main iterator `isOnRightOuterRows` is
      never set, so this is also the call every iterator answers. */
  function CursorNext(rv: RangeVar, ctx: Context, c: Cursor): (Cursor, bool)
    requires Valid(rv, ctx.store.maxRows, c)
  {
    if c.isOnRightOuterRows then
      if c.it.None? then (c, false) else FindNextRight(rv, ctx, c)
    else
      Next(rv, ctx, c)
  }
}
