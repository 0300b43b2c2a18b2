/**
 * What the iterator state machine guarantees: which rows it emits, when it
 * pads, what it records for the right outer pass, how it ends, and that
 * every call that emits a row makes progress.
 */
module CursorLemmas {
  import opened Values
  import opened Expressions
  import opened Storage
  import opened ConditionSpec
  import opened CursorSpec

  /** The row positions of a scan. */
  function Positions(rows: seq<Row>): set<int> {
    set r | r in rows :: r.pos
  }

  lemma PositionsTail(rows: seq<Row>)
    requires rows != []
    ensures Positions(rows[1..]) <= Positions(rows)
    ensures rows[0].pos in Positions(rows)
  {
    forall p | p in Positions(rows[1..])
      ensures p in Positions(rows)
    {
      var r :| r in rows[1..] && r.pos == p;
      assert r in rows;
    }
  }

  /** The row passed every test findNext applies on alternative i: the
      terminal condition, the end condition, both residuals, and it is not
      excluded. */
  predicate Accepted(rv: RangeVar, ctx: Context, conditions: seq<CondState>, i: nat, row: Row)
    requires i < |conditions| && i < |rv.joinConditions| && i < |rv.whereConditions|
  {
    var s := conditions[i];
    var env := Env(ctx.outer, row.data);
    && (s.terminalCondition.Some? ==> Holds(s.terminalCondition.value, ctx.ev, env))
    && Passes(s.indexEndCondition, ctx.ev, env)
    && Passes(rv.joinConditions[i].nonIndexCondition, ctx.ev, env)
    && Passes(rv.whereConditions[i].nonIndexCondition, ctx.ev, env)
    && !(s.excludeConditions.Some? && Holds(s.excludeConditions.value, ctx.ev, env))
  }

  /** findNext emits exactly the rows that pass every test. */
  lemma JudgeEmitsAccepted(rv: RangeVar, ctx: Context, conditions: seq<CondState>, i: nat, row: Row)
    requires i < |conditions| && i < |rv.joinConditions| && i < |rv.whereConditions|
    ensures Judge(rv, ctx, conditions, i, row) == Emit <==> Accepted(rv, ctx, conditions, i, row)
  {
  }

  // ----- opening a scan -----

  /** A range whose first where path has no index condition runs its join
      paths: it is ready exactly when they are, whatever index the where
      paths (the OR copies among them included) hold. */
  lemma UnindexedWhereRunsJoin(rv: RangeVar)
    requires Lists(rv) && !HasIndexCondition(rv.whereConditions[0])
    ensures Start(rv).conditions == rv.joinConditions
    ensures PlanReady(rv) <==> ListReady(rv.joinConditions)
  {
  }

  /** The range the constructors build, one join path that can be opened
      and a where path with no index at all, starts valid. */
  lemma PlainRangeStarts(rv: RangeVar, j: CondState, maxRows: nat)
    requires PathReady(j) && rv.joinConditions == [j] && rv.whereConditions == [Initial(false)]
    ensures !PathReady(rv.whereConditions[0])
    ensures PlanReady(rv) && Valid(rv, maxRows, Start(rv))
  {
  }

  /** A path the planner proved false never touches the store: the scan is
      empty and the padding flag is left as armed. */
  lemma FalsePathOpensNothing(rv: RangeVar, ctx: Context, c: Cursor)
    requires Openable(c)
    requires c.conditions[c.condIndex].isFalse
    ensures OpenRequest(rv, ctx, c) == EmptyScan
    ensures Initialise(rv, ctx, c).it == Some([])
    ensures Initialise(rv, ctx, c).hasLeftOuterRow ==
            (if c.condIndex == 0 then rv.isLeftJoin else c.hasLeftOuterRow)
  {
  }

  /** The search key is the per-column key values in prefix order, and it
      is missing exactly when the first bound is out of range. */
  lemma {:induction false} KeyPrefixShape(s: CondState, ev: Evaluator, outer: seq<seq<Value>>, n: nat)
    requires PathReady(s) && s.hasIndex && n <= s.indexedColumnCount
    ensures KeyPrefix(s, ev, outer, n).None? <==> n > 0 && KeyValue(s, ev, outer, 0).None?
    ensures KeyPrefix(s, ev, outer, n).Some? ==>
      var key := KeyPrefix(s, ev, outer, n).value;
      && |key| == n
      && forall i :: 0 <= i < n ==> KeyValue(s, ev, outer, i) == Some(key[i])
  {
    if n > 0 {
      KeyPrefixShape(s, ev, outer, n - 1);
      if n - 1 > 0 {
        assert KeyValue(s, ev, outer, n - 1).Some?;
      }
    }
  }

  /** getFirstRow searches from the full key over the whole prefix, with the
      path's operator and direction, unless the first bound is out of
      range, in which case the scan is empty. */
  lemma FirstRowRequestSpec(rv: RangeVar, s: CondState, ev: Evaluator, outer: seq<seq<Value>>)
    requires PathReady(s) && s.hasIndex
    ensures var req := FirstRowRequest(rv, s, ev, outer);
      && (req == EmptyScan <==> s.indexedColumnCount > 0 && KeyValue(s, ev, outer, 0).None?)
      && (req != EmptyScan ==>
            && req.FindFirst? && |req.key| == req.count == s.indexedColumnCount
            && req.distinctCount == rv.indexDistinctCount
            && req.opType == s.opType && req.reversed == s.reversed
            && forall i :: 0 <= i < req.count ==> KeyValue(s, ev, outer, i) == Some(req.key[i]))
  {
    KeyPrefixShape(s, ev, outer, s.indexedColumnCount);
  }

  /** The out-of-range rule of getFirstRow: a first bound below the column
      type's range leaves only a lower bound alive, one above leaves only
      NOT NULL; any other operator gives an empty scan. */
  lemma OutOfRangeFirstBound(rv: RangeVar, s: CondState, ev: Evaluator, outer: seq<seq<Value>>)
    requires PathReady(s) && s.hasIndex && s.indexedColumnCount > 0
    requires !IsNullKeyOp(KeyOp(s, 0))
    ensures var e := s.indexCond.value[0].value;
      var b := ev.bound(e, outer);
      (FirstRowRequest(rv, s, ev, outer) == EmptyScan <==>
         (b.range < 0 && TypeOf(e) != GreaterEqual && TypeOf(e) != Greater)
         || (b.range > 0 && TypeOf(e) != Not))
  {
    FirstRowRequestSpec(rv, s, ev, outer);
  }


  // ----- findNext -----

  /** findNext never grows the scan, only ever clears the padding flag,
      consumes a row or the pending padding whenever it emits, and leaves
      no padding pending on the last alternative. */
  lemma {:induction false} FindNextProgress(rv: RangeVar, ctx: Context, c: Cursor)
    requires Aligned(rv, c) && c.condIndex < |c.conditions| && c.it.Some?
    ensures var r := FindNext(rv, ctx, c);
      && |r.0.it.value| <= |c.it.value|
      && (r.0.hasLeftOuterRow ==> c.hasLeftOuterRow)
      && (r.1 ==> !r.0.hasLeftOuterRow && (|r.0.it.value| < |c.it.value| || c.hasLeftOuterRow))
      && (c.condIndex == |c.conditions| - 1 ==> !r.0.hasLeftOuterRow)
    decreases |c.it.value|
  {
    var rows := c.it.value;
    if rows != [] {
      var row := rows[0];
      var c1 := c.(it := Some(rows[1..]), currentRow := Some(row), currentData := row.data);
      match Judge(rv, ctx, c.conditions, c.condIndex, row)
      case Skip => FindNextProgress(rv, ctx, c1);
      case Reject => FindNextProgress(rv, ctx, AddFoundRow(rv, c1.(hasLeftOuterRow := false)));
      case _ =>
    }
  }

  /** For a right outer range findNext records positions of rows it scanned
      and no others, and never forgets one; otherwise it records nothing. */
  lemma {:induction false} FindNextLookup(rv: RangeVar, ctx: Context, c: Cursor)
    requires Aligned(rv, c) && c.condIndex < |c.conditions| && c.it.Some?
    ensures var r := FindNext(rv, ctx, c);
      && c.lookup <= r.0.lookup <= c.lookup + Positions(c.it.value)
      && (!rv.isRightJoin ==> r.0.lookup == c.lookup)
    decreases |c.it.value|
  {
    var rows := c.it.value;
    if rows != [] {
      var row := rows[0];
      var c1 := c.(it := Some(rows[1..]), currentRow := Some(row), currentData := row.data);
      PositionsTail(rows);
      match Judge(rv, ctx, c.conditions, c.condIndex, row)
      case Skip => FindNextLookup(rv, ctx, c1);
      case Reject => FindNextLookup(rv, ctx, AddFoundRow(rv, c1.(hasLeftOuterRow := false)));
      case _ =>
    }
  }

  /** A row findNext emits came from the scan, passed every filter of the
      alternative, is the current row, and a right outer range has recorded
      it. */
  lemma {:induction false} FindNextEmits(rv: RangeVar, ctx: Context, c: Cursor)
    requires Aligned(rv, c) && c.condIndex < |c.conditions| && c.it.Some?
    ensures var r := FindNext(rv, ctx, c);
      r.1 && r.0.currentRow.Some? ==>
        && r.0.currentRow.value in c.it.value
        && Accepted(rv, ctx, c.conditions, c.condIndex, r.0.currentRow.value)
        && r.0.currentData == r.0.currentRow.value.data
        && (rv.isRightJoin ==> r.0.currentRow.value.pos in r.0.lookup)
    decreases |c.it.value|
  {
    var rows := c.it.value;
    if rows != [] {
      var row := rows[0];
      var c1 := c.(it := Some(rows[1..]), currentRow := Some(row), currentData := row.data);
      match Judge(rv, ctx, c.conditions, c.condIndex, row)
      case Skip =>
        FindNextEmits(rv, ctx, c1);
      case Reject =>
        FindNextEmits(rv, ctx, AddFoundRow(rv, c1.(hasLeftOuterRow := false)));
      case Emit =>
        JudgeEmitsAccepted(rv, ctx, c.conditions, c.condIndex, row);
      case _ =>
    }
  }

  /** The rows rejected by the where residual are recorded for the right
      outer pass just like the emitted ones. */
  lemma WhereRejectedIsRecorded(rv: RangeVar, ctx: Context, c: Cursor)
    requires Aligned(rv, c) && c.condIndex < |c.conditions| && c.it.Some? && c.it.value != []
    requires rv.isRightJoin
    requires Judge(rv, ctx, c.conditions, c.condIndex, c.it.value[0]) == Reject
    ensures c.it.value[0].pos in FindNext(rv, ctx, c).0.lookup
  {
    var rows := c.it.value;
    var c1 := c.(it := Some(rows[1..]), currentRow := Some(rows[0]), currentData := rows[0].data);
    FindNextLookup(rv, ctx, AddFoundRow(rv, c1.(hasLeftOuterRow := false)));
  }

  /** The null row of a left outer range: findNext emits it only on the
      last alternative, when padding was pending and the where residual
      accepts the empty row. */
  lemma {:induction false} FindNextPads(rv: RangeVar, ctx: Context, c: Cursor)
    requires Aligned(rv, c) && c.condIndex < |c.conditions| && c.it.Some?
    ensures var r := FindNext(rv, ctx, c);
      r.1 && r.0.currentRow.None? ==>
        && c.hasLeftOuterRow && c.condIndex == |c.conditions| - 1
        && Passes(rv.whereConditions[c.condIndex].nonIndexCondition, ctx.ev, Env(ctx.outer, rv.emptyData))
    decreases |c.it.value|
  {
    var rows := c.it.value;
    if rows != [] {
      var row := rows[0];
      var c1 := c.(it := Some(rows[1..]), currentRow := Some(row), currentData := row.data);
      match Judge(rv, ctx, c.conditions, c.condIndex, row)
      case Skip =>
        FindNextPads(rv, ctx, c1);
      case Reject =>
        FindNextPads(rv, ctx, AddFoundRow(rv, c1.(hasLeftOuterRow := false)));
      case _ =>
    }
  }

  /** When findNext reports no row, or the null row, it has released the
      scan and shows the empty row. */
  lemma {:induction false} FindNextReleases(rv: RangeVar, ctx: Context, c: Cursor)
    requires Aligned(rv, c) && c.condIndex < |c.conditions| && c.it.Some?
    ensures var r := FindNext(rv, ctx, c);
      && (r.0.currentRow.None? ==> r.0.it == Some([]) && r.0.currentData == rv.emptyData)
      && (!r.1 ==> r.0.currentRow.None?)
    decreases |c.it.value|
  {
    var rows := c.it.value;
    if rows != [] {
      var row := rows[0];
      var c1 := c.(it := Some(rows[1..]), currentRow := Some(row), currentData := row.data);
      match Judge(rv, ctx, c.conditions, c.condIndex, row)
      case Skip =>
        FindNextReleases(rv, ctx, c1);
      case Reject =>
        FindNextReleases(rv, ctx, AddFoundRow(rv, c1.(hasLeftOuterRow := false)));
      case _ =>
    }
  }

  /** Verdicts that drop a row and let the scan go on. */
  predicate Dropped(v: Verdict) {
    v == Skip || v == Reject
  }

  /** Verdicts that end the scan and leave a pending null row pending. */
  predicate EndsKeepingPadding(v: Verdict, isJoin: bool) {
    v == EndScan || (v == EndRange && isJoin)
  }

  /** findNext emits the first row of the scan that every filter accepts,
      whatever rows the join or where residual dropped before it, and
      leaves the scan just after that row. */
  lemma {:induction false} FindNextFindsFirst(rv: RangeVar, ctx: Context, c: Cursor, j: nat)
    requires Aligned(rv, c) && c.condIndex < |c.conditions| && c.it.Some? && j < |c.it.value|
    requires forall i :: 0 <= i < j ==> Dropped(Judge(rv, ctx, c.conditions, c.condIndex, c.it.value[i]))
    requires Judge(rv, ctx, c.conditions, c.condIndex, c.it.value[j]) == Emit
    ensures var r := FindNext(rv, ctx, c);
      r.1 && r.0.currentRow == Some(c.it.value[j]) && r.0.it == Some(c.it.value[j + 1..])
    decreases j
  {
    var rows := c.it.value;
    if j > 0 {
      var c1 := c.(it := Some(rows[1..]), currentRow := Some(rows[0]), currentData := rows[0].data);
      var v := Judge(rv, ctx, c.conditions, c.condIndex, rows[0]);
      assert Dropped(v);
      var next := if v == Skip then c1 else AddFoundRow(rv, c1.(hasLeftOuterRow := false));
      assert FindNext(rv, ctx, c) == FindNext(rv, ctx, next);
      forall i | 0 <= i < j - 1
        ensures Dropped(Judge(rv, ctx, next.conditions, next.condIndex, next.it.value[i]))
      {
        assert next.it.value[i] == rows[i + 1];
      }
      FindNextFindsFirst(rv, ctx, next, j - 1);
      assert rows[1..][j..] == rows[j + 1..];
    }
  }

  /** The null row exists: with padding pending on the last alternative,
      when the join residual drops every row before the scan ends and the
      where residual accepts the empty row, findNext emits the null row. */
  lemma {:induction false} FindNextPadsUnmatched(rv: RangeVar, ctx: Context, c: Cursor, j: nat)
    requires Aligned(rv, c) && c.condIndex == |c.conditions| - 1 && c.it.Some? && j <= |c.it.value|
    requires c.hasLeftOuterRow
    requires forall i :: 0 <= i < j ==> Judge(rv, ctx, c.conditions, c.condIndex, c.it.value[i]) == Skip
    requires j < |c.it.value| ==>
      EndsKeepingPadding(Judge(rv, ctx, c.conditions, c.condIndex, c.it.value[j]), c.conditions[c.condIndex].isJoin)
    requires Passes(rv.whereConditions[c.condIndex].nonIndexCondition, ctx.ev, Env(ctx.outer, rv.emptyData))
    ensures var r := FindNext(rv, ctx, c);
      r.1 && r.0.currentRow.None? && !r.0.hasLeftOuterRow
    decreases j
  {
    var rows := c.it.value;
    if j > 0 {
      var c1 := c.(it := Some(rows[1..]), currentRow := Some(rows[0]), currentData := rows[0].data);
      assert FindNext(rv, ctx, c) == FindNext(rv, ctx, c1);
      forall i | 0 <= i < j - 1
        ensures Judge(rv, ctx, c1.conditions, c1.condIndex, c1.it.value[i]) == Skip
      {
        assert c1.it.value[i] == rows[i + 1];
      }
      if j < |rows| {
        assert c1.it.value[j - 1] == rows[j];
      }
      FindNextPadsUnmatched(rv, ctx, c1, j - 1);
    }
  }

  /** A row the where residual rejects cancels the null row: findNext then
      ends with no padding pending, and whatever it emits is a real row. */
  lemma {:induction false} RejectCancelsPadding(rv: RangeVar, ctx: Context, c: Cursor, j: nat)
    requires Aligned(rv, c) && c.condIndex < |c.conditions| && c.it.Some? && j < |c.it.value|
    requires forall i :: 0 <= i < j ==> Dropped(Judge(rv, ctx, c.conditions, c.condIndex, c.it.value[i]))
    requires Judge(rv, ctx, c.conditions, c.condIndex, c.it.value[j]) == Reject
    ensures var r := FindNext(rv, ctx, c);
      !r.0.hasLeftOuterRow && (r.1 ==> r.0.currentRow.Some?)
    decreases j
  {
    var rows := c.it.value;
    var c1 := c.(it := Some(rows[1..]), currentRow := Some(rows[0]), currentData := rows[0].data);
    var v := Judge(rv, ctx, c.conditions, c.condIndex, rows[0]);
    var next := if v == Skip then c1 else AddFoundRow(rv, c1.(hasLeftOuterRow := false));
    assert FindNext(rv, ctx, c) == FindNext(rv, ctx, next);
    if j == 0 {
      FindNextProgress(rv, ctx, next);
      FindNextPads(rv, ctx, next);
    } else {
      forall i | 0 <= i < j - 1
        ensures Dropped(Judge(rv, ctx, next.conditions, next.condIndex, next.it.value[i]))
      {
        assert next.it.value[i] == rows[i + 1];
      }
      assert next.it.value[j - 1] == rows[j];
      RejectCancelsPadding(rv, ctx, next, j - 1);
    }
  }

  // ----- one alternative -----

  /** How much of the current alternative is left: a whole scan plus the
      null row before it is opened, else the rows left plus the null row if
      it is still pending. */
  function Inner(maxRows: nat, c: Cursor): nat {
    if c.isBeforeFirst || c.it.None? then maxRows + 1
    else |c.it.value| + (if c.hasLeftOuterRow then 1 else 0)
  }

  /** One turn of next's loop keeps the cursor valid, emits only by
      consuming part of the alternative, and settles the padding on the
      last alternative. */
  lemma StepProgress(rv: RangeVar, ctx: Context, c: Cursor)
    requires Valid(rv, ctx.store.maxRows, c) && Bounded(ctx.store)
    ensures var r := Step(rv, ctx, c);
      && Valid(rv, ctx.store.maxRows, r.0)
      && (r.0.hasLeftOuterRow ==> rv.isLeftJoin)
      && (r.1 ==> Inner(ctx.store.maxRows, r.0) < Inner(ctx.store.maxRows, c))
      && (c.condIndex == |c.conditions| - 1 ==> !r.0.hasLeftOuterRow)
  {
    var c1 := if c.isBeforeFirst then Initialise(rv, ctx, c.(isBeforeFirst := false)) else c;
    assert |c1.it.value| <= ctx.store.maxRows;
    FindNextProgress(rv, ctx, c1);
  }

  /** What a turn of next's loop emits: a real row that passed every filter
      of the alternative, or the null row of a pending padding on the last
      alternative; anything else ends the alternative's scan. */
  lemma StepEmits(rv: RangeVar, ctx: Context, c: Cursor)
    requires OnList(rv, c) && Openable(c) && (!c.isBeforeFirst ==> c.it.Some?)
    ensures var r := Step(rv, ctx, c);
      && (r.1 && r.0.currentRow.Some? ==>
            && Accepted(rv, ctx, c.conditions, c.condIndex, r.0.currentRow.value)
            && r.0.currentData == r.0.currentRow.value.data
            && (rv.isRightJoin ==> r.0.currentRow.value.pos in r.0.lookup))
      && (r.1 && r.0.currentRow.None? ==>
            && c.condIndex == |c.conditions| - 1
            && (rv.isLeftJoin || c.hasLeftOuterRow)
            && (!c.isBeforeFirst ==> c.hasLeftOuterRow)
            && Passes(rv.whereConditions[c.condIndex].nonIndexCondition, ctx.ev, Env(ctx.outer, rv.emptyData)))
      && (r.0.currentRow.None? ==> r.0.it == Some([]) && r.0.currentData == rv.emptyData)
      && (!r.1 ==> r.0.currentRow.None?)
  {
    var c1 := if c.isBeforeFirst then Initialise(rv, ctx, c.(isBeforeFirst := false)) else c;
    FindNextEmits(rv, ctx, c1);
    FindNextPads(rv, ctx, c1);
    FindNextReleases(rv, ctx, c1);
  }

  /** A turn of next's loop records positions only for a right outer range
      and never forgets one. */
  lemma StepLookup(rv: RangeVar, ctx: Context, c: Cursor)
    requires OnList(rv, c) && Openable(c) && (!c.isBeforeFirst ==> c.it.Some?)
    ensures var r := Step(rv, ctx, c);
      c.lookup <= r.0.lookup && (!rv.isRightJoin ==> r.0.lookup == c.lookup)
  {
    var c1 := if c.isBeforeFirst then Initialise(rv, ctx, c.(isBeforeFirst := false)) else c;
    FindNextLookup(rv, ctx, c1);
  }

  // ----- next -----

  /** When next reports no more rows it has gone back to the first
      alternative, before its first row, with no scan open and the empty
      row current. */
  lemma {:induction false} NextFalseRewinds(rv: RangeVar, ctx: Context, c: Cursor)
    requires OnPlan(rv, c) && c.condIndex < |c.conditions| && (!c.isBeforeFirst ==> c.it.Some?)
    ensures var r := Next(rv, ctx, c);
      !r.1 ==>
        && r.0.conditions == c.conditions && r.0.condIndex == 0 && r.0.isBeforeFirst
        && r.0.it.None? && r.0.currentRow.None? && r.0.currentData == rv.emptyData
    decreases |c.conditions| - c.condIndex
  {
    var r := Step(rv, ctx, c);
    if !r.1 && c.condIndex + 1 < |c.conditions| {
      NextFalseRewinds(rv, ctx, Advance(rv, r.0));
    }
  }

  /** A real row next emits passed every filter of the alternative it was
      found on, which is the current one or a later one. */
  lemma {:induction false} NextEmits(rv: RangeVar, ctx: Context, c: Cursor)
    requires OnPlan(rv, c) && c.condIndex < |c.conditions| && (!c.isBeforeFirst ==> c.it.Some?)
    ensures var r := Next(rv, ctx, c);
      r.1 ==>
        && r.0.conditions == c.conditions && c.condIndex <= r.0.condIndex < |c.conditions|
        && !r.0.isBeforeFirst && r.0.it.Some?
        && (r.0.currentRow.Some? ==>
              && Accepted(rv, ctx, c.conditions, r.0.condIndex, r.0.currentRow.value)
              && r.0.currentData == r.0.currentRow.value.data
              && (rv.isRightJoin ==> r.0.currentRow.value.pos in r.0.lookup))
    decreases |c.conditions| - c.condIndex
  {
    StepEmits(rv, ctx, c);
    var r := Step(rv, ctx, c);
    if !r.1 && c.condIndex + 1 < |c.conditions| {
      NextEmits(rv, ctx, Advance(rv, r.0));
    }
  }

  /** next never forgets a recorded position, and records none unless the
      range is the right side of an outer join. */
  lemma {:induction false} NextLookup(rv: RangeVar, ctx: Context, c: Cursor)
    requires OnPlan(rv, c) && c.condIndex < |c.conditions| && (!c.isBeforeFirst ==> c.it.Some?)
    ensures var c2 := Next(rv, ctx, c).0;
      c.lookup <= c2.lookup && (!rv.isRightJoin ==> c2.lookup == c.lookup)
    decreases |c.conditions| - c.condIndex
  {
    StepLookup(rv, ctx, c);
    var r := Step(rv, ctx, c);
    if !r.1 && c.condIndex + 1 < |c.conditions| {
      NextLookup(rv, ctx, Advance(rv, r.0));
    }
  }

  /** The null row of a left outer range: emitted only by a left outer
      range, on its last alternative, when the where residual accepts the
      empty row; it closes the scan and clears the padding flag. */
  lemma {:induction false} NextPadding(rv: RangeVar, ctx: Context, c: Cursor)
    requires Valid(rv, ctx.store.maxRows, c) && Bounded(ctx.store) && !c.isOnRightOuterRows
    ensures var r := Next(rv, ctx, c);
      r.1 && r.0.currentRow.None? ==>
        && rv.isLeftJoin
        && r.0.condIndex == |c.conditions| - 1
        && r.0.it == Some([]) && r.0.currentData == rv.emptyData && !r.0.hasLeftOuterRow
        && Passes(rv.whereConditions[r.0.condIndex].nonIndexCondition, ctx.ev, Env(ctx.outer, rv.emptyData))
    decreases |c.conditions| - c.condIndex
  {
    StepEmits(rv, ctx, c);
    StepProgress(rv, ctx, c);
    var r := Step(rv, ctx, c);
    if !r.1 && c.condIndex + 1 < |c.conditions| {
      NextPadding(rv, ctx, Advance(rv, r.0));
    }
  }

  /** The null row is emitted at most once: the call after it reports the
      end. */
  lemma PaddingAtMostOnce(rv: RangeVar, ctx: Context, c: Cursor)
    requires Valid(rv, ctx.store.maxRows, c) && Bounded(ctx.store) && !c.isOnRightOuterRows
    requires Next(rv, ctx, c).1 && Next(rv, ctx, c).0.currentRow.None?
    ensures var c2 := Next(rv, ctx, c).0;
      OnPlan(rv, c2) && c2.condIndex < |c2.conditions| && !c2.isBeforeFirst && c2.it.Some?
      && !Next(rv, ctx, c2).1
  {
    NextPadding(rv, ctx, c);
    NextEmits(rv, ctx, c);
  }

  /** Only a left outer range pads: any other range emits real rows. */
  lemma NoPaddingUnlessLeftJoin(rv: RangeVar, ctx: Context, c: Cursor)
    requires Valid(rv, ctx.store.maxRows, c) && Bounded(ctx.store) && !c.isOnRightOuterRows && !rv.isLeftJoin
    requires Next(rv, ctx, c).1
    ensures Next(rv, ctx, c).0.currentRow.Some?
  {
    NextPadding(rv, ctx, c);
  }

  /** The null row exists at the level of next: on the last alternative
      with padding pending and its scan open, when the join residual drops
      every row before the scan ends and the where residual accepts the
      empty row, next emits the null row. */
  lemma NextPadsUnmatched(rv: RangeVar, ctx: Context, c: Cursor, j: nat)
    requires OnPlan(rv, c) && c.condIndex == |c.conditions| - 1 && !c.isBeforeFirst && c.it.Some?
    requires c.hasLeftOuterRow && j <= |c.it.value|
    requires forall i :: 0 <= i < j ==> Judge(rv, ctx, c.conditions, c.condIndex, c.it.value[i]) == Skip
    requires j < |c.it.value| ==>
      EndsKeepingPadding(Judge(rv, ctx, c.conditions, c.condIndex, c.it.value[j]), c.conditions[c.condIndex].isJoin)
    requires Passes(rv.whereConditions[c.condIndex].nonIndexCondition, ctx.ev, Env(ctx.outer, rv.emptyData))
    ensures Next(rv, ctx, c).1 && Next(rv, ctx, c).0.currentRow.None?
  {
    FindNextPadsUnmatched(rv, ctx, c, j);
  }

  /** Once the padding flag is down, next emits no null row until it
      reports the end: only opening the first alternative raises it again. */
  lemma {:induction false} NoPaddingOnceCleared(rv: RangeVar, ctx: Context, c: Cursor)
    requires OnPlan(rv, c) && c.condIndex < |c.conditions| && (!c.isBeforeFirst ==> c.it.Some?)
    requires !c.hasLeftOuterRow && (c.isBeforeFirst ==> c.condIndex > 0)
    ensures Next(rv, ctx, c).1 ==> Next(rv, ctx, c).0.currentRow.Some?
    decreases |c.conditions| - c.condIndex
  {
    var c1 := if c.isBeforeFirst then Initialise(rv, ctx, c.(isBeforeFirst := false)) else c;
    assert !c1.hasLeftOuterRow;
    FindNextPads(rv, ctx, c1);
    FindNextProgress(rv, ctx, c1);
    var r := Step(rv, ctx, c);
    if !r.1 && c.condIndex + 1 < |c.conditions| {
      NoPaddingOnceCleared(rv, ctx, Advance(rv, r.0));
    }
  }

  /** After reset on the first alternative, next depends only on the path
      list and the recorded positions: whatever row, scan or padding flag
      the cursor had before, the rows that follow are the same. */
  lemma ResetReplays(rv: RangeVar, ctx: Context, a: Cursor, b: Cursor)
    requires OnPlan(rv, a) && a.conditions == b.conditions
    requires a.condIndex == 0 && b.condIndex == 0
    requires a.lookup == b.lookup && a.isOnRightOuterRows == b.isOnRightOuterRows
    ensures Next(rv, ctx, Reset(rv, a)) == Next(rv, ctx, Reset(rv, b))
  {
    assert Initialise(rv, ctx, Reset(rv, a).(isBeforeFirst := false))
        == Initialise(rv, ctx, Reset(rv, b).(isBeforeFirst := false));
  }

  // ----- what the matched-row record does not decide -----

  /** The part of a cursor that decides what the first pass does next. The
      matched positions only feed the second pass, and the padding flag of
      a cursor on its first alternative before the scan is opened is
      overwritten when the scan is opened. */
  function Observable(c: Cursor): (o: Cursor)
    ensures o.lookup == {} && o.conditions == c.conditions && o.condIndex == c.condIndex
    ensures o.isBeforeFirst == c.isBeforeFirst && o.currentRow == c.currentRow
    ensures o.currentData == c.currentData && o.it == c.it
  {
    c.(lookup := {}, hasLeftOuterRow := if c.isBeforeFirst && c.condIndex == 0 then false else c.hasLeftOuterRow)
  }

  /** reset keeps observably equal cursors observably equal. */
  lemma ObservableReset(rv: RangeVar, a: Cursor, b: Cursor)
    requires Observable(a) == Observable(b)
    ensures Observable(Reset(rv, a)) == Observable(Reset(rv, b))
  {
  }

  /** findNext on two cursors that differ only in their matched positions
      emits the same and leaves them differing only there. */
  lemma {:induction false} FindNextIgnoresLookup(rv: RangeVar, ctx: Context, a: Cursor, b: Cursor)
    requires Aligned(rv, a) && a.condIndex < |a.conditions| && a.it.Some?
    requires a.(lookup := {}) == b.(lookup := {})
    ensures Aligned(rv, b) && b.condIndex < |b.conditions| && b.it.Some?
    ensures FindNext(rv, ctx, a).1 == FindNext(rv, ctx, b).1
    ensures FindNext(rv, ctx, a).0.(lookup := {}) == FindNext(rv, ctx, b).0.(lookup := {})
    decreases |a.it.value|
  {
    assert b == a.(lookup := b.lookup);
    var rows := a.it.value;
    if rows == [] {
      ExhaustedIgnoresLookup(rv, ctx, a, b);
    } else {
      var row := rows[0];
      var a1 := a.(it := Some(rows[1..]), currentRow := Some(row), currentData := row.data);
      var b1 := b.(it := Some(rows[1..]), currentRow := Some(row), currentData := row.data);
      match Judge(rv, ctx, a.conditions, a.condIndex, row)
      case Skip => FindNextIgnoresLookup(rv, ctx, a1, b1);
      case Reject =>
        FindNextIgnoresLookup(rv, ctx, AddFoundRow(rv, a1.(hasLeftOuterRow := false)),
                                       AddFoundRow(rv, b1.(hasLeftOuterRow := false)));
      case _ => FirstRowIgnoresLookup(rv, ctx, a, b);
    }
  }

  /** The same when the first row scanned ends the search. */
  lemma FirstRowIgnoresLookup(rv: RangeVar, ctx: Context, a: Cursor, b: Cursor)
    requires Aligned(rv, a) && a.condIndex < |a.conditions| && a.it.Some? && a.it.value != []
    requires Judge(rv, ctx, a.conditions, a.condIndex, a.it.value[0]) !in {Skip, Reject}
    requires a.(lookup := {}) == b.(lookup := {})
    ensures Aligned(rv, b) && b.condIndex < |b.conditions| && b.it.Some?
    ensures FindNext(rv, ctx, a).1 == FindNext(rv, ctx, b).1
    ensures FindNext(rv, ctx, a).0.(lookup := {}) == FindNext(rv, ctx, b).0.(lookup := {})
  {
    assert b == a.(lookup := b.lookup);
    var rows := a.it.value;
    var row := rows[0];
    var a1 := a.(it := Some(rows[1..]), currentRow := Some(row), currentData := row.data);
    var b1 := b.(it := Some(rows[1..]), currentRow := Some(row), currentData := row.data);
    if Judge(rv, ctx, a.conditions, a.condIndex, row) == Emit {
      var ra := FindNext(rv, ctx, a);
      var rb := FindNext(rv, ctx, b);
      assert ra == (AddFoundRow(rv, a1).(hasLeftOuterRow := false), true);
      assert rb == (AddFoundRow(rv, b1).(hasLeftOuterRow := false), true);
    } else if Judge(rv, ctx, a.conditions, a.condIndex, row) == EndScan {
      ExhaustedIgnoresLookup(rv, ctx, a1, b1);
    } else if a.conditions[a.condIndex].isJoin {
      ExhaustedIgnoresLookup(rv, ctx, a1, b1);
    } else {
      ExhaustedIgnoresLookup(rv, ctx, a1.(hasLeftOuterRow := false), b1.(hasLeftOuterRow := false));
    }
  }

  /** Exhausting a scan does not look at the matched positions. */
  lemma ExhaustedIgnoresLookup(rv: RangeVar, ctx: Context, a: Cursor, b: Cursor)
    requires Aligned(rv, a) && a.condIndex < |a.conditions|
    requires a.(lookup := {}) == b.(lookup := {})
    ensures Aligned(rv, b) && b.condIndex < |b.conditions|
    ensures Exhausted(rv, ctx, a).1 == Exhausted(rv, ctx, b).1
    ensures Exhausted(rv, ctx, a).0.(lookup := {}) == Exhausted(rv, ctx, b).0.(lookup := {})
  {
    assert b == a.(lookup := b.lookup);
  }

  /** The same for one turn of next's loop, from observably equal cursors. */
  lemma StepIgnoresLookup(rv: RangeVar, ctx: Context, a: Cursor, b: Cursor)
    requires OnList(rv, a) && Openable(a) && (!a.isBeforeFirst ==> a.it.Some?)
    requires Observable(a) == Observable(b)
    ensures OnList(rv, b) && Openable(b) && (!b.isBeforeFirst ==> b.it.Some?)
    ensures Step(rv, ctx, a).1 == Step(rv, ctx, b).1
    ensures Step(rv, ctx, a).0.(lookup := {}) == Step(rv, ctx, b).0.(lookup := {})
  {
    var a1 := if a.isBeforeFirst then Initialise(rv, ctx, a.(isBeforeFirst := false)) else a;
    var b1 := if b.isBeforeFirst then Initialise(rv, ctx, b.(isBeforeFirst := false)) else b;
    assert a1.(lookup := {}) == b1.(lookup := {});
    FindNextIgnoresLookup(rv, ctx, a1, b1);
  }

  /** next on observably equal cursors reports the same and leaves them
      observably equal: the matched positions never change which rows the
      first pass emits. */
  lemma {:induction false} NextIgnoresLookup(rv: RangeVar, ctx: Context, a: Cursor, b: Cursor)
    requires OnPlan(rv, a) && a.condIndex < |a.conditions| && (!a.isBeforeFirst ==> a.it.Some?)
    requires Observable(a) == Observable(b)
    ensures OnPlan(rv, b) && b.condIndex < |b.conditions| && (!b.isBeforeFirst ==> b.it.Some?)
    ensures Next(rv, ctx, a).1 == Next(rv, ctx, b).1
    ensures Observable(Next(rv, ctx, a).0) == Observable(Next(rv, ctx, b).0)
    decreases |a.conditions| - a.condIndex
  {
    StepIgnoresLookup(rv, ctx, a, b);
    var ra := Step(rv, ctx, a);
    var rb := Step(rv, ctx, b);
    if ra.1 {
      assert Next(rv, ctx, a) == ra && Next(rv, ctx, b) == rb;
    } else {
      var a2 := Advance(rv, ra.0);
      var b2 := Advance(rv, rb.0);
      AdvanceIgnoresLookup(rv, ra.0, rb.0);
      assert Next(rv, ctx, a) == Next(rv, ctx, a2) && Next(rv, ctx, b) == Next(rv, ctx, b2);
      if a2.condIndex < |a2.conditions| {
        NextIgnoresLookup(rv, ctx, a2, b2);
      }
    }
  }

  /** Moving to the next alternative keeps two cursors observably equal. */
  lemma AdvanceIgnoresLookup(rv: RangeVar, a: Cursor, b: Cursor)
    requires a.(lookup := {}) == b.(lookup := {})
    ensures Observable(Advance(rv, a)) == Observable(Advance(rv, b))
  {
    assert b == a.(lookup := b.lookup);
  }

  // ----- the right outer pass -----

  /** The second pass of a right outer range emits only rows of its scan
      that pass the end condition and the residual and whose position the
      first pass did not record; it records nothing itself. */
  lemma {:induction false} FindNextRightEmits(rv: RangeVar, ctx: Context, c: Cursor)
    requires c.it.Some? && c.condIndex < |c.conditions|
    ensures var r := FindNextRight(rv, ctx, c);
      && r.0.lookup == c.lookup && r.0.hasLeftOuterRow == c.hasLeftOuterRow
      && |r.0.it.value| <= |c.it.value|
      && (r.1 ==>
            && |r.0.it.value| < |c.it.value|
            && r.0.currentRow.Some? && r.0.currentRow.value in c.it.value
            && r.0.currentData == r.0.currentRow.value.data
            && r.0.currentRow.value.pos !in c.lookup
            && var env := Env(ctx.outer, r.0.currentRow.value.data);
               Passes(c.conditions[c.condIndex].indexEndCondition, ctx.ev, env)
               && Passes(c.conditions[c.condIndex].nonIndexCondition, ctx.ev, env))
      && (!r.1 ==> r.0.currentRow.None? && r.0.it == Some([]) && r.0.currentData == rv.emptyData)
    decreases |c.it.value|
  {
    var rows := c.it.value;
    if rows != [] {
      var row := rows[0];
      FindNextRightEmits(rv, ctx, c.(it := Some(rows[1..]), currentRow := Some(row), currentData := row.data));
    }
  }

  /** The second pass emits the first row, before the end condition fails,
      that passes the residual and whose position was never matched, and
      leaves the scan just after it. */
  lemma {:induction false} FindNextRightFindsFirst(rv: RangeVar, ctx: Context, c: Cursor, j: nat)
    requires c.it.Some? && c.condIndex < |c.conditions| && j < |c.it.value|
    requires forall i :: 0 <= i < j ==>
      var env := Env(ctx.outer, c.it.value[i].data);
      && Passes(c.conditions[c.condIndex].indexEndCondition, ctx.ev, env)
      && (c.it.value[i].pos in c.lookup || !Passes(c.conditions[c.condIndex].nonIndexCondition, ctx.ev, env))
    requires var env := Env(ctx.outer, c.it.value[j].data);
      && Passes(c.conditions[c.condIndex].indexEndCondition, ctx.ev, env)
      && c.it.value[j].pos !in c.lookup
      && Passes(c.conditions[c.condIndex].nonIndexCondition, ctx.ev, env)
    ensures var r := FindNextRight(rv, ctx, c);
      r.1 && r.0.currentRow == Some(c.it.value[j]) && r.0.it == Some(c.it.value[j + 1..])
    decreases j
  {
    var rows := c.it.value;
    if j > 0 {
      var c1 := c.(it := Some(rows[1..]), currentRow := Some(rows[0]), currentData := rows[0].data);
      assert FindNextRight(rv, ctx, c) == FindNextRight(rv, ctx, c1);
      forall i | 0 <= i < j - 1
        ensures var env := Env(ctx.outer, c1.it.value[i].data);
          && Passes(c1.conditions[c1.condIndex].indexEndCondition, ctx.ev, env)
          && (c1.it.value[i].pos in c1.lookup || !Passes(c1.conditions[c1.condIndex].nonIndexCondition, ctx.ev, env))
      {
        assert c1.it.value[i] == rows[i + 1];
      }
      assert c1.it.value[j - 1] == rows[j];
      FindNextRightFindsFirst(rv, ctx, c1, j - 1);
      assert rows[1..][j..] == rows[j + 1..];
    }
  }

  /** setOnOuterRows starts the second pass on the first where path with
      the recorded positions intact. */
  lemma SetOnOuterRowsValid(rv: RangeVar, ctx: Context, c: Cursor)
    requires Valid(rv, ctx.store.maxRows, c) && Bounded(ctx.store) && PathReady(rv.whereConditions[0])
    ensures var c2 := SetOnOuterRows(rv, ctx, c);
      && Valid(rv, ctx.store.maxRows, c2)
      && c2.isOnRightOuterRows && c2.conditions == rv.whereConditions && c2.condIndex == 0
      && c2.lookup == c.lookup && c2.it.Some?
  {
  }

  // ----- termination -----

  /** A bound on the calls left: on the first pass, the alternatives still
      to run, each worth a full scan plus a null row, plus what is left of
      the current one; on the second pass, the rows left. */
  function Measure(maxRows: nat, c: Cursor): nat {
    if c.isOnRightOuterRows then
      (if c.it.None? then 0 else |c.it.value|) + 1
    else
      var rest := if c.condIndex < |c.conditions| then |c.conditions| - c.condIndex - 1 else 0;
      rest * (maxRows + 2) + Inner(maxRows, c) + 1
  }

  /** The largest measure a cursor on this range can have. */
  function MeasureBound(rv: RangeVar, maxRows: nat): nat {
    |rv.whereConditions| * (maxRows + 2)
  }

  lemma MeasureInRange(rv: RangeVar, maxRows: nat, c: Cursor)
    requires Valid(rv, maxRows, c)
    ensures 1 <= Measure(maxRows, c) <= MeasureBound(rv, maxRows)
  {
    var k := |c.conditions| - c.condIndex - 1;
    assert k + 1 <= |rv.whereConditions|;
    OneMoreTimes(k, |rv.whereConditions|, maxRows + 2);
  }

  /** The arithmetic behind the bound: one more alternative still fits. */
  lemma OneMoreTimes(k: nat, n: nat, q: nat)
    requires k + 1 <= n
    ensures k * q + q <= n * q
  {
    calc {
      k * q + q;
    == (k + 1) * q;
    <= n * q;
    }
  }

  /** Every call of next keeps the cursor valid, and every call that emits
      a row lowers the measure. */
  lemma {:induction false} NextProgress(rv: RangeVar, ctx: Context, c: Cursor)
    requires Valid(rv, ctx.store.maxRows, c) && Bounded(ctx.store) && !c.isOnRightOuterRows
    ensures var r := Next(rv, ctx, c);
      && Valid(rv, ctx.store.maxRows, r.0) && !r.0.isOnRightOuterRows
      && (r.1 ==> Measure(ctx.store.maxRows, r.0) < Measure(ctx.store.maxRows, c))
    decreases |c.conditions| - c.condIndex
  {
    var m := ctx.store.maxRows;
    StepProgress(rv, ctx, c);
    var r := Step(rv, ctx, c);
    if r.1 {
      assert Next(rv, ctx, c) == r;
      InnerLowersMeasure(m, r.0, c);
    } else if c.condIndex + 1 < |c.conditions| {
      assert Next(rv, ctx, c) == Next(rv, ctx, Advance(rv, r.0));
      NextProgress(rv, ctx, Advance(rv, r.0));
      AdvanceMeasure(rv, m, r.0);
    }
  }

  /** On the same alternative, less left to scan is a smaller measure. */
  lemma InnerLowersMeasure(m: nat, a: Cursor, b: Cursor)
    requires !a.isOnRightOuterRows && !b.isOnRightOuterRows
    requires a.conditions == b.conditions && a.condIndex == b.condIndex
    requires Inner(m, a) < Inner(m, b)
    ensures Measure(m, a) < Measure(m, b)
  {
  }

  /** The next alternative, not yet opened, measures no more than the
      alternatives left after the current one. */
  lemma AdvanceMeasure(rv: RangeVar, m: nat, c: Cursor)
    requires !c.isOnRightOuterRows && c.condIndex + 1 < |c.conditions|
    ensures Measure(m, Advance(rv, c)) <= (|c.conditions| - c.condIndex - 1) * (m + 2)
  {
    var k := |c.conditions| - c.condIndex - 1;
    OneMoreTimes(k - 1, k, m + 2);
  }

  /** The same for the call every iterator answers, on either pass. */
  lemma CursorNextProgress(rv: RangeVar, ctx: Context, c: Cursor)
    requires Valid(rv, ctx.store.maxRows, c) && Bounded(ctx.store)
    ensures var r := CursorNext(rv, ctx, c);
      && Valid(rv, ctx.store.maxRows, r.0)
      && r.0.isOnRightOuterRows == c.isOnRightOuterRows
      && (r.1 ==> Measure(ctx.store.maxRows, r.0) < Measure(ctx.store.maxRows, c))
      && (r.1 && !rv.isLeftJoin ==> r.0.currentRow.Some?)
  {
    if c.isOnRightOuterRows {
      if c.it.Some? {
        FindNextRightEmits(rv, ctx, c);
      }
    } else {
      NextProgress(rv, ctx, c);
      if !rv.isLeftJoin && Next(rv, ctx, c).1 {
        NoPaddingUnlessLeftJoin(rv, ctx, c);
      }
    }
  }
}
