/**
 * RangeIteratorMain and RangeIteratorRight as one class whose fields the
 * methods update in place. Every method is proved against the state
 * machine of CursorSpec: its new state and result are the specification
 * function applied to the old state, so what CursorLemmas proves about
 * the functions holds of the iterator.
 */
module RangeIterators {
  import opened Values
  import opened Expressions
  import opened Storage
  import opened ConditionSpec
  import opened CursorSpec
  import CursorLemmas

  class RangeIteratorMain {
    const rv: RangeVar
    var conditions: seq<CondState>
    var condIndex: nat
    var isBeforeFirst: bool
    var hasLeftOuterRow: bool
    /** The open scan: the rows it has still to hand out. */
    var it: Option<seq<Row>>
    var currentRow: Option<Row>
    var currentData: seq<Value>
    /** The positions matched so far, for a right outer range. */
    var lookup: set<int>
    /** Set by setOnOuterRows (RangeIteratorRight only). */
    var isOnRightOuterRows: bool

    function State(): Cursor
      reads this
    {
      Cursor(conditions, condIndex, isBeforeFirst, hasLeftOuterRow, it, currentRow, currentData,
             lookup, isOnRightOuterRows)
    }

    /** The iterator a range variable hands out: before its first row, on
        the where paths if the first of them uses the index, else on the
        join paths. */
    constructor (rangeVar: RangeVar)
      requires |rangeVar.whereConditions| >= 1
      ensures rv == rangeVar && State() == Start(rangeVar)
    {
      rv := rangeVar;
      currentData := rangeVar.emptyData;
      isBeforeFirst := true;
      lookup := {};
      conditions := rangeVar.joinConditions;
      if HasIndexCondition(rangeVar.whereConditions[0]) {
        conditions := rangeVar.whereConditions;
      }
      condIndex := 0;
      hasLeftOuterRow := false;
      it := None;
      currentRow := None;
      isOnRightOuterRows := false;
    }

    method Reset()
      modifies this
      ensures State() == CursorSpec.Reset(rv, old(State()))
    {
      it := None;
      currentData := rv.emptyData;
      currentRow := None;
      isBeforeFirst := true;
    }

    /** The search getFirstRow starts for the current alternative. The key
        is built column by column; an out-of-range first bound ends the
        method with an empty scan. */
    method GetFirstRow(ctx: Context) returns (request: ScanRequest)
      requires Openable(State())
      requires conditions[condIndex].hasIndex
      ensures request == FirstRowRequest(rv, conditions[condIndex], ctx.ev, ctx.outer)
    {
      var s := conditions[condIndex];
      assert PathReady(s);
      var key: seq<Value> := [];
      for i := 0 to s.indexedColumnCount
        invariant KeyPrefix(s, ctx.ev, ctx.outer, i) == Some(key)
      {
        var opType := if i == s.indexedColumnCount - 1 then s.opType else TypeOf(s.indexCond.value[i].value);
        if IsNullKeyOp(opType) {
          key := key + [Null];
          continue;
        }
        var e := s.indexCond.value[i].value;
        var b := ctx.ev.bound(e, ctx.outer);
        var value := b.value;
        if i == 0 {
          if b.range < 0 {
            if TypeOf(e) == GreaterEqual || TypeOf(e) == Greater {
              value := Null;
            } else {
              CursorLemmas.KeyPrefixShape(s, ctx.ev, ctx.outer, s.indexedColumnCount);
              return EmptyScan;
            }
          } else if b.range > 0 {
            if TypeOf(e) == Not {
              value := Null;
            } else {
              CursorLemmas.KeyPrefixShape(s, ctx.ev, ctx.outer, s.indexedColumnCount);
              return EmptyScan;
            }
          }
        }
        key := key + [value];
      }
      return FindFirst(key, s.indexedColumnCount, rv.indexDistinctCount, s.opType, s.reversed);
    }

    method InitialiseIterator(ctx: Context)
      requires Openable(State())
      modifies this
      ensures State() == Initialise(rv, ctx, old(State()))
    {
      if condIndex == 0 {
        hasLeftOuterRow := rv.isLeftJoin;
      }
      var s := conditions[condIndex];
      if s.isFalse {
        it := Some(Open(ctx.store, s.rangeIndex.value, EmptyScan));
        return;
      }
      if s.indexCond.None? {
        if s.reversed {
          it := Some(Open(ctx.store, s.rangeIndex.value, LastRow));
        } else {
          it := Some(Open(ctx.store, s.rangeIndex.value, FirstRow));
        }
      } else {
        var request := GetFirstRow(ctx);
        it := Some(Open(ctx.store, s.rangeIndex.value, request));
        if !s.isJoin {
          hasLeftOuterRow := false;
        }
      }
    }

    method AddFoundRow()
      requires currentRow.Some?
      modifies this
      ensures State() == CursorSpec.AddFoundRow(rv, old(State()))
    {
      if rv.isRightJoin {
        lookup := lookup + {currentRow.value.pos};
      }
    }

    /** it.getNextRow() and getData(): the next row of the scan becomes the
        current row; an exhausted scan leaves no current row. */
    method FetchRow() returns (row: Option<Row>)
      requires it.Some?
      modifies this
      ensures old(it.value) == [] ==> row.None? && State() == old(State()).(currentRow := None)
      ensures old(it.value) != [] ==>
        && row == Some(old(it.value)[0])
        && State() == old(State()).(it := Some(old(it.value)[1..]), currentRow := row,
                                    currentData := row.value.data)
    {
      if it.value == [] {
        currentRow := None;
        return None;
      }
      row := Some(it.value[0]);
      it := Some(it.value[1..]);
      currentRow := row;
      currentData := row.value.data;
    }

    /** it.release() and the reset of the current row at the end of a scan. */
    method Release()
      modifies this
      ensures State() == old(State()).(it := Some([]), currentRow := None, currentData := rv.emptyData)
    {
      it := Some([]);
      currentRow := None;
      currentData := rv.emptyData;
    }

    /** The tests findNext applies to the current row, in its order. */
    method Classify(ctx: Context) returns (verdict: Verdict)
      requires Aligned(rv, State()) && condIndex < |conditions| && currentRow.Some?
      requires currentData == currentRow.value.data
      ensures verdict == Judge(rv, ctx, conditions, condIndex, currentRow.value)
    {
      var s := conditions[condIndex];
      var env := Env(ctx.outer, currentData);
      if s.terminalCondition.Some? && !Holds(s.terminalCondition.value, ctx.ev, env) {
        return EndScan;
      }
      if s.indexEndCondition.Some? && !Holds(s.indexEndCondition.value, ctx.ev, env) {
        return EndRange;
      }
      var joinResidual := rv.joinConditions[condIndex].nonIndexCondition;
      if joinResidual.Some? && !Holds(joinResidual.value, ctx.ev, env) {
        return Skip;
      }
      var whereResidual := rv.whereConditions[condIndex].nonIndexCondition;
      if whereResidual.Some? && !Holds(whereResidual.value, ctx.ev, env) {
        return Reject;
      }
      var exclude := s.excludeConditions;
      if exclude.Some? && Holds(exclude.value, ctx.ev, env) {
        return Skip;
      }
      return Emit;
    }

    /** What findNext does with the current row once it is classified: a
        row that ends the range disarms a where path's padding; a matched
        row, emitted or not, disarms it and is recorded. */
    method Examine(ctx: Context) returns (verdict: Verdict)
      requires Aligned(rv, State()) && condIndex < |conditions| && currentRow.Some?
      requires currentData == currentRow.value.data
      modifies this
      ensures verdict == Judge(rv, ctx, old(conditions), old(condIndex), old(currentRow).value)
      ensures State() ==
        match verdict
        case EndRange =>
          if old(conditions)[old(condIndex)].isJoin then old(State()) else old(State()).(hasLeftOuterRow := false)
        case Reject => CursorSpec.AddFoundRow(rv, old(State()).(hasLeftOuterRow := false))
        case Emit => CursorSpec.AddFoundRow(rv, old(State())).(hasLeftOuterRow := false)
        case _ => old(State())
    {
      verdict := Classify(ctx);
      match verdict {
        case EndRange =>
          if !conditions[condIndex].isJoin {
            hasLeftOuterRow := false;
          }
        case Reject =>
          hasLeftOuterRow := false;
          AddFoundRow();
        case Emit =>
          AddFoundRow();
          hasLeftOuterRow := false;
        case _ =>
      }
    }

    method FindNext(ctx: Context) returns (result: bool)
      requires Aligned(rv, State()) && condIndex < |conditions| && it.Some?
      modifies this
      ensures (State(), result) == CursorSpec.FindNext(rv, ctx, old(State()))
    {
      ghost var expected := CursorSpec.FindNext(rv, ctx, State());
      while true
        invariant Aligned(rv, State()) && condIndex < |conditions| && it.Some?
        invariant CursorSpec.FindNext(rv, ctx, State()) == expected
        decreases |it.value|
      {
        var row := FetchRow();
        if row.None? {
          break;
        }
        var verdict := Examine(ctx);
        if verdict == Emit {
          return true;
        }
        if verdict == EndScan || verdict == EndRange {
          break;
        }
      }
      result := FinishScan(ctx);
    }

    /** The end of findNext's scan: release it, and on the last alternative
        decide the pending null row. */
    method FinishScan(ctx: Context) returns (result: bool)
      requires Aligned(rv, State()) && condIndex < |conditions|
      modifies this
      ensures (State(), result) == Exhausted(rv, ctx, old(State()))
    {
      Release();
      result := false;
      if hasLeftOuterRow && condIndex == |conditions| - 1 {
        result := Passes(rv.whereConditions[condIndex].nonIndexCondition, ctx.ev, Env(ctx.outer, currentData));
        hasLeftOuterRow := false;
      }
    }

    /** One turn of next's loop: open the alternative's scan on the first
        turn, then look for a row. */
    method Step(ctx: Context) returns (found: bool)
      requires OnList(rv, State()) && Openable(State()) && (!isBeforeFirst ==> it.Some?)
      modifies this
      ensures (State(), found) == CursorSpec.Step(rv, ctx, old(State()))
    {
      if isBeforeFirst {
        isBeforeFirst := false;
        InitialiseIterator(ctx);
      }
      found := FindNext(ctx);
    }

    method Next(ctx: Context) returns (found: bool)
      requires OnPlan(rv, State()) && condIndex < |conditions| && (!isBeforeFirst ==> it.Some?)
      modifies this
      ensures (State(), found) == CursorSpec.Next(rv, ctx, old(State()))
    {
      ghost var expected := CursorSpec.Next(rv, ctx, State());
      while condIndex < |conditions|
        invariant OnPlan(rv, State()) && condIndex <= |conditions| && (!isBeforeFirst ==> it.Some?)
        invariant CursorSpec.Next(rv, ctx, State()) == expected
        decreases |conditions| - condIndex
      {
        var result := Step(ctx);
        if result {
          return true;
        }
        ghost var exhausted := State();
        Reset();
        condIndex := condIndex + 1;
        assert State() == Advance(rv, exhausted);
      }
      condIndex := 0;
      return false;
    }

    method SetOnOuterRows(ctx: Context)
      requires Lists(rv) && PathReady(rv.whereConditions[0])
      modifies this
      ensures State() == CursorSpec.SetOnOuterRows(rv, ctx, old(State()))
    {
      conditions := rv.whereConditions;
      isOnRightOuterRows := true;
      hasLeftOuterRow := false;
      condIndex := 0;
      InitialiseIterator(ctx);
    }

    /** RangeIteratorRight.next. */
    method NextRight(ctx: Context) returns (found: bool)
      requires Valid(rv, ctx.store.maxRows, State())
      modifies this
      ensures (State(), found) == CursorNext(rv, ctx, old(State()))
    {
      if isOnRightOuterRows {
        if it.None? {
          return false;
        }
        found := FindNextRight(ctx);
      } else {
        found := Next(ctx);
      }
    }

    method FindNextRight(ctx: Context) returns (result: bool)
      requires it.Some? && condIndex < |conditions|
      modifies this
      ensures (State(), result) == CursorSpec.FindNextRight(rv, ctx, old(State()))
    {
      ghost var expected := CursorSpec.FindNextRight(rv, ctx, State());
      result := false;
      while true
        invariant SamePath(State(), old(State())) && it.Some?
        invariant CursorSpec.FindNextRight(rv, ctx, State()) == expected
        decreases |it.value|
      {
        var row := FetchRow();
        if row.None? {
          break;
        }
        var s := conditions[condIndex];
        var env := Env(ctx.outer, currentData);
        if s.indexEndCondition.Some? && !Holds(s.indexEndCondition.value, ctx.ev, env) {
          break;
        }
        if s.nonIndexCondition.Some? && !Holds(s.nonIndexCondition.value, ctx.ev, env) {
          continue;
        }
        var unmatched := LookupAndTest(ctx);
        if !unmatched {
          continue;
        }
        result := true;
        break;
      }
      if result {
        return true;
      }
      Release();
    }

    /** lookupAndTest: the current row was not matched by the first pass and
        passes the residual; the current data is refreshed from the row. */
    method LookupAndTest(ctx: Context) returns (result: bool)
      requires currentRow.Some? && condIndex < |conditions|
      modifies this
      ensures result == CursorSpec.LookupAndTest(rv, ctx, old(State()))
      ensures State() == if old(currentRow).value.pos in old(lookup) then old(State())
                         else old(State()).(currentData := old(currentRow).value.data)
    {
      result := currentRow.value.pos !in lookup;
      if result {
        currentData := currentRow.value.data;
        var residual := conditions[condIndex].nonIndexCondition;
        if residual.Some? && !Holds(residual.value, ctx.ev, Env(ctx.outer, currentData)) {
          result := false;
        }
      }
    }
  }
}
