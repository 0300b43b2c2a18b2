/**
 * RangeVariable.RangeVariableConditions as the source has it: an object
 * whose fields, including four arrays, are updated in place while the
 * planner hands it predicates. Every method is specified by the matching
 * function of ConditionSpec applied to the state before the call.
 */
module Conditions {
  import opened Values
  import opened Expressions
  import opened Storage
  import opened ConditionSpec

  class RangeVariableConditions {
    var indexCond: array?<Option<Expr>>
    var indexEndCond: array?<Option<Expr>>
    var opTypes: array?<OpType>
    var opTypesEnd: array?<OpType>
    var indexEndCondition: Option<Expr>
    var indexedColumnCount: nat
    var rangeIndex: Option<Index>
    const isJoin: bool
    var excludeConditions: Option<Expr>
    var nonIndexCondition: Option<Expr>
    var terminalCondition: Option<Expr>
    var opType: OpType
    var opTypeEnd: OpType
    var isFalse: bool
    var reversed: bool
    var hasIndex: bool

    /** The object's fields as a value. */
    ghost function State(): CondState
      reads this, indexCond, indexEndCond, opTypes, opTypesEnd
    {
      CondState(rangeIndex,
                if indexCond == null then None else Some(indexCond[..]),
                if indexEndCond == null then None else Some(indexEndCond[..]),
                if opTypes == null then None else Some(opTypes[..]),
                if opTypesEnd == null then None else Some(opTypesEnd[..]),
                indexEndCondition,
                indexedColumnCount, isJoin, excludeConditions, nonIndexCondition,
                terminalCondition, opType, opTypeEnd, isFalse, reversed, hasIndex)
    }

    /** The arrays exist exactly when an index is installed, are as wide as
        the index, and are four distinct arrays; the start prefix fits. */
    ghost predicate Valid()
      reads this
      ensures Valid() ==> Shaped(State())
    {
      if hasIndex then
        && rangeIndex.Some?
        && indexCond != null && indexCond.Length == |rangeIndex.value.columns|
        && indexEndCond != null && indexEndCond.Length == |rangeIndex.value.columns|
        && opTypes != null && opTypes.Length == |rangeIndex.value.columns|
        && opTypesEnd != null && opTypesEnd.Length == |rangeIndex.value.columns|
        && indexCond != indexEndCond && opTypes != opTypesEnd
        && indexedColumnCount <= |rangeIndex.value.columns|
      else
        && indexedColumnCount == 0
        && indexCond == null && indexEndCond == null && opTypes == null && opTypesEnd == null
    }

    constructor (isJoin: bool)
      ensures Valid() && State() == Initial(isJoin)
    {
      this.isJoin := isJoin;
      indexCond, indexEndCond, opTypes, opTypesEnd := null, null, null, null;
      indexEndCondition, indexedColumnCount, rangeIndex := None, 0, None;
      excludeConditions, nonIndexCondition, terminalCondition := None, None, None;
      opType, opTypeEnd := Unset, Unset;
      isFalse, reversed, hasIndex := false, false, false;
    }

    /** The copy constructor. */
    constructor Copy(base: RangeVariableConditions)
      requires base.Valid()
      ensures Valid() && State() == CopyResidual(base.State())
    {
      isJoin := base.isJoin;
      nonIndexCondition := base.nonIndexCondition;
      indexCond, indexEndCond, opTypes, opTypesEnd := null, null, null, null;
      indexEndCondition, indexedColumnCount, rangeIndex := None, 0, None;
      excludeConditions, terminalCondition := None, None;
      opType, opTypeEnd := Unset, Unset;
      isFalse, reversed, hasIndex := false, false, false;
    }

    /** The part of addToIndexConditions that runs once the prefix can be
        extended. */
    method AppendStartBound(e: Expr)
      requires Valid() && hasIndex && ExtendsPrefix(State(), e)
      modifies this, indexCond, opTypes, opTypesEnd
      ensures Valid()
      ensures State() == ConditionSpec.AddToIndexConditions(old(State()), e)
    {
      var k := indexedColumnCount;
      indexCond[k] := Some(e);
      opType := TypeOf(e);
      opTypes[k] := TypeOf(e);
      opTypeEnd := Max;
      opTypesEnd[k] := Max;
      indexedColumnCount := k + 1;
    }

    method AddToIndexConditions(e: Expr) returns (added: bool)
      requires Valid() && hasIndex
      modifies this, indexCond, opTypes, opTypesEnd
      ensures Valid()
      ensures added == ExtendsPrefix(old(State()), e)
      ensures State() == ConditionSpec.AddToIndexConditions(old(State()), e)
    {
      if opType == Equal || opType == IsNull {
        if indexedColumnCount < |rangeIndex.value.columns| {
          if rangeIndex.value.columns[indexedColumnCount] == LeftColumn(e) {
            AppendStartBound(e);
            return true;
          }
        }
      }
      return false;
    }

    /** The part of addToIndexEndConditions that runs once the prefix can be
        extended. */
    method AppendEndBound(e: Expr)
      requires Valid() && hasIndex && ExtendsPrefix(State(), e)
      modifies this, indexCond, indexEndCond, opTypes, opTypesEnd
      ensures Valid()
      ensures State() == ConditionSpec.AddToIndexEndConditions(old(State()), e)
    {
      var k := indexedColumnCount;
      indexCond[k] := Some(NotNull(LeftColumn(e)));
      indexEndCond[k] := Some(e);
      indexEndCondition := AndExpressions(indexEndCondition, Some(e));
      opType := Not;
      opTypes[k] := Not;
      opTypeEnd := TypeOf(e);
      opTypesEnd[k] := TypeOf(e);
      indexedColumnCount := k + 1;
    }

    method AddToIndexEndConditions(e: Expr) returns (added: bool)
      requires Valid() && hasIndex
      modifies this, indexCond, indexEndCond, opTypes, opTypesEnd
      ensures Valid()
      ensures added == ExtendsPrefix(old(State()), e)
      ensures State() == ConditionSpec.AddToIndexEndConditions(old(State()), e)
    {
      if opType == Equal || opType == IsNull {
        if indexedColumnCount < |rangeIndex.value.columns| {
          if rangeIndex.value.columns[indexedColumnCount] == LeftColumn(e) {
            AppendEndBound(e);
            return true;
          }
        }
      }
      return false;
    }

    /** The GREATER / GREATER_EQUAL branch of addCondition on a prefix that
        ends in NOT NULL on the same column. */
    method ReplaceStartBound(e: Expr)
      requires Valid() && hasIndex && indexedColumnCount > 0
      modifies this, indexCond, indexEndCond, opTypes
      ensures Valid()
      ensures State() == ConditionSpec.ReplaceStartBound(old(State()), e)
    {
      var k := indexedColumnCount - 1;
      nonIndexCondition := AndExpressions(nonIndexCondition, indexCond[k]);
      indexCond[k] := Some(e);
      opType := TypeOf(e);
      opTypes[k] := TypeOf(e);
      if e.Comparison? && e.likeEnd.Some? && indexedColumnCount == 1 {
        indexEndCond[k] := AndExpressions(indexEndCond[k], e.likeEnd);
      }
    }

    /** The SMALLER / SMALLER_EQUAL branch of addCondition on a range prefix
        whose upper end is still open. */
    method TightenEndBound(e: Expr)
      requires Valid() && hasIndex && indexedColumnCount > 0
      modifies this, indexEndCond, opTypesEnd
      ensures Valid()
      ensures State() == ConditionSpec.TightenEndBound(old(State()), e)
    {
      var k := indexedColumnCount - 1;
      indexEndCond[k] := Some(e);
      indexEndCondition := AndExpressions(indexEndCondition, Some(e));
      opTypeEnd := TypeOf(e);
      opTypesEnd[k] := TypeOf(e);
    }

    /** The switch of addCondition. */
    method FoldIntoIndex(e: Expr)
      requires Valid() && hasIndex && indexedColumnCount > 0 && Indexable(e)
      modifies this, indexCond, indexEndCond, opTypes, opTypesEnd
      ensures Valid()
      ensures State() == ConditionSpec.FoldIntoIndex(old(State()), e)
    {
      var onLastColumn := rangeIndex.value.columns[indexedColumnCount - 1] == LeftColumn(e);
      match TypeOf(e)
      case Greater | GreaterEqual =>
        if opType == Not {
          if onLastColumn {
            ReplaceStartBound(e);
          }
        } else {
          var _ := AddToIndexConditions(e);
        }
      case Smaller | SmallerEqual =>
        if opType == Greater || opType == GreaterEqual || opType == Not {
          if opTypeEnd == Max && onLastColumn {
            TightenEndBound(e);
          }
        } else {
          var _ := AddToIndexEndConditions(e);
        }
      case _ =>
    }

    method AddCondition(e: Option<Expr>)
      requires Valid()
      modifies this, indexCond, indexEndCond, opTypes, opTypesEnd
      ensures Valid()
      ensures State() == ConditionSpec.AddCondition(old(State()), e)
    {
      if e.None? {
        return;
      }
      var x := e.value;
      if IsTerminal(x) {
        terminalCondition := e;
      }
      nonIndexCondition := AndExpressions(nonIndexCondition, e);
      if nonIndexCondition == Some(ExprFalse) {
        isFalse := true;
      }
      assert State() == AddToResidual(old(State()), x);
      if rangeIndex.None? || |rangeIndex.value.columns| == 0 {
        return;
      }
      if indexedColumnCount == 0 {
        return;
      }
      if !Indexable(x) {
        return;
      }
      FoldIntoIndex(x);
    }

    /** The NOT and GREATER / GREATER_EQUAL cases of addIndexCondition. */
    method OpenUpperEnd(exprList: array<Option<Expr>>, likeEnd: Option<Expr>)
      requires Valid() && hasIndex && exprList.Length == |rangeIndex.value.columns| >= 1
      requires exprList != indexEndCond
      modifies this, indexEndCond, opTypesEnd
      ensures Valid()
      ensures State() == ConditionSpec.OpenUpperEnd(old(State()), old(exprList[..]), likeEnd)
    {
      indexCond := exprList;
      if likeEnd.Some? {
        indexEndCond[0] := likeEnd;
        indexEndCondition := likeEnd;
      }
      opTypeEnd := Max;
      opTypesEnd[0] := Max;
    }

    /** The SMALLER / SMALLER_EQUAL case of addIndexCondition. */
    method ClosedUpperEnd(first: Expr)
      requires Valid() && hasIndex && |rangeIndex.value.columns| >= 1
      modifies this, indexCond, indexEndCond, opTypes, opTypesEnd
      ensures Valid()
      ensures State() == ConditionSpec.ClosedUpperEnd(old(State()), first)
    {
      indexCond[0] := Some(NotNull(LeftColumn(first)));
      indexEndCond[0] := Some(first);
      indexEndCondition := Some(first);
      opTypeEnd := TypeOf(first);
      opTypesEnd[0] := TypeOf(first);
      opType := Not;
      opTypes[0] := Not;
    }

    /** The loop of the EQUAL / IS_NULL case of addIndexCondition: copies
        the prefix of `exprList` into the end bounds, and returns the end
        condition extended by every copied bound and the operator of the
        last one. */
    method CopyPointPrefix(exprList: array<Option<Expr>>) returns (endCondition: Option<Expr>, op: OpType)
      requires Valid() && hasIndex && exprList.Length == |rangeIndex.value.columns| >= 1
      requires exprList != indexEndCond
      requires forall i :: 0 <= i < indexedColumnCount ==> exprList[i].Some?
      modifies indexEndCond, opTypes
      ensures var k := indexedColumnCount;
        && indexEndCond[..] == exprList[..k] + old(indexEndCond[k..])
        && endCondition == AndAll(indexEndCondition, exprList[..k])
        && op == (if k == 0 then opType else TypeOf(exprList[k - 1].value))
        && opTypes[..] == if k == 0 then old(opTypes[..]) else old(opTypes[..])[0 := op]
    {
      var ends, ops, k := indexEndCond, opTypes, indexedColumnCount;
      ghost var ends0 := ends[..];
      ghost var ops0 := ops[..];
      endCondition, op := indexEndCondition, opType;
      var i := 0;
      while i < k
        modifies ends, ops
        invariant 0 <= i <= k
        invariant forall j :: 0 <= j < i ==> ends[j] == exprList[j]
        invariant forall j :: i <= j < ends.Length ==> ends[j] == ends0[j]
        invariant endCondition == AndAll(indexEndCondition, exprList[..i])
        invariant op == (if i == 0 then opType else TypeOf(exprList[i - 1].value))
        invariant ops[..] == if i == 0 then ops0 else ops0[0 := op]
      {
        var e := exprList[i];
        ends[i] := e;
        assert exprList[..i + 1][..i] == exprList[..i];
        endCondition := AndExpressions(endCondition, e);
        op := TypeOf(e.value);
        ops[0] := op;
        i := i + 1;
      }
      assert ends[..] == exprList[..k] + ends0[k..];
    }

    /** The EQUAL / IS_NULL case of addIndexCondition. */
    method PointBounds(exprList: array<Option<Expr>>)
      requires Valid() && hasIndex && exprList.Length == |rangeIndex.value.columns| >= 1
      requires exprList != indexEndCond
      requires forall i :: 0 <= i < indexedColumnCount ==> exprList[i].Some?
      modifies this, indexEndCond, opTypes
      ensures Valid()
      ensures State() == ConditionSpec.PointBounds(old(State()), old(exprList[..]))
    {
      indexCond := exprList;
      var endCondition, op := CopyPointPrefix(exprList);
      indexEndCondition := endCondition;
      opType := op;
      opTypeEnd := op;
    }

    /** The four arrays addIndexCondition allocates, with the first
        operator already in place. */
    static method NewArrays(w: nat, op0: OpType)
      returns (starts: array<Option<Expr>>, ends: array<Option<Expr>>, ops: array<OpType>, opsEnd: array<OpType>)
      requires w >= 1
      ensures fresh(starts) && fresh(ends) && fresh(ops) && fresh(opsEnd)
      ensures starts != ends && ops != opsEnd
      ensures starts[..] == Blank(w, None) && ends[..] == Blank(w, None)
      ensures ops[..] == Blank(w, Unset)[0 := op0] && opsEnd[..] == Blank(w, Unset)
    {
      starts := new Option<Expr>[w](_ => None);
      ends := new Option<Expr>[w](_ => None);
      ops := new OpType[w](_ => Unset);
      opsEnd := new OpType[w](_ => Unset);
      ops[0] := op0;
    }

    /** The part of addIndexCondition common to every operator, first half:
        the index and its four fresh arrays. */
    method AttachArrays(index: Index, starts: array<Option<Expr>>, ends: array<Option<Expr>>,
                        ops: array<OpType>, opsEnd: array<OpType>)
      modifies this
      ensures rangeIndex == Some(index)
      ensures indexCond == starts && indexEndCond == ends && opTypes == ops && opTypesEnd == opsEnd
      ensures indexEndCondition == old(indexEndCondition) && nonIndexCondition == old(nonIndexCondition)
      ensures excludeConditions == old(excludeConditions) && terminalCondition == old(terminalCondition)
      ensures opTypeEnd == old(opTypeEnd) && isFalse == old(isFalse) && reversed == old(reversed)
    {
      rangeIndex := Some(index);
      indexCond, indexEndCond, opTypes, opTypesEnd := starts, ends, ops, opsEnd;
    }

    /** The part of addIndexCondition common to every operator: fresh
        arrays as wide as the index, the first operator, the prefix length. */
    method InstallIndex(index: Index, colCount: nat, op0: OpType)
      requires 1 <= |index.columns| && colCount <= |index.columns|
      modifies this
      ensures Valid()
      ensures fresh(indexCond) && fresh(indexEndCond) && fresh(opTypes) && fresh(opTypesEnd)
      ensures State() == ConditionSpec.InstallIndex(old(State()), index, colCount, op0)
    {
      var starts, ends, ops, opsEnd := NewArrays(|index.columns|, op0);
      AttachArrays(index, starts, ends, ops, opsEnd);
      opType := op0;
      indexedColumnCount, hasIndex := colCount, true;
    }

    method AddIndexCondition(exprList: array<Option<Expr>>, index: Index, colCount: nat)
      requires Valid() && IndexConditionArgs(exprList[..], index, colCount)
      modifies this
      ensures Valid()
      ensures State() == ConditionSpec.AddIndexCondition(old(State()), old(exprList[..]), index, colCount)
    {
      var first := exprList[0].value;
      var op0 := TypeOf(first);
      InstallIndex(index, colCount, op0);
      match op0
      case Not =>
        OpenUpperEnd(exprList, None);
      case Greater | GreaterEqual =>
        OpenUpperEnd(exprList, first.likeEnd);
      case Smaller | SmallerEqual =>
        ClosedUpperEnd(first);
      case IsNull | Equal =>
        PointBounds(exprList);
      case _ =>
    }

    /** The loop of reverseIndexCondition: swaps start and end bounds on the
        prefix and returns the conjunction of the old start bounds. */
    method SwapPrefix() returns (startConj: Option<Expr>)
      requires Valid() && hasIndex
      modifies indexCond, indexEndCond
      ensures var k := indexedColumnCount;
        && indexCond[..] == old(indexEndCond[..k] + indexCond[k..])
        && indexEndCond[..] == old(indexCond[..k] + indexEndCond[k..])
      ensures startConj == AndAll(None, old(indexCond[..indexedColumnCount]))
    {
      var starts, ends, k := indexCond, indexEndCond, indexedColumnCount;
      ghost var s0, e0 := starts[..], ends[..];
      startConj := None;
      var i := 0;
      while i < k
        modifies starts, ends
        invariant 0 <= i <= k
        invariant forall j :: 0 <= j < i ==> starts[j] == e0[j] && ends[j] == s0[j]
        invariant forall j :: i <= j < starts.Length ==> starts[j] == s0[j] && ends[j] == e0[j]
        invariant startConj == AndAll(None, s0[..i])
      {
        var e := starts[i];
        starts[i] := ends[i];
        ends[i] := e;
        assert s0[..i + 1][..i] == s0[..i];
        startConj := AndExpressions(startConj, e);
        i := i + 1;
      }
      assert starts[..] == e0[..k] + s0[k..];
      assert ends[..] == s0[..k] + e0[k..];
    }

    method ReverseIndexCondition()
      requires Valid()
      modifies this, indexCond, indexEndCond
      ensures Valid()
      ensures State() == ConditionSpec.ReverseIndexCondition(old(State()))
    {
      if opType == Equal || opType == IsNull {
        return;
      }
      // Without an index the prefix is empty and the arrays are null.
      var startConj := None;
      if hasIndex {
        startConj := SwapPrefix();
      }
      indexEndCondition := startConj;
      opType := opTypeEnd;
      reversed := true;
    }
  }
}
