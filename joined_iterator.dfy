/**
 * RangeIteratorJoined as a class over the range iterators it drives. Each
 * method is proved against JoinedSpec: the new state of the driver and of
 * its iterators, and the result, are the specification function applied
 * to the old state.
 */
module JoinedIterators {
  import opened Values
  import opened Storage
  import CursorSpec
  import JoinedSpec
  import opened RangeIterators

  class RangeIteratorJoined {
    const st: JoinedSpec.Setting
    /** One iterator per range, outer range first. */
    const rangeIterators: array<RangeIteratorMain>
    var currentIndex: int
    var currentRow: Option<Row>
    var currentData: seq<Value>
    var isBeforeFirst: bool

    /** The states of the iterators. */
    function Cursors(): (cs: seq<CursorSpec.Cursor>)
      reads rangeIterators, rangeIterators[..]
      ensures |cs| == rangeIterators.Length
      ensures forall k :: 0 <= k < rangeIterators.Length ==> cs[k] == rangeIterators[k].State()
    {
      seq(rangeIterators.Length, k requires 0 <= k < rangeIterators.Length
                                   reads rangeIterators, rangeIterators[..] => rangeIterators[k].State())
    }

    function State(): JoinedSpec.Joined
      reads this, rangeIterators, rangeIterators[..]
    {
      JoinedSpec.Joined(Cursors(), currentIndex, currentRow, currentData, isBeforeFirst)
    }

    /** Distinct iterators, one per range and on that range. */
    ghost predicate Wired()
      reads rangeIterators
    {
      && rangeIterators.Length == |st.ranges|
      && (forall p, q :: 0 <= p < q < rangeIterators.Length ==> rangeIterators[p] != rangeIterators[q])
      && (forall k :: 0 <= k < rangeIterators.Length ==> rangeIterators[k].rv == st.ranges[k])
    }

    /** Wired, in a valid joined state. */
    ghost predicate Valid()
      reads this, rangeIterators, rangeIterators[..]
    {
      Wired() && JoinedSpec.Valid(st, State())
    }

    /** The constructor, over the iterators the ranges hand out. */
    constructor (setting: JoinedSpec.Setting, iterators: array<RangeIteratorMain>)
      requires JoinedSpec.Ready(setting) && iterators.Length == |setting.ranges|
      requires forall p, q :: 0 <= p < q < iterators.Length ==> iterators[p] != iterators[q]
      requires forall k :: 0 <= k < iterators.Length ==>
                 iterators[k].rv == setting.ranges[k] && iterators[k].State() == CursorSpec.Start(setting.ranges[k])
      ensures st == setting && rangeIterators == iterators
      ensures Valid() && State() == JoinedSpec.Fresh(setting)
    {
      st := setting;
      rangeIterators := iterators;
      currentIndex := 0;
      currentRow := None;
      currentData := [];
      isBeforeFirst := true;
    }

    /** Advance the iterator at the current index in the context of the
        rows before it. */
    method TurnCurrent() returns (found: bool)
      requires Valid() && Bounded(st.store) && 0 <= currentIndex
      modifies rangeIterators[currentIndex]
      ensures found == JoinedSpec.Turn(st, old(State())).1
      ensures State() == old(State()).(cursors := old(Cursors())[old(currentIndex) := JoinedSpec.Turn(st, old(State())).0])
    {
      var it := rangeIterators[currentIndex];
      var ctx := JoinedSpec.CtxAt(st, Cursors(), currentIndex);
      found := it.NextRight(ctx);
      assert Cursors() == old(Cursors())[currentIndex := it.State()];
    }

    /** The state one turn has left: the current iterator advanced from
        before. */
    ghost predicate Turned(before: JoinedSpec.Joined)
      reads this, rangeIterators, rangeIterators[..]
    {
      && Wired() && Bounded(st.store) && JoinedSpec.Valid(st, before) && 0 <= before.currentIndex
      && State() == before.(cursors := before.cursors[before.currentIndex := JoinedSpec.Turn(st, before).0])
    }

    /** The current iterator found a row: move on to the next range inwards. */
    method MoveInwards(ghost before: JoinedSpec.Joined)
      requires Turned(before) && JoinedSpec.Turn(st, before).1 && before.currentIndex < |st.ranges| - 1
      modifies this
      ensures State() == JoinedSpec.Inwards(st, before, JoinedSpec.Turn(st, before).0)
    {
      currentIndex := currentIndex + 1;
    }

    /** The current iterator found none: reset it and move outwards. */
    method MoveOutwards(ghost before: JoinedSpec.Joined)
      requires Turned(before)
      modifies this, rangeIterators[before.currentIndex]
      ensures State() == JoinedSpec.Outwards(st, before, JoinedSpec.Turn(st, before).0)
    {
      ghost var c := JoinedSpec.Turn(st, before).0;
      var it := rangeIterators[currentIndex];
      assert it.State() == c;
      it.Reset();
      assert it.State() == CursorSpec.Reset(st.ranges[currentIndex], c);
      assert Cursors() == before.cursors[currentIndex := it.State()];
      currentIndex := currentIndex - 1;
    }

    /** The innermost iterator found a row: it becomes the joined row. */
    method TakeRow(ghost before: JoinedSpec.Joined) returns (outcome: JoinedSpec.Outcome)
      requires Turned(before) && JoinedSpec.Turn(st, before).1 && before.currentIndex == |st.ranges| - 1
      modifies this
      ensures (State(), outcome) == JoinedSpec.Innermost(st, before, JoinedSpec.Turn(st, before).0)
    {
      currentRow := rangeIterators[currentIndex].currentRow;
      if currentRow.None? {
        return JoinedSpec.NullRow;
      }
      currentData := currentRow.value.data;
      return JoinedSpec.Found;
    }

    /** reset on every iterator. */
    method ResetIterators()
      requires Wired()
      modifies rangeIterators[..]
      ensures Cursors() == JoinedSpec.ResetAll(st.ranges, old(Cursors()))
    {
      for i := 0 to rangeIterators.Length
        invariant forall k :: 0 <= k < i ==>
          rangeIterators[k].State() == CursorSpec.Reset(st.ranges[k], old(rangeIterators[k].State()))
        invariant forall k :: i <= k < rangeIterators.Length ==>
          rangeIterators[k].State() == old(rangeIterators[k].State())
      {
        rangeIterators[i].Reset();
      }
    }

    /** Past the outermost range: every iterator is reset and the joined row
        is cleared. */
    method Finish()
      requires Valid() && currentIndex < 0
      modifies this, rangeIterators[..]
      ensures Valid() && State() == JoinedSpec.EndOfJoin(st, old(State()))
    {
      currentData := rangeIterators[rangeIterators.Length - 1].rv.emptyData;
      currentRow := None;
      ResetIterators();
      assert State() == JoinedSpec.EndOfJoin(st, old(State()));
    }

    /** One pass of next's loop. */
    method StepOnce() returns (outcome: Option<JoinedSpec.Outcome>)
      requires Valid() && Bounded(st.store) && 0 <= currentIndex
      modifies this, rangeIterators[..]
      ensures Valid()
      ensures (State(), outcome) == JoinedSpec.Step(st, old(State()))
    {
      ghost var before := State();
      var found := TurnCurrent();
      if !found {
        MoveOutwards(before);
        return None;
      }
      if currentIndex < rangeIterators.Length - 1 {
        MoveInwards(before);
        return None;
      }
      var o := TakeRow(before);
      return Some(o);
    }

    /** RangeIteratorJoined.next. */
    method Next() returns (outcome: JoinedSpec.Outcome)
      requires Valid() && Bounded(st.store)
      modifies this, rangeIterators[..]
      ensures Valid()
      ensures (State(), outcome) == JoinedSpec.JoinedNext(st, old(State()))
    {
      ghost var expected := JoinedSpec.JoinedNext(st, State());
      while currentIndex >= 0
        invariant Valid()
        invariant JoinedSpec.JoinedNext(st, State()) == expected
        decreases JoinedSpec.Weight(st, State())
      {
        JoinedSpec.JoinedNextSteps(st, State());
        var o := StepOnce();
        if o.Some? {
          return o.value;
        }
      }
      Finish();
      return JoinedSpec.Done;
    }

    /** reset, with the index put back on the outermost range. */
    method Reset()
      requires Valid()
      modifies this, rangeIterators[..]
      ensures Valid()
      ensures State() == JoinedSpec.Reset(st, old(State()))
    {
      ResetIterators();
      currentRow := None;
      isBeforeFirst := true;
      currentIndex := 0;
    }

    /** release: the driver holds no scan of its own; every iterator is
        reset. */
    method Release()
      requires Valid()
      modifies rangeIterators[..]
      ensures Valid()
      ensures State() == old(State()).(cursors := JoinedSpec.ResetAll(st.ranges, old(Cursors())))
    {
      ResetIterators();
      JoinedSpec.ResetAllValid(st, old(State()));
    }
  }
}
