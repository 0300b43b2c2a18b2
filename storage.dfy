/**
 * The storage side that a range iterator opens scans on. An index is its
 * list of column positions; a scan is the ordered sequence of rows the index
 * hands out. The index engine itself is not part of this model.
 */
module Storage {
  import opened Values
  import opened Expressions

  /** An index: an identity and its key columns (Index.getColumns). */
  datatype Index = Index(id: nat, columns: seq<int>)

  /** The four ways an iterator opens a scan on an index. */
  datatype ScanRequest =
    | /** Index.emptyIterator(): no storage access at all */
      EmptyScan
    | /** Index.firstRow(session, store) */
      FirstRow
    | /** Index.lastRow(session, store) */
      LastRow
    | /** Index.findFirstRow(session, store, key, count, distinctCount, opType, reversed, null) */
      FindFirst(key: seq<Value>, count: nat, distinctCount: int, opType: OpType, reversed: bool)

  /** A row store: the rows each scan yields, in index order. `maxRows`
      bounds every scan (no scan yields more rows than the table holds). */
  datatype Store = Store(scan: (Index, ScanRequest) -> seq<Row>, maxRows: nat)

  ghost predicate Bounded(s: Store) {
    forall ix: Index, req: ScanRequest :: |s.scan(ix, req)| <= s.maxRows
  }

  /** The rows an opened scan yields. An empty iterator never reaches the store. */
  function Open(s: Store, ix: Index, req: ScanRequest): (rows: seq<Row>)
    ensures req == EmptyScan ==> rows == []
    ensures Bounded(s) ==> |rows| <= s.maxRows
  {
    if req == EmptyScan then [] else s.scan(ix, req)
  }
}
