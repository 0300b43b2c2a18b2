/**
 * The parts of RangeVariable that answer questions about the range itself:
 * which column a qualified name denotes, whether a qualifier names this
 * range, whether any access path uses an index, and the row identifier of
 * the current row.
 */
module RangeVariables {
  import opened Values
  import opened ConditionSpec

  /** The table behind a table range: its name, schema and column names. */
  datatype TableInfo = TableInfo(name: string, schema: string, columns: seq<string>)

  /** What name resolution reads of a range: the variable list (present for
      a range of routine variables or parameters), the column aliases, the
      table alias, the table, and the names of the columns merged by a
      NATURAL or USING join (namedJoinColumnExpressions). */
  datatype RangeInfo = RangeInfo(
    variables: Option<seq<string>>,
    columnAliases: Option<seq<string>>,
    tableAlias: Option<string>,
    table: Option<TableInfo>,
    namedJoinColumns: Option<set<string>>)

  /** Every constructor of a table range sets the table; only the variable
      range has none. */
  predicate WellFormed(r: RangeInfo) {
    r.variables.None? ==> r.table.Some?
  }

  /** HashMappedList.getIndex / Table.findColumn: the position of `x` in
      `xs`, or -1. */
  function IndexOf(xs: seq<string>, x: string): (i: int)
    ensures -1 <= i && (i == -1 <==> x !in xs)
    ensures 0 <= i ==> i < |xs| && xs[i] == x && x !in xs[..i]
    decreases |xs|
  {
    if xs == [] then -1
    else if xs[|xs| - 1] == x && x !in xs[..|xs| - 1] then |xs| - 1
    else if x in xs[..|xs| - 1] then IndexOf(xs[..|xs| - 1], x)
    else -1
  }

  /** The column list a name is looked up in: the variables, else the
      aliases, else the table's columns. */
  function VisibleColumns(r: RangeInfo): seq<string>
    requires WellFormed(r)
  {
    if r.variables.Some? then r.variables.value
    else if r.columnAliases.Some? then r.columnAliases.value
    else r.table.value.columns
  }

  /** The one-argument findColumn: a column merged by a NATURAL or USING
      join belongs to the join, not to this range. */
  function FindColumnByName(r: RangeInfo, columnName: string): (i: int)
    requires WellFormed(r)
  {
    if r.namedJoinColumns.Some? && columnName in r.namedJoinColumns.value then -1
    else if r.variables.Some? then IndexOf(r.variables.value, columnName)
    else if r.columnAliases.Some? then IndexOf(r.columnAliases.value, columnName)
    else IndexOf(r.table.value.columns, columnName)
  }

  /** resolvesTableName: a missing qualifier matches; a variable range
      matches only its alias; a table range matches its alias if it has
      one, else the table's name. */
  predicate ResolvesTableName(r: RangeInfo, name: Option<string>)
    requires WellFormed(r)
  {
    if name.None? then true
    else if r.variables.Some? then r.tableAlias.Some? && name.value == r.tableAlias.value
    else if r.tableAlias.None? then name.value == r.table.value.name
    else name.value == r.tableAlias.value
  }

  /** resolvesSchemaName: a missing qualifier matches; otherwise only an
      unaliased table range in that schema. */
  predicate ResolvesSchemaName(r: RangeInfo, name: Option<string>)
    requires WellFormed(r)
  {
    if name.None? then true
    else if r.variables.Some? then false
    else if r.tableAlias.Some? then false
    else name.value == r.table.value.schema
  }

  /** The three-argument findColumn: -1 unless both qualifiers resolve. */
  function FindColumn(r: RangeInfo, schemaName: Option<string>, tableName: Option<string>,
                      columnName: string): (i: int)
    requires WellFormed(r)
    ensures -1 <= i < |VisibleColumns(r)|
  {
    if ResolvesSchemaName(r, schemaName) && ResolvesTableName(r, tableName) then
      FindColumnByName(r, columnName)
    else
      -1
  }

  /** findColumn finds a column exactly when both qualifiers resolve to
      this range, the name is not taken by a join column, and the visible
      column list has it; the index is then that of its first occurrence. */
  lemma FindColumnSpec(r: RangeInfo, schemaName: Option<string>, tableName: Option<string>, columnName: string)
    requires WellFormed(r)
    ensures var i := FindColumn(r, schemaName, tableName, columnName);
      && (0 <= i <==>
            && ResolvesSchemaName(r, schemaName) && ResolvesTableName(r, tableName)
            && !(r.namedJoinColumns.Some? && columnName in r.namedJoinColumns.value)
            && columnName in VisibleColumns(r))
      && (0 <= i ==> VisibleColumns(r)[i] == columnName && columnName !in VisibleColumns(r)[..i])
  {
  }

  /** A qualifier that carries a schema resolves only against an unaliased
      table range, so a schema-qualified name never reaches an alias. */
  lemma SchemaQualifiedNeedsTable(r: RangeInfo, schemaName: Option<string>, tableName: Option<string>, columnName: string)
    requires WellFormed(r) && schemaName.Some?
    requires 0 <= FindColumn(r, schemaName, tableName, columnName)
    ensures r.variables.None? && r.tableAlias.None?
    ensures schemaName.value == r.table.value.schema
    ensures tableName.Some? ==> tableName.value == r.table.value.name
  {
  }

  /** getTableAlias: the alias, or the table's own name. */
  function GetTableAlias(r: RangeInfo): (name: string)
    requires r.tableAlias.Some? || r.table.Some?
    ensures r.tableAlias.Some? ==> name == r.tableAlias.value
  {
    if r.tableAlias.None? then r.table.value.name else r.tableAlias.value
  }

  /** The name getTableAlias reports is one resolvesTableName accepts, for
      a table range. */
  lemma TableAliasResolves(r: RangeInfo)
    requires WellFormed(r) && r.variables.None?
    ensures ResolvesTableName(r, Some(GetTableAlias(r)))
  {
  }

  /** hasAnyIndexCondition as written: both loops test element [0] on every
      pass, so only the first join and the first where path are looked at. */
  method HasAnyIndexCondition(joinConditions: seq<CondState>, whereConditions: seq<CondState>)
    returns (b: bool)
    ensures b <==> ((|joinConditions| > 0 && HasIndexCondition(joinConditions[0]))
                    || (|whereConditions| > 0 && HasIndexCondition(whereConditions[0])))
  {
    var i := 0;
    while i < |joinConditions|
      invariant 0 <= i <= |joinConditions|
      invariant i > 0 ==> !HasIndexCondition(joinConditions[0])
    {
      if joinConditions[0].indexedColumnCount > 0 {
        return true;
      }
      i := i + 1;
    }
    i := 0;
    while i < |whereConditions|
      invariant 0 <= i <= |whereConditions|
      invariant i > 0 ==> !HasIndexCondition(whereConditions[0])
    {
      if whereConditions[0].indexedColumnCount > 0 {
        return true;
      }
      i := i + 1;
    }
    return false;
  }

  const TwoTo32: int := 0x1_0000_0000
  const TwoTo63: int := 0x8000_0000_0000_0000

  /** Java `long` arithmetic: the value reduced into [-2^63, 2^63). */
  function WrapLong(x: int): (r: int)
    ensures -TwoTo63 <= r < TwoTo63
    ensures (r - x) % (2 * TwoTo63) == 0
  {
    (x + TwoTo63) % (2 * TwoTo63) - TwoTo63
  }

  /** getRowId: 0 without a current row, else the table id in the high 32
      bits plus the row position, in 64-bit arithmetic. */
  function GetRowId(tableId: int, currentRow: Option<Row>): int {
    if currentRow.None? then 0 else WrapLong(tableId * TwoTo32 + currentRow.value.pos)
  }

  /** The table id of a row id (an arithmetic shift right by 32). */
  function RowIdTable(id: int): int { id / TwoTo32 }

  /** The position of a row id (its low 32 bits). */
  function RowIdPos(id: int): int { id % TwoTo32 }

  /** A row id gives back the table id and position it was packed from,
      for a 32-bit table id and a position that fits in 32 unsigned bits. */
  lemma RowIdRoundTrip(tableId: int, row: Row)
    requires -0x8000_0000 <= tableId < 0x8000_0000
    requires 0 <= row.pos < TwoTo32
    ensures RowIdTable(GetRowId(tableId, Some(row))) == tableId
    ensures RowIdPos(GetRowId(tableId, Some(row))) == row.pos
  {
    var x := tableId * TwoTo32 + row.pos;
    assert -TwoTo63 <= x < TwoTo63 by {
      assert -0x8000_0000 * TwoTo32 <= tableId * TwoTo32 < 0x8000_0000 * TwoTo32 - TwoTo32 + 1;
    }
    assert WrapLong(x) == x;
  }

  /** Two rows of one table get the same id only if they have the same
      position. */
  lemma RowIdInjective(tableId: int, a: Row, b: Row)
    requires -0x8000_0000 <= tableId < 0x8000_0000
    requires 0 <= a.pos < TwoTo32 && 0 <= b.pos < TwoTo32
    requires GetRowId(tableId, Some(a)) == GetRowId(tableId, Some(b))
    ensures a.pos == b.pos
  {
    RowIdRoundTrip(tableId, a);
    RowIdRoundTrip(tableId, b);
  }
}
