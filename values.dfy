/** Values, rows and the nullable-reference wrapper shared by the whole model. */
module Values {

  /** A Java reference that may be null. */
  datatype Option<+T> = None | Some(value: T)

  /** A column value: SQL NULL or a non-null value (values are abstracted to integers). */
  datatype Value = Null | Val(n: int)

  /** A stored row: its position in the row store (`Row.getPos`) and its column data (`Row.getData`). */
  datatype Row = Row(pos: int, data: seq<Value>)
}
