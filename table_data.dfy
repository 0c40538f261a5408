/**
  The rows the Table shows. A row is a plain JavaScript object: its own
  enumerable properties in `Object.keys` order, each a key and a value. Only
  the kinds of value the table distinguishes are kept: numbers (whole numbers
  here), strings, booleans, `null`, `undefined`, and any other plain object.
*/
module TableData {
  import opened Js

  datatype Value = Num(n: int) | Str(s: string) | Bool(b: bool) | Null | Undefined | Obj

  datatype Field = Field(key: string, value: Value)

  /** A row object as its fields in key order. An object's keys are distinct; the model does not
      require it, and `Get` reads the first field with the key (see `GetFirstMatch`). */
  type Row = seq<Field>

  /** `row[key]`: the property's value, or `undefined` when the row has no such key. */
  function Get(row: Row, key: string): (v: Value)
    ensures v != Undefined ==> exists i :: 0 <= i < |row| && row[i].key == key && row[i].value == v
    ensures (forall i :: 0 <= i < |row| ==> row[i].key != key) ==> v == Undefined
    decreases |row|
  {
    if row == [] then Undefined
    else if row[0].key == key then row[0].value
    else Get(row[1..], key)
  }

  /** A key that is present reads as the value of its first occurrence, the only one in an object. */
  lemma {:induction false} GetFirstMatch(row: Row, key: string, i: int)
    requires 0 <= i < |row| && row[i].key == key
    requires forall j :: 0 <= j < i ==> row[j].key != key
    ensures Get(row, key) == row[i].value
    decreases i
  {
    if i > 0 {
      GetFirstMatch(row[1..], key, i - 1);
    }
  }

  /** `String(v)`: empty only for the empty string, since every other value has a non-empty name. */
  function ToJsString(v: Value): (r: string)
    ensures r == "" <==> v == Str("")
  {
    match v
    case Num(n) => IntToString(n)
    case Str(s) => s
    case Bool(b) => if b then "true" else "false"
    case Null => "null"
    case Undefined => "undefined"
    case Obj => "[object Object]"
  }

  /** JavaScript truthiness of a value. */
  predicate IsTruthy(v: Value) {
    match v
    case Num(n) => n != 0
    case Str(s) => s != ""
    case Bool(b) => b
    case Null => false
    case Undefined => false
    case Obj => true
  }

  // ---------------------------------------------------------------------
  // Columns
  // ---------------------------------------------------------------------

  /** A column descriptor; an absent `width` or `sortable` is `None`. */
  datatype Column = Column(key: string, header: string, width: Option<string>, sortable: Option<bool>)

  /** `columns || (tableData[0] ? <one column per key of the first row> : [])`.
      A given array is used even when it is empty, since every array is truthy. */
  function ActualColumns(columns: Option<seq<Column>>, tableData: seq<Row>): (cols: seq<Column>)
    ensures columns.Some? ==> cols == columns.value
    ensures columns.None? && tableData == [] ==> cols == []
    ensures columns.None? && tableData != [] ==>
      |cols| == |tableData[0]| &&
      forall i :: 0 <= i < |cols| ==>
        cols[i].key == tableData[0][i].key && cols[i].header == tableData[0][i].key && cols[i].width == None
  {
    if columns.Some? then columns.value
    else if tableData == [] then []
    else KeyColumns(tableData[0])
  }

  /** One column per key of `row`, in key order, headed by the key itself. */
  function KeyColumns(row: Row): (cols: seq<Column>)
    ensures |cols| == |row|
    ensures forall i :: 0 <= i < |row| ==> cols[i] == Column(row[i].key, row[i].key, None, None)
    decreases |row|
  {
    if row == [] then [] else [Column(row[0].key, row[0].key, None, None)] + KeyColumns(row[1..])
  }

  /** Derived columns come from the first row only: rows after it never add a column. */
  lemma DerivedColumnsIgnoreLaterRows(first: Row, rest: seq<Row>, other: seq<Row>)
    ensures ActualColumns(None, [first] + rest) == ActualColumns(None, [first] + other)
  {
  }
}
