/**
  `SqlxRow::__getitem__` of `src/lib.rs`: reading one column of a driver row
  and turning the driver's value into the matching host value.
 */
module Rows {
  import opened Utf8
  import opened Unicode

  type I16 = x: int | -0x8000 <= x < 0x8000
  type I32 = x: int | -0x8000_0000 <= x < 0x8000_0000
  type I64 = x: int | -0x8000_0000_0000_0000 <= x < 0x8000_0000_0000_0000

  /** A driver-owned string: always well-formed UTF-8. */
  type Utf8Text = s: seq<Byte> | Valid(s) witness []

  /**
    The driver's decoded value. Floats are kept as their real value; the
    variants the driver may add later are `Unsupported`.
   */
  datatype AnyValueKind =
    | Null
    | Bool(b: bool)
    | SmallInt(i16: I16)
    | Integer(i32: I32)
    | BigInt(i64: I64)
    | Real(f32: real)
    | Double(f64: real)
    | Text(text: Utf8Text)
    | Blob(bytes: seq<Byte>)
    | Unsupported

  /** One row as the driver returns it, read by column name. */
  datatype Row = Row(columns: map<string, AnyValueKind>)

  /** The host values a column can become. */
  datatype PyValue =
    | PyNone
    | PyBool(b: bool)
    | PyLong(v: int)
    | PyFloat(x: real)
    | PyStr(s: UnicodeObject)
    | PyBytes(bytes: seq<Byte>)

  /** The two places where the method gives up instead of producing a value. */
  datatype GetItemError = ColumnNotFound | UnknownValueKind

  datatype ItemResult = Ok(value: PyValue) | Failure(error: GetItemError)

  /**
    `__getitem__`: a missing column and an unknown value kind are errors, never
    a default value; null is the host's `None`; booleans, integers of every
    width, floats and blobs keep their value; text goes through
    `unicode_from_str`, so its units are the text's code points.
   */
  method GetItem(row: Row, key: string, empty: UnicodeObject) returns (r: ItemResult)
    requires empty.Valid() && empty.length == 0
    ensures r.Failure? <==> key !in row.columns || row.columns[key].Unsupported?
    ensures key !in row.columns ==> r == Failure(ColumnNotFound)
    ensures key in row.columns ==> match row.columns[key]
      case Null => r == Ok(PyNone)
      case Bool(b) => r == Ok(PyBool(b))
      case SmallInt(a) => r == Ok(PyLong(a))
      case Integer(a) => r == Ok(PyLong(a))
      case BigInt(a) => r == Ok(PyLong(a))
      case Real(v) => r == Ok(PyFloat(v))
      case Double(v) => r == Ok(PyFloat(v))
      case Text(v) =>
        r.Ok? && r.value.PyStr? &&
        r.value.s.Valid() && r.value.s.Units() == Decode(v) &&
        (v == [] ==> r.value.s == empty) &&
        (v != [] ==> r.value.s.maxChar == MaxChar(KindFor(MaxOf(Decode(v)))))
      case Blob(v) => r == Ok(PyBytes(v))
      case Unsupported => r == Failure(UnknownValueKind)
  {
    if key !in row.columns {
      return Failure(ColumnNotFound);
    }
    match row.columns[key]
    case Null =>
      r := Ok(PyNone);
    case Bool(b) =>
      r := Ok(PyBool(b));
    case SmallInt(a) =>
      r := Ok(PyLong(a));
    case Integer(a) =>
      r := Ok(PyLong(a));
    case BigInt(a) =>
      r := Ok(PyLong(a));
    case Real(v) =>
      r := Ok(PyFloat(v));
    case Double(v) =>
      r := Ok(PyFloat(v));
    case Text(v) =>
      var s := UnicodeFromStr(v, empty);
      r := Ok(PyStr(s));
    case Blob(v) =>
      r := Ok(PyBytes(v));
    case Unsupported =>
      r := Failure(UnknownValueKind);
  }
}
