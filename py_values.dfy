/** The dynamically typed values the web application and the deduplicator read from
    spreadsheets and request bodies, with Python's `str()` and truthiness on them. */
module PyValues {
  import opened Strings

  /** A naive `datetime`: the calendar day and the time of day. */
  datatype DateTime = DateTime(year: int, month: int, day: int,
                               hour: int, minute: int, second: int, microsecond: int)

  datatype Value =
    | PyNone
    | PyStr(s: string)
    | PyInt(i: int)
    | PyBool(b: bool)
    | PyNaN
    | PyList(items: seq<string>)
    | PyDate(date: DateTime)

  /** `repr` of a list of strings: each item in single quotes, comma-separated. */
  function ListRepr(items: seq<string>): string
  {
    "[" + Join(", ", seq(|items|, k requires 0 <= k < |items| => "'" + items[k] + "'")) + "]"
  }

  /** The calendar day as `%Y-%m-%d`: year, month and day zero-padded to 4, 2 and 2. */
  function DateText(d: DateTime): (r: string)
    ensures |r| >= 10
  {
    ZeroPadWidth(d.year, 4);
    ZeroPadWidth(d.month, 2);
    ZeroPadWidth(d.day, 2);
    ZeroPad(d.year, 4) + "-" + ZeroPad(d.month, 2) + "-" + ZeroPad(d.day, 2)
  }

  /** The time of day as `%H:%M:%S`, followed by `.%f` when the microseconds are not
      zero, as `str()` and `isoformat()` write it. */
  function TimeText(d: DateTime): (r: string)
    ensures |r| >= 8
  {
    ZeroPadWidth(d.hour, 2);
    ZeroPadWidth(d.minute, 2);
    ZeroPadWidth(d.second, 2);
    ZeroPad(d.hour, 2) + ":" + ZeroPad(d.minute, 2) + ":" + ZeroPad(d.second, 2)
      + (if d.microsecond != 0 then "." + ZeroPad(d.microsecond, 6) else "")
  }

  /** `datetime.__str__`: the day and the time of day, separated by a space. */
  function DateStr(d: DateTime): string
  {
    DateText(d) + " " + TimeText(d)
  }

  /** `str(value)`. */
  function Str(v: Value): (r: string)
    ensures v.PyStr? ==> r == v.s
    ensures v.PyList? ==> |r| >= 2 && r[0] == '[' && r[|r| - 1] == ']'
  {
    match v
    case PyNone => "None"
    case PyStr(s) => s
    case PyInt(i) => IntToString(i)
    case PyBool(b) => if b then "True" else "False"
    case PyNaN => "nan"
    case PyList(items) => ListRepr(items)
    case PyDate(d) => DateStr(d)
  }

  /** `bool(value)`: NaN is truthy, like every float other than zero. */
  predicate Truthy(v: Value)
  {
    match v
    case PyNone => false
    case PyStr(s) => s != ""
    case PyInt(i) => i != 0
    case PyBool(b) => b
    case PyNaN => true
    case PyList(items) => items != []
    case PyDate(_) => true
  }

  /** A value that is an instance of `numbers.Number`: integers, booleans and NaN. */
  predicate IsNumber(v: Value)
  {
    v.PyInt? || v.PyBool? || v.PyNaN?
  }

  /** A value Python can hash; a list cannot be looked up in a set. */
  predicate Hashable(v: Value)
  {
    !v.PyList?
  }
}
