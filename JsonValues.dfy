/** The JSON values that the quote files hold, as Python's `json.load` gives them. */
module JsonValues {

  /** A scalar field value: `None`, an `int` or a `str`. */
  datatype Json = JNull | JInt(i: int) | JStr(s: string)

  /** One JSON object, such as `{"Quote": ..., "Author": ..., "Page": ...}`;
      Python compares two such dicts key by key, as Dafny compares maps. */
  type Record = map<string, Json>

  /** The top level of a JSON file: a list of objects, a single object, or a
      single scalar value. */
  datatype Document = Records(items: seq<Record>) | Object(fields: Record) | Scalar(value: Json)

  /** `item.get(key)`: a missing key reads as `None`, like an explicit null. */
  function Get(item: Record, key: string): (v: Json)
    ensures key !in item ==> v == JNull
    ensures key in item ==> v == item[key]
  {
    if key in item then item[key] else JNull
  }

  /** The decimal digits of a natural number, as `str(n)` prints them. */
  function NatToString(n: nat): (s: string)
    ensures |s| > 0
    ensures forall i :: 0 <= i < |s| ==> '0' <= s[i] <= '9'
    decreases n
  {
    var digit := ['0' + (n % 10) as char];
    if n < 10 then digit else NatToString(n / 10) + digit
  }

  /** `str(v)` for a field value, which is what an f-string interpolates. */
  function PyStr(v: Json): string
  {
    match v
    case JNull => "None"
    case JInt(i) => if i < 0 then "-" + NatToString(-i) else NatToString(i)
    case JStr(s) => s
  }

  /** The Python type name of a value, as error messages spell it. */
  function TypeName(v: Json): string
  {
    match v
    case JNull => "NoneType"
    case JInt(_) => "int"
    case JStr(_) => "str"
  }

  /** `str(KeyError(key))`: the key in single quotes. */
  function KeyErrorMessage(key: string): string
  {
    "'" + key + "'"
  }
}
