/** Values shared by every part of the model: optional values, the error
    record that handlers pass to the global error handler, the JavaScript
    values a request body carries, and the cells SQLite stores for them. */
module Common {

  datatype Option<T> = None | Some(value: T)

  /** An error as it reaches the global error handler. `statusCode` 0 stands
      for an error object without a `statusCode` property: both are falsy in
      `err.statusCode || 500`. */
  datatype Failure = Failure(statusCode: int, message: string)

  datatype Result<T> = Ok(value: T) | Err(error: Failure)

  /** A field of a parsed JSON request body. Booleans, floating-point
      numbers, arrays and objects are not modelled. */
  datatype Value = Undefined | Null | Str(s: string) | Num(n: int)

  /** JavaScript truthiness: undefined, null, "" and 0 are falsy. */
  predicate Truthy(v: Value) {
    match v
    case Str(s) => s != ""
    case Num(n) => n != 0
    case _ => false
  }

  /** A bcrypt digest. A distinct type, so a plaintext password can never be
      stored where a digest belongs. */
  datatype Digest = Digest(text: string)

  /** A cell of an INTEGER column (salary_min, salary_max): SQLite keeps
      whatever type was bound. */
  datatype Cell = NullCell | IntCell(i: int) | TextCell(t: string)

  function Digit(d: nat): char
    requires d < 10
  {
    "0123456789"[d]
  }

  /** Decimal digits of a natural number. */
  function NatText(n: nat): (r: string)
    ensures |r| >= 1
    ensures forall i :: 0 <= i < |r| ==> '0' <= r[i] <= '9'
    decreases n
  {
    if n < 10 then [Digit(n)] else NatText(n / 10) + [Digit(n % 10)]
  }

  /** Decimal text of an integer, as JavaScript `String(n)` and SQLite's
      TEXT affinity render it. */
  function IntText(n: int): (r: string)
    ensures r != ""
  {
    if n < 0 then "-" + NatText(-n) else NatText(n)
  }

  /** express-validator's conversion of a field to text before it runs a
      validator or sanitizer: null and undefined become "". */
  function ToText(v: Value): string {
    match v
    case Undefined => ""
    case Null => ""
    case Str(s) => s
    case Num(n) => IntText(n)
  }

  /** The content of a TEXT column after binding `v`: null and undefined
      bind as NULL, numbers are stored as their decimal text. */
  function TextColumn(v: Value): (r: Option<string>)
    ensures r.None? <==> (v == Undefined || v == Null)
    ensures r.Some? ==> r.value == ToText(v)
  {
    match v
    case Undefined => None
    case Null => None
    case Str(s) => Some(s)
    case Num(n) => Some(IntText(n))
  }

  /** `v || null` bound into a TEXT column. */
  function TextOrNull(v: Value): (r: Option<string>)
    ensures r.Some? <==> Truthy(v)
    ensures r.Some? ==> r.value == ToText(v) && r.value != ""
  {
    if Truthy(v) then TextColumn(v) else None
  }

  /** `v || null` bound into an INTEGER column. */
  function CellOrNull(v: Value): (r: Cell)
    ensures r.NullCell? <==> !Truthy(v)
    ensures Truthy(v) && v.Num? ==> r == IntCell(v.n)
    ensures Truthy(v) && v.Str? ==> r == TextCell(v.s)
  {
    if !Truthy(v) then NullCell
    else match v
      case Num(n) => IntCell(n)
      case Str(s) => TextCell(s)
      case _ => NullCell
  }

  /** The closed set of application statuses (the CHECK constraint of the
      jobs table and the list the status endpoint accepts). */
  const Statuses: seq<string> :=
    ["wishlist", "applied", "phone_screen", "interview", "offer", "rejected", "withdrawn", "accepted"]

  /** The closed set of employment types. */
  const JobTypes: seq<string> := ["full-time", "part-time", "contract", "internship", "freelance"]
}
