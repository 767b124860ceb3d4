/** Values shared by every part of the model: optional and fallible results,
    the HTTP outcomes a view can produce, decimal rendering of ids and the
    JSON values carried over the real-time channel. */
module Common {

  datatype Option<T> = None | Some(value: T)

  datatype Result<T, E> = Success(value: T) | Failure(error: E)

  /** Primary keys of every table. */
  type Id = nat

  /** A byte of an HTTP/ASGI header. */
  type Byte = b: int | 0 <= b < 256

  /** Serializer errors: field name (or "non_field_errors") to its messages. */
  type Errors = map<string, seq<string>>

  /** What a REST view answers; bodies are reduced to the ids they serialize. */
  datatype Response =
    | OkDetail(detail: string)                // 200 {"detail": ...}
    | OkObject(id: Id)                        // 200 with one serialized row
    | OkList(ids: seq<Id>)                    // 200 with a list of serialized rows
    | OkEmpty                                 // 200 without a body
    | Created(id: Id)                         // 201 with the new row
    | NoContent                               // 204
    | BadRequestDetail(detail: string)        // 400 {"detail": ...}
    | BadRequestErrors(errors: Errors)        // 400 serializer.errors
    | Forbidden(detail: string)               // 403
    | NotFound(detail: string)                // 404

  function StatusCode(r: Response): (code: nat)
    ensures 200 <= code < 500
  {
    match r
    case OkDetail(_) => 200
    case OkObject(_) => 200
    case OkList(_) => 200
    case OkEmpty => 200
    case Created(_) => 201
    case NoContent => 204
    case BadRequestDetail(_) => 400
    case BadRequestErrors(_) => 400
    case Forbidden(_) => 403
    case NotFound(_) => 404
  }

  const PermissionDenied := "You do not have permission to perform this action."
  const FieldBlank := "This field may not be blank."
  const FieldRequired := "This field is required."
  const NonFieldErrors := "non_field_errors"

  /** The detail of Django's `get_object_or_404` for a model name. */
  function NotFoundDetail(model: string): string {
    "No " + model + " matches the given query."
  }

  /** DRF's max-length message of a CharField. */
  function MaxLengthMessage(limit: nat): string {
    "Ensure this field has no more than " + NatToString(limit) + " characters."
  }

  /** A table without the row at position `k` (a DELETE of that row). */
  function RemoveAt<T>(s: seq<T>, k: nat): (r: seq<T>)
    requires k < |s|
    ensures |r| == |s| - 1
    ensures forall i :: 0 <= i < |r| ==> r[i] == if i < k then s[i] else s[i + 1]
  {
    s[..k] + s[k + 1..]
  }

  // ---------------------------------------------------------------------
  // Decimal digits: Python's str() and int() on non-negative integers

  predicate IsAsciiDigit(c: char) {
    '0' <= c <= '9'
  }

  predicate AllAsciiDigits(s: string) {
    forall i :: 0 <= i < |s| ==> IsAsciiDigit(s[i])
  }

  function DigitChar(d: nat): (c: char)
    requires d < 10
    ensures IsAsciiDigit(c)
  {
    (48 + d) as char
  }

  function DigitValue(c: char): (d: nat)
    requires IsAsciiDigit(c)
    ensures d < 10 && DigitChar(d) == c
  {
    c as int - 48
  }

  /** `str(n)`: decimal without leading zeros. */
  function NatToString(n: nat): (s: string)
    ensures |s| > 0 && AllAsciiDigits(s)
    ensures |s| > 1 ==> s[0] != '0'
    decreases n
  {
    if n < 10 then [DigitChar(n)] else NatToString(n / 10) + [DigitChar(n % 10)]
  }

  /** `int(s)` for a string of ASCII digits (leading zeros allowed). */
  function ParseDecimal(s: string): nat
    requires AllAsciiDigits(s)
    decreases |s|
  {
    if s == [] then 0 else 10 * ParseDecimal(s[..|s| - 1]) + DigitValue(s[|s| - 1])
  }

  lemma {:induction false} ParseNatToString(n: nat)
    ensures ParseDecimal(NatToString(n)) == n
    decreases n
  {
    var s := NatToString(n);
    if n < 10 {
      assert s[..|s| - 1] == [];
    } else {
      var p := NatToString(n / 10);
      assert s[..|s| - 1] == p;
      ParseNatToString(n / 10);
    }
  }

  /** Distinct ids render to distinct strings. */
  lemma NatToStringInjective(a: nat, b: nat)
    ensures NatToString(a) == NatToString(b) ==> a == b
  {
    if NatToString(a) == NatToString(b) {
      ParseNatToString(a);
      ParseNatToString(b);
    }
  }

  // ---------------------------------------------------------------------
  // JSON values exchanged with WebSocket clients

  datatype Json =
    | JNull
    | JBool(b: bool)
    | JNumber(n: int)
    | JString(s: string)
    | JArray(items: seq<Json>)
    | JObject(fields: map<string, Json>)
}
