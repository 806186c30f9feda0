/**
 * The data model of the finance tracker: one `transactions` table of flat
 * records, the JSON payloads clients send to create or update them, and the
 * errors the API reports.
 */
module Ledger {
  import opened Text

  datatype Option<T> = None | Some(value: T)

  /** The six client-writable columns, in the order the API always visits them. */
  datatype Field = Date | Description | Category | Account | Amount | Tags

  const Fields: seq<Field> := [Date, Description, Category, Account, Amount, Tags]

  /** Position of a field in `Fields`. */
  function Rank(f: Field): (k: nat)
    ensures k < |Fields| && Fields[k] == f
  {
    match f
    case Date => 0
    case Description => 1
    case Category => 2
    case Account => 3
    case Amount => 4
    case Tags => 5
  }

  /** The field at position `i` has rank `i`. */
  lemma RankAt(i: nat)
    requires i < |Fields|
    ensures Rank(Fields[i]) == i
  {
  }

  /** A scalar of a decoded JSON object (nested arrays and objects are not modelled). */
  datatype Value = Null | Bool(b: bool) | Num(n: int) | Str(s: string)

  /**
   * A decoded JSON request body, restricted to the six recognised keys:
   * a key is present exactly when it is in the map; its value may be null.
   */
  type Payload = map<Field, Value>

  /** `datetime('now')` as SQLite renders it; the model keeps it opaque. */
  type Timestamp = string

  /** One row of `transactions`. */
  datatype Transaction = Transaction(
    id: nat,
    date: string,
    description: string,
    category: string,
    account: string,
    amount: int,
    tags: Option<string>,
    createdAt: Timestamp,
    updatedAt: Option<Timestamp>)

  /** What the API reports instead of a result. */
  datatype Error =
    | Invalid(errors: map<Field, string>)   // 422 with the per-field messages
    | NothingToUpdate                       // 400 'Nothing to update'
    | NotNullViolation(column: Field)       // SQLite NOT NULL constraint, reported as 500
    | NotFound                              // 404
    | HeaderMismatch                        // 422 'CSV header must be: ...'

  datatype Result<T> = Ok(value: T) | Err(error: Error)

  /** PHP `isset($t[f])`: the key is present and its value is not null. */
  predicate IsSet(t: Payload, f: Field) {
    f in t && t[f] != Null
  }

  /**
   * PHP's `(string)` cast of a scalar, which is also the text PDO binds for it
   * (every value passed to `execute()` is bound as a string).
   */
  function TextOf(v: Value): string {
    match v
    case Null => ""
    case Bool(b) => if b then "1" else ""
    case Num(n) => IntToText(n)
    case Str(s) => s
  }

  /** PHP `is_numeric` of a scalar: numbers, and strings of numeric form. */
  predicate IsNumericValue(v: Value) {
    match v
    case Num(_) => true
    case Str(s) => IsNumeric(s)
    case _ => false
  }

  /**
   * PHP's `(float)` cast as applied to an amount. Null becomes 0. A
   * non-numeric string never reaches it once validation has passed, and is
   * given 0 here.
   */
  function AmountOf(v: Value): int {
    match v
    case Null => 0
    case Bool(b) => if b then 1 else 0
    case Num(n) => n
    case Str(s) => if IsNumeric(s) then ParseInt(s) else 0
  }

  /** A value bound to a nullable TEXT column: null stays NULL, anything else becomes text. */
  function NullableText(v: Value): Option<string> {
    if v == Null then None else Some(TextOf(v))
  }

  /** AUTOINCREMENT ids, in the table's rowid order: strictly increasing, hence unique. */
  ghost predicate IdsAscending(rows: seq<Transaction>) {
    forall i, j :: 0 <= i < j < |rows| ==> rows[i].id < rows[j].id
  }
}
