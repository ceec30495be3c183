/**
 * Values that cross the boundary of the forum's domain layer: the loosely
 * typed properties of a request payload, the value node-postgres binds for
 * a query parameter, and the success/failure wrappers that stand for a
 * returned value or a thrown `Error`.
 */
module Values {

  datatype Option<+T> = None | Some(value: T)

  /** A value returned, or an `Error` thrown with the given message. */
  datatype Result<+T> = Ok(value: T) | Err(signal: string)

  /** A call that returns nothing, or throws an `Error` with the given message. */
  datatype Outcome = Pass | Fail(signal: string)

  /**
   * One property of a JavaScript payload object. A missing property reads
   * as `Undefined`; `Obj` is any object or array, with the text that
   * node-postgres sends when it is bound to a query parameter.
   */
  datatype Field =
    | Undefined
    | Null
    | Bool(b: bool)
    | Num(n: int)
    | Str(s: string)
    | Obj(text: string)

  /** JavaScript truthiness: `!f` is false. */
  predicate Truthy(f: Field)
  {
    match f
    case Undefined => false
    case Null => false
    case Bool(b) => b
    case Num(n) => n != 0
    case Str(s) => s != ""
    case Obj(_) => true
  }

  /** `typeof f === 'string'` */
  predicate IsString(f: Field)
  {
    f.Str?
  }

  /** The property holds a string with at least one character. */
  predicate NonEmptyString(f: Field)
  {
    f.Str? && |f.s| > 0
  }

  /** Passing both entity checks (truthy, then a string) is the same as holding a non-empty string. */
  lemma TruthyStringIsNonEmpty(f: Field)
    ensures Truthy(f) && IsString(f) <==> NonEmptyString(f)
  {
  }

  /** A query parameter as the database receives it: `None` is SQL NULL. */
  type Param = Option<string>

  /** Decimal text of a natural number, most significant digit first. */
  function Digits(n: nat): (r: string)
    ensures |r| > 0
    ensures forall i :: 0 <= i < |r| ==> '0' <= r[i] <= '9'
  {
    var last := (('0' as int) + n % 10) as char;
    if n < 10 then [last] else Digits(n / 10) + [last]
  }

  /** `String(n)` for an integer-valued JavaScript number. */
  function NumberText(n: int): string
  {
    if n < 0 then "-" + Digits(-n) else Digits(n)
  }

  /**
   * The parameter node-postgres sends for a JavaScript value: `undefined`
   * and `null` become NULL, every other value is sent as text.
   */
  function Bind(f: Field): (p: Param)
    ensures p.None? <==> f.Undefined? || f.Null?
    ensures f.Str? ==> p == Some(f.s)
  {
    match f
    case Undefined => None
    case Null => None
    case Bool(b) => Some(if b then "true" else "false")
    case Num(n) => Some(NumberText(n))
    case Str(s) => Some(s)
    case Obj(text) => Some(text)
  }

  /**
   * `users.username` as a LEFT JOIN on `users.id = owner` yields it: NULL
   * (`None`) when the owner is NULL or names no user. `users` maps a user
   * id to its username.
   */
  function Username(users: map<string, string>, owner: Param): Option<string>
  {
    if owner.Some? && owner.value in users then Some(users[owner.value]) else None
  }

  /** The outcome of an INSERT into a table whose rows have type `R`. */
  datatype Insertion<R, +T> = Insertion(result: Result<T>, rows: seq<R>)
}
