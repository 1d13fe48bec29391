/** Failure-carrying datatypes shared by every module of the model. */
module Wrappers {

  /** A value that may be absent. For inputs that JavaScript code tests with `typeof v === "string"`
      or `v || default`, `None` stands for an absent or non-string value. */
  datatype Option<+T> = None | Some(value: T)

  /** The outcome of an operation that either returns a value or throws. */
  datatype Result<+T, +E> = Success(value: T) | Failure(error: E)

  /** An error object as the server builds it: `new Error(message)` with a `code` property. */
  datatype AppError = AppError(code: string, message: string)

  /** An error whose code and message are both non-empty, so that a handler reports it as it is. */
  predicate IsRaised(e: AppError)
  {
    e.code != [] && e.message != []
  }

  /** `value || fallback` for a string-valued input. */
  function OrElse(value: Option<string>, fallback: string): (r: string)
    ensures value.Some? && value.value != [] ==> r == value.value
    ensures (value.None? || value.value == []) ==> r == fallback
  {
    match value
    case Some(s) => if s != [] then s else fallback
    case None => fallback
  }

  /** A payload field where `value || fallback` is applied: a falsy value (absent, `null`, `0`,
      `false`), a truthy value that is not a string (a non-zero number, an object), or a string. */
  datatype Field = Falsy | NonString | Str(text: string)

  /** `value || fallback`, as seen by `typeof v === "string"`: a truthy non-string is kept and
      so is not a string, while a falsy value or the empty string gives way to the fallback. */
  function FieldOr(value: Field, fallback: Option<string>): (r: Option<string>)
    ensures value.Str? && value.text != [] ==> r == Some(value.text)
    ensures value.NonString? ==> r.None?
    ensures value.Falsy? || value == Str([]) ==> r == fallback
  {
    match value
    case Str(s) => if s != [] then Some(s) else fallback
    case NonString => None
    case Falsy => fallback
  }

  // ----- generic facts used as proof steps -----

  /** Concatenation is associative. */
  lemma ConcatAssoc<T>(a: seq<T>, b: seq<T>, c: seq<T>)
    ensures a + (b + c) == (a + b) + c
  {
  }

  /** Removing an absent element changes nothing. */
  lemma RemoveAbsent<T>(s: set<T>, x: T)
    requires x !in s
    ensures s - {x} == s
  {
  }

  /** Updating a key twice keeps only the second value. */
  lemma UpdateTwice<K, V>(m: map<K, V>, k: K, first: V, second: V)
    ensures m[k := first][k := second] == m[k := second]
  {
  }
}
