/** Shared vocabulary of the marketplace model: optional values and the HTTP
    replies the controllers send (`res.status(..).json(..)`). */
module Common {

  datatype Option<T> = None | Some(value: T) {
    /** The value, or `default` when absent (a JavaScript default parameter). */
    function GetOr(default: T): T {
      match this
      case Some(v) => v
      case None => default
    }
  }

  /** Why the document database refused an operation: a schema validation
      failure naming the offending paths, a failed cast of a path (an id that
      is not an ObjectId), or a unique index that already holds the value. The
      driver's message text is not modelled. */
  datatype DbCause =
    | ValidationFailed(paths: seq<string>)
    | CastFailed(path: string)
    | DuplicateKey(path: string)

  /** A controller's reply: a JSON document, a `{ message }` object, or the
      message of a database error, each with its HTTP status. */
  datatype Response<T> =
    | Json(status: int, data: T)
    | Msg(status: int, message: string)
    | DbError(status: int, cause: DbCause)

  /** `a` is `b` with some entries dropped, the rest kept in their order. */
  predicate IsSubsequence<T(==)>(a: seq<T>, b: seq<T>)
    decreases |b|
  {
    if a == [] then true
    else if b == [] then false
    else (a[0] == b[0] && IsSubsequence(a[1..], b[1..])) || IsSubsequence(a, b[1..])
  }

  /** A subsequence of the tail is a subsequence of the whole list. */
  lemma SubsequenceSkip<T>(a: seq<T>, b: seq<T>)
    requires b != [] && IsSubsequence(a, b[1..])
    ensures IsSubsequence(a, b)
  {
  }

  /** Keeping the head of both lists keeps a subsequence. */
  lemma SubsequenceCons<T>(x: T, a: seq<T>, b: seq<T>)
    requires b != [] && b[0] == x && IsSubsequence(a, b[1..])
    ensures IsSubsequence([x] + a, b)
  {
    assert ([x] + a)[1..] == a;
  }

  function Min(a: int, b: int): int {
    if a <= b then a else b
  }
}
