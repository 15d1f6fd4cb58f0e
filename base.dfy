/** Shared vocabulary of the reading platform: row identifiers, optional values,
    the caller of a request and the HTTP outcomes of the handlers. */
module Base {

  /** A database primary key. Auto-increment keys start at 1, so a Python truth
      test on an id (`if not usuario_id`) fails exactly when the id is absent. */
  type Id = n: int | n > 0 witness 1

  datatype Option<+T> = None | Some(value: T)

  /** The user id carried by the request's token, or None for an anonymous request
      (no token, an expired one or a bad signature). */
  type Caller = Option<Id>

  /** The error responses the handlers return: 401, 403, 404 and 400. */
  datatype Status =
    | Unauthenticated  // 401
    | Forbidden        // 403
    | NotFound         // 404
    | BadRequest       // 400

  /** A handler's answer: a value (status 200) or an error response. */
  datatype Response<+T> = Ok(value: T) | Err(status: Status)

  /** True when the rows' keys strictly ascend along the table. */
  predicate AscendingBy<T>(rows: seq<T>, key: T -> int)
  {
    forall i, j :: 0 <= i < j < |rows| ==> key(rows[i]) < key(rows[j])
  }

  /** A primary-key lookup: the position of the first row whose key is k, or
      None exactly when no row has that key. */
  function KeyIndex<T>(rows: seq<T>, key: T -> int, k: int): (r: Option<nat>)
    ensures r.Some? ==> r.value < |rows| && key(rows[r.value]) == k
    ensures r.Some? ==> forall i :: 0 <= i < r.value ==> key(rows[i]) != k
    ensures r.None? <==> forall i :: 0 <= i < |rows| ==> key(rows[i]) != k
  {
    if rows == [] then None
    else if key(rows[0]) == k then Some(0)
    else match KeyIndex(rows[1..], key, k)
      case None => None
      case Some(j) => Some(j + 1)
  }
}
