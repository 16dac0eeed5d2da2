/** Identifiers, optional values and the HTTP status codes the handlers answer with. */
module Basics {

  /** A value that may be absent (an optional schema path, a lookup that finds nothing). */
  datatype Option<+T> = None | Some(value: T)

  /** MongoDB ObjectIds of users, groups and messages: opaque, compared by equality only. */
  datatype UserId = UserId(raw: nat)
  datatype GroupId = GroupId(raw: nat)
  datatype MessageId = MessageId(raw: nat)

  const StatusOk: int := 200
  const StatusCreated: int := 201
  const StatusBadRequest: int := 400
  const StatusForbidden: int := 403
  const StatusNotFound: int := 404
  /** What the handlers' catch blocks answer when Mongoose rejects a document or JavaScript throws. */
  const StatusServerError: int := 500

  /** No element occurs twice. */
  predicate NoDuplicates<T(==)>(s: seq<T>)
  {
    forall i, j :: 0 <= i < j < |s| ==> s[i] != s[j]
  }
}
