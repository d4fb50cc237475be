/** What a route answers. `Fault` is an uncaught exception: the request fails
    and nothing it did is committed. `Notice` is the route's flash warning on a
    refused but harmless request. */
module Outcomes {
  import opened Models

  /** Which flash warning a refused but harmless request gets. */
  datatype NoticeKind =
    | UserNotFound
    | AlreadySharedOrCreator
    | CannotRemoveCreator
    | NotShared

  datatype Reason =
    | DuplicateUsername
    | InvalidCredentials
    | MissingField
    | MissingToken
    | InvalidToken

  datatype Outcome<+T> =
    | Ok(value: T)
    | Unauthorized
    | NotFound
    | Notice(notice: NoticeKind)
    | Rejected(reason: Reason)
    | Fault

  /** The store after a request, and its answer. */
  datatype Reply<+T> = Reply(store: Store, outcome: Outcome<T>)
}
