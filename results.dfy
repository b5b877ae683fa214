/** Optional values and the typed failures that the domain core raises. */
module Results {

  datatype Option<+T> = None | Some(value: T)

  /** The kind of record a membership-gated lookup was looking for. */
  datatype Resource = TaskResource | CommentResource

  /** Every failure the task and comment services raise. A membership-gated
      lookup reports absence and denial with the same value, so that a caller
      who is not a member cannot tell whether the record exists. */
  datatype Error =
    | NotFoundOrNoAccess(resource: Resource)
    | CommentNotFound
    | InvalidStatus
    | InvalidTransition(from: string, to: string)
    | InvalidRole
    | DuplicateRole
    | CreatorRemovalForbidden
    | NotOwner

  datatype Result<+T> = Success(value: T) | Failure(error: Error)
}
