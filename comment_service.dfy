/** The comment service: listing and fetching comments for task members,
    creating a comment, editing one's own comment under the comment status
    machine, and hiding one's own comment in place of deleting it. */
module CommentService {
  import opened Results
  import opened Records
  import opened Seqs
  import opened StateMachine
  import opened Store
  import opened TaskRepository
  import opened CommentRepository
  import CommentStatus

  /** The payload of a comment creation. Any task or author id it carries is
      overwritten by the route's task and the caller. */
  datatype NewComment = NewComment(taskId: Option<TaskId>, userId: Option<UserId>, content: string, status: Option<string>)

  /** The visible comments of task `t`, newest first, for a member of the task. */
  function GetComments(tasks: seq<Task>, rows: seq<Participant>, comments: seq<Comment>, t: TaskId, u: UserId)
    : (r: Result<seq<Comment>>)
    ensures r.Failure? <==> !IsUserParticipant(tasks, rows, t, u)
    ensures r.Failure? ==> r.error == NotFoundOrNoAccess(TaskResource)
    ensures r.Success? ==> forall c :: c in r.value <==> c in comments && c.taskId == t && c.status == CommentStatus.Visible
    ensures r.Success? && Increasing(comments, CommentTime) ==> Decreasing(r.value, CommentTime)
  {
    if !IsUserParticipant(tasks, rows, t, u) then Failure(NotFoundOrNoAccess(TaskResource))
    else Success(CommentsByTaskId(comments, t))
  }

  /** A visible comment appended to the table heads its task's listing. */
  lemma {:induction false} NewCommentListedFirst(comments: seq<Comment>, c: Comment)
    requires c.status == CommentStatus.Visible
    ensures |CommentsByTaskId(comments + [c], c.taskId)| > 0
    ensures CommentsByTaskId(comments + [c], c.taskId)[0] == c
  {
    FilterAppend(comments, c, (x: Comment) => x.taskId == c.taskId && x.status == CommentStatus.Visible);
    var visible := VisibleOfTask(comments + [c], c.taskId);
    assert visible[|visible| - 1] == c;
  }

  /** The comment `id` for a member of its task, hidden or not. */
  function GetComment(tasks: seq<Task>, rows: seq<Participant>, comments: seq<Comment>, id: CommentId, u: UserId)
    : (r: Result<Comment>)
    ensures !CommentExists(comments, id) ==> r == Failure(CommentNotFound)
    ensures CommentExists(comments, id) && !IsUserParticipant(tasks, rows, FindById(comments, id).value.taskId, u) ==>
            r == Failure(NotFoundOrNoAccess(CommentResource))
    ensures CommentExists(comments, id) && IsUserParticipant(tasks, rows, FindById(comments, id).value.taskId, u) ==>
            r == Success(FindById(comments, id).value)
    ensures r.Success? ==> r.value in comments && r.value.id == id && IsUserParticipant(tasks, rows, r.value.taskId, u)
  {
    match FindOrFail(comments, id)
    case Failure(e) => Failure(e)
    case Success(c) =>
      if !IsUserParticipant(tasks, rows, c.taskId, u) then Failure(NotFoundOrNoAccess(CommentResource))
      else Success(c)
  }

  /** A hidden comment is left out of its task's listing but a member can still fetch it by id. */
  lemma HiddenCommentFetchable(tasks: seq<Task>, rows: seq<Participant>, comments: seq<Comment>, c: Comment, u: UserId)
    requires c in comments && c.status == CommentStatus.Hidden
    requires FindById(comments, c.id) == Some(c)
    requires IsUserParticipant(tasks, rows, c.taskId, u)
    ensures GetComment(tasks, rows, comments, c.id, u) == Success(c)
    ensures c !in GetComments(tasks, rows, comments, c.taskId, u).value
  {
  }

  /** An author's edit of comment `c`: authorship is checked first, then a
      status change must be allowed by the comment machine. Task membership is
      not checked. */
  function EditComment(c: Comment, f: CommentFields, u: UserId): (r: Result<Comment>)
    ensures r.Failure? <==>
      (c.userId != u || (f.status.Some? && f.status.value != c.status && !CanTransition(CommentStatus.Machine, c.status, f.status.value)))
    ensures c.userId != u ==> r == Failure(NotOwner)
    ensures c.userId == u && r.Failure? ==> r.error == InvalidTransition(c.status, f.status.value)
    ensures r.Success? ==> r.value == CommentRepository.Patched(c, f)
    ensures r.Success? && r.value.status != c.status ==> CanTransition(CommentStatus.Machine, c.status, r.value.status)
  {
    if c.userId != u then Failure(NotOwner)
    else if f.status.Some? && f.status.value != c.status && !CanTransition(CommentStatus.Machine, c.status, f.status.value)
    then Failure(InvalidTransition(c.status, f.status.value))
    else Success(CommentRepository.Patched(c, f))
  }

  /** Between the two comment statuses, an author's status change never fails. */
  lemma AuthorMayToggle(c: Comment, f: CommentFields)
    requires IsValidStatus(CommentStatus.Machine, c.status)
    requires f.status.Some? ==> IsValidStatus(CommentStatus.Machine, f.status.value)
    ensures EditComment(c, f, c.userId).Success?
  {
    if f.status.Some? {
      CommentStatus.TotalAndSymmetric(c.status, f.status.value);
    }
  }

  /** What an update of comment `id` returns. */
  function UpdateOutcome(comments: seq<Comment>, id: CommentId, f: CommentFields, u: UserId): (r: Result<Comment>)
    ensures !CommentExists(comments, id) ==> r == Failure(CommentNotFound)
    ensures CommentExists(comments, id) ==> r == EditComment(FindById(comments, id).value, f, u)
  {
    match FindOrFail(comments, id)
    case Failure(e) => Failure(e)
    case Success(c) => EditComment(c, f, u)
  }

  /** The author's hiding of comment `c`. Hiding an already hidden comment
      changes nothing; otherwise the move to hidden must be allowed. */
  function Hide(c: Comment, u: UserId): (r: Result<Comment>)
    ensures r.Failure? <==>
      (c.userId != u || (c.status != CommentStatus.Hidden && !CanTransition(CommentStatus.Machine, c.status, CommentStatus.Hidden)))
    ensures c.userId != u ==> r == Failure(NotOwner)
    ensures c.userId == u && r.Failure? ==> r.error == InvalidTransition(c.status, CommentStatus.Hidden)
    ensures r.Success? ==> r.value == c.(status := CommentStatus.Hidden)
    ensures r.Success? && c.status == CommentStatus.Hidden ==> r.value == c
  {
    if c.userId != u then Failure(NotOwner)
    else if c.status == CommentStatus.Hidden then Success(c)
    else if !CanTransition(CommentStatus.Machine, c.status, CommentStatus.Hidden)
    then Failure(InvalidTransition(c.status, CommentStatus.Hidden))
    else Success(c.(status := CommentStatus.Hidden))
  }

  /** Hiding twice is the same as hiding once. */
  lemma HideIdempotent(c: Comment, u: UserId)
    requires Hide(c, u).Success?
    ensures Hide(Hide(c, u).value, u) == Hide(c, u)
  {
  }

  /** A hidden comment can be restored to visible by its author, giving back the record as it was. */
  lemma HideThenRestore(c: Comment)
    requires c.status == CommentStatus.Visible
    ensures Hide(c, c.userId).Success?
    ensures EditComment(Hide(c, c.userId).value, CommentFields(None, Some(CommentStatus.Visible)), c.userId) == Success(c)
  {
    CommentStatus.HideAndRestore();
  }

  /** What a deletion of comment `id` leaves stored for it. */
  function DeleteOutcome(comments: seq<Comment>, id: CommentId, u: UserId): (r: Result<Comment>)
    ensures !CommentExists(comments, id) ==> r == Failure(CommentNotFound)
    ensures CommentExists(comments, id) ==> r == Hide(FindById(comments, id).value, u)
  {
    match FindOrFail(comments, id)
    case Failure(e) => Failure(e)
    case Success(c) => Hide(c, u)
  }

  /** Attach a comment by `u` to task `t`, which `u` must be a member of. */
  method CreateComment(db: Database, data: NewComment, t: TaskId, u: UserId) returns (r: Result<Comment>)
    requires db.Valid()
    modifies db
    ensures db.Valid()
    ensures r.Failure? <==> !IsUserParticipant(old(db.tasks), old(db.participants), t, u)
    ensures r.Failure? ==> r.error == NotFoundOrNoAccess(TaskResource) && unchanged(db)
    ensures r.Success? ==> r.value == Comment(old(db.nextCommentId), t, u, data.content,
                                              if data.status.Some? then data.status.value else CommentStatus.Visible,
                                              old(db.clock))
    ensures r.Success? ==> !CommentExists(old(db.comments), r.value.id) && db.comments == old(db.comments) + [r.value]
    ensures r.Success? ==> db.nextCommentId == old(db.nextCommentId) + 1 && db.clock == old(db.clock) + 1
    ensures db.tasks == old(db.tasks) && db.participants == old(db.participants) && db.nextTaskId == old(db.nextTaskId)
  {
    var member := IsUserParticipant(db.tasks, db.participants, t, u);
    if !member {
      return Failure(NotFoundOrNoAccess(TaskResource));
    }
    var status := if data.status.Some? then data.status.value else CommentStatus.Visible;
    var c := CommentRepository.Create(db, t, u, data.content, status);
    r := Success(c);
  }

  /** Update the author's comment after the authorship and transition checks. */
  method UpdateComment(db: Database, id: CommentId, f: CommentFields, u: UserId) returns (r: Result<Comment>)
    requires db.Valid()
    modifies db
    ensures db.Valid()
    ensures r == UpdateOutcome(old(db.comments), id, f, u)
    ensures r.Failure? ==> unchanged(db)
    ensures r.Success? ==> db.comments == ReplaceComment(old(db.comments), r.value)
    ensures r.Success? ==> FindById(db.comments, id) == Some(r.value)
    ensures db.tasks == old(db.tasks) && db.participants == old(db.participants)
    ensures db.nextTaskId == old(db.nextTaskId) && db.nextCommentId == old(db.nextCommentId) && db.clock == old(db.clock)
  {
    var found := FindOrFail(db.comments, id);
    if found.Failure? {
      return Failure(found.error);
    }
    var c := found.value;
    if c.userId != u {
      return Failure(NotOwner);
    }
    if f.status.Some? && f.status.value != c.status {
      if !CanTransition(CommentStatus.Machine, c.status, f.status.value) {
        return Failure(InvalidTransition(c.status, f.status.value));
      }
    }
    var updated := CommentRepository.Update(db, c, f);
    r := Success(updated);
  }

  /** Hide the author's comment; the record stays in the table. */
  method DeleteComment(db: Database, id: CommentId, u: UserId) returns (r: Result<()>)
    requires db.Valid()
    modifies db
    ensures db.Valid()
    ensures r.Success? <==> DeleteOutcome(old(db.comments), id, u).Success?
    ensures r.Failure? ==> r.error == DeleteOutcome(old(db.comments), id, u).error && unchanged(db)
    ensures r.Success? ==> db.comments == ReplaceComment(old(db.comments), DeleteOutcome(old(db.comments), id, u).value)
    ensures r.Success? ==> FindById(db.comments, id) == Some(DeleteOutcome(old(db.comments), id, u).value)
    ensures r.Success? ==> FindById(db.comments, id).value.status == CommentStatus.Hidden
    ensures r.Success? && FindById(old(db.comments), id).value.status == CommentStatus.Hidden ==> unchanged(db)
    ensures db.tasks == old(db.tasks) && db.participants == old(db.participants)
    ensures db.nextTaskId == old(db.nextTaskId) && db.nextCommentId == old(db.nextCommentId) && db.clock == old(db.clock)
  {
    var found := FindOrFail(db.comments, id);
    if found.Failure? {
      return Failure(found.error);
    }
    var c := found.value;
    if c.userId != u {
      return Failure(NotOwner);
    }
    if c.status != CommentStatus.Hidden {
      if !CanTransition(CommentStatus.Machine, c.status, CommentStatus.Hidden) {
        return Failure(InvalidTransition(c.status, CommentStatus.Hidden));
      }
      var _ := CommentRepository.Update(db, c, CommentFields(None, Some(CommentStatus.Hidden)));
    } else {
      ReplaceWithSame(db.comments, c);
    }
    r := Success(());
  }
}
