/** The task service: task listing and lookup gated on membership, task
    creation with its participant rows, updates that check the status
    transition and reconcile the assignee and observer sets, deletion, and
    adding and removing participant roles. */
module TaskService {
  import opened Results
  import opened Records
  import opened Seqs
  import opened StateMachine
  import opened TaskModel
  import opened Store
  import opened TaskRepository
  import TaskStatus
  import TaskPolicy

  /** The validated payload of a task creation. */
  datatype NewTask = NewTask(title: string, description: string, status: Option<string>, dueDate: Option<string>,
                             assigneeIds: Option<seq<UserId>>, observerIds: Option<seq<UserId>>)

  /** The payload of a task update: the task fields to overwrite and, when
      present, the complete new assignee and observer lists. An absent list
      (`None`) leaves those rows alone; an empty list removes them all. */
  datatype TaskUpdate = TaskUpdate(fields: TaskFields, assigneeIds: Option<seq<UserId>>, observerIds: Option<seq<UserId>>)

  const AllowedRoles: seq<string> := [Creator, Assignee, Observer]

  function IdsOrEmpty(ids: Option<seq<UserId>>): seq<UserId> {
    if ids.Some? then ids.value else []
  }

  /** The caller's tasks. A truthy status filter must be a valid task status and
      restricts the list to that status; null, "" and "0" mean no filter. */
  function GetTasks(tasks: seq<Task>, rows: seq<Participant>, u: UserId, status: Option<string>): (r: Result<seq<Task>>)
    ensures r.Failure? <==> Truthy(status) && !IsValidStatus(TaskStatus.Machine, status.value)
    ensures r.Failure? ==> r.error == InvalidStatus
    ensures r.Success? ==> forall x :: x in r.value <==>
      x in tasks && HasParticipant(rows, x.id, u) && (Truthy(status) ==> x.status == status.value)
    ensures !Truthy(status) ==> r == Success(TasksByUserId(tasks, rows, u, None))
  {
    if Truthy(status) then
      if !IsValidStatus(TaskStatus.Machine, status.value) then Failure(InvalidStatus)
      else Success(TasksByStatus(tasks, rows, status.value, u))
    else Success(TasksByUserId(tasks, rows, u, None))
  }

  /** The task `id` if the caller holds a role on it; absence and denial give the same failure. */
  function GetTask(tasks: seq<Task>, rows: seq<Participant>, id: TaskId, u: UserId): (r: Result<Task>)
    ensures r.Success? <==> TaskExists(tasks, id) && TaskPolicy.CanView(rows, id, u)
    ensures r.Success? ==> r.value in tasks && r.value.id == id
    ensures r.Failure? ==> r.error == NotFoundOrNoAccess(TaskResource)
  {
    match FindTaskForUser(tasks, rows, id, u)
    case None => Failure(NotFoundOrNoAccess(TaskResource))
    case Some(x) => Success(x)
  }

  /** A caller who is not a member cannot tell an absent task from one they may not see. */
  lemma GetTaskHidesExistence(tasks: seq<Task>, rows: seq<Participant>, id: TaskId, u: UserId,
                              tasks': seq<Task>, rows': seq<Participant>)
    requires !TaskExists(tasks, id)
    requires TaskExists(tasks', id) && !HasParticipant(rows', id, u)
    ensures GetTask(tasks, rows, id, u) == GetTask(tasks', rows', id, u)
  {
  }

  /** The table after the exists-then-insert loop over `ids`: a `(t, id, role)`
      row is appended for each id that does not hold the role yet. */
  function AddMissing(rows: seq<Participant>, t: TaskId, ids: seq<UserId>, role: string): (r: seq<Participant>)
    ensures rows <= r
    ensures forall p :: p in r <==> p in rows || (p.taskId == t && p.role == role && p.userId in ids)
    ensures Distinct(rows) ==> Distinct(r)
    decreases |ids|
  {
    if ids == [] then rows
    else
      var front := ids[..|ids| - 1];
      var u := ids[|ids| - 1];
      var r := AddMissing(rows, t, front, role);
      assert forall v :: v in ids <==> v in front || v == u by {
        assert ids == front + [u];
      }
      if HasRole(r, t, u, role) then r
      else
        assert Distinct(r) ==> Distinct(r + [Participant(t, u, role)]) by {
          if Distinct(r) { AppendDistinct(r, Participant(t, u, role)); }
        }
        r + [Participant(t, u, role)]
  }

  /** The table after deleting the `role` rows of task `t` whose user is not in `keep`. */
  function Prune(rows: seq<Participant>, t: TaskId, role: string, keep: seq<UserId>): (r: seq<Participant>)
    ensures forall p :: p in r <==> p in rows && !(p.taskId == t && p.role == role && p.userId !in keep)
    ensures Distinct(rows) ==> Distinct(r)
  {
    assert Distinct(rows) ==> Distinct(Filter(rows, (p: Participant) => !(p.taskId == t && p.role == role && p.userId !in keep))) by {
      if Distinct(rows) { FilterDistinct(rows, (p: Participant) => !(p.taskId == t && p.role == role && p.userId !in keep)); }
    }
    Filter(rows, (p: Participant) => !(p.taskId == t && p.role == role && p.userId !in keep))
  }

  /** The table after reconciling the `role` rows of task `t` with `ids`, when a list is given. */
  function Reconcile(rows: seq<Participant>, t: TaskId, role: string, ids: Option<seq<UserId>>): (r: seq<Participant>)
    ensures ids.None? ==> r == rows
    ensures ids.Some? ==> forall u :: HasRole(r, t, u, role) <==> u in ids.value
    ensures forall p: Participant :: !(p.taskId == t && p.role == role) ==> (p in r <==> p in rows)
    ensures Distinct(rows) ==> Distinct(r)
  {
    if ids.None? then rows else AddMissing(Prune(rows, t, role, ids.value), t, ids.value, role)
  }

  /** The participant table after a task update: assignees, then observers. */
  function UpdatedRows(rows: seq<Participant>, t: TaskId, upd: TaskUpdate): (r: seq<Participant>)
    ensures upd.assigneeIds.Some? ==> forall u :: HasRole(r, t, u, Assignee) <==> u in upd.assigneeIds.value
    ensures upd.assigneeIds.None? ==> forall u :: HasRole(r, t, u, Assignee) <==> HasRole(rows, t, u, Assignee)
    ensures upd.observerIds.Some? ==> forall u :: HasRole(r, t, u, Observer) <==> u in upd.observerIds.value
    ensures upd.observerIds.None? ==> forall u :: HasRole(r, t, u, Observer) <==> HasRole(rows, t, u, Observer)
    ensures forall p: Participant :: p.taskId != t || (p.role != Assignee && p.role != Observer) ==> (p in r <==> p in rows)
    ensures Distinct(rows) ==> Distinct(r)
  {
    Reconcile(Reconcile(rows, t, Assignee, upd.assigneeIds), t, Observer, upd.observerIds)
  }

  /** The participant table after creating task `t`: the creator row, then one
      row per distinct assignee id and per distinct observer id. */
  function CreatedRows(rows: seq<Participant>, t: TaskId, creator: UserId, assignees: seq<UserId>, observers: seq<UserId>)
    : (r: seq<Participant>)
    ensures rows + [Participant(t, creator, Creator)] <= r
    ensures forall p :: p in r <==> p in rows || p == Participant(t, creator, Creator) ||
                                    (p.taskId == t && p.role == Assignee && p.userId in assignees) ||
                                    (p.taskId == t && p.role == Observer && p.userId in observers)
    ensures Distinct(rows) && Participant(t, creator, Creator) !in rows ==> Distinct(r)
  {
    var withCreator := rows + [Participant(t, creator, Creator)];
    assert Distinct(rows) && Participant(t, creator, Creator) !in rows ==> Distinct(withCreator) by {
      if Distinct(rows) && Participant(t, creator, Creator) !in rows { AppendDistinct(rows, Participant(t, creator, Creator)); }
    }
    AddMissing(AddMissing(withCreator, t, assignees, Assignee), t, observers, Observer)
  }

  /** Creating a task for user 1 with assignee 4 and observers 2 and 3 yields exactly these rows. */
  lemma CreateScenario(t: TaskId)
    ensures CreatedRows([], t, 1, [4], [2, 3]) ==
      [Participant(t, 1, Creator), Participant(t, 4, Assignee), Participant(t, 2, Observer), Participant(t, 3, Observer)]
  {
    assert [2, 3][..1] == [2];
    assert [4][..0] == [] && [2][..0] == [];
  }

  /** A repeated id in the assignee list yields one row. */
  lemma CreateSkipsDuplicateIds(t: TaskId)
    ensures CreatedRows([], t, 1, [4, 4], []) == [Participant(t, 1, Creator), Participant(t, 4, Assignee)]
  {
    assert [4, 4][..1] == [4];
    assert [4][..0] == [];
  }

  /** The record a task update writes, or the transition failure raised before any write. */
  function PatchTask(task: Task, f: TaskFields): (r: Result<Task>)
    ensures r.Failure? <==> f.status.Some? && f.status.value != task.status &&
                            !CanTransition(TaskStatus.Machine, task.status, f.status.value)
    ensures r.Failure? ==> r.error == InvalidTransition(task.status, f.status.value)
    ensures r.Success? ==> r.value == Patched(task, f)
    ensures r.Success? && r.value.status != task.status ==> CanTransition(TaskStatus.Machine, task.status, r.value.status)
  {
    if f.status.Some? && f.status.value != task.status && !CanTransition(TaskStatus.Machine, task.status, f.status.value)
    then Failure(InvalidTransition(task.status, f.status.value))
    else Success(Patched(task, f))
  }

  /** A done task cannot be moved back to todo by an update. */
  lemma UpdateDoneToTodoFails(task: Task, f: TaskFields)
    requires task.status == TaskStatus.Done && f.status == Some(TaskStatus.Todo)
    ensures PatchTask(task, f) == Failure(InvalidTransition(TaskStatus.Done, TaskStatus.Todo))
  {
    TaskStatus.DoneToTodoRejected();
  }

  /** What a task update returns: the lookup failure, the transition failure or the written record. */
  function UpdateOutcome(tasks: seq<Task>, rows: seq<Participant>, id: TaskId, f: TaskFields, u: UserId): (r: Result<Task>)
    ensures !IsUserParticipant(tasks, rows, id, u) ==> r == Failure(NotFoundOrNoAccess(TaskResource))
    ensures IsUserParticipant(tasks, rows, id, u) ==> r == PatchTask(FindTask(tasks, id).value, f)
    ensures r.Success? ==> r.value.id == id
  {
    match GetTask(tasks, rows, id, u)
    case Failure(e) => Failure(e)
    case Success(task) => PatchTask(task, f)
  }

  /** What a task deletion returns: only membership is checked. */
  function DeleteOutcome(tasks: seq<Task>, rows: seq<Participant>, id: TaskId, u: UserId): (r: Result<()>)
    ensures r.Success? <==> IsUserParticipant(tasks, rows, id, u)
    ensures r.Failure? ==> r.error == NotFoundOrNoAccess(TaskResource)
  {
    match GetTask(tasks, rows, id, u)
    case Failure(e) => Failure(e)
    case Success(_) => Success(())
  }

  /** An observer who is not the creator may delete the task through the service,
      although the creator-only delete policy refuses them. */
  lemma ObserverMayDelete()
    ensures var tasks := [Task(1, "t", "d", TaskStatus.Todo, None)];
            var rows := [Participant(1, 1, Creator), Participant(1, 2, Observer)];
            DeleteOutcome(tasks, rows, 1, 2).Success? && !TaskPolicy.CanDelete(rows, 1, 2)
  {
    var tasks := [Task(1, "t", "d", TaskStatus.Todo, None)];
    var rows := [Participant(1, 1, Creator), Participant(1, 2, Observer)];
    assert TaskExists(tasks, 1) by { assert tasks[0].id == 1; }
    assert HasParticipant(rows, 1, 2) by { assert rows[1].taskId == 1 && rows[1].userId == 2; }
    assert CreatorId(rows, 1) == Some(1);
  }

  /** The participant table after adding a role, or the failure: the role must
      be one of the three known roles and must not be held already. */
  function AddRow(rows: seq<Participant>, t: TaskId, target: UserId, role: string): (r: Result<seq<Participant>>)
    ensures r.Success? <==> role in AllowedRoles && !HasRole(rows, t, target, role)
    ensures role !in AllowedRoles ==> r == Failure(InvalidRole)
    ensures role in AllowedRoles && HasRole(rows, t, target, role) ==> r == Failure(DuplicateRole)
    ensures r.Success? ==> r.value == rows + [Participant(t, target, role)]
    ensures r.Success? && Distinct(rows) ==> Distinct(r.value)
  {
    if role !in AllowedRoles then Failure(InvalidRole)
    else if HasRole(rows, t, target, role) then Failure(DuplicateRole)
    else
      assert Distinct(rows) ==> Distinct(rows + [Participant(t, target, role)]) by {
        if Distinct(rows) { AppendDistinct(rows, Participant(t, target, role)); }
      }
      Success(rows + [Participant(t, target, role)])
  }

  /** Adding the same role twice fails the second time and leaves the table as the first call left it. */
  lemma AddRowTwice(rows: seq<Participant>, t: TaskId, target: UserId, role: string)
    requires AddRow(rows, t, target, role).Success?
    ensures AddRow(AddRow(rows, t, target, role).value, t, target, role) == Failure(DuplicateRole)
  {
    assert Participant(t, target, role) in AddRow(rows, t, target, role).value;
  }

  /** The role check admits the creator role, so a second creator row can be
      added; the delete policy keeps following the first creator row. */
  lemma SecondCreatorAllowed(t: TaskId)
    ensures AddRow([Participant(t, 1, Creator)], t, 2, Creator) ==
            Success([Participant(t, 1, Creator), Participant(t, 2, Creator)])
    ensures CreatorId([Participant(t, 1, Creator), Participant(t, 2, Creator)], t) == Some(1)
  {
    assert Creator in AllowedRoles;
    assert !HasRole([Participant(t, 1, Creator)], t, 2, Creator);
    assert [Participant(t, 1, Creator)] + [Participant(t, 2, Creator)] == [Participant(t, 1, Creator), Participant(t, 2, Creator)];
  }

  /** The participant table after removing a role, or the failure. The creator
      role cannot be named, and with no role named the creator cannot be the
      target; a named role removes that one row, no role removes every
      non-creator row of the target. */
  function RemoveRows(rows: seq<Participant>, t: TaskId, target: UserId, role: Option<string>): (r: Result<seq<Participant>>)
    ensures r.Failure? <==> role == Some(Creator) || (role.None? && CreatorId(rows, t) == Some(target))
    ensures r.Failure? ==> r.error == CreatorRemovalForbidden
    ensures r.Success? ==> forall p :: p in r.value <==>
      (p in rows && !(p.taskId == t && p.userId == target && (if role.Some? then p.role == role.value else p.role != Creator)))
    ensures r.Success? ==> forall p :: p in rows && p.role == Creator ==> p in r.value
    ensures r.Success? && Distinct(rows) ==> Distinct(r.value)
  {
    if role == Some(Creator) || (role.None? && CreatorId(rows, t) == Some(target)) then
      Failure(CreatorRemovalForbidden)
    else
      var drop := (p: Participant) => p.taskId == t && p.userId == target &&
                                      (if role.Some? then p.role == role.value else p.role != Creator);
      assert Distinct(rows) ==> Distinct(Filter(rows, (p: Participant) => !drop(p))) by {
        if Distinct(rows) { FilterDistinct(rows, (p: Participant) => !drop(p)); }
      }
      Success(Filter(rows, (p: Participant) => !drop(p)))
  }

  /** One more id handled by the loop: its row is appended unless already present. */
  lemma AddMissingStep(rows: seq<Participant>, t: TaskId, ids: seq<UserId>, i: nat, role: string)
    requires i < |ids|
    ensures AddMissing(rows, t, ids[..i + 1], role) ==
      if HasRole(AddMissing(rows, t, ids[..i], role), t, ids[i], role) then AddMissing(rows, t, ids[..i], role)
      else AddMissing(rows, t, ids[..i], role) + [Participant(t, ids[i], role)]
  {
    assert ids[..i + 1][..i] == ids[..i];
  }

  /** The rows the loop appends point at the stored task and duplicate nothing. */
  lemma AddMissingKeepsValid(rows: seq<Participant>, tasks: seq<Task>, t: TaskId, ids: seq<UserId>, role: string)
    requires ParticipantsValid(rows, tasks) && TaskExists(tasks, t)
    ensures ParticipantsValid(AddMissing(rows, t, ids, role), tasks)
  {
  }

  /** Append the missing `(t, id, role)` rows, one id at a time. */
  method InsertMissing(db: Database, t: TaskId, ids: seq<UserId>, role: string)
    requires db.Valid() && TaskExists(db.tasks, t)
    modifies db
    ensures db.Valid()
    ensures db.participants == AddMissing(old(db.participants), t, ids, role)
    ensures db.tasks == old(db.tasks) && db.comments == old(db.comments)
    ensures db.nextTaskId == old(db.nextTaskId) && db.nextCommentId == old(db.nextCommentId) && db.clock == old(db.clock)
  {
    var i := 0;
    while i < |ids|
      invariant 0 <= i <= |ids|
      invariant db.participants == AddMissing(old(db.participants), t, ids[..i], role)
      invariant db.tasks == old(db.tasks) && db.comments == old(db.comments)
      invariant db.nextTaskId == old(db.nextTaskId) && db.nextCommentId == old(db.nextCommentId) && db.clock == old(db.clock)
    {
      AddMissingStep(old(db.participants), t, ids, i, role);
      var present := HasRole(db.participants, t, ids[i], role);
      if !present {
        db.participants := db.participants + [Participant(t, ids[i], role)];
      }
      i := i + 1;
    }
    assert ids[..|ids|] == ids;
    AddMissingKeepsValid(old(db.participants), db.tasks, t, ids, role);
  }

  /** Delete the `role` rows of task `t` whose user is not in `keep`. */
  method DeleteStale(db: Database, t: TaskId, role: string, keep: seq<UserId>)
    requires db.Valid()
    modifies db
    ensures db.Valid()
    ensures db.participants == Prune(old(db.participants), t, role, keep)
    ensures db.tasks == old(db.tasks) && db.comments == old(db.comments)
    ensures db.nextTaskId == old(db.nextTaskId) && db.nextCommentId == old(db.nextCommentId) && db.clock == old(db.clock)
  {
    db.participants := Prune(db.participants, t, role, keep);
  }

  /** Create a task, then its creator row, then the assignee and observer rows. */
  method CreateTask(db: Database, data: NewTask, creatorId: UserId) returns (task: Task)
    requires db.Valid()
    modifies db
    ensures db.Valid()
    ensures task == Task(old(db.nextTaskId), data.title, data.description,
                         if data.status.Some? then data.status.value else TaskStatus.Todo, data.dueDate)
    ensures (data.status.Some? ==> IsValidStatus(TaskStatus.Machine, data.status.value)) ==>
            IsValidStatus(TaskStatus.Machine, task.status)
    ensures !TaskExists(old(db.tasks), task.id)
    ensures db.tasks == old(db.tasks) + [task]
    ensures db.participants == CreatedRows(old(db.participants), task.id, creatorId,
                                           IdsOrEmpty(data.assigneeIds), IdsOrEmpty(data.observerIds))
    ensures CreatorId(db.participants, task.id) == Some(creatorId)
    ensures db.comments == old(db.comments)
    ensures db.nextTaskId == old(db.nextTaskId) + 1 && db.nextCommentId == old(db.nextCommentId) && db.clock == old(db.clock)
  {
    var status := if data.status.Some? then data.status.value else TaskStatus.Todo;
    TaskStatus.ValidStatuses(status);
    task := TaskRepository.Create(db, data.title, data.description, status, data.dueDate);
    var creatorRow := Participant(task.id, creatorId, Creator);
    assert creatorRow !in db.participants;
    AppendDistinct(db.participants, creatorRow);
    assert TaskExists(db.tasks, task.id) by { assert db.tasks[|db.tasks| - 1] == task; }
    db.participants := db.participants + [creatorRow];
    InsertMissing(db, task.id, IdsOrEmpty(data.assigneeIds), Assignee);
    InsertMissing(db, task.id, IdsOrEmpty(data.observerIds), Observer);
    CreatorRowFirst(old(db.participants), db.participants, task.id, creatorId);
  }

  /** When the task's first row is its creator row, that row names the creator. */
  lemma CreatorRowFirst(rows: seq<Participant>, rows': seq<Participant>, t: TaskId, c: UserId)
    requires forall p :: p in rows ==> p.taskId != t
    requires rows + [Participant(t, c, Creator)] <= rows'
    ensures CreatorId(rows', t) == Some(c)
  {
    var k := |rows|;
    assert rows'[k] == Participant(t, c, Creator);
    assert HasRole(rows', t, c, Creator);
    var id := CreatorId(rows', t);
    var i :| 0 <= i < |rows'| && rows'[i] == Participant(t, id.value, Creator) &&
             forall j :: 0 <= j < i ==> !IsCreatorRow(rows'[j], t);
    assert i == k;
  }

  /** Reconcile the assignee rows, then the observer rows, of a stored task with
      the lists an update carries. */
  method ReconcileParticipants(db: Database, id: TaskId, upd: TaskUpdate)
    requires db.Valid() && TaskExists(db.tasks, id)
    modifies db
    ensures db.Valid()
    ensures db.participants == UpdatedRows(old(db.participants), id, upd)
    ensures db.tasks == old(db.tasks) && db.comments == old(db.comments)
    ensures db.nextTaskId == old(db.nextTaskId) && db.nextCommentId == old(db.nextCommentId) && db.clock == old(db.clock)
  {
    if upd.assigneeIds.Some? {
      DeleteStale(db, id, Assignee, upd.assigneeIds.value);
      InsertMissing(db, id, upd.assigneeIds.value, Assignee);
    }
    assert db.participants == Reconcile(old(db.participants), id, Assignee, upd.assigneeIds);
    if upd.observerIds.Some? {
      DeleteStale(db, id, Observer, upd.observerIds.value);
      InsertMissing(db, id, upd.observerIds.value, Observer);
    }
  }

  /** Write the task fields of a checked update, then reconcile its participants. */
  method ApplyUpdate(db: Database, task: Task, upd: TaskUpdate) returns (updated: Task)
    requires db.Valid() && task in db.tasks
    modifies db
    ensures db.Valid()
    ensures updated == Patched(task, upd.fields)
    ensures db.tasks == ReplaceTask(old(db.tasks), updated) && FindTask(db.tasks, task.id) == Some(updated)
    ensures db.participants == UpdatedRows(old(db.participants), task.id, upd)
    ensures db.comments == old(db.comments)
    ensures db.nextTaskId == old(db.nextTaskId) && db.nextCommentId == old(db.nextCommentId) && db.clock == old(db.clock)
  {
    updated := TaskRepository.Update(db, task, upd.fields);
    assert TaskExists(db.tasks, task.id);
    ReconcileParticipants(db, task.id, upd);
  }

  /** Check membership and the status transition, write the task fields, then
      reconcile assignees and observers. */
  method UpdateTask(db: Database, id: TaskId, upd: TaskUpdate, u: UserId) returns (r: Result<Task>)
    requires db.Valid()
    modifies db
    ensures db.Valid()
    ensures r == UpdateOutcome(old(db.tasks), old(db.participants), id, upd.fields, u)
    ensures r.Failure? ==> unchanged(db)
    ensures r.Success? ==> db.tasks == ReplaceTask(old(db.tasks), r.value) && FindTask(db.tasks, id) == Some(r.value)
    ensures r.Success? ==> db.participants == UpdatedRows(old(db.participants), id, upd)
    ensures db.comments == old(db.comments)
    ensures db.nextTaskId == old(db.nextTaskId) && db.nextCommentId == old(db.nextCommentId) && db.clock == old(db.clock)
    ensures forall p :: p in old(db.participants) && p.role == Creator ==> p in db.participants
  {
    var found := GetTask(db.tasks, db.participants, id, u);
    if found.Failure? {
      return Failure(found.error);
    }
    var task := found.value;
    if upd.fields.status.Some? && upd.fields.status.value != task.status {
      if !CanTransition(TaskStatus.Machine, task.status, upd.fields.status.value) {
        return Failure(InvalidTransition(task.status, upd.fields.status.value));
      }
    }
    var updated := ApplyUpdate(db, task, upd);
    r := Success(updated);
  }

  /** Delete a task the caller is a member of, whatever their role. */
  method DeleteTask(db: Database, id: TaskId, u: UserId) returns (r: Result<()>)
    requires db.Valid()
    modifies db
    ensures db.Valid()
    ensures r == DeleteOutcome(old(db.tasks), old(db.participants), id, u)
    ensures r.Failure? ==> unchanged(db)
    ensures r.Success? ==> db.tasks == WithoutTask(old(db.tasks), id)
    ensures r.Success? ==> db.participants == WithoutTaskRows(old(db.participants), id)
    ensures r.Success? ==> db.comments == WithoutTaskComments(old(db.comments), id)
    ensures db.nextTaskId == old(db.nextTaskId) && db.nextCommentId == old(db.nextCommentId) && db.clock == old(db.clock)
  {
    var found := GetTask(db.tasks, db.participants, id, u);
    if found.Failure? {
      return Failure(found.error);
    }
    TaskRepository.Delete(db, id);
    r := Success(());
  }

  /** Give `target` a role on a task the caller is a member of. */
  method AddParticipant(db: Database, id: TaskId, u: UserId, target: UserId, role: string) returns (r: Result<()>)
    requires db.Valid()
    modifies db
    ensures db.Valid()
    ensures !IsUserParticipant(old(db.tasks), old(db.participants), id, u) ==> r == Failure(NotFoundOrNoAccess(TaskResource))
    ensures IsUserParticipant(old(db.tasks), old(db.participants), id, u) ==>
      match AddRow(old(db.participants), id, target, role)
      case Failure(e) => r == Failure(e)
      case Success(rows) => r == Success(()) && db.participants == rows
    ensures r.Failure? ==> unchanged(db)
    ensures db.tasks == old(db.tasks) && db.comments == old(db.comments)
    ensures db.nextTaskId == old(db.nextTaskId) && db.nextCommentId == old(db.nextCommentId) && db.clock == old(db.clock)
    ensures forall p :: p in old(db.participants) ==> p in db.participants
  {
    var found := GetTask(db.tasks, db.participants, id, u);
    if found.Failure? {
      return Failure(found.error);
    }
    if role !in AllowedRoles {
      return Failure(InvalidRole);
    }
    var present := HasRole(db.participants, id, target, role);
    if present {
      return Failure(DuplicateRole);
    }
    AppendDistinct(db.participants, Participant(id, target, role));
    db.participants := db.participants + [Participant(id, target, role)];
    r := Success(());
  }

  /** Take one role, or every non-creator role, away from `target`. */
  method RemoveParticipant(db: Database, id: TaskId, u: UserId, target: UserId, role: Option<string>) returns (r: Result<()>)
    requires db.Valid()
    modifies db
    ensures db.Valid()
    ensures !IsUserParticipant(old(db.tasks), old(db.participants), id, u) ==> r == Failure(NotFoundOrNoAccess(TaskResource))
    ensures IsUserParticipant(old(db.tasks), old(db.participants), id, u) ==>
      match RemoveRows(old(db.participants), id, target, role)
      case Failure(e) => r == Failure(e)
      case Success(rows) => r == Success(()) && db.participants == rows
    ensures r.Failure? ==> unchanged(db)
    ensures db.tasks == old(db.tasks) && db.comments == old(db.comments)
    ensures db.nextTaskId == old(db.nextTaskId) && db.nextCommentId == old(db.nextCommentId) && db.clock == old(db.clock)
    ensures forall p :: p in old(db.participants) && p.role == Creator ==> p in db.participants
  {
    var found := GetTask(db.tasks, db.participants, id, u);
    if found.Failure? {
      return Failure(found.error);
    }
    var creatorId := CreatorId(db.participants, id);
    if role == Some(Creator) || (role.None? && creatorId == Some(target)) {
      return Failure(CreatorRemovalForbidden);
    }
    var rows := RemoveRows(db.participants, id, target, role);
    db.participants := rows.value;
    r := Success(());
  }
}
