/** Queries over the task table filtered by membership and status, and the
    single-record writes on it. */
module TaskRepository {
  import opened Results
  import opened Records
  import opened Seqs
  import opened TaskModel
  import opened Store

  /** The tasks on which `u` holds any role; with a truthy status, only those in that status. */
  function TasksByUserId(tasks: seq<Task>, rows: seq<Participant>, u: UserId, status: Option<string>): (r: seq<Task>)
    ensures |r| <= |tasks|
    ensures forall x :: x in r <==> x in tasks && HasParticipant(rows, x.id, u) && (Truthy(status) ==> x.status == status.value)
  {
    Filter(tasks, (x: Task) => HasParticipant(rows, x.id, u) && (Truthy(status) ==> x.status == status.value))
  }

  /** The tasks in exactly `status` on which `u` holds any role. */
  function TasksByStatus(tasks: seq<Task>, rows: seq<Participant>, status: string, u: UserId): (r: seq<Task>)
    ensures |r| <= |tasks|
    ensures forall x :: x in r <==> x in tasks && x.status == status && HasParticipant(rows, x.id, u)
  {
    Filter(tasks, (x: Task) => x.status == status && HasParticipant(rows, x.id, u))
  }

  /** For a truthy status both queries return the same tasks in the same order. */
  lemma StatusQueriesAgree(tasks: seq<Task>, rows: seq<Participant>, status: string, u: UserId)
    requires Truthy(Some(status))
    ensures TasksByStatus(tasks, rows, status, u) == TasksByUserId(tasks, rows, u, Some(status))
  {
    FilterCongruent(tasks,
      (x: Task) => x.status == status && HasParticipant(rows, x.id, u),
      (x: Task) => HasParticipant(rows, x.id, u) && (Truthy(Some(status)) ==> x.status == Some(status).value));
  }

  /** The task with this id, provided `u` holds a role on it. */
  function FindTaskForUser(tasks: seq<Task>, rows: seq<Participant>, id: TaskId, u: UserId): (r: Option<Task>)
    ensures r.Some? <==> TaskExists(tasks, id) && HasParticipant(rows, id, u)
    ensures r.Some? ==> r.value in tasks && r.value.id == id
  {
    if HasParticipant(rows, id, u) then FindTask(tasks, id) else None
  }

  /** Whether the task exists and `u` holds a role on it. */
  predicate IsUserParticipant(tasks: seq<Task>, rows: seq<Participant>, id: TaskId, u: UserId)
    ensures IsUserParticipant(tasks, rows, id, u) <==> FindTaskForUser(tasks, rows, id, u).Some?
  {
    TaskExists(tasks, id) && HasParticipant(rows, id, u)
  }

  /** The record after an update: every field the update carries is overwritten. */
  function Patched(x: Task, f: TaskFields): (r: Task)
    ensures r.id == x.id
    ensures r.title == (if f.title.Some? then f.title.value else x.title)
    ensures r.description == (if f.description.Some? then f.description.value else x.description)
    ensures r.status == (if f.status.Some? then f.status.value else x.status)
    ensures r.dueDate == (if f.dueDate.Some? then f.dueDate.value else x.dueDate)
  {
    Task(x.id,
         if f.title.Some? then f.title.value else x.title,
         if f.description.Some? then f.description.value else x.description,
         if f.status.Some? then f.status.value else x.status,
         if f.dueDate.Some? then f.dueDate.value else x.dueDate)
  }

  /** The task table with the record of `x.id` replaced by `x`. */
  function ReplaceTask(tasks: seq<Task>, x: Task): (r: seq<Task>)
    ensures |r| == |tasks|
    ensures forall i :: 0 <= i < |r| ==> r[i].id == tasks[i].id
    ensures forall i :: 0 <= i < |r| ==> r[i] == if tasks[i].id == x.id then x else tasks[i]
  {
    seq(|tasks|, i requires 0 <= i < |tasks| => if tasks[i].id == x.id then x else tasks[i])
  }

  /** The task table without the task `id`. */
  function WithoutTask(tasks: seq<Task>, id: TaskId): (r: seq<Task>)
    ensures forall x :: x in r <==> x in tasks && x.id != id
  {
    Filter(tasks, (x: Task) => x.id != id)
  }

  /** The participant table without the rows of task `id`. */
  function WithoutTaskRows(rows: seq<Participant>, id: TaskId): (r: seq<Participant>)
    ensures forall p :: p in r <==> p in rows && p.taskId != id
  {
    Filter(rows, (p: Participant) => p.taskId != id)
  }

  /** The comment table without the comments of task `id`. */
  function WithoutTaskComments(comments: seq<Comment>, id: TaskId): (r: seq<Comment>)
    ensures forall c :: c in r <==> c in comments && c.taskId != id
  {
    Filter(comments, (c: Comment) => c.taskId != id)
  }

  /** Replacing a record by one with the same id keeps the table valid and
      leaves exactly the other records unchanged. */
  lemma ReplaceKeepsValid(tasks: seq<Task>, nextId: nat, rows: seq<Participant>, x: Task)
    requires TasksValid(tasks, nextId) && ParticipantsValid(rows, tasks)
    requires TaskExists(tasks, x.id)
    ensures TasksValid(ReplaceTask(tasks, x), nextId) && ParticipantsValid(rows, ReplaceTask(tasks, x))
    ensures FindTask(ReplaceTask(tasks, x), x.id) == Some(x)
  {
    var r := ReplaceTask(tasks, x);
    SameKeysIncreasing(tasks, r, TaskKey);
    forall y | y in r ensures y.id < nextId {
      var i :| 0 <= i < |r| && r[i] == y;
      assert tasks[i] in tasks;
    }
    forall p | p in rows ensures TaskExists(r, p.taskId) {
      var i :| 0 <= i < |tasks| && tasks[i].id == p.taskId;
      assert r[i].id == p.taskId;
    }
    var k :| 0 <= k < |tasks| && tasks[k].id == x.id;
    assert r[k] == x;
    var found := FindTask(r, x.id);
    var j :| 0 <= j < |r| && r[j] == found.value;
    assert j == k;
  }

  /** Deleting a task and its dependent rows keeps the store valid. */
  lemma DeleteKeepsValid(tasks: seq<Task>, nextId: nat, rows: seq<Participant>, comments: seq<Comment>,
                         nextComment: nat, clock: nat, id: TaskId)
    requires TasksValid(tasks, nextId) && ParticipantsValid(rows, tasks) && CommentsValid(comments, nextComment, clock)
    ensures TasksValid(WithoutTask(tasks, id), nextId)
    ensures ParticipantsValid(WithoutTaskRows(rows, id), WithoutTask(tasks, id))
    ensures CommentsValid(WithoutTaskComments(comments, id), nextComment, clock)
  {
    FilterIncreasing(tasks, (x: Task) => x.id != id, TaskKey);
    FilterDistinct(rows, (p: Participant) => p.taskId != id);
    FilterIncreasing(comments, (c: Comment) => c.taskId != id, CommentKey);
    FilterIncreasing(comments, (c: Comment) => c.taskId != id, CommentTime);
    var left := WithoutTask(tasks, id);
    forall p | p in WithoutTaskRows(rows, id) ensures TaskExists(left, p.taskId) {
      var i :| 0 <= i < |tasks| && tasks[i].id == p.taskId;
      assert tasks[i] in left;
      var j :| 0 <= j < |left| && left[j] == tasks[i];
    }
  }

  /** Insert a task record under the next id. */
  method Create(db: Database, title: string, description: string, status: string, dueDate: Option<string>)
    returns (task: Task)
    requires db.Valid()
    modifies db
    ensures db.Valid()
    ensures task == Task(old(db.nextTaskId), title, description, status, dueDate)
    ensures !TaskExists(old(db.tasks), task.id)
    ensures db.tasks == old(db.tasks) + [task]
    ensures db.nextTaskId == old(db.nextTaskId) + 1
    ensures db.participants == old(db.participants) && db.comments == old(db.comments)
    ensures db.nextCommentId == old(db.nextCommentId) && db.clock == old(db.clock)
  {
    task := Task(db.nextTaskId, title, description, status, dueDate);
    AppendTask(db.tasks, db.nextTaskId, task);
    ParticipantsStayValid(db.participants, db.tasks, [task]);
    db.tasks := db.tasks + [task];
    db.nextTaskId := db.nextTaskId + 1;
  }

  /** Overwrite the stored record of `task` with the fields the update carries. */
  method Update(db: Database, task: Task, f: TaskFields) returns (updated: Task)
    requires db.Valid()
    requires task in db.tasks
    modifies db
    ensures db.Valid()
    ensures updated == Patched(task, f)
    ensures db.tasks == ReplaceTask(old(db.tasks), updated)
    ensures FindTask(db.tasks, task.id) == Some(updated)
    ensures db.participants == old(db.participants) && db.comments == old(db.comments)
    ensures db.nextTaskId == old(db.nextTaskId) && db.nextCommentId == old(db.nextCommentId) && db.clock == old(db.clock)
  {
    updated := Patched(task, f);
    ghost var k :| 0 <= k < |db.tasks| && db.tasks[k] == task;
    ReplaceKeepsValid(db.tasks, db.nextTaskId, db.participants, updated);
    db.tasks := ReplaceTask(db.tasks, updated);
  }

  /** Delete a task; the participant rows and comments of the task go with it. */
  method Delete(db: Database, id: TaskId)
    requires db.Valid()
    modifies db
    ensures db.Valid()
    ensures db.tasks == WithoutTask(old(db.tasks), id)
    ensures db.participants == WithoutTaskRows(old(db.participants), id)
    ensures db.comments == WithoutTaskComments(old(db.comments), id)
    ensures db.nextTaskId == old(db.nextTaskId) && db.nextCommentId == old(db.nextCommentId) && db.clock == old(db.clock)
  {
    DeleteKeepsValid(db.tasks, db.nextTaskId, db.participants, db.comments, db.nextCommentId, db.clock, id);
    db.tasks := WithoutTask(db.tasks, id);
    db.participants := WithoutTaskRows(db.participants, id);
    db.comments := WithoutTaskComments(db.comments, id);
  }
}
