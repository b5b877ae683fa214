/** The persisted records of the domain core: tasks, participant rows and comments. */
module Records {
  import opened Results

  type TaskId = nat
  type UserId = nat
  type CommentId = nat

  /** The three participant roles the services write. */
  const Creator: string := "creator"
  const Assignee: string := "assignee"
  const Observer: string := "observer"

  datatype Task = Task(id: TaskId, title: string, description: string, status: string, dueDate: Option<string>)

  /** A row of the participant table. The triple is the row's identity: the
      schema makes it unique, so a table without duplicate rows is exactly a
      table that honours the constraint. */
  datatype Participant = Participant(taskId: TaskId, userId: UserId, role: string)

  /** A comment; `createdAt` is an abstract timestamp that only orders comments. */
  datatype Comment = Comment(id: CommentId, taskId: TaskId, userId: UserId, content: string, status: string, createdAt: nat)

  /** The fillable task columns an update may carry; an absent field is left alone. */
  datatype TaskFields = TaskFields(title: Option<string>, description: Option<string>, status: Option<string>, dueDate: Option<Option<string>>)

  /** The comment columns an update may carry; an absent field is left alone. */
  datatype CommentFields = CommentFields(content: Option<string>, status: Option<string>)

  function TaskKey(t: Task): int { t.id }
  function CommentKey(c: Comment): int { c.id }
  function CommentTime(c: Comment): int { c.createdAt }

  /** PHP truthiness of an optional string: null, "" and "0" are all false. */
  predicate Truthy(s: Option<string>) {
    s.Some? && s.value != "" && s.value != "0"
  }

  /** Whether a task with this id is stored. */
  predicate TaskExists(tasks: seq<Task>, id: TaskId) {
    exists i :: 0 <= i < |tasks| && tasks[i].id == id
  }

  /** The first stored task with this id. */
  function FindTask(tasks: seq<Task>, id: TaskId): (r: Option<Task>)
    ensures r.Some? <==> TaskExists(tasks, id)
    ensures r.Some? ==> r.value in tasks && r.value.id == id
  {
    if tasks == [] then None
    else if tasks[0].id == id then Some(tasks[0])
    else
      var rest := FindTask(tasks[1..], id);
      assert TaskExists(tasks, id) ==> TaskExists(tasks[1..], id) by {
        if TaskExists(tasks, id) {
          var i :| 0 <= i < |tasks| && tasks[i].id == id;
          assert i > 0 && tasks[1..][i - 1] == tasks[i];
        }
      }
      rest
  }
}
