/** The relational store the services read and write: the task, participant
    and comment tables, the next ids to hand out and a clock for created_at. */
module Store {
  import opened Results
  import opened Records
  import opened Seqs

  /** Task ids are handed out in increasing order and are below the next id. */
  ghost predicate TasksValid(tasks: seq<Task>, nextId: nat) {
    && Increasing(tasks, TaskKey)
    && forall x :: x in tasks ==> x.id < nextId
  }

  /** The schema's constraints on the participant table: the (task, user, role)
      triple is unique and every row points at a stored task. */
  ghost predicate ParticipantsValid(rows: seq<Participant>, tasks: seq<Task>) {
    && Distinct(rows)
    && forall p :: p in rows ==> TaskExists(tasks, p.taskId)
  }

  /** Comment ids and creation times both increase along the table, which is
      append-only apart from deletions. */
  ghost predicate CommentsValid(comments: seq<Comment>, nextId: nat, clock: nat) {
    && Increasing(comments, CommentKey)
    && Increasing(comments, CommentTime)
    && forall c :: c in comments ==> c.id < nextId && c.createdAt < clock
  }

  class Database {
    var tasks: seq<Task>
    var participants: seq<Participant>
    var comments: seq<Comment>
    var nextTaskId: nat
    var nextCommentId: nat
    var clock: nat

    ghost predicate Valid()
      reads this
    {
      && TasksValid(tasks, nextTaskId)
      && ParticipantsValid(participants, tasks)
      && CommentsValid(comments, nextCommentId, clock)
    }

    constructor ()
      ensures Valid()
      ensures tasks == [] && participants == [] && comments == []
    {
      tasks, participants, comments := [], [], [];
      nextTaskId, nextCommentId, clock := 1, 1, 0;
    }
  }

  /** Appending a task whose id exceeds every stored id keeps the table valid. */
  lemma AppendTask(tasks: seq<Task>, nextId: nat, x: Task)
    requires TasksValid(tasks, nextId)
    requires x.id == nextId
    ensures TasksValid(tasks + [x], nextId + 1)
    ensures !TaskExists(tasks, x.id)
  {
    var r := tasks + [x];
    forall i, j | 0 <= i < j < |r| ensures TaskKey(r[i]) < TaskKey(r[j]) {
      if j == |tasks| {
        assert r[i] in tasks;
      }
    }
  }

  /** Appending a comment with the next id and the current time keeps the table valid. */
  lemma AppendComment(comments: seq<Comment>, nextId: nat, clock: nat, c: Comment)
    requires CommentsValid(comments, nextId, clock)
    requires c.id == nextId && c.createdAt == clock
    ensures CommentsValid(comments + [c], nextId + 1, clock + 1)
  {
    var r := comments + [c];
    forall i, j | 0 <= i < j < |r| ensures CommentKey(r[i]) < CommentKey(r[j]) && CommentTime(r[i]) < CommentTime(r[j]) {
      if j == |comments| {
        assert r[i] in comments;
      }
    }
  }

  /** Every row still points at a stored task after the task table grows. */
  lemma ParticipantsStayValid(rows: seq<Participant>, tasks: seq<Task>, more: seq<Task>)
    requires ParticipantsValid(rows, tasks)
    ensures ParticipantsValid(rows, tasks + more)
  {
    forall p | p in rows ensures TaskExists(tasks + more, p.taskId) {
      var i :| 0 <= i < |tasks| && tasks[i].id == p.taskId;
      assert (tasks + more)[i] == tasks[i];
    }
  }
}
