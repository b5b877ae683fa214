/** Queries over the comment table and the single-record writes on it. */
module CommentRepository {
  import opened Results
  import opened Records
  import opened Seqs
  import opened Store
  import CommentStatus

  /** The visible comments of task `t`, as stored, oldest first. */
  function VisibleOfTask(comments: seq<Comment>, t: TaskId): (r: seq<Comment>)
    ensures forall c :: c in r <==> c in comments && c.taskId == t && c.status == CommentStatus.Visible
  {
    Filter(comments, (c: Comment) => c.taskId == t && c.status == CommentStatus.Visible)
  }

  /** The visible comments of task `t`, newest first. */
  function CommentsByTaskId(comments: seq<Comment>, t: TaskId): (r: seq<Comment>)
    ensures forall c :: c in r <==> c in comments && c.taskId == t && c.status == CommentStatus.Visible
    ensures Increasing(comments, CommentTime) ==> Decreasing(r, CommentTime)
  {
    var visible := VisibleOfTask(comments, t);
    NewestFirst(comments, t);
    Reverse(visible)
  }

  lemma NewestFirst(comments: seq<Comment>, t: TaskId)
    ensures forall c :: c in Reverse(VisibleOfTask(comments, t)) <==> c in VisibleOfTask(comments, t)
    ensures Increasing(comments, CommentTime) ==> Decreasing(Reverse(VisibleOfTask(comments, t)), CommentTime)
  {
    var visible := VisibleOfTask(comments, t);
    var r := Reverse(visible);
    forall c | c in visible ensures c in r {
      var k :| 0 <= k < |visible| && visible[k] == c;
      assert r[|visible| - 1 - k] == c;
    }
    if Increasing(comments, CommentTime) {
      FilterIncreasing(comments, (c: Comment) => c.taskId == t && c.status == CommentStatus.Visible, CommentTime);
      ReverseDecreasing(visible, CommentTime);
    }
  }

  /** Whether some comment with this id was written by `u`. */
  predicate IsCommentOwner(comments: seq<Comment>, id: CommentId, u: UserId)
    ensures IsCommentOwner(comments, id, u) ==> CommentExists(comments, id)
    ensures IsCommentOwner(comments, id, u) <==> exists c :: c in comments && c.id == id && c.userId == u
  {
    exists i :: 0 <= i < |comments| && comments[i].id == id && comments[i].userId == u
  }

  predicate CommentExists(comments: seq<Comment>, id: CommentId) {
    exists i :: 0 <= i < |comments| && comments[i].id == id
  }

  /** The comment with this id, or nothing. */
  function FindById(comments: seq<Comment>, id: CommentId): (r: Option<Comment>)
    ensures r.Some? <==> CommentExists(comments, id)
    ensures r.Some? ==> r.value in comments && r.value.id == id
  {
    if comments == [] then None
    else if comments[0].id == id then Some(comments[0])
    else
      assert CommentExists(comments, id) ==> CommentExists(comments[1..], id) by {
        if CommentExists(comments, id) {
          var i :| 0 <= i < |comments| && comments[i].id == id;
          assert comments[1..][i - 1] == comments[i];
        }
      }
      FindById(comments[1..], id)
  }

  /** The comment with this id, or the not-found failure. */
  function FindOrFail(comments: seq<Comment>, id: CommentId): (r: Result<Comment>)
    ensures r.Failure? <==> !CommentExists(comments, id)
    ensures r.Failure? ==> r.error == CommentNotFound
    ensures r.Success? ==> r.value in comments && r.value.id == id
  {
    match FindById(comments, id)
    case None => Failure(CommentNotFound)
    case Some(c) => Success(c)
  }

  /** With unique ids, ownership is a property of the one comment that has the id. */
  lemma OwnerIffAuthor(comments: seq<Comment>, id: CommentId, u: UserId)
    requires Increasing(comments, CommentKey)
    ensures IsCommentOwner(comments, id, u) <==> FindById(comments, id).Some? && FindById(comments, id).value.userId == u
  {
    if IsCommentOwner(comments, id, u) {
      var i :| 0 <= i < |comments| && comments[i].id == id && comments[i].userId == u;
      var c := FindById(comments, id).value;
      var j :| 0 <= j < |comments| && comments[j] == c;
      assert i == j;
    }
    if FindById(comments, id).Some? && FindById(comments, id).value.userId == u {
      var c := FindById(comments, id).value;
      var j :| 0 <= j < |comments| && comments[j] == c;
    }
  }

  /** The record after an update: every field the update carries is overwritten. */
  function Patched(c: Comment, f: CommentFields): (r: Comment)
    ensures r.id == c.id && r.taskId == c.taskId && r.userId == c.userId && r.createdAt == c.createdAt
    ensures r.status == (if f.status.Some? then f.status.value else c.status)
    ensures r.content == (if f.content.Some? then f.content.value else c.content)
  {
    c.(content := if f.content.Some? then f.content.value else c.content,
       status := if f.status.Some? then f.status.value else c.status)
  }

  /** The comment table with the record of `c.id` replaced by `c`. */
  function ReplaceComment(comments: seq<Comment>, c: Comment): (r: seq<Comment>)
    ensures |r| == |comments|
    ensures forall i :: 0 <= i < |r| ==> r[i] == if comments[i].id == c.id then c else comments[i]
  {
    seq(|comments|, i requires 0 <= i < |comments| => if comments[i].id == c.id then c else comments[i])
  }

  /** Writing back a record unchanged leaves the table as it was. */
  lemma ReplaceWithSame(comments: seq<Comment>, c: Comment)
    requires Increasing(comments, CommentKey)
    requires FindById(comments, c.id) == Some(c)
    ensures ReplaceComment(comments, c) == comments
  {
    var k :| 0 <= k < |comments| && comments[k] == c;
    assert forall i :: 0 <= i < |comments| && comments[i].id == c.id ==> i == k;
  }

  /** The only record carrying `c.id` in a table with increasing ids sits at `k`. */
  lemma ReplaceAtIndex(comments: seq<Comment>, k: nat, c: Comment)
    requires Increasing(comments, CommentKey)
    requires k < |comments| && comments[k].id == c.id
    ensures forall i :: 0 <= i < |comments| ==> ReplaceComment(comments, c)[i] == if i == k then c else comments[i]
  {
    assert forall i :: 0 <= i < |comments| && comments[i].id == c.id ==> i == k;
  }

  /** Replacing a record by one with the same id and creation time keeps the
      table valid, and the new record is what a lookup then finds. */
  lemma ReplaceKeepsValid(comments: seq<Comment>, nextId: nat, clock: nat, prev: Comment, c: Comment)
    requires CommentsValid(comments, nextId, clock)
    requires prev in comments
    requires c.id == prev.id && c.createdAt == prev.createdAt
    ensures CommentsValid(ReplaceComment(comments, c), nextId, clock)
    ensures FindById(ReplaceComment(comments, c), c.id) == Some(c)
  {
    var r := ReplaceComment(comments, c);
    var k :| 0 <= k < |comments| && comments[k] == prev;
    ReplaceAtIndex(comments, k, c);
    SameKeysIncreasing(comments, r, CommentKey);
    SameKeysIncreasing(comments, r, CommentTime);
    forall x | x in r ensures x.id < nextId && x.createdAt < clock {
      var i :| 0 <= i < |r| && r[i] == x;
      assert comments[i] in comments;
    }
    var found := FindById(r, c.id).value;
    var j :| 0 <= j < |r| && r[j] == found;
    assert r[k] == c;
  }

  /** Insert a comment under the next id, stamped with the current time. */
  method Create(db: Database, t: TaskId, u: UserId, content: string, status: string) returns (c: Comment)
    requires db.Valid()
    modifies db
    ensures db.Valid()
    ensures c == Comment(old(db.nextCommentId), t, u, content, status, old(db.clock))
    ensures !CommentExists(old(db.comments), c.id)
    ensures db.comments == old(db.comments) + [c]
    ensures db.tasks == old(db.tasks) && db.participants == old(db.participants)
    ensures db.nextTaskId == old(db.nextTaskId) && db.nextCommentId == old(db.nextCommentId) + 1 && db.clock == old(db.clock) + 1
  {
    c := Comment(db.nextCommentId, t, u, content, status, db.clock);
    AppendComment(db.comments, db.nextCommentId, db.clock, c);
    db.comments := db.comments + [c];
    db.nextCommentId := db.nextCommentId + 1;
    db.clock := db.clock + 1;
  }

  /** Overwrite the stored record of `c` with the fields the update carries. */
  method Update(db: Database, c: Comment, f: CommentFields) returns (updated: Comment)
    requires db.Valid()
    requires c in db.comments
    modifies db
    ensures db.Valid()
    ensures updated == Patched(c, f)
    ensures db.comments == ReplaceComment(old(db.comments), updated)
    ensures FindById(db.comments, c.id) == Some(updated)
    ensures db.tasks == old(db.tasks) && db.participants == old(db.participants)
    ensures db.nextTaskId == old(db.nextTaskId) && db.nextCommentId == old(db.nextCommentId) && db.clock == old(db.clock)
  {
    updated := Patched(c, f);
    ReplaceKeepsValid(db.comments, db.nextCommentId, db.clock, c, updated);
    db.comments := ReplaceComment(db.comments, updated);
  }

  /** The comment table without comment `id`. */
  function WithoutComment(comments: seq<Comment>, id: CommentId): (r: seq<Comment>)
    ensures forall c :: c in r <==> c in comments && c.id != id
  {
    Filter(comments, (c: Comment) => c.id != id)
  }

  /** Remove a comment record physically. */
  method Delete(db: Database, id: CommentId)
    requires db.Valid()
    modifies db
    ensures db.Valid()
    ensures db.comments == WithoutComment(old(db.comments), id)
    ensures !CommentExists(db.comments, id)
    ensures db.tasks == old(db.tasks) && db.participants == old(db.participants)
    ensures db.nextTaskId == old(db.nextTaskId) && db.nextCommentId == old(db.nextCommentId) && db.clock == old(db.clock)
  {
    FilterIncreasing(db.comments, (c: Comment) => c.id != id, CommentKey);
    FilterIncreasing(db.comments, (c: Comment) => c.id != id, CommentTime);
    db.comments := WithoutComment(db.comments, id);
  }
}
