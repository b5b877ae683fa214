/** Authorization predicates over a task's participant rows. */
module TaskPolicy {
  import opened Results
  import opened Records
  import opened TaskModel

  /** A user may view a task when they hold any role on it. */
  predicate CanView(rows: seq<Participant>, t: TaskId, u: UserId)
    ensures CanView(rows, t, u) <==> exists role :: HasRole(rows, t, u, role)
  {
    HasParticipantIffRoles(rows, t, u);
    if HasParticipant(rows, t, u) then
      assert HasRole(rows, t, u, UserRoles(rows, t, u)[0]);
      true
    else
      false
  }

  /** Any authenticated user may create a task. */
  predicate CanCreate(u: UserId)
    ensures CanCreate(u)
  {
    true
  }

  /** A user may update a task on the same terms as viewing it. */
  predicate CanUpdate(rows: seq<Participant>, t: TaskId, u: UserId)
    ensures CanUpdate(rows, t, u) <==> CanView(rows, t, u)
  {
    HasParticipant(rows, t, u)
  }

  /** Only the user of the task's first creator row may delete it; nobody may
      when the task has no creator row. */
  predicate CanDelete(rows: seq<Participant>, t: TaskId, u: UserId)
    ensures CanDelete(rows, t, u) ==> HasRole(rows, t, u, Creator)
    ensures (forall v :: !HasRole(rows, t, v, Creator)) ==> !CanDelete(rows, t, u)
  {
    CreatorId(rows, t) == Some(u)
  }

  /** Whoever may delete a task may also view it. */
  lemma DeleteImpliesView(rows: seq<Participant>, t: TaskId, u: UserId)
    ensures CanDelete(rows, t, u) ==> CanView(rows, t, u)
  {
    if CanDelete(rows, t, u) {
      CreatorIsParticipant(rows, t);
    }
  }

  /** With a single creator row, deletion is allowed to exactly its user. */
  lemma DeleteBySoleCreator(rows: seq<Participant>, t: TaskId, c: UserId, u: UserId)
    requires HasRole(rows, t, c, Creator)
    requires forall v :: HasRole(rows, t, v, Creator) ==> v == c
    ensures CanDelete(rows, t, u) <==> u == c
  {
    var id := CreatorId(rows, t);
    assert id.Some?;
    var i :| 0 <= i < |rows| && rows[i] == Participant(t, id.value, Creator) &&
             forall j :: 0 <= j < i ==> !IsCreatorRow(rows[j], t);
    assert HasRole(rows, t, id.value, Creator);
  }
}
