/** The role views a task derives from its rows in the participant table. Each
    view is a query over the whole table restricted to one task id. */
module TaskModel {
  import opened Results
  import opened Records

  /** Whether some row of task `t` belongs to user `u`, whatever its role. */
  predicate HasParticipant(rows: seq<Participant>, t: TaskId, u: UserId)
    ensures HasParticipant(rows, t, u) <==> exists role :: HasRole(rows, t, u, role)
  {
    assert (exists i :: 0 <= i < |rows| && rows[i].taskId == t && rows[i].userId == u) ==>
           exists role :: HasRole(rows, t, u, role) by {
      if exists i :: 0 <= i < |rows| && rows[i].taskId == t && rows[i].userId == u {
        var i :| 0 <= i < |rows| && rows[i].taskId == t && rows[i].userId == u;
        assert rows[i] == Participant(t, u, rows[i].role);
        assert HasRole(rows, t, u, rows[i].role);
      }
    }
    assert (exists role :: HasRole(rows, t, u, role)) ==>
           exists i :: 0 <= i < |rows| && rows[i].taskId == t && rows[i].userId == u by {
      if exists role :: HasRole(rows, t, u, role) {
        var role :| HasRole(rows, t, u, role);
        var i :| 0 <= i < |rows| && rows[i] == Participant(t, u, role);
      }
    }
    exists i :: 0 <= i < |rows| && rows[i].taskId == t && rows[i].userId == u
  }

  /** Whether user `u` holds `role` on task `t`. */
  predicate HasRole(rows: seq<Participant>, t: TaskId, u: UserId, role: string) {
    Participant(t, u, role) in rows
  }

  predicate IsCreatorRow(p: Participant, t: TaskId) {
    p.taskId == t && p.role == Creator
  }

  /** The user of the first creator row of task `t`, if there is one. */
  function CreatorId(rows: seq<Participant>, t: TaskId): (r: Option<UserId>)
    ensures r.None? <==> forall u :: !HasRole(rows, t, u, Creator)
    ensures r.Some? ==> exists i :: 0 <= i < |rows| && rows[i] == Participant(t, r.value, Creator) &&
                                    forall j :: 0 <= j < i ==> !IsCreatorRow(rows[j], t)
  {
    if rows == [] then None
    else if IsCreatorRow(rows[0], t) then
      assert HasRole(rows, t, rows[0].userId, Creator) by {
        assert rows[0] == Participant(t, rows[0].userId, Creator);
      }
      Some(rows[0].userId)
    else
      var r := CreatorId(rows[1..], t);
      assert forall u :: HasRole(rows, t, u, Creator) <==> HasRole(rows[1..], t, u, Creator);
      if r.Some? then
        var i :| 0 <= i < |rows[1..]| && rows[1..][i] == Participant(t, r.value, Creator) &&
                 forall j :: 0 <= j < i ==> !IsCreatorRow(rows[1..][j], t);
        assert rows[i + 1] == Participant(t, r.value, Creator);
        assert forall j :: 0 <= j < i + 1 ==> !IsCreatorRow(rows[j], t) by {
          forall j | 0 < j < i + 1 ensures !IsCreatorRow(rows[j], t) {
            assert rows[j] == rows[1..][j - 1];
          }
        }
        r
      else r
  }

  /** The users holding `role` on task `t`, in row order, leaving out rows whose
      user is no longer in the user table `users`. */
  function RoleMembers(rows: seq<Participant>, t: TaskId, role: string, users: set<UserId>): (r: seq<UserId>)
    ensures |r| <= |rows|
    ensures forall u :: u in r <==> u in users && HasRole(rows, t, u, role)
  {
    if rows == [] then []
    else
      var rest := RoleMembers(rows[1..], t, role, users);
      assert forall u :: HasRole(rows, t, u, role) <==> rows[0] == Participant(t, u, role) || HasRole(rows[1..], t, u, role);
      if rows[0].taskId == t && rows[0].role == role && rows[0].userId in users
      then [rows[0].userId] + rest
      else rest
  }

  /** The assignees of task `t`. */
  function Assignees(rows: seq<Participant>, t: TaskId, users: set<UserId>): (r: seq<UserId>)
    ensures forall u :: u in r <==> u in users && HasRole(rows, t, u, Assignee)
  {
    RoleMembers(rows, t, Assignee, users)
  }

  /** The observers of task `t`. */
  function Observers(rows: seq<Participant>, t: TaskId, users: set<UserId>): (r: seq<UserId>)
    ensures forall u :: u in r <==> u in users && HasRole(rows, t, u, Observer)
  {
    RoleMembers(rows, t, Observer, users)
  }

  /** Every role user `u` holds on task `t`, in row order. */
  function UserRoles(rows: seq<Participant>, t: TaskId, u: UserId): (r: seq<string>)
    ensures |r| <= |rows|
    ensures forall role :: role in r <==> HasRole(rows, t, u, role)
  {
    if rows == [] then []
    else
      var rest := UserRoles(rows[1..], t, u);
      assert forall role :: HasRole(rows, t, u, role) <==> rows[0] == Participant(t, u, role) || HasRole(rows[1..], t, u, role);
      if rows[0].taskId == t && rows[0].userId == u then [rows[0].role] + rest else rest
  }

  /** The role of the first row of user `u` on task `t`, if any. */
  function UserRole(rows: seq<Participant>, t: TaskId, u: UserId): (r: Option<string>)
    ensures r.Some? ==> HasRole(rows, t, u, r.value)
  {
    if rows == [] then None
    else if rows[0].taskId == t && rows[0].userId == u then Some(rows[0].role)
    else UserRole(rows[1..], t, u)
  }

  /** A user is a participant exactly when they hold at least one role. */
  lemma HasParticipantIffRoles(rows: seq<Participant>, t: TaskId, u: UserId)
    ensures HasParticipant(rows, t, u) <==> |UserRoles(rows, t, u)| > 0
  {
    if HasParticipant(rows, t, u) {
      var i :| 0 <= i < |rows| && rows[i].taskId == t && rows[i].userId == u;
      assert rows[i].role in UserRoles(rows, t, u);
    }
    if |UserRoles(rows, t, u)| > 0 {
      var role := UserRoles(rows, t, u)[0];
      assert HasRole(rows, t, u, role);
      var i :| 0 <= i < |rows| && rows[i] == Participant(t, u, role);
    }
  }

  /** The single role lookup returns the first of the user's roles, or nothing. */
  lemma {:induction false} UserRoleIsFirstRole(rows: seq<Participant>, t: TaskId, u: UserId)
    ensures UserRole(rows, t, u) == if UserRoles(rows, t, u) == [] then None else Some(UserRoles(rows, t, u)[0])
  {
    if rows != [] && !(rows[0].taskId == t && rows[0].userId == u) {
      UserRoleIsFirstRole(rows[1..], t, u);
    }
  }

  /** The creator of a task is one of its participants. */
  lemma CreatorIsParticipant(rows: seq<Participant>, t: TaskId)
    ensures CreatorId(rows, t).Some? ==> HasParticipant(rows, t, CreatorId(rows, t).value)
  {
    if CreatorId(rows, t).Some? {
      var i :| 0 <= i < |rows| && rows[i] == Participant(t, CreatorId(rows, t).value, Creator) &&
               forall j :: 0 <= j < i ==> !IsCreatorRow(rows[j], t);
      assert rows[i].taskId == t;
    }
  }

  /** When every row's user is in the user table, the assignee and observer
      views drop nothing. */
  lemma ViewsCompleteWhenUsersExist(rows: seq<Participant>, t: TaskId, users: set<UserId>)
    requires forall p :: p in rows ==> p.userId in users
    ensures forall u :: u in Assignees(rows, t, users) <==> HasRole(rows, t, u, Assignee)
    ensures forall u :: u in Observers(rows, t, users) <==> HasRole(rows, t, u, Observer)
  {
  }
}
