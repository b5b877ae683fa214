# Task tracker core in Dafny

This project models the domain core of a Laravel task tracker:

- the generic status engine and its two instances, for task statuses and for comment statuses;
- the role views a task derives from its participant rows;
- the task authorization policy;
- the task and comment repositories;
- the task and comment services.

Tasks, participant rows and comments are immutable `datatype` records. The
three tables live in one `Store.Database` object together with the next ids
to hand out and a clock that stands in for `created_at`. Statuses and roles
are plain strings, so the engine can be asked about any string the source
could receive.

The repository and service writes are methods that take the database, with
`modifies db`. Each one ties the new state to a pure function of the old
tables:

- `TaskService.AddMissing` is the exists-then-insert loop;
- `TaskService.Reconcile` and `TaskService.UpdatedRows` give the participant reconciliation of an update;
- `TaskService.RemoveRows` gives role removal;
- `CommentService.Hide` gives the soft delete of a comment.

Contracts and lemmas state what those functions mean:

- the membership characterisation of every role set;
- the comment listing is newest first;
- hiding is idempotent.

The store invariant `Store.Database.Valid` keeps the participant triple unique. Every write method preserves it. The postconditions of the service write methods also show that the creator row survives every write except task deletion.

Modules, one per file:

- `Results`: errors and results;
- `Seqs`: filtering and reversal helpers;
- `StateMachine`;
- `TaskStatus`;
- `CommentStatus`;
- `Records`;
- `TaskModel`: the role views;
- `TaskPolicy`;
- `Store`;
- `TaskRepository`;
- `CommentRepository`;
- `TaskService`;
- `CommentService`.

Three behaviours of the code are worth knowing:

- **Task statuses.** The code has three task statuses: `todo`, `in_progress` and `done`. The transition table is `todo -> {in_progress, done}`, `in_progress -> {todo, done}` and `done -> {in_progress}`. Any other string, such as `closed`, is rejected by `IsValidStatus`, and therefore by every `CanTransition` that involves it.
- **Creator uniqueness.** `addParticipant` accepts the role `creator`, so a second creator row can be added (`TaskService.SecondCreatorAllowed`). The creator is the user of the creator row the query returns first, which the model takes to be the earliest row in the table (`TaskModel.CreatorId`). Uniqueness of the creator is therefore not an invariant of the model.
- **Task deletion.** `deleteTask` checks only membership, so any participant may delete a task through the service (`TaskService.ObserverMayDelete`). The creator-only `TaskPolicy.CanDelete` is modelled, but nothing in the service calls it.

## Model

| member | source | states |
|---|---|---|
| StateMachine.IsValidStatus | src/app/StateMachines/BaseStateMachine.php:31-34 | a status is valid iff it occurs at some position of the machine's status list (strict comparison); `TaskStatus.ValidStatuses` and `CommentStatus.ValidStatuses` give the concrete sets |
| StateMachine.CanTransition | src/app/StateMachines/BaseStateMachine.php:39-56 | an allowed move has two valid ends; staying put is allowed iff the status is valid; a move between distinct statuses is allowed iff both are valid and the target is in the source's table row (see `CanTransitionNeedsValidEnds`, `SelfTransition`, `CanTransitionIffAvailable`) |
| StateMachine.AvailableTransitions | src/app/StateMachines/BaseStateMachine.php:61-69 | empty for an invalid status and for a status with no table row; otherwise exactly the table row of the current status |
| StateMachine.Transition | src/app/StateMachines/BaseStateMachine.php:79-89 | succeeds exactly when `CanTransition` holds, returning the target; otherwise fails naming both statuses |
| StateMachine.CanTransitionNeedsValidEnds | src/app/StateMachines/BaseStateMachine.php:39-43 | an allowed move has a valid source and a valid target |
| StateMachine.SelfTransition | src/app/StateMachines/BaseStateMachine.php:45-48 | staying on a status is allowed exactly when the status is valid |
| StateMachine.CanTransitionIffAvailable | src/app/StateMachines/BaseStateMachine.php:50-69 | with a well-formed table, a move between distinct statuses is allowed iff the target is among the available transitions |
| TaskStatus.ValidStatuses | src/app/StateMachines/TaskStatusStateMachine.php:30-37 | the valid task statuses are exactly todo, in_progress and done |
| TaskStatus.Moves | src/app/StateMachines/TaskStatusStateMachine.php:21-25 | the available transitions of each task status, in table order |
| TaskStatus.CanTransitionTable | src/app/StateMachines/TaskStatusStateMachine.php:21-25 | the full move relation between distinct task statuses, both directions of the iff |
| TaskStatus.DoneToTodoRejected | src/app/StateMachines/TaskStatusStateMachine.php:24 | done cannot go back to todo, and `Transition` fails for that move |
| TaskStatus.WellFormed | src/app/StateMachines/TaskStatusStateMachine.php:21-37 | every table target is a valid status and no task status is terminal |
| CommentStatus.ValidStatuses | src/app/StateMachines/CommentStatusStateMachine.php:28-34 | the valid comment statuses are exactly visible and hidden |
| CommentStatus.HideAndRestore | src/app/StateMachines/CommentStatusStateMachine.php:20-23 | visible to hidden and hidden to visible are both allowed |
| CommentStatus.TotalAndSymmetric | src/app/StateMachines/CommentStatusStateMachine.php:20-23 | a move is allowed iff both ends are valid, and the relation is symmetric |
| CommentStatus.WellFormed | src/app/StateMachines/CommentStatusStateMachine.php:20-34 | every table target is a valid comment status and neither status is terminal |
| Records.FindTask | src/app/Repositories/TaskRepository.php:35-43 | finds a stored task with the id exactly when one exists |
| TaskModel.CreatorId | src/app/Models/Task.php:46-53 | none iff no creator row exists for the task; otherwise the user of the first creator row |
| TaskModel.RoleMembers | src/app/Models/Task.php:58-81 | a user is listed iff they hold the role on the task and still exist in the user table |
| TaskModel.Assignees | src/app/Models/Task.php:58-67 | the existing users holding the assignee role, no others |
| TaskModel.Observers | src/app/Models/Task.php:72-81 | the existing users holding the observer role, no others |
| TaskModel.UserRoles | src/app/Models/Task.php:130-136 | a role is listed iff the user holds it on the task |
| TaskModel.UserRole | src/app/Models/Task.php:121-125 | a returned role is one the user holds on the task |
| TaskModel.UserRoleIsFirstRole | src/app/Models/Task.php:121-136 | the single-role lookup is the first of the user's roles, or none when they hold none |
| TaskModel.HasParticipant | src/app/Models/Task.php:112-115 | a user is a participant of a task iff some participant row of that task has their id, that is, iff they hold some role on it (see `HasParticipantIffRoles`) |
| TaskModel.HasParticipantIffRoles | src/app/Models/Task.php:112-136 | a user is a participant iff they hold at least one role |
| TaskModel.CreatorIsParticipant | src/app/Models/Task.php:46-53 | the creator, when there is one, is a participant |
| TaskModel.ViewsCompleteWhenUsersExist | src/app/Models/Task.php:58-81 | when every row's user exists, the assignee and observer views are exactly the role holders |
| TaskPolicy.CanView | src/app/Policies/TaskPolicy.php:13-16 | viewing is allowed iff the user holds some role on the task |
| TaskPolicy.CanCreate | src/app/Policies/TaskPolicy.php:21-24 | creation is allowed to every user |
| TaskPolicy.CanUpdate | src/app/Policies/TaskPolicy.php:29-32 | updating is allowed on exactly the terms of viewing |
| TaskPolicy.CanDelete | src/app/Policies/TaskPolicy.php:37-41 | only a creator-role holder may delete, and nobody may when the task has no creator row |
| TaskPolicy.DeleteImpliesView | src/app/Policies/TaskPolicy.php:13-41 | whoever may delete a task may view it |
| TaskPolicy.DeleteBySoleCreator | src/app/Policies/TaskPolicy.php:37-41 | with a single creator row, deletion is allowed to exactly that user |
| TaskRepository.TasksByUserId | src/app/Repositories/TaskRepository.php:19-30 | a task is listed iff it is stored, the user holds a role on it and, for a truthy status, it has that status |
| TaskRepository.TasksByStatus | src/app/Repositories/TaskRepository.php:60-68 | a task is listed iff it is stored, in the status and the user holds a role on it |
| TaskRepository.StatusQueriesAgree | src/app/Repositories/TaskRepository.php:19-68 | for a truthy status the two queries return the same sequence |
| TaskRepository.FindTaskForUser | src/app/Repositories/TaskRepository.php:35-43 | finds the task iff it exists and the user holds a role on it |
| TaskRepository.IsUserParticipant | src/app/Repositories/TaskRepository.php:48-55 | holds exactly when the member-scoped lookup finds the task |
| TaskRepository.Patched | src/app/Repositories/TaskRepository.php:81-84 | an update keeps the id, writes each of title, description, status and due date it carries, and keeps each it does not carry |
| TaskRepository.ReplaceTask | src/app/Repositories/TaskRepository.php:81-84 | the table keeps its length and ids; only records with the written id change |
| TaskRepository.WithoutTask | src/app/Repositories/TaskRepository.php:89-92 | exactly the tasks with another id remain |
| TaskRepository.WithoutTaskRows | src/app/Repositories/TaskRepository.php:89-92 | exactly the participant rows of other tasks remain |
| TaskRepository.WithoutTaskComments | src/app/Repositories/TaskRepository.php:89-92 | exactly the comments of other tasks remain |
| TaskRepository.ReplaceKeepsValid | src/app/Repositories/TaskRepository.php:81-84 | writing a stored record keeps the tables valid and the lookup then returns the written record |
| TaskRepository.DeleteKeepsValid | src/app/Repositories/TaskRepository.php:89-92 | deleting a task with its rows and comments keeps every table valid |
| TaskRepository.Create | src/app/Repositories/TaskRepository.php:73-76 | appends one record under a fresh id; the other tables are unchanged |
| TaskRepository.Update | src/app/Repositories/TaskRepository.php:81-84 | replaces the record with the patched one, which the lookup then returns; the other tables are unchanged |
| TaskRepository.Delete | src/app/Repositories/TaskRepository.php:89-92 | removes the task, its participant rows and its comments |
| CommentRepository.VisibleOfTask | src/app/Repositories/CommentRepository.php:17-21 | a comment is kept iff it belongs to the task and is visible |
| CommentRepository.CommentsByTaskId | src/app/Repositories/CommentRepository.php:17-24 | exactly the task's visible comments, in strictly decreasing creation time |
| CommentRepository.NewestFirst | src/app/Repositories/CommentRepository.php:22 | reversing the creation-ordered visible comments keeps the same comments and orders them newest first |
| CommentRepository.IsCommentOwner | src/app/Repositories/CommentRepository.php:29-34 | ownership holds iff some stored comment has both the id and the user; it implies the comment exists (see `OwnerIffAuthor`) |
| CommentRepository.OwnerIffAuthor | src/app/Repositories/CommentRepository.php:29-34 | ownership holds iff the comment exists and was written by the user |
| CommentRepository.FindById | src/app/Repositories/CommentRepository.php:47-50 | finds a stored comment with the id exactly when one exists |
| CommentRepository.FindOrFail | src/app/Repositories/CommentRepository.php:55-58 | fails with not-found exactly when no comment has the id |
| CommentRepository.Patched | src/app/Repositories/CommentRepository.php:63-66 | an update keeps id, task, author and creation time, writes the content and status it carries, and keeps each it does not carry |
| CommentRepository.ReplaceComment | src/app/Repositories/CommentRepository.php:63-66 | the table keeps its length; only records with the written id change |
| CommentRepository.ReplaceWithSame | src/app/Repositories/CommentRepository.php:63-66 | writing back an unchanged record leaves the table as it was |
| CommentRepository.ReplaceKeepsValid | src/app/Repositories/CommentRepository.php:63-66 | an update keeps the comment table valid and the lookup then returns the written record |
| CommentRepository.Create | src/app/Repositories/CommentRepository.php:39-42 | appends exactly one comment under a fresh id at the current time |
| CommentRepository.Update | src/app/Repositories/CommentRepository.php:63-66 | changes only the given record; its lookup returns the patched record |
| CommentRepository.WithoutComment | src/app/Repositories/CommentRepository.php:71-74 | exactly the comments with another id remain |
| CommentRepository.Delete | src/app/Repositories/CommentRepository.php:71-74 | physically removes the comment; no comment with the id remains |
| TaskService.GetTasks | src/app/Services/TaskService.php:25-38 | fails iff a truthy status is not a valid task status; otherwise lists exactly the user's tasks, restricted to a truthy status |
| TaskService.GetTask | src/app/Services/TaskService.php:43-54 | succeeds iff the task exists and the user may view it; a failure does not distinguish absence from denial |
| TaskService.GetTaskHidesExistence | src/app/Services/TaskService.php:45-51 | a non-member sees the same result for an absent task and for one they cannot see |
| TaskService.AddMissing | src/app/Services/TaskService.php:84-97 | only appends; the result holds the old rows plus a row for each listed user; no duplicate row is created |
| TaskService.Prune | src/app/Services/TaskService.php:155-158 | exactly the role rows of the task whose user is not listed are deleted |
| TaskService.Reconcile | src/app/Services/TaskService.php:152-175 | with a list, the role holders become exactly the listed users; without one nothing changes; other roles and tasks are untouched |
| TaskService.UpdatedRows | src/app/Services/TaskService.php:152-200 | each given list fixes its role set exactly, an absent list keeps it, creator rows and other tasks are untouched, uniqueness is kept |
| TaskService.CreatedRows | src/app/Services/TaskService.php:76-116 | the old rows, the creator row, and one row per distinct assignee and observer; the triple stays unique |
| TaskService.CreateScenario | src/app/Services/TaskService.php:76-116 | creator 1, assignee 4 and observers 2 and 3 yield exactly those four rows |
| TaskService.CreateSkipsDuplicateIds | src/app/Services/TaskService.php:84-97 | a repeated assignee id yields one row |
| TaskService.PatchTask | src/app/Services/TaskService.php:131-150 | fails iff a status change is not allowed by the task machine, naming both statuses; otherwise writes the patched record |
| TaskService.UpdateDoneToTodoFails | src/app/Services/TaskService.php:131-140 | updating a done task to todo fails with the transition error |
| TaskService.UpdateOutcome | src/app/Services/TaskService.php:127-150 | a non-member gets the not-found-or-no-access error; a member gets `PatchTask` of the stored task, so a refused status change fails with both statuses; success keeps the task id |
| TaskService.DeleteOutcome | src/app/Services/TaskService.php:211-215 | deletion succeeds iff the user is a member of the existing task |
| TaskService.ObserverMayDelete | src/app/Services/TaskService.php:211-215 | an observer who is not the creator may delete through the service although the delete policy refuses them |
| TaskService.AddRow | src/app/Services/TaskService.php:220-248 | fails with invalid role outside the three roles, with duplicate role when already held, else appends exactly that row |
| TaskService.AddRowTwice | src/app/Services/TaskService.php:232-242 | adding the same role a second time fails with duplicate role |
| TaskService.SecondCreatorAllowed | src/app/Services/TaskService.php:225-247 | the creator role can be added to a second user; the creator stays the first creator row's user |
| TaskService.RemoveRows | src/app/Services/TaskService.php:253-280 | fails iff the creator role is named or no role is named for the creator; otherwise removes exactly the named role or all non-creator roles of the user; creator rows always survive |
| TaskService.InsertMissing | src/app/Services/TaskService.php:84-97 | the loop leaves the participant table equal to `AddMissing` of the old one and keeps the store valid |
| TaskService.DeleteStale | src/app/Services/TaskService.php:155-158 | the participant table becomes `Prune` of the old one |
| TaskService.ReconcileParticipants | src/app/Services/TaskService.php:152-200 | the participant table becomes `UpdatedRows` of the old one and the store stays valid |
| TaskService.ApplyUpdate | src/app/Services/TaskService.php:150-200 | writes the patched record, which the lookup then returns, and then the `UpdatedRows` |
| TaskService.CreateTask | src/app/Services/TaskService.php:59-122 | stores the task with the default status todo, then exactly the `CreatedRows`; the caller becomes the task's creator |
| TaskService.CreatorRowFirst | src/app/Services/TaskService.php:76-80 | the creator row written at creation is the task's first creator row |
| TaskService.UpdateTask | src/app/Services/TaskService.php:127-206 | a failure changes nothing; success writes the patched record and the `UpdatedRows`, and no creator row is lost |
| TaskService.DeleteTask | src/app/Services/TaskService.php:211-215 | a non-member changes nothing; a member removes the task with its rows and comments |
| TaskService.AddParticipant | src/app/Services/TaskService.php:220-248 | membership is checked first, then `AddRow` decides the result and the new table; no row is lost |
| TaskService.RemoveParticipant | src/app/Services/TaskService.php:253-280 | membership is checked first, then `RemoveRows` decides the result and the new table; creator rows survive |
| CommentService.GetComments | src/app/Services/CommentService.php:28-38 | fails iff the user is not a member of the task; otherwise exactly the task's visible comments, newest first |
| CommentService.NewCommentListedFirst | src/app/Services/CommentService.php:53-62 | a newly created visible comment heads its task's listing |
| CommentService.GetComment | src/app/Services/CommentService.php:71-84 | not found for an absent id, no access for a non-member of the comment's task, and the stored comment for a member |
| CommentService.HiddenCommentFetchable | src/app/Services/CommentService.php:71-84 | a member can fetch a hidden comment by id, though the listing omits it |
| CommentService.EditComment | src/app/Services/CommentService.php:94-111 | fails with not-owner for another user, else with the transition error iff a status change is not allowed, else writes the patched record |
| CommentService.AuthorMayToggle | src/app/Services/CommentService.php:101-109 | between valid comment statuses, an author's edit never fails |
| CommentService.UpdateOutcome | src/app/Services/CommentService.php:89-115 | not found for an absent id, else the author's edit of the stored comment |
| CommentService.Hide | src/app/Services/CommentService.php:120-141 | fails with not-owner for another user; otherwise the comment with status hidden, unchanged when already hidden |
| CommentService.HideIdempotent | src/app/Services/CommentService.php:132-140 | hiding twice gives the same result as hiding once |
| CommentService.HideThenRestore | src/app/Services/CommentService.php:120-141 | an author can hide a visible comment and restore it to exactly the original record |
| CommentService.DeleteOutcome | src/app/Services/CommentService.php:120-141 | not found for an absent id, else the author's hiding of the stored comment |
| CommentService.CreateComment | src/app/Services/CommentService.php:43-66 | fails iff the user is not a member; otherwise appends one comment whose task and author are the call's and whose status defaults to visible |
| CommentService.UpdateComment | src/app/Services/CommentService.php:89-115 | returns `UpdateOutcome`; a failure changes nothing; success replaces exactly that record |
| CommentService.DeleteComment | src/app/Services/CommentService.php:120-141 | a failure changes nothing; success leaves the record stored with status hidden, and writes nothing for an already hidden comment |

## Left out

- HTTP controllers, routes, authentication, registration and the Vue front end are not part of this model. Neither are the user endpoints and seeders.
- Form-request validation is not modelled. This covers title length, required fields, the status list of the store request, date parsing and the existence of the listed user ids. The service methods accept any payload of the right shape.
- Eloquent relation loading (`load`, `with`, `fresh`), timestamps other than comment creation time, and the user records attached to results are not modelled. Results are the bare records.
- Database transactions and concurrent requests are not modelled. Each method runs alone.
- The entity name in the transition error message is not modelled, and neither is any message text. `Error` names the failure kind and, for transitions, both statuses.
- The comment-to-task cascade on task deletion is assumed from the schema; the comment migration is not part of this model.
- `created_at` is an abstract clock that advances on each comment creation. Two comments never share a creation time, so ties in the newest-first ordering do not arise.
- TaskModel.CreatorId: the creator query (`src/app/Models/Task.php:46-53`) ends in `first()` with no ORDER BY, so the database chooses which creator row comes first. The model uses table (insertion) order in its place. When a task has several creator rows, which user counts as creator is therefore the database's choice, and that choice decides `TaskPolicy.CanDelete` and the role-less refusal in `TaskService.RemoveRows`. `TaskService.SecondCreatorAllowed` and `TaskService.CreatorRowFirst` hold under table order only.
- TaskModel.UserRole: `getUserRole` (`src/app/Models/Task.php:121-125`) also ends in `first()` with no ORDER BY. The model returns the role of the user's earliest row in table order.
- TaskModel.UserRoles: the role lists, role views and task lists (`get()` and `pluck()` with no ORDER BY) are given in table order. Their contracts promise membership only, except `TaskRepository.StatusQueriesAgree`, whose equality of sequences holds under that same order.
- TaskRepository.Patched: an explicit null in a non-nullable field (title, description, status) is treated as an absent field, because the database would reject such a write.
- CommentRepository.Delete: modelled, but no service operation calls it. Comment deletion in the service is the soft hide.
