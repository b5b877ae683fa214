/** The task status machine: three statuses and their adjacency table. */
module TaskStatus {
  import opened StateMachine

  const Todo: string := "todo"
  const InProgress: string := "in_progress"
  const Done: string := "done"

  const Machine: StateMachine.Machine := StateMachine.Machine(
    [Todo, InProgress, Done],
    map[Todo := [InProgress, Done], InProgress := [Todo, Done], Done := [InProgress]])

  /** The valid task statuses are exactly todo, in_progress and done. */
  lemma ValidStatuses(s: string)
    ensures IsValidStatus(Machine, s) <==> s == Todo || s == InProgress || s == Done
  {
  }

  /** The allowed moves out of each status, as listed in the table. */
  lemma Moves()
    ensures AvailableTransitions(Machine, Todo) == [InProgress, Done]
    ensures AvailableTransitions(Machine, InProgress) == [Todo, Done]
    ensures AvailableTransitions(Machine, Done) == [InProgress]
  {
  }

  /** The complete move relation between distinct statuses; in particular done may
      only go back to in_progress, never to todo. */
  lemma CanTransitionTable(from: string, to: string)
    requires from != to
    ensures CanTransition(Machine, from, to) <==>
      (from == Todo && (to == InProgress || to == Done)) ||
      (from == InProgress && (to == Todo || to == Done)) ||
      (from == Done && to == InProgress)
  {
  }

  /** Moving a done task back to todo is rejected. */
  lemma DoneToTodoRejected()
    ensures !CanTransition(Machine, Done, Todo)
    ensures Transition(Machine, Done, Todo).Failure?
  {
  }

  /** The table is closed over valid statuses and has no terminal status. */
  lemma WellFormed()
    ensures TargetsValid(Machine)
    ensures NoTerminalStatus(Machine)
  {
    forall s | IsValidStatus(Machine, s) ensures |AvailableTransitions(Machine, s)| > 0 {
      ValidStatuses(s);
    }
  }
}
