/** The comment status machine: visible and hidden, each able to move to the other. */
module CommentStatus {
  import opened StateMachine

  const Visible: string := "visible"
  const Hidden: string := "hidden"

  const Machine: StateMachine.Machine := StateMachine.Machine(
    [Visible, Hidden],
    map[Visible := [Hidden], Hidden := [Visible]])

  /** The valid comment statuses are exactly visible and hidden. */
  lemma ValidStatuses(s: string)
    ensures IsValidStatus(Machine, s) <==> s == Visible || s == Hidden
  {
  }

  /** Hiding and restoring are both allowed. */
  lemma HideAndRestore()
    ensures CanTransition(Machine, Visible, Hidden)
    ensures CanTransition(Machine, Hidden, Visible)
  {
  }

  /** With the self-loop rule, every pair of valid comment statuses may be
      moved between, so the relation is total on valid statuses and symmetric. */
  lemma TotalAndSymmetric(a: string, b: string)
    ensures CanTransition(Machine, a, b) <==> IsValidStatus(Machine, a) && IsValidStatus(Machine, b)
    ensures CanTransition(Machine, a, b) <==> CanTransition(Machine, b, a)
  {
    ValidStatuses(a);
    ValidStatuses(b);
  }

  /** The table targets are valid comment statuses. */
  lemma WellFormed()
    ensures TargetsValid(Machine)
    ensures NoTerminalStatus(Machine)
  {
    forall s | IsValidStatus(Machine, s) ensures |AvailableTransitions(Machine, s)| > 0 {
      ValidStatuses(s);
    }
  }
}
