/** The generic status engine: a fixed list of valid statuses and an
    adjacency table from a status to the statuses it may move to. Every
    operation is a pure function of the machine and its arguments. */
module StateMachine {
  import opened Results

  datatype Machine = Machine(statuses: seq<string>, transitions: map<string, seq<string>>)

  /** Whether `s` is one of the machine's statuses. */
  predicate IsValidStatus(m: Machine, s: string)
    ensures IsValidStatus(m, s) <==> exists i :: 0 <= i < |m.statuses| && m.statuses[i] == s
  {
    s in m.statuses
  }

  /** Whether a move from `from` to `to` is allowed: both ends must be valid,
      staying put is always allowed, and any other move must be listed in the
      adjacency table under `from`. */
  predicate CanTransition(m: Machine, from: string, to: string)
    ensures CanTransition(m, from, to) ==> IsValidStatus(m, from) && IsValidStatus(m, to)
    ensures from == to ==> (CanTransition(m, from, to) <==> IsValidStatus(m, from))
    ensures from != to ==> (CanTransition(m, from, to) <==>
                            IsValidStatus(m, from) && IsValidStatus(m, to) &&
                            from in m.transitions && to in m.transitions[from])
  {
    if !IsValidStatus(m, from) || !IsValidStatus(m, to) then false
    else if from == to then true
    else from in m.transitions && to in m.transitions[from]
  }

  /** The adjacency row of `current`; empty for an invalid status or a status without a row. */
  function AvailableTransitions(m: Machine, current: string): (r: seq<string>)
    ensures !IsValidStatus(m, current) ==> r == []
    ensures IsValidStatus(m, current) && current !in m.transitions ==> r == []
    ensures IsValidStatus(m, current) && current in m.transitions ==> r == m.transitions[current]
    ensures forall to :: to in r ==> current in m.transitions && to in m.transitions[current]
  {
    if !IsValidStatus(m, current) then []
    else if current in m.transitions then m.transitions[current]
    else []
  }

  /** Perform a checked move: the target status, or an error naming both ends. */
  function Transition(m: Machine, from: string, to: string): (r: Result<string>)
    ensures r.Success? <==> CanTransition(m, from, to)
    ensures r.Success? ==> r.value == to
    ensures r.Failure? ==> r.error == InvalidTransition(from, to)
  {
    if CanTransition(m, from, to) then Success(to) else Failure(InvalidTransition(from, to))
  }

  /** Every target listed in the adjacency table is itself a valid status. */
  ghost predicate TargetsValid(m: Machine) {
    forall from, to :: from in m.transitions && to in m.transitions[from] ==> IsValidStatus(m, to)
  }

  /** Every valid status has at least one outbound move. */
  ghost predicate NoTerminalStatus(m: Machine) {
    forall s :: IsValidStatus(m, s) ==> |AvailableTransitions(m, s)| > 0
  }

  /** A move is only ever allowed between two valid statuses. */
  lemma CanTransitionNeedsValidEnds(m: Machine, from: string, to: string)
    ensures CanTransition(m, from, to) ==> IsValidStatus(m, from) && IsValidStatus(m, to)
  {
  }

  /** Staying on a valid status is always allowed. */
  lemma SelfTransition(m: Machine, s: string)
    ensures CanTransition(m, s, s) <==> IsValidStatus(m, s)
  {
  }

  /** When every table target is valid, a move between distinct statuses is
      allowed exactly when the target appears among the available transitions. */
  lemma CanTransitionIffAvailable(m: Machine, from: string, to: string)
    requires TargetsValid(m)
    requires from != to
    ensures CanTransition(m, from, to) <==> to in AvailableTransitions(m, from)
  {
    if to in AvailableTransitions(m, from) {
      assert from in m.transitions && to in m.transitions[from];
    }
  }
}
