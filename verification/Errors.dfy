/** The errors of `src/core/error.rs`. Message texts become constructors of `Reason`. */
module Errors {
  import opened Wrappers

  datatype Reason =
    | CalendarOffset
    | CalendarWithoutWorkingDay
    | CalendarWindow
    | CalendarWithoutAvailability
    | NegativeWorkingHours
    | CalendarSearchLimit
    | EmptyPlan
    | DuplicateKeys
    | UnknownDependency(task: string, dependency: string)
    | SelfDependency(task: string)
    | CyclicDependencies
    | InvalidInitialState(id: string)
    | AlreadyExists(id: string)
    | ScopeMismatch(id: string)
    | RecoverySafetyMismatch(id: string)
    | DuplicateTask(key: string)
    | RevisionWithoutEstimate(task: string)
    | RevisionWithUnexpectedTasks(flow: string)
    | SequenceGap(actual: int, expected: int)
    | SequenceOverflow
    | PreparedEventMismatch
    | DifferentSnapshot
    | UnknownRecipient(message: string, recipient: string)
    | FlowMismatch(message: string, flow: string)
    | RemovedTask(key: string)
    | ModifiedTask(key: string)

  datatype RelayError =
    | Validation(reason: Reason)
    | NoEligibleAssignee(title: string)
    | NotFound(id: string)
    | InvalidTransition(id: string)
    | ConcurrentModification(expected: int, actual: int)

  /** The state after a step, and whether the step was accepted; a refusal may have changed the state. */
  datatype Outcome<S> = Outcome(state: S, result: Result<(), RelayError>)

  function Accept<S>(state: S): Outcome<S> { Outcome(state, Ok(())) }

  function Deny<S>(state: S, error: RelayError): Outcome<S> { Outcome(state, Err(error)) }
}
