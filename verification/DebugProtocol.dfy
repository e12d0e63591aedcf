/** Debugger commands and which of them let the paused program go on. */
module DebugProtocol {
  import opened Wrappers

  datatype DebugAction = Step | StepOver | StepOut | Continue | Abort

  datatype DebugCommand =
    | Resume(action: DebugAction)
    | AddBreakpoint(file: Option<string>, line: nat)
    | RemoveBreakpoint(file: Option<string>, line: nat)
    | ClearBreakpoints(file: Option<string>)
    | ListBreakpoints

  /** The request handler's test, made before the command is sent. */
  predicate CommandResumes(command: DebugCommand) {
    command.Resume?
  }

  /** What the paused controller does with a received command: the action it returns, if any. */
  function AppliedAction(command: DebugCommand): Option<DebugAction> {
    match command
    case Resume(action) => Some(action)
    case AddBreakpoint(_, _) => None
    case RemoveBreakpoint(_, _) => None
    case ClearBreakpoints(_) => None
    case ListBreakpoints => None
  }
}
