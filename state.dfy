/** The run state that the graph threads through its nodes (src/utils/state.py). */
module State {

  /** Per-path lists of strings: the shape of `errors`, `error_history` and `fix_history`. */
  type ErrorMap = map<string, seq<string>>

  /**
   * One value of the run state. The graph hands each node a state and takes
   * back the one the node returns, so a node is a function from state to state.
   * `architecture` is the planning service's reply, kept uninterpreted.
   * `errorsFixed` is not declared in the state's type; the fix pass writes it
   * on its two early exits and no node or router reads it.
   */
  datatype AgentHubState = AgentHubState(
    userIdea: string,
    architecture: string,
    codeGenerated: bool,
    errors: ErrorMap,
    iterationCount: int,
    errorHistory: ErrorMap,
    fixHistory: ErrorMap,
    errorsFixed: bool)

  /** Every list in `m` is non-empty. */
  predicate NonEmptyLists(m: ErrorMap)
  {
    forall k | k in m :: m[k] != []
  }
}
