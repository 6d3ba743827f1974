/** The branch taken after an audit, `error_check_router`. */
module Routers {
  import opened State

  const ToTesting: string := "testing"
  const ToHandleErrors: string := "handle_errors"

  /** "testing" when the audit recorded nothing, "handle_errors" otherwise. */
  function ErrorCheckRouter(st: AgentHubState): (route: string)
    ensures route == ToTesting || route == ToHandleErrors
    ensures route == ToTesting <==> st.errors == map[]
    ensures route == ToHandleErrors <==> st.errors != map[]
  {
    if st.errors == map[] then ToTesting else ToHandleErrors
  }

  /** The decision reads `errors` only: states that agree on it are routed alike. */
  lemma RouterReadsOnlyErrors(s1: AgentHubState, s2: AgentHubState)
    requires s1.errors == s2.errors
    ensures ErrorCheckRouter(s1) == ErrorCheckRouter(s2)
  {
  }
}
