/**
 * The three simple nodes of the graph: planning, code generation and the
 * final validation node. The audit and fix nodes are in their own modules.
 */
module Nodes {
  import opened Wrappers
  import opened PyStr
  import opened State
  import opened Parser
  import opened FileTree
  import opened Writer

  /** The planning service: the user's idea in, the architecture reply out, or None when the call raises. */
  type PlanService = string -> Option<string>

  /** The code-generation service: the architecture in, the reply text out, or None when the call raises. */
  type CodegenService = string -> Option<string>

  /**
   * `get_architecture`: the planning reply for the idea becomes the
   * architecture, and nothing else changes; None when the call raises,
   * which leaves the node with no state.
   */
  function GetArchitecture(st: AgentHubState, plan: PlanService): (r: Option<AgentHubState>)
    ensures r.None? <==> plan(st.userIdea).None?
    ensures r.Some? ==> r.value.architecture == plan(st.userIdea).value
    ensures r.Some? ==> r.value.(architecture := st.architecture) == st
  {
    match plan(st.userIdea)
    case None => None
    case Some(reply) => Some(st.(architecture := reply))
  }

  /** The files the code-generation reply describes; none when the call raises, since then nothing is written. */
  function GeneratedFiles(st: AgentHubState, codegen: CodegenService, pattern2: Matcher, pattern3: Matcher): seq<FileEntry>
  {
    match codegen(st.architecture)
    case None => []
    case Some(reply) => ParseFilesFromResponse(reply, pattern2, pattern3)
  }

  /**
   * What `generate_code` leaves: the working directory as the writer leaves
   * it and, when the node returns normally, the state with `codeGenerated`
   * false. When the generation call raises, nothing is written; when it or
   * the writer raises, the exception leaves the node before the flag is set
   * and the state is as it was.
   */
  function GenerateCodeEffect(st: AgentHubState, tree: map<string, string>, dirs: set<string>,
                              codegen: CodegenService, pattern2: Matcher, pattern3: Matcher)
    : (r: (AgentHubState, Written))
    ensures codegen(st.architecture).None? ==> r == (st, Written(tree, dirs, true))
    ensures codegen(st.architecture).Some? ==> r.1 == Installed(tree, dirs, GeneratedFiles(st, codegen, pattern2, pattern3))
    ensures r.1.raised ==> r.0 == st
    ensures !r.1.raised ==> !r.0.codeGenerated && r.0.(codeGenerated := st.codeGenerated) == st
    ensures codegen(st.architecture).Some? && GeneratedFiles(st, codegen, pattern2, pattern3) == []
        ==> r == (st.(codeGenerated := false), Written(tree, dirs, false))
  {
    if codegen(st.architecture).None? then (st, Written(tree, dirs, true))
    else
      var w := Installed(tree, dirs, GeneratedFiles(st, codegen, pattern2, pattern3));
      if w.raised then (st, w) else (st.(codeGenerated := false), w)
  }

  /** `generate_code`: asks for the code, parses the reply and writes the files; `raised` is an exception of the call or the writer. */
  method GenerateCode(st: AgentHubState, fs: FileStore, codegen: CodegenService, pattern2: Matcher, pattern3: Matcher)
    returns (st': AgentHubState, raised: bool)
    requires fs.Valid()
    modifies fs
    ensures fs.Valid()
    ensures (st', Written(fs.files, fs.dirs, raised)) == GenerateCodeEffect(st, old(fs.files), old(fs.dirs), codegen, pattern2, pattern3)
  {
    var response := codegen(st.architecture);
    if response.None? {
      return st, true;
    }
    var files := ParseFilesFromResponse(response.value, pattern2, pattern3);
    raised := WriteFilesToDirectory(fs, files);
    if raised {
      return st, raised;
    }
    st' := st.(codeGenerated := false);
  }

  /** `testing`: a final report only; the state passes through unchanged. */
  function Testing(st: AgentHubState): (r: AgentHubState)
    ensures r == st
  {
    st
  }
}
