/**
 * The graph of the run (`graph_runner.py`): five nodes wired by fixed edges
 * and one routed edge, and what a run through them can and cannot do.
 */
module Graph {
  import opened Wrappers
  import opened State
  import opened FileTree
  import opened Parser
  import opened Fix
  import Audit
  import Nodes
  import Routers
  import Writer
  import FixProps

  /** The five nodes, the end, and `Crashed`: the run stopped by an exception out of planning or code generation. */
  datatype Node = GetArchitecture | GenerateCode | CheckErrors | Testing | HandleErrors | End | Crashed

  /** A node after which nothing runs. */
  predicate Final(n: Node)
  {
    n == End || n == Crashed
  }

  /** The entry point. */
  const Entry: Node := GetArchitecture

  /** The fixed edges; `CheckErrors` has none of its own, it is routed. */
  function Edge(n: Node): Option<Node>
  {
    match n
    case GetArchitecture => Some(GenerateCode)
    case GenerateCode => Some(CheckErrors)
    case Testing => Some(End)
    case HandleErrors => Some(CheckErrors)
    case _ => None
  }

  /** The targets of the routed edge out of `CheckErrors`, by router answer. */
  const CheckRoutes: map<string, Node> := map[Routers.ToTesting := Testing, Routers.ToHandleErrors := HandleErrors]

  /** Every answer of the router is one the graph maps. */
  lemma RouterTotal(st: AgentHubState)
    ensures Routers.ErrorCheckRouter(st) in CheckRoutes
  {
  }

  /** The node after `n`, given the state `n` returned. */
  function Next(n: Node, st: AgentHubState): Node
    requires !Final(n)
  {
    if n == CheckErrors then
      RouterTotal(st);
      CheckRoutes[Routers.ErrorCheckRouter(st)]
    else Edge(n).value
  }

  /** The replies the outside services give at one step. */
  datatype Services = Services(
    plan: Nodes.PlanService,
    codegen: Nodes.CodegenService,
    pattern2: Matcher,
    pattern3: Matcher,
    audit: Audit.AuditService,
    decode: Audit.Decoder,
    fix: FixService)

  /** The node about to run, the run state, and the working directory (files and directories). */
  datatype Config = Config(node: Node, st: AgentHubState, tree: map<string, string>, dirs: set<string>)

  /** One step: the node runs, then control follows the edge its result selects, or stops if the node raised. */
  function Step(c: Config, sv: Services): Config
    requires !Final(c.node)
  {
    match c.node
    case GetArchitecture =>
      var r := Nodes.GetArchitecture(c.st, sv.plan);
      if r.None? then Config(Crashed, c.st, c.tree, c.dirs) else Config(Next(c.node, r.value), r.value, c.tree, c.dirs)
    case GenerateCode =>
      var r := Nodes.GenerateCodeEffect(c.st, c.tree, c.dirs, sv.codegen, sv.pattern2, sv.pattern3);
      Config(if r.1.raised then Crashed else Next(c.node, r.0), r.0, r.1.files, r.1.dirs)
    case CheckErrors =>
      var s := Audit.AuditPass(c.st, c.tree, c.dirs, sv.audit, sv.decode);
      Config(Next(c.node, s), s, c.tree, c.dirs)
    case Testing =>
      var s := Nodes.Testing(c.st);
      Config(Next(c.node, s), s, c.tree, c.dirs)
    case HandleErrors =>
      var r := FixPass(c.st, c.tree, sv.fix);
      Config(Next(c.node, r.0), r.0, r.1, c.dirs)
  }

  /** `cs` is a run: it starts at the entry point, and each configuration is the step of the one before under that step's replies. */
  predicate IsRun(cs: seq<Config>, svs: nat -> Services)
  {
    && cs != [] && cs[0].node == Entry
    && (forall i :: 0 <= i < |cs| - 1 ==> !Final(cs[i].node))
    && (forall i {:trigger Step(cs[i], svs(i))} :: 0 <= i < |cs| - 1 ==> cs[i + 1] == Step(cs[i], svs(i)))
  }

  // ------------------------------------------------------------ the edges

  /** No edge leads back to the planning node, and only the planning node leads to code generation. */
  lemma NoEdgeBackToSetup(n: Node, st: AgentHubState)
    requires !Final(n)
    ensures Next(n, st) != GetArchitecture
    ensures Next(n, st) == GenerateCode <==> n == GetArchitecture
  {
  }

  /** After an audit the run goes to `Testing` exactly when the audit recorded nothing, and to `HandleErrors` otherwise. */
  lemma RoutedAfterAudit(n: Node, st: AgentHubState)
    requires !Final(n)
    ensures Next(n, st) == Testing <==> n == CheckErrors && st.errors == map[]
    ensures n == CheckErrors && st.errors != map[] ==> Next(n, st) == HandleErrors
  {
  }

  /** The fix node always hands back to the audit, even on its capped path; only `Testing` leads to the end. */
  lemma FixReturnsToAudit(n: Node, st: AgentHubState)
    requires !Final(n)
    ensures n == HandleErrors ==> Next(n, st) == CheckErrors
    ensures Next(n, st) == End <==> n == Testing
  {
  }

  // ------------------------------------------------------------- the runs

  /** Planning runs only first and code generation only second, when planning did not raise. */
  lemma {:induction false} SetupRunsOnce(cs: seq<Config>, svs: nat -> Services, i: nat)
    requires IsRun(cs, svs) && i < |cs|
    ensures cs[i].node == GetArchitecture <==> i == 0
    ensures cs[i].node == GenerateCode <==> i == 1 && svs(0).plan(cs[0].st.userIdea).Some?
  {
    if i > 0 {
      var c := cs[i - 1];
      assert cs[i] == Step(c, svs(i - 1));
      NoEdgeBackToSetup(c.node, cs[i].st);
      SetupRunsOnce(cs, svs, i - 1);
    }
  }

  /** A run reaches the end only right after `Testing`, which in turn follows an audit that recorded nothing. */
  lemma EndFollowsCleanAudit(cs: seq<Config>, svs: nat -> Services, i: nat)
    requires IsRun(cs, svs) && i < |cs| && cs[i].node == End
    ensures 3 <= i
    ensures cs[i - 1].node == Testing && cs[i - 2].node == CheckErrors
    ensures cs[i - 1].st.errors == map[] && cs[i].st == cs[i - 1].st
  {
    var t := cs[i - 1];
    assert cs[i] == Step(t, svs(i - 1));
    FixReturnsToAudit(t.node, cs[i].st);
    SetupRunsOnce(cs, svs, i - 1);
    var a := cs[i - 2];
    assert t == Step(a, svs(i - 2));
    RoutedAfterAudit(a.node, t.st);
    SetupRunsOnce(cs, svs, i - 2);
  }

  // ------------------------------------------------------ the iteration count

  /** Only the fix node moves the iteration count, by one, and only below the cap. */
  lemma StepIteration(c: Config, sv: Services)
    requires !Final(c.node)
    ensures Step(c, sv).st.iterationCount
         == if c.node == HandleErrors && FixProps.Runs(c.st) then c.st.iterationCount + 1 else c.st.iterationCount
  {
    match c.node
    case HandleErrors =>
      if FixProps.Runs(c.st) {
        FixProps.FullPass(c.st, c.tree, sv.fix);
      } else {
        FixProps.IdlePass(c.st, c.tree, sv.fix, sv.fix);
      }
    case _ =>
  }

  /**
   * Along a run the iteration count never decreases and, from a start
   * between 0 and the cap, never exceeds the cap.
   */
  lemma {:induction false} IterationBounded(cs: seq<Config>, svs: nat -> Services, i: nat)
    requires IsRun(cs, svs) && i < |cs|
    requires 0 <= cs[0].st.iterationCount <= MaxIterations
    ensures cs[0].st.iterationCount <= cs[i].st.iterationCount <= MaxIterations
    ensures i > 0 ==> cs[i - 1].st.iterationCount <= cs[i].st.iterationCount
  {
    if i > 0 {
      IterationBounded(cs, svs, i - 1);
      RunIteration(cs, svs, i);
    }
  }

  /** One step of a run never lowers the iteration count and never lifts it past the cap. */
  lemma RunIteration(cs: seq<Config>, svs: nat -> Services, i: nat)
    requires IsRun(cs, svs) && 0 < i < |cs|
    ensures cs[i - 1].st.iterationCount <= cs[i].st.iterationCount
    ensures cs[i - 1].st.iterationCount <= MaxIterations ==> cs[i].st.iterationCount <= MaxIterations
  {
    assert cs[i] == Step(cs[i - 1], svs(i - 1));
    StepIteration(cs[i - 1], svs(i - 1));
  }

  /**
   * At the cap, an audit that records errors and the fix round after it
   * bring the run back to the audit with the same files, directories,
   * errors and iteration count.
   */
  lemma CapRoundIdle(c: Config, sv1: Services, sv2: Services)
    requires c.node == CheckErrors && c.st.iterationCount >= MaxIterations
    requires Step(c, sv1).node == HandleErrors
    ensures var c2 := Step(Step(c, sv1), sv2);
      && c2.node == CheckErrors && c2.tree == c.tree && c2.dirs == c.dirs
      && c2.st.iterationCount == c.st.iterationCount && c2.st.errors == Step(c, sv1).st.errors
  {
    var c1 := Step(c, sv1);
    AuditStepKeeps(c, sv1);
    IdleFixStep(c1, sv2);
  }

  /** An audit step changes neither the files, nor the directories, nor the iteration count. */
  lemma AuditStepKeeps(c: Config, sv: Services)
    requires c.node == CheckErrors
    ensures var c1 := Step(c, sv);
      c1.tree == c.tree && c1.dirs == c.dirs && c1.st.iterationCount == c.st.iterationCount
  {
  }

  /** A fix step that does not get past its guards returns to the audit with nothing but `errorsFixed` changed. */
  lemma IdleFixStep(c: Config, sv: Services)
    requires c.node == HandleErrors && !FixProps.Runs(c.st)
    ensures var c2 := Step(c, sv);
      && c2.node == CheckErrors && c2.tree == c.tree && c2.dirs == c.dirs
      && c2.st.iterationCount == c.st.iterationCount && c2.st.errors == c.st.errors
  {
    FixProps.IdlePass(c.st, c.tree, sv.fix, sv.fix);
  }

  // --------------------------------------------- a project in the wrong place

  /** While `my_project` is missing, an audit sends the run to the fix node and the fix round back, still without it. */
  lemma MissingProjectRound(c: Config, sv: Services)
    requires c.node == CheckErrors || c.node == HandleErrors
    requires ProjectDir !in c.tree && ProjectDir !in c.dirs
    ensures var c' := Step(c, sv);
      && ProjectDir !in c'.tree && ProjectDir !in c'.dirs
      && c'.node == if c.node == CheckErrors then HandleErrors else CheckErrors
  {
    if c.node == HandleErrors {
      if FixProps.Runs(c.st) {
        FixProps.FullPass(c.st, c.tree, sv.fix);
      } else {
        FixProps.IdlePass(c.st, c.tree, sv.fix, sv.fix);
      }
    } else {
      var s := Audit.AuditPass(c.st, c.tree, c.dirs, sv.audit, sv.decode);
      assert s.errors == Audit.GlobalErrors;
      assert "_global" in s.errors;
    }
  }

  /** Once an audit finds `my_project` missing, the run alternates between audit and fix and never ends. */
  lemma {:induction false} MissingProjectNeverEnds(cs: seq<Config>, svs: nat -> Services, i: nat, j: nat)
    requires IsRun(cs, svs) && i <= j < |cs|
    requires cs[i].node == CheckErrors && ProjectDir !in cs[i].tree && ProjectDir !in cs[i].dirs
    ensures cs[j].node == CheckErrors || cs[j].node == HandleErrors
    ensures ProjectDir !in cs[j].tree && ProjectDir !in cs[j].dirs
  {
    if j > i {
      MissingProjectNeverEnds(cs, svs, i, j - 1);
      MissingProjectRunStep(cs, svs, j);
    }
  }

  /** One step of a run taken while `my_project` is missing and the run is between audit and fix. */
  lemma MissingProjectRunStep(cs: seq<Config>, svs: nat -> Services, k: nat)
    requires IsRun(cs, svs) && 0 < k < |cs|
    requires cs[k - 1].node == CheckErrors || cs[k - 1].node == HandleErrors
    requires ProjectDir !in cs[k - 1].tree && ProjectDir !in cs[k - 1].dirs
    ensures cs[k].node == CheckErrors || cs[k].node == HandleErrors
    ensures ProjectDir !in cs[k].tree && ProjectDir !in cs[k].dirs
  {
    assert cs[k] == Step(cs[k - 1], svs(k - 1));
    MissingProjectRound(cs[k - 1], svs(k - 1));
  }

  /**
   * The generated files stay away from `my_project`: either there are none, or
   * their base directory is another one and no path steps into `my_project`
   * on its way (a path such as `out/../my_project/main.py` does).
   */
  predicate ElsewhereFiles(files: seq<FileEntry>)
  {
    files != [] ==>
      && Writer.DetectBase(files) != ProjectDir
      && forall n | 0 <= n < |files| :: !Writer.Reaches(Writer.DetectBase(files), files[n].path, ProjectDir)
  }

  /** Code generation whose files stay away from `my_project` leaves it missing if it was, whether or not the writer raises. */
  lemma GenerateElsewhere(c: Config, sv: Services)
    requires c.node == GenerateCode && ProjectDir !in c.tree && ProjectDir !in c.dirs
    requires ElsewhereFiles(Nodes.GeneratedFiles(c.st, sv.codegen, sv.pattern2, sv.pattern3))
    ensures ProjectDir !in Step(c, sv).tree && ProjectDir !in Step(c, sv).dirs
  {
    GenerateEffectElsewhere(c.st, c.tree, c.dirs, sv.codegen, sv.pattern2, sv.pattern3);
  }

  /** The node's effect on the working directory, whose files stay away from `my_project`, does not create it. */
  lemma GenerateEffectElsewhere(st: AgentHubState, tree: map<string, string>, dirs: set<string>,
                                codegen: Nodes.CodegenService, pattern2: Matcher, pattern3: Matcher)
    requires ProjectDir !in tree && ProjectDir !in dirs
    requires ElsewhereFiles(Nodes.GeneratedFiles(st, codegen, pattern2, pattern3))
    ensures var r := Nodes.GenerateCodeEffect(st, tree, dirs, codegen, pattern2, pattern3);
      ProjectDir !in r.1.files && ProjectDir !in r.1.dirs
  {
    var files := Nodes.GeneratedFiles(st, codegen, pattern2, pattern3);
    Writer.InstalledAvoids(tree, dirs, files, ProjectDir);
  }

  /** Only a planning call that raised or the code generation node steps to `Crashed`. */
  lemma CrashedFrom(c: Config, sv: Services)
    requires !Final(c.node) && Step(c, sv).node == Crashed
    ensures c.node == GenerateCode || (c.node == GetArchitecture && sv.plan(c.st.userIdea).None?)
  {
  }

  /**
   * A run stops at `Crashed` only right after planning, when its call
   * raised, or right after code generation, and nothing follows it.
   */
  lemma CrashOnlyAfterGeneration(cs: seq<Config>, svs: nat -> Services, i: nat)
    requires IsRun(cs, svs) && i < |cs| && cs[i].node == Crashed
    ensures (i == 1 || i == 2) && |cs| == i + 1
    ensures i == 1 <==> svs(0).plan(cs[0].st.userIdea).None?
    ensures i == 2 ==> cs[1].node == GenerateCode
  {
    assert i > 0;
    var c := cs[i - 1];
    assert cs[i] == Step(c, svs(i - 1));
    CrashedFrom(c, svs(i - 1));
    SetupRunsOnce(cs, svs, i - 1);
    SetupRunsOnce(cs, svs, 1);
  }

  /**
   * A run from a directory without `my_project` whose generated files stay
   * away from it never ends: audit and fix look only at `my_project`, find it
   * missing every time, and `Testing` is never reached. If code generation
   * raises instead, the run stops at `Crashed`.
   */
  lemma WrongRootNeverEnds(cs: seq<Config>, svs: nat -> Services, j: nat)
    requires IsRun(cs, svs) && 2 <= j < |cs|
    requires ProjectDir !in cs[0].tree && ProjectDir !in cs[0].dirs
    requires ElsewhereFiles(Nodes.GeneratedFiles(cs[1].st, svs(1).codegen, svs(1).pattern2, svs(1).pattern3))
    ensures cs[j].node != End
    ensures cs[2].node == Crashed || (cs[j].node == CheckErrors || cs[j].node == HandleErrors)
  {
    assert cs[1] == Step(cs[0], svs(0));
    assert cs[2] == Step(cs[1], svs(1));
    if cs[2].node == Crashed {
      assert j == 2;
    } else {
      GenerateElsewhere(cs[1], svs(1));
      MissingProjectNeverEnds(cs, svs, 2, j);
    }
  }
}
