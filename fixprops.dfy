/**
 * What one call of the fix pass does to the run state and to the file tree,
 * stated per path in terms of the fix service's reply.
 */
module FixProps {
  import opened Wrappers
  import opened PyStr
  import opened State
  import opened FileTree
  import opened Fix
  import Audit

  /** The pass gets past both of its guards. */
  predicate Runs(st: AgentHubState)
  {
    st.errors != map[] && st.iterationCount < MaxIterations
  }

  /** The fix service's reply for `name` in a pass over `tree`. */
  function Reply(st: AgentHubState, tree: map<string, string>, fix: FixService, name: string): Option<string>
    requires name in st.errors && JoinPath(ProjectDir, name) in tree
  {
    fix(name, tree[JoinPath(ProjectDir, name)], st.errors[name], st.iterationCount, Get(st.fixHistory, name, []))
  }

  /** The pass accepts a fix for `name`. */
  predicate FixAccepted(st: AgentHubState, tree: map<string, string>, fix: FixService, name: string)
  {
    name in st.errors && OutcomeOf(tree, name, st.errors[name], st.iterationCount, Get(st.fixHistory, name, []), fix).Accepted?
  }

  // ------------------------------------------------------------- the guards

  /**
   * With no findings, or at the iteration cap, the pass sets `errorsFixed`
   * and nothing else: no file changes, `errors` and `iterationCount` stay,
   * and the fix service is not consulted (any other service gives the same).
   */
  lemma IdlePass(st: AgentHubState, tree: map<string, string>, fix: FixService, other: FixService)
    requires !Runs(st)
    ensures FixPass(st, tree, fix).1 == tree
    ensures FixPass(st, tree, fix).0.errorsFixed
    ensures FixPass(st, tree, fix).0.(errorsFixed := st.errorsFixed) == st
    ensures FixPass(st, tree, other) == FixPass(st, tree, fix)
  {
  }

  /**
   * A pass past the guards always clears `errors` and counts one iteration,
   * however many fixes were accepted; it adds and removes no file and
   * touches no other field but the fix history.
   */
  lemma FullPass(st: AgentHubState, tree: map<string, string>, fix: FixService)
    requires Runs(st)
    ensures var s := FixPass(st, tree, fix).0;
      && s.errors == map[] && s.iterationCount == st.iterationCount + 1
      && s.(errors := st.errors, iterationCount := st.iterationCount, fixHistory := st.fixHistory) == st
    ensures FixPass(st, tree, fix).1.Keys == tree.Keys
  {
  }

  // -------------------------------------------------------------- the files

  /**
   * A file with findings after a pass: unchanged for an empty list; after a
   * failed call, the backup for this iteration when one exists; after a
   * reply, the cleaned reply when it passes the size check and the old text
   * otherwise.
   */
  lemma FixedFile(st: AgentHubState, tree: map<string, string>, fix: FixService, name: string)
    requires Runs(st) && name in st.errors && JoinPath(ProjectDir, name) in tree
    ensures var t := FixPass(st, tree, fix).1;
      var path := JoinPath(ProjectDir, name);
      var backup := JoinPath(ProjectDir, BackupName(name, st.iterationCount));
      && path in t
      && (st.errors[name] == [] ==> t[path] == tree[path])
      && (st.errors[name] != [] && Reply(st, tree, fix, name).None? ==>
            t[path] == if backup in tree then tree[backup] else tree[path])
      && (st.errors[name] != [] && Reply(st, tree, fix, name).Some? ==>
            var clean := CleanReply(Reply(st, tree, fix, name).value);
            t[path] == if Acceptable(clean, tree[path]) then clean else tree[path])
  {
    PassAppliesOutcome(st, tree, fix, name);
    OutcomeApplied(tree, name, st.errors[name], st.iterationCount, Get(st.fixHistory, name, []), fix);
  }

  /** What applying the outcome for `name` gives `my_project/<name>`, case by case. */
  lemma OutcomeApplied(tree: map<string, string>, name: string, errs: seq<string>, iteration: int, history: seq<string>, fix: FixService)
    requires JoinPath(ProjectDir, name) in tree
    ensures var path := JoinPath(ProjectDir, name);
      var backup := JoinPath(ProjectDir, BackupName(name, iteration));
      var t := Applied(tree, name, OutcomeOf(tree, name, errs, iteration, history, fix), iteration);
      var reply := fix(name, tree[path], errs, iteration, history);
      && path in t
      && (errs == [] ==> t[path] == tree[path])
      && (errs != [] && reply.None? ==> t[path] == if backup in tree then tree[backup] else tree[path])
      && (errs != [] && reply.Some? ==>
            var clean := CleanReply(reply.value);
            t[path] == if Acceptable(clean, tree[path]) then clean else tree[path])
  {
  }

  /** The pass gives `my_project/<name>` the text that the outcome for `name` gives it. */
  lemma PassAppliesOutcome(st: AgentHubState, tree: map<string, string>, fix: FixService, name: string)
    requires Runs(st) && name in st.errors && JoinPath(ProjectDir, name) in tree
    ensures var t := FixPass(st, tree, fix).1;
      var path := JoinPath(ProjectDir, name);
      var o := OutcomeOf(tree, name, st.errors[name], st.iterationCount, Get(st.fixHistory, name, []), fix);
      path in t && t[path] == Applied(tree, name, o, st.iterationCount)[path]
  {
    RelativeToJoin(ProjectDir, name);
  }

  /** A file that is not `my_project/<name>` for a path with findings keeps its text. */
  lemma UnlistedFileKept(st: AgentHubState, tree: map<string, string>, fix: FixService, k: string)
    requires k in tree
    requires !Under(k, ProjectDir) || RelativeTo(k, ProjectDir) !in st.errors
    ensures k in FixPass(st, tree, fix).1 && FixPass(st, tree, fix).1[k] == tree[k]
  {
  }

  /** A file changes only by taking an accepted fix or by being restored from its backup. */
  lemma FileChangeExplained(st: AgentHubState, tree: map<string, string>, fix: FixService, k: string)
    requires k in tree && FixPass(st, tree, fix).1[k] != tree[k]
    ensures Under(k, ProjectDir)
    ensures var name := RelativeTo(k, ProjectDir);
      var backup := JoinPath(ProjectDir, BackupName(name, st.iterationCount));
      var t := FixPass(st, tree, fix).1;
      && Runs(st) && name in st.errors
      && ((FixAccepted(st, tree, fix, name) && Acceptable(t[k], tree[k]))
          || (backup in tree && t[k] == tree[backup]))
  {
    if Runs(st) {
      if Under(k, ProjectDir) && RelativeTo(k, ProjectDir) in st.errors {
        var name := RelativeTo(k, ProjectDir);
        FixedFile(st, tree, fix, name);
      } else {
        UnlistedFileKept(st, tree, fix, k);
      }
    }
  }

  // ------------------------------------------------------------ the history

  /**
   * After a pass, a path's fix history is its old one with one entry
   * "Iteration i: Fixed n errors" appended when its fix was accepted, and
   * unchanged otherwise.
   */
  lemma FixHistoryAfterPass(st: AgentHubState, tree: map<string, string>, fix: FixService, name: string)
    requires Runs(st)
    ensures var h := FixPass(st, tree, fix).0.fixHistory;
      && (name in h <==> name in st.fixHistory || FixAccepted(st, tree, fix, name))
      && Get(h, name, []) == if FixAccepted(st, tree, fix, name)
           then Get(st.fixHistory, name, []) + [HistoryEntry(st.iterationCount, |st.errors[name]|)]
           else Get(st.fixHistory, name, [])
  {
    var outcomes := Outcomes(tree, st.errors, st.iterationCount, st.fixHistory, fix);
    var accepted := AcceptedNames(outcomes, st.errors.Keys);
    var entries := NewEntries(st.errors, st.iterationCount, accepted);
    assert name in entries <==> FixAccepted(st, tree, fix, name);
  }

  /** The fix history only grows: every path's old history is a prefix of its new one, at most one entry shorter. */
  lemma FixHistoryAppendOnly(st: AgentHubState, tree: map<string, string>, fix: FixService, name: string)
    ensures var h := FixPass(st, tree, fix).0.fixHistory;
      && Get(st.fixHistory, name, []) <= Get(h, name, [])
      && |Get(h, name, [])| <= |Get(st.fixHistory, name, [])| + 1
  {
    if Runs(st) {
      FixHistoryAfterPass(st, tree, fix, name);
    }
  }

  /**
   * A reply whose cleaned text passes the size check is written over the
   * file and recorded in the file's history.
   */
  lemma AcceptedFixRecorded(st: AgentHubState, tree: map<string, string>, fix: FixService, name: string, reply: string)
    requires Runs(st) && name in st.errors && st.errors[name] != []
    requires JoinPath(ProjectDir, name) in tree
    requires Reply(st, tree, fix, name) == Some(reply)
    requires Acceptable(CleanReply(reply), tree[JoinPath(ProjectDir, name)])
    ensures FixPass(st, tree, fix).1[JoinPath(ProjectDir, name)] == CleanReply(reply)
    ensures Get(FixPass(st, tree, fix).0.fixHistory, name, [])
         == Get(st.fixHistory, name, []) + [HistoryEntry(st.iterationCount, |st.errors[name]|)]
  {
    FixedFile(st, tree, fix, name);
    FixHistoryAfterPass(st, tree, fix, name);
  }

  // ----------------------------------------------------- the call as written

  /**
   * With the service call as written (it always raises), a pass records no
   * fix, and when no backup for this iteration exists it changes no file.
   */
  lemma AsWrittenPassFixesNothing(st: AgentHubState, tree: map<string, string>)
    requires Runs(st)
    ensures FixPass(st, tree, AsWrittenFix).0.fixHistory == st.fixHistory
    ensures (forall name | name in st.errors :: JoinPath(ProjectDir, BackupName(name, st.iterationCount)) !in tree)
      ==> FixPass(st, tree, AsWrittenFix).1 == tree
  {
    var outcomes := Outcomes(tree, st.errors, st.iterationCount, st.fixHistory, AsWrittenFix);
    assert AcceptedNames(outcomes, st.errors.Keys) == {};
    var h := FixPass(st, tree, AsWrittenFix).0.fixHistory;
    assert h.Keys == st.fixHistory.Keys;
    if forall name | name in st.errors :: JoinPath(ProjectDir, BackupName(name, st.iterationCount)) !in tree {
      var t := FixPass(st, tree, AsWrittenFix).1;
      forall k | k in tree ensures t[k] == tree[k] {
        if Under(k, ProjectDir) && RelativeTo(k, ProjectDir) in st.errors {
          FixedFile(st, tree, AsWrittenFix, RelativeTo(k, ProjectDir));
        }
      }
    }
  }

  // ----------------------------------------------- what the audit hands over

  lemma DigitIsNoLetter(c: char)
    requires IsDigit(c)
    ensures !IsAsciiLetter(c)
  {
  }

  /**
   * The paths an audit records never include one another's backup names
   * (paths end in a letter, backup names in a digit), so the fix pass that
   * follows an audit does not depend on the order it visits them in.
   */
  lemma AuditedKeysHaveNoBackups(st: AgentHubState, tree: map<string, string>, dirs: set<string>,
                                 audit: Audit.AuditService, decode: Audit.Decoder, iteration: int)
    ensures BackupsDisjoint(Audit.AuditPass(st, tree, dirs, audit, decode).errors.Keys, iteration)
  {
    Audit.ErrorKeysEndInLetter(st, tree, dirs, audit, decode);
    LetterKeysHaveNoBackups(Audit.AuditPass(st, tree, dirs, audit, decode).errors.Keys, iteration);
  }

  /** Paths that end in a letter are never backup names of one another. */
  lemma LetterKeysHaveNoBackups(keys: set<string>, iteration: int)
    requires forall k | k in keys :: k != [] && IsAsciiLetter(k[|k| - 1])
    ensures BackupsDisjoint(keys, iteration)
  {
    forall name | name in keys ensures BackupName(name, iteration) !in keys {
      var b := BackupName(name, iteration);
      DigitIsNoLetter(b[|b| - 1]);
    }
  }
}
