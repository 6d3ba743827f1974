/**
 * The fix pass, `handle_errors`: for every file with findings it asks the
 * fix service for a corrected text, cleans markdown fences out of the reply
 * and overwrites the file when the cleaned text is plausible; a failed call
 * restores the file from its backup for this iteration, when there is one.
 */
module Fix {
  import opened Wrappers
  import opened PyStr
  import opened State
  import opened FileTree

  /** The iteration cap of the fix pass. */
  const MaxIterations: int := 5

  /**
   * The fix service: relative path, current text, its findings, the
   * iteration and the path's fix history; `None` when the call raises.
   */
  type FixService = (string, string, seq<string>, int, seq<string>) -> Option<string>

  /**
   * The fix service as the source calls it: the prompt builder takes four
   * parameters and is given five, so the call raises a `TypeError` before
   * any request is made.
   */
  const AsWrittenFix: FixService := (name: string, original: string, errs: seq<string>, iteration: int, history: seq<string>) => None

  // ---------------------------------------------------------------- fences

  /** A line that opens or closes a code block: "```" right after its leading whitespace. */
  predicate IsFenceLine(line: string)
  {
    OccursAt(line, "```", SkipWhile(line, 0, IsSpace))
  }

  /** A fence line is one that, trimmed, starts with "```". */
  lemma FenceLineIsTrimmedFence(line: string)
    ensures IsFenceLine(line) <==> StartsWith(Strip(line), "```")
  {
    if IsFenceLine(line) {
      FenceLineTrimmed(line);
    }
    if StartsWith(Strip(line), "```") {
      var a := SkipWhile(line, 0, IsSpace);
      var r := Strip(line);
      assert line[a..a + 3] == r[..3];
    }
  }

  lemma FenceLineTrimmed(line: string)
    requires IsFenceLine(line)
    ensures StartsWith(Strip(line), "```")
  {
    var a := SkipWhile(line, 0, IsSpace);
    var r := Strip(line);
    StripLength(line);
    OccursAtChar(line, "```", a, 2);
    assert line[a..][2] == '`';
    TrailingSpaceBefore(line[a..], 2);
    assert r[..3] == line[a..a + 3];
  }

  /**
   * The lines the cleaning loop keeps, `inBlock` being the state of the
   * `in_code_block` toggle: fence lines flip it and are dropped; other lines
   * are kept inside a block, and outside one only when free of "```".
   */
  function KeptLines(lines: seq<string>, inBlock: bool): seq<string>
    decreases |lines|
  {
    if lines == [] then []
    else if IsFenceLine(lines[0]) then KeptLines(lines[1..], !inBlock)
    else if inBlock || !Contains(lines[0], "```") then [lines[0]] + KeptLines(lines[1..], inBlock)
    else KeptLines(lines[1..], inBlock)
  }

  /** The cleaned fix reply: fence lines filtered out when the reply has a fence, then trimmed. */
  function CleanReply(reply: string): string
  {
    if Contains(reply, "```") then Strip(Join(KeptLines(Split(reply, '\n'), false), '\n'))
    else Strip(reply)
  }

  /** The cleaning step of the fix pass. */
  method CleanFixReply(reply: string) returns (clean: string)
    ensures clean == CleanReply(reply)
  {
    clean := reply;
    if Contains(reply, "```") {
      var codeLines := FilterFenceLines(Split(reply, '\n'));
      clean := Join(codeLines, '\n');
    }
    clean := Strip(clean);
  }

  /** The line loop with its `in_code_block` toggle; `rest` holds the lines not yet visited. */
  method FilterFenceLines(lines: seq<string>) returns (codeLines: seq<string>)
    ensures codeLines == KeptLines(lines, false)
  {
    var inCodeBlock := false;
    codeLines := [];
    var rest := lines;
    while rest != []
      invariant codeLines + KeptLines(rest, inCodeBlock) == KeptLines(lines, false)
      decreases |rest|
    {
      var line := rest[0];
      if IsFenceLine(line) {
        inCodeBlock := !inCodeBlock;
      } else if inCodeBlock || !Contains(line, "```") {
        assert (codeLines + [line]) + KeptLines(rest[1..], inCodeBlock)
            == codeLines + ([line] + KeptLines(rest[1..], inCodeBlock));
        codeLines := codeLines + [line];
      }
      rest := rest[1..];
    }
  }

  /** `xs` is `ys` with some elements deleted. */
  predicate Subseq<T(==)>(xs: seq<T>, ys: seq<T>)
    decreases |ys|
  {
    xs == [] || (ys != [] && ((xs[0] == ys[0] && Subseq(xs[1..], ys[1..])) || Subseq(xs, ys[1..])))
  }

  /** The lines without "```". */
  function FenceFreeLines(lines: seq<string>): (r: seq<string>)
    ensures forall i :: 0 <= i < |r| ==> !Contains(r[i], "```")
  {
    if lines == [] then []
    else (if Contains(lines[0], "```") then [] else [lines[0]]) + FenceFreeLines(lines[1..])
  }

  /** The kept lines are the reply's lines in their order, some left out. */
  lemma {:induction false} KeptLinesSubseq(lines: seq<string>, inBlock: bool)
    ensures Subseq(KeptLines(lines, inBlock), lines)
    decreases |lines|
  {
    if lines != [] {
      KeptLinesSubseq(lines[1..], !inBlock);
      KeptLinesSubseq(lines[1..], inBlock);
      var kept := KeptLines(lines, inBlock);
      if kept != [] && !(IsFenceLine(lines[0])) && (inBlock || !Contains(lines[0], "```")) {
        assert kept[1..] == KeptLines(lines[1..], inBlock);
      }
    }
  }

  /** No kept line is a fence line. */
  lemma {:induction false} KeptLinesHaveNoFenceLine(lines: seq<string>, inBlock: bool)
    ensures forall i :: 0 <= i < |KeptLines(lines, inBlock)| ==> !IsFenceLine(KeptLines(lines, inBlock)[i])
    decreases |lines|
  {
    if lines != [] {
      KeptLinesHaveNoFenceLine(lines[1..], !inBlock);
      KeptLinesHaveNoFenceLine(lines[1..], inBlock);
    }
  }

  /** A line without "```" is not a fence line. */
  lemma FenceLineHasFence(line: string)
    requires IsFenceLine(line)
    ensures Contains(line, "```")
  {
    ContainsIff(line, "```");
  }

  /** Every line free of "```" survives the cleaning, in order. */
  lemma {:induction false} FenceFreeLinesKept(lines: seq<string>, inBlock: bool)
    ensures Subseq(FenceFreeLines(lines), KeptLines(lines, inBlock))
    decreases |lines|
  {
    if lines != [] {
      FenceFreeLinesKept(lines[1..], !inBlock);
      FenceFreeLinesKept(lines[1..], inBlock);
      if !Contains(lines[0], "```") {
        if IsFenceLine(lines[0]) {
          FenceLineHasFence(lines[0]);
        }
        var ff := FenceFreeLines(lines);
        assert ff[0] == lines[0] && ff[1..] == FenceFreeLines(lines[1..]);
      } else {
        assert FenceFreeLines(lines) == FenceFreeLines(lines[1..]);
        if !IsFenceLine(lines[0]) && inBlock {
          SubseqDropHead(FenceFreeLines(lines[1..]), lines[0], KeptLines(lines[1..], inBlock));
        }
      }
    }
  }

  lemma SubseqDropHead<T>(xs: seq<T>, y: T, ys: seq<T>)
    requires Subseq(xs, ys)
    ensures Subseq(xs, [y] + ys)
  {
    assert ([y] + ys)[1..] == ys;
  }

  /** Outside a block with no fence line at all, the cleaning keeps exactly the lines free of "```". */
  lemma {:induction false} NoToggleKeepsFenceFree(lines: seq<string>)
    requires forall i :: 0 <= i < |lines| ==> !IsFenceLine(lines[i])
    ensures KeptLines(lines, false) == FenceFreeLines(lines)
    decreases |lines|
  {
    if lines != [] {
      NoToggleKeepsFenceFree(lines[1..]);
    }
  }

  /** Every part of a split is free of a text the whole is free of. */
  lemma {:induction false} SplitPartsAvoid(s: string, sep: char, t: string)
    requires !Contains(s, t)
    ensures forall i :: 0 <= i < |Split(s, sep)| ==> !Contains(Split(s, sep)[i], t)
    decreases |s|
  {
    if sep in s {
      var k := IndexOf(s, sep);
      if Contains(s[..k], t) {
        ContainsInSlice(s, 0, k, t);
      }
      if Contains(s[k + 1..], t) {
        assert s[k + 1..|s|] == s[k + 1..];
        ContainsInSlice(s, k + 1, |s|, t);
      }
      SplitPartsAvoid(s[k + 1..], sep, t);
    }
  }

  /** Lines free of "```" all survive, in order. */
  lemma {:induction false} FenceFreeKeptWhole(lines: seq<string>, inBlock: bool)
    requires forall i :: 0 <= i < |lines| ==> !Contains(lines[i], "```")
    ensures KeptLines(lines, inBlock) == lines
    decreases |lines|
  {
    if lines != [] {
      if IsFenceLine(lines[0]) {
        FenceLineHasFence(lines[0]);
      }
      FenceFreeKeptWhole(lines[1..], inBlock);
    }
  }

  /** On a reply without "```", the line filter would give back the reply: the guard around it changes nothing. */
  lemma FenceGuardRedundant(reply: string)
    requires !Contains(reply, "```")
    ensures Strip(Join(KeptLines(Split(reply, '\n'), false), '\n')) == CleanReply(reply)
  {
    SplitPartsAvoid(reply, '\n', "```");
    FenceFreeKeptWhole(Split(reply, '\n'), false);
    JoinSplit(reply, '\n');
  }

  // ---------------------------------------------------------- acceptance

  /** The size check: the cleaned text is non-empty and at least 30% as long as the original. */
  predicate Acceptable(clean: string, original: string)
  {
    clean != [] && 10 * |clean| >= 3 * |original|
  }

  /** The history line for an accepted fix. */
  function HistoryEntry(iteration: int, count: nat): string
  {
    "Iteration " + IntToString(iteration) + ": Fixed " + IntToString(count) + " errors"
  }

  /** The backup of a relative path for an iteration. */
  function BackupName(name: string, iteration: int): (b: string)
    ensures b != [] && IsDigit(b[|b| - 1])
  {
    name + ".backup_iter" + IntToString(iteration)
  }

  /** The backup of a joined path is the joined backup name. */
  lemma BackupOfJoin(d: string, name: string, iteration: int)
    ensures JoinPath(d, name) + ".backup_iter" + IntToString(iteration) == JoinPath(d, BackupName(name, iteration))
  {
  }

  /** No path among `names` is another one's backup for this iteration, so the order of the files does not matter. */
  predicate BackupsDisjoint(names: set<string>, iteration: int)
  {
    forall name | name in names :: BackupName(name, iteration) !in names
  }

  /** What happens to one path with findings. */
  datatype Outcome =
    | Skipped            // an empty list: not processed
    | Missing            // no such file
    | Raised             // the service call raised
    | Rejected           // the cleaned text failed the size check
    | Accepted(clean: string)

  function OutcomeOf(tree: map<string, string>, name: string, errs: seq<string>, iteration: int, history: seq<string>, fix: FixService): (o: Outcome)
    ensures o.Accepted? ==> JoinPath(ProjectDir, name) in tree && Acceptable(o.clean, tree[JoinPath(ProjectDir, name)])
    ensures o.Raised? || o.Rejected? ==> JoinPath(ProjectDir, name) in tree && errs != []
  {
    var path := JoinPath(ProjectDir, name);
    if errs == [] then Skipped
    else if path !in tree then Missing
    else match fix(name, tree[path], errs, iteration, history)
      case None => Raised
      case Some(reply) =>
        var clean := CleanReply(reply);
        if Acceptable(clean, tree[path]) then Accepted(clean) else Rejected
  }

  /** The outcome only looks at the file being fixed. */
  lemma OutcomeFrame(t1: map<string, string>, t2: map<string, string>, name: string, errs: seq<string>, iteration: int, history: seq<string>, fix: FixService)
    requires var path := JoinPath(ProjectDir, name); (path in t1 <==> path in t2) && (path in t1 ==> t1[path] == t2[path])
    ensures OutcomeOf(t1, name, errs, iteration, history, fix) == OutcomeOf(t2, name, errs, iteration, history, fix)
  {
  }

  /** The outcome of every path with findings, against the tree the pass starts from. */
  function Outcomes(tree: map<string, string>, errors: ErrorMap, iteration: int, history: ErrorMap, fix: FixService): (r: map<string, Outcome>)
    ensures r.Keys == errors.Keys
  {
    map n | n in errors :: OutcomeOf(tree, n, errors[n], iteration, Get(history, n, []), fix)
  }

  /** The tree once one outcome is applied: only `my_project/<name>` can change. */
  function Applied(tree: map<string, string>, name: string, o: Outcome, iteration: int): map<string, string>
  {
    var path := JoinPath(ProjectDir, name);
    var backup := JoinPath(ProjectDir, BackupName(name, iteration));
    match o
    case Accepted(clean) => tree[path := clean]
    case Raised => if backup in tree then tree[path := tree[backup]] else tree
    case _ => tree
  }

  /** The tree once the paths in `done` have had their outcomes applied. */
  function FixedTreeOver(tree: map<string, string>, outcomes: map<string, Outcome>, iteration: int, done: set<string>): map<string, string>
  {
    map k | k in tree ::
      if Under(k, ProjectDir) && RelativeTo(k, ProjectDir) in done && RelativeTo(k, ProjectDir) in outcomes then
        var name := RelativeTo(k, ProjectDir);
        Applied(tree, name, outcomes[name], iteration)[k]
      else tree[k]
  }

  /** The paths among `done` whose fix was accepted. */
  function AcceptedNames(outcomes: map<string, Outcome>, done: set<string>): (r: set<string>)
    ensures forall n :: n in r <==> n in done && n in outcomes && outcomes[n].Accepted?
  {
    set n | n in done && n in outcomes && outcomes[n].Accepted?
  }

  /** The fix history with `entries[k]` appended to the history of each path `k` of `entries`. */
  function Recorded(history: ErrorMap, entries: map<string, string>): (r: ErrorMap)
    ensures r.Keys == history.Keys + entries.Keys
    ensures forall k | k in r :: r[k] == if k in entries then Get(history, k, []) + [entries[k]] else history[k]
  {
    map k | k in history.Keys + entries.Keys :: if k in entries then Get(history, k, []) + [entries[k]] else history[k]
  }

  /** The entries this round adds for the paths in `accepted`. */
  function NewEntries(errors: ErrorMap, iteration: int, accepted: set<string>): (r: map<string, string>)
    ensures r.Keys == accepted * errors.Keys
  {
    map n | n in accepted && n in errors :: HistoryEntry(iteration, |errors[n]|)
  }

  /** The fix history once the paths in `done` have been processed. */
  function FixedHistoryOver(history: ErrorMap, errors: ErrorMap, iteration: int, outcomes: map<string, Outcome>, done: set<string>): ErrorMap
  {
    Recorded(history, NewEntries(errors, iteration, AcceptedNames(outcomes, done)))
  }

  /** The state and tree `handle_errors` leaves. */
  function FixPass(st: AgentHubState, tree: map<string, string>, fix: FixService): (AgentHubState, map<string, string>)
  {
    if st.errors == map[] || st.iterationCount >= MaxIterations then (st.(errorsFixed := true), tree)
    else
      var outcomes := Outcomes(tree, st.errors, st.iterationCount, st.fixHistory, fix);
      (st.(errors := map[],
           fixHistory := FixedHistoryOver(st.fixHistory, st.errors, st.iterationCount, outcomes, st.errors.Keys),
           iterationCount := st.iterationCount + 1),
       FixedTreeOver(tree, outcomes, st.iterationCount, st.errors.Keys))
  }

  // ------------------------------------------------------- the pass itself

  /**
   * Applying one more outcome extends the processed tree by that outcome,
   * and leaves the file being fixed, and its backup, as they were.
   */
  lemma FixedTreeStep(tree: map<string, string>, outcomes: map<string, Outcome>, iteration: int, done: set<string>, name: string)
    requires BackupsDisjoint(outcomes.Keys, iteration)
    requires name in outcomes && name !in done
    requires outcomes[name].Accepted? || outcomes[name].Raised? ==> JoinPath(ProjectDir, name) in tree
    ensures var t := FixedTreeOver(tree, outcomes, iteration, done);
      var path := JoinPath(ProjectDir, name);
      && (path in t <==> path in tree) && (path in tree ==> t[path] == tree[path])
      && FixedTreeOver(tree, outcomes, iteration, done + {name}) == Applied(t, name, outcomes[name], iteration)
  {
    var t := FixedTreeOver(tree, outcomes, iteration, done);
    var path := JoinPath(ProjectDir, name);
    var backup := JoinPath(ProjectDir, BackupName(name, iteration));
    RelativeToJoin(ProjectDir, name);
    RelativeToJoin(ProjectDir, BackupName(name, iteration));
    assert path in tree ==> t[path] == tree[path];
    assert backup in tree ==> t[backup] == tree[backup];
    var lhs := FixedTreeOver(tree, outcomes, iteration, done + {name});
    var rhs := Applied(t, name, outcomes[name], iteration);
    assert lhs.Keys == rhs.Keys;
    forall k | k in tree ensures lhs[k] == rhs[k] {
      FixedTreeStepAt(tree, outcomes, iteration, done, name, k);
    }
  }

  /** The pointwise step of `FixedTreeStep`, at one path `k`. */
  lemma FixedTreeStepAt(tree: map<string, string>, outcomes: map<string, Outcome>, iteration: int, done: set<string>, name: string, k: string)
    requires name in outcomes && name !in done && k in tree
    requires var backup := JoinPath(ProjectDir, BackupName(name, iteration));
      backup in tree ==> FixedTreeOver(tree, outcomes, iteration, done)[backup] == tree[backup]
    ensures FixedTreeOver(tree, outcomes, iteration, done + {name})[k]
      == Applied(FixedTreeOver(tree, outcomes, iteration, done), name, outcomes[name], iteration)[k]
  {
    var path := JoinPath(ProjectDir, name);
    RelativeToJoin(ProjectDir, name);
    var t := FixedTreeOver(tree, outcomes, iteration, done);
    var u := Applied(t, name, outcomes[name], iteration);
    if k == path {
      assert Applied(tree, name, outcomes[name], iteration)[k] == u[k];
    } else {
      assert u[k] == t[k];
    }
  }

  /** Processing one more path extends the processed history by at most that path's entry. */
  lemma FixedHistoryStep(history: ErrorMap, errors: ErrorMap, iteration: int, outcomes: map<string, Outcome>, done: set<string>, name: string)
    requires name in errors && name in outcomes && name !in done
    ensures var h := FixedHistoryOver(history, errors, iteration, outcomes, done);
      && Get(h, name, []) == Get(history, name, [])
      && FixedHistoryOver(history, errors, iteration, outcomes, done + {name})
        == if outcomes[name].Accepted? then h[name := Get(history, name, []) + [HistoryEntry(iteration, |errors[name]|)]] else h
  {
    var a := AcceptedNames(outcomes, done);
    var a' := AcceptedNames(outcomes, done + {name});
    var entry := HistoryEntry(iteration, |errors[name]|);
    if outcomes[name].Accepted? {
      assert a' == a + {name};
      assert NewEntries(errors, iteration, a') == NewEntries(errors, iteration, a)[name := entry];
    } else {
      assert a' == a;
    }
    RecordedStep(history, NewEntries(errors, iteration, a), name, entry);
  }

  /** Recording one more entry sets that path's history and nothing else. */
  lemma RecordedStep(history: ErrorMap, entries: map<string, string>, name: string, entry: string)
    requires name !in entries
    ensures Get(Recorded(history, entries), name, []) == Get(history, name, [])
    ensures Recorded(history, entries[name := entry]) == Recorded(history, entries)[name := Get(history, name, []) + [entry]]
  {
    var r := Recorded(history, entries);
    var r' := Recorded(history, entries[name := entry]);
    var e := r[name := Get(history, name, []) + [entry]];
    assert r'.Keys == e.Keys;
    forall k | k in r' ensures r'[k] == e[k] {
    }
  }

  /** Processes one path with findings, as the body of the fix loop does. */
  method FixFile(fs: FileStore, name: string, errs: seq<string>, iteration: int, history: seq<string>, fix: FixService) returns (accepted: bool)
    requires fs.Valid()
    modifies fs`files
    ensures fs.Valid()
    ensures var o := OutcomeOf(old(fs.files), name, errs, iteration, history, fix);
      fs.files == Applied(old(fs.files), name, o, iteration) && accepted == o.Accepted?
  {
    accepted := false;
    var path := JoinPath(ProjectDir, name);
    SlashInJoin(ProjectDir, name);
    if errs != [] && fs.Exists(path) {
      if path in fs.files {
        accepted := FixExisting(fs, name, errs, iteration, history, fix);
      }
      // A directory at the path: reading it raises, and writing a backup onto it raises again and is swallowed.
    }
  }

  /** Asks the fix service about a file that exists and has findings, and applies the reply. */
  method FixExisting(fs: FileStore, name: string, errs: seq<string>, iteration: int, history: seq<string>, fix: FixService) returns (accepted: bool)
    requires fs.Valid() && errs != [] && JoinPath(ProjectDir, name) in fs.files
    modifies fs`files
    ensures fs.Valid()
    ensures var o := OutcomeOf(old(fs.files), name, errs, iteration, history, fix);
      fs.files == Applied(old(fs.files), name, o, iteration) && accepted == o.Accepted?
  {
    var original := fs.files[JoinPath(ProjectDir, name)];
    var response := fix(name, original, errs, iteration, history);
    match response
    case None =>
      accepted := AfterRaise(fs, name, errs, iteration, history, fix);
    case Some(reply) =>
      accepted := AfterReply(fs, name, errs, iteration, history, fix, reply);
  }

  /** The service call raised: the file is restored from its backup, and nothing is accepted. */
  method AfterRaise(fs: FileStore, name: string, errs: seq<string>, iteration: int, history: seq<string>, fix: FixService) returns (accepted: bool)
    requires fs.Valid() && errs != [] && JoinPath(ProjectDir, name) in fs.files
    requires fix(name, fs.files[JoinPath(ProjectDir, name)], errs, iteration, history).None?
    modifies fs`files
    ensures fs.Valid()
    ensures var o := OutcomeOf(old(fs.files), name, errs, iteration, history, fix);
      fs.files == Applied(old(fs.files), name, o, iteration) && accepted == o.Accepted?
  {
    OutcomeWhenRaised(fs.files, name, errs, iteration, history, fix);
    RestoreBackup(fs, name, iteration);
    accepted := false;
  }

  /** The service replied: the cleaned reply replaces the file when it passes the size check. */
  method AfterReply(fs: FileStore, name: string, errs: seq<string>, iteration: int, history: seq<string>, fix: FixService, reply: string)
    returns (accepted: bool)
    requires fs.Valid() && errs != [] && JoinPath(ProjectDir, name) in fs.files
    requires fix(name, fs.files[JoinPath(ProjectDir, name)], errs, iteration, history) == Some(reply)
    modifies fs`files
    ensures fs.Valid()
    ensures var o := OutcomeOf(old(fs.files), name, errs, iteration, history, fix);
      fs.files == Applied(old(fs.files), name, o, iteration) && accepted == o.Accepted?
  {
    ghost var tree := fs.files;
    OutcomeWhenReplied(tree, name, errs, iteration, history, fix, reply);
    accepted := ApplyReply(fs, name, reply);
    if accepted {
      AppliedAccepted(tree, name, CleanReply(reply), iteration);
    } else {
      AppliedRejected(tree, name, iteration);
    }
  }

  /** An accepted fix replaces the file's text and nothing else. */
  lemma AppliedAccepted(tree: map<string, string>, name: string, clean: string, iteration: int)
    ensures Applied(tree, name, Accepted(clean), iteration) == tree[JoinPath(ProjectDir, name) := clean]
  {
  }

  /** A rejected fix leaves the tree as it was. */
  lemma AppliedRejected(tree: map<string, string>, name: string, iteration: int)
    ensures Applied(tree, name, Rejected, iteration) == tree
  {
  }

  /** A call that raises on an existing file with findings is the `Raised` outcome. */
  lemma OutcomeWhenRaised(tree: map<string, string>, name: string, errs: seq<string>, iteration: int, history: seq<string>, fix: FixService)
    requires errs != [] && JoinPath(ProjectDir, name) in tree
    requires fix(name, tree[JoinPath(ProjectDir, name)], errs, iteration, history).None?
    ensures OutcomeOf(tree, name, errs, iteration, history, fix) == Raised
  {
  }

  /** A reply for an existing file with findings is accepted exactly when its cleaned text passes the size check. */
  lemma OutcomeWhenReplied(tree: map<string, string>, name: string, errs: seq<string>, iteration: int, history: seq<string>, fix: FixService, reply: string)
    requires errs != [] && JoinPath(ProjectDir, name) in tree
    requires fix(name, tree[JoinPath(ProjectDir, name)], errs, iteration, history) == Some(reply)
    ensures var clean := CleanReply(reply);
      OutcomeOf(tree, name, errs, iteration, history, fix)
        == if Acceptable(clean, tree[JoinPath(ProjectDir, name)]) then Accepted(clean) else Rejected
  {
  }

  /** After a failed call the file is put back from this round's backup, if there is one. */
  method RestoreBackup(fs: FileStore, name: string, iteration: int)
    requires fs.Valid() && JoinPath(ProjectDir, name) in fs.files
    modifies fs`files
    ensures fs.Valid()
    ensures fs.files == Applied(old(fs.files), name, Raised, iteration)
  {
    var path := JoinPath(ProjectDir, name);
    var backup := path + ".backup_iter" + IntToString(iteration);
    BackupOfJoin(ProjectDir, name, iteration);
    SlashInJoin(ProjectDir, BackupName(name, iteration));
    if fs.Exists(backup) && backup in fs.files {
      var text := fs.files[backup];
      fs.WriteFile(path, text);
    }
  }

  /** A reply is cleaned and written over the file unless it fails the size check. */
  method ApplyReply(fs: FileStore, name: string, reply: string) returns (accepted: bool)
    requires fs.Valid() && JoinPath(ProjectDir, name) in fs.files
    modifies fs`files
    ensures fs.Valid()
    ensures var path := JoinPath(ProjectDir, name);
      && accepted == Acceptable(CleanReply(reply), old(fs.files)[path])
      && fs.files == if accepted then old(fs.files)[path := CleanReply(reply)] else old(fs.files)
  {
    var path := JoinPath(ProjectDir, name);
    var original := fs.files[path];
    var clean := CleanFixReply(reply);
    if clean == [] || 10 * |clean| < 3 * |original| {
      accepted := false;
    } else {
      fs.WriteFile(path, clean);
      accepted := true;
    }
  }

  /** Before any path is processed, tree and history are as they were. */
  lemma NothingProcessed(tree: map<string, string>, history: ErrorMap, errors: ErrorMap, iteration: int, outcomes: map<string, Outcome>)
    ensures FixedTreeOver(tree, outcomes, iteration, {}) == tree
    ensures FixedHistoryOver(history, errors, iteration, outcomes, {}) == history
  {
    assert AcceptedNames(outcomes, {}) == {};
  }

  /** Tree and history are those left once the paths in `done` are processed. */
  ghost predicate Progress(files: map<string, string>, fixHistory: ErrorMap, tree: map<string, string>, history: ErrorMap,
                           errors: ErrorMap, iteration: int, outcomes: map<string, Outcome>, done: set<string>)
  {
    && files == FixedTreeOver(tree, outcomes, iteration, done)
    && fixHistory == FixedHistoryOver(history, errors, iteration, outcomes, done)
  }

  /** One turn of the fix loop: processes `name` after the paths in `done`. */
  method FixNext(fs: FileStore, ghost tree: map<string, string>, errors: ErrorMap, iteration: int, history: ErrorMap, fix: FixService,
                 ghost outcomes: map<string, Outcome>, ghost done: set<string>, name: string, fixHistory: ErrorMap) returns (fixHistory': ErrorMap)
    requires fs.Valid()
    requires BackupsDisjoint(errors.Keys, iteration)
    requires name in errors && name !in done
    requires outcomes == Outcomes(tree, errors, iteration, history, fix)
    requires Progress(fs.files, fixHistory, tree, history, errors, iteration, outcomes, done)
    modifies fs`files
    ensures fs.Valid()
    ensures Progress(fs.files, fixHistory', tree, history, errors, iteration, outcomes, done + {name})
  {
    FixedTreeStep(tree, outcomes, iteration, done, name);
    FixedHistoryStep(history, errors, iteration, outcomes, done, name);
    var fileHistory := Get(fixHistory, name, []);
    OutcomeFrame(fs.files, tree, name, errors[name], iteration, fileHistory, fix);
    var accepted := FixFile(fs, name, errors[name], iteration, fileHistory, fix);
    fixHistory' := fixHistory;
    if accepted {
      fixHistory' := fixHistory[name := fileHistory + [HistoryEntry(iteration, |errors[name]|)]];
    }
  }

  /**
   * The loop of `handle_errors` over the paths with findings. Paths are
   * processed in any order; the result does not depend on it because no
   * path with findings is another's backup.
   */
  method FixAll(fs: FileStore, errors: ErrorMap, iteration: int, history: ErrorMap, fix: FixService) returns (fixHistory: ErrorMap)
    requires fs.Valid()
    requires BackupsDisjoint(errors.Keys, iteration)
    modifies fs`files
    ensures fs.Valid()
    ensures var outcomes := Outcomes(old(fs.files), errors, iteration, history, fix);
      && fs.files == FixedTreeOver(old(fs.files), outcomes, iteration, errors.Keys)
      && fixHistory == FixedHistoryOver(history, errors, iteration, outcomes, errors.Keys)
  {
    ghost var tree := fs.files;
    ghost var outcomes := Outcomes(tree, errors, iteration, history, fix);
    fixHistory := history;
    NothingProcessed(tree, history, errors, iteration, outcomes);
    var todo := errors.Keys;
    ghost var done: set<string> := {};
    while todo != {}
      invariant todo !! done && todo + done == errors.Keys
      invariant fs.Valid()
      invariant Progress(fs.files, fixHistory, tree, history, errors, iteration, outcomes, done)
      decreases todo
    {
      var name :| name in todo;
      fixHistory := FixNext(fs, tree, errors, iteration, history, fix, outcomes, done, name, fixHistory);
      done := done + {name};
      todo := todo - {name};
    }
    assert done == errors.Keys;
  }

  /** `handle_errors`. */
  method HandleErrors(st: AgentHubState, fs: FileStore, fix: FixService) returns (st': AgentHubState)
    requires fs.Valid()
    requires BackupsDisjoint(st.errors.Keys, st.iterationCount)
    modifies fs`files
    ensures fs.Valid()
    ensures (st', fs.files) == FixPass(st, old(fs.files), fix)
  {
    var errorDict := st.errors;
    if errorDict == map[] {
      return st.(errorsFixed := true);
    }
    var iteration := st.iterationCount;
    var fixHistory := st.fixHistory;
    if iteration >= MaxIterations {
      return st.(errorsFixed := true);
    }
    fixHistory := FixAll(fs, errorDict, iteration, fixHistory, fix);
    st' := st.(errors := map[], fixHistory := fixHistory, iterationCount := iteration + 1);
  }
}
