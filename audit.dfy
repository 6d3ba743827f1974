/**
 * The audit pass, `check_errors`: it walks `my_project`, sends every
 * eligible source file to the audit service, decodes the JSON defect list
 * in each reply and records the files whose list is non-empty.
 */
module Audit {
  import opened Wrappers
  import opened PyStr
  import opened State
  import opened FileTree

  /** Directories the walk does not descend into. */
  const PrunedDirs: set<string> := {".git", "__pycache__", "node_modules", ".venv", "venv"}

  /** Name endings that are skipped before the suffix test. */
  const SkippedEndings: seq<string> := [".pyc", ".pyo", ".pyd", ".so", ".dll", ".backup"]

  /** Lower-cased suffixes of the files that are audited. */
  const AllowedSuffixes: set<string> :=
    {".py", ".js", ".jsx", ".ts", ".tsx", ".json", ".yaml", ".yml",
     ".html", ".css", ".java", ".cpp", ".c", ".h", ".go", ".rs", ".rb"}

  /** The error map recorded when the project directory does not exist. */
  const GlobalErrors: ErrorMap := map["_global" := ["Project directory not found"]]

  /** What the JSON decoder makes of a payload: a failure, a list (each element shown as text) or any other value, shown as text. */
  datatype Decoded = DecodeError | DList(items: seq<string>) | DScalar(shown: string)

  /** The audit service: relative path, file text and the previous findings for that path; `None` when the call raises. */
  type AuditService = (string, string, seq<string>) -> Option<string>

  /** `json.loads`. */
  type Decoder = string -> Decoded

  /** `Path(name).suffix`: from the last "." on, when that dot is neither the first nor the last character. */
  function Suffix(name: string): (r: string)
    ensures r == [] || (2 <= |r| < |name| && r[0] == '.' && EndsWith(name, r) && '.' !in r[1..])
    ensures r == [] <==> (var i := RFind(name, '.'); !(0 < i < |name| - 1))
  {
    var i := RFind(name, '.');
    if 0 < i < |name| - 1 then name[i..] else []
  }

  /** The last segment of a relative path: the name `os.walk` lists the file under. */
  function FileName(rel: string): (name: string)
    ensures '/' !in name && |name| <= |rel| && rel[|rel| - |name|..] == name
    ensures name == rel || rel[|rel| - |name| - 1] == '/'
  {
    rel[NameStart(rel, |rel|)..]
  }

  /** Where the segment ending at `n` starts: just after the last "/" before `n`, or 0. */
  function NameStart(rel: string, n: nat): (a: nat)
    requires n <= |rel|
    ensures a <= n
    ensures a == 0 || rel[a - 1] == '/'
    ensures forall k | a <= k < n :: rel[k] != '/'
  {
    if n == 0 || rel[n - 1] == '/' then n else NameStart(rel, n - 1)
  }

  /** No directory segment of `rel` is one the walk prunes. */
  predicate Walkable(rel: string)
  {
    var parts := Split(rel, '/');
    forall j :: 0 <= j < |parts| - 1 ==> parts[j] !in PrunedDirs
  }

  /** The name filter of the walk: not hidden, not a skipped ending, and an allowed suffix. */
  predicate KeepName(name: string)
  {
    && !StartsWith(name, ".")
    && (forall j :: 0 <= j < |SkippedEndings| ==> !EndsWith(name, SkippedEndings[j]))
    && Lower(Suffix(name)) in AllowedSuffixes
  }

  /** The file `my_project/<rel>` exists and the walk hands it to the audit service. */
  predicate AuditedPath(tree: map<string, string>, rel: string)
  {
    JoinPath(ProjectDir, rel) in tree && Walkable(rel) && KeepName(FileName(rel))
  }

  /** The relative paths of the files the walk audits. */
  function Audited(tree: map<string, string>): (r: set<string>)
    ensures forall rel | rel in r :: JoinPath(ProjectDir, rel) in tree
  {
    set k | k in tree && Under(k, ProjectDir) && AuditedPath(tree, RelativeTo(k, ProjectDir)) :: RelativeTo(k, ProjectDir)
  }

  /** The walk audits exactly the existing `my_project` files outside pruned directories whose names pass the filter. */
  lemma AuditedIff(tree: map<string, string>, rel: string)
    ensures rel in Audited(tree) <==> AuditedPath(tree, rel)
  {
    if AuditedPath(tree, rel) {
      RelativeToJoin(ProjectDir, rel);
    }
  }

  /**
   * The payload cut out of an audit reply: after the first "```json" (else
   * after the first "```") up to the next "```", trimmed; a reply with no
   * fence is passed on unchanged. Without a closing fence the stop index is
   * -1, so the slice runs to one before the end.
   */
  function JsonPayload(text: string): string
  {
    var start := PayloadStart(text);
    if start < 0 then text else PayloadFrom(text, start)
  }

  /** Where the payload starts: just after the first "```json", else just after the first "```"; -1 without a fence. */
  function PayloadStart(text: string): (start: int)
    ensures start <= |text|
  {
    if Contains(text, "```json") then Find(text, "```json", 0) + 7
    else if Contains(text, "```") then Find(text, "```", 0) + 3
    else -1
  }

  /** The trimmed text from `start` up to the next "```" (or up to one before the end when there is none). */
  function PayloadFrom(text: string, start: nat): string
    requires start <= |text|
  {
    Strip(PySlice(text, start, Find(text, "```", start)))
  }

  /** The defect list taken from one audit reply. */
  function Findings(reply: Option<string>, decode: Decoder): (r: seq<string>)
    ensures r == [] <==> (reply.None? || decode(JsonPayload(reply.value)).DecodeError?
                          || decode(JsonPayload(reply.value)) == DList([]))
    ensures reply.Some? && decode(JsonPayload(reply.value)).DList? ==> r == decode(JsonPayload(reply.value)).items
    ensures reply.Some? && decode(JsonPayload(reply.value)).DScalar? ==> r == [decode(JsonPayload(reply.value)).shown]
  {
    match reply
    case None => []
    case Some(text) =>
      match decode(JsonPayload(text))
      case DecodeError => []
      case DList(items) => items
      case DScalar(shown) => [shown]
  }

  /** The findings for the audited file `my_project/<rel>`. */
  function FileFindings(tree: map<string, string>, history: ErrorMap, audit: AuditService, decode: Decoder, rel: string): seq<string>
    requires JoinPath(ProjectDir, rel) in tree
  {
    Findings(audit(rel, tree[JoinPath(ProjectDir, rel)], Get(history, rel, [])), decode)
  }

  /** The error map of a completed walk: every audited file whose findings are non-empty, with those findings. */
  function AuditErrors(tree: map<string, string>, history: ErrorMap, audit: AuditService, decode: Decoder): (errs: ErrorMap)
    ensures NonEmptyLists(errs)
    ensures forall rel | rel in errs :: AuditedPath(tree, rel)
    ensures forall rel | AuditedPath(tree, rel) ::
      (rel in errs <==> FileFindings(tree, history, audit, decode, rel) != [])
    ensures forall rel | rel in errs :: JoinPath(ProjectDir, rel) in tree && errs[rel] == FileFindings(tree, history, audit, decode, rel)
  {
    forall rel ensures rel in Audited(tree) <==> AuditedPath(tree, rel) {
      AuditedIff(tree, rel);
    }
    map rel | rel in Audited(tree) && FileFindings(tree, history, audit, decode, rel) != []
      :: FileFindings(tree, history, audit, decode, rel)
  }

  /** A map with the keys and values `AuditErrors` describes is `AuditErrors`. */
  lemma AuditErrorsUnique(tree: map<string, string>, history: ErrorMap, audit: AuditService, decode: Decoder, m: ErrorMap)
    requires forall rel :: rel in m <==> (rel in Audited(tree) && FileFindings(tree, history, audit, decode, rel) != [])
    requires forall rel | rel in m :: rel in Audited(tree) && m[rel] == FileFindings(tree, history, audit, decode, rel)
    ensures m == AuditErrors(tree, history, audit, decode)
  {
    var e := AuditErrors(tree, history, audit, decode);
    forall rel ensures (rel in m <==> rel in e) && (rel in m ==> m[rel] == e[rel]) {
      AuditedIff(tree, rel);
    }
    MapsAgree(m, e);
  }

  /** The state `check_errors` returns, given the tree and the top-level directories. */
  function AuditPass(st: AgentHubState, tree: map<string, string>, dirs: set<string>, audit: AuditService, decode: Decoder): AgentHubState
  {
    if ProjectDir !in tree && ProjectDir !in dirs then st.(errors := GlobalErrors)
    else
      var errs := AuditErrors(tree, st.errorHistory, audit, decode);
      st.(errors := errs, errorHistory := errs, codeGenerated := st.codeGenerated || errs == map[])
  }

  /**
   * `check_errors`: it reads the tree and changes nothing on disk. The walk
   * order is left open: each round picks any file not yet audited.
   */
  method CheckErrors(st: AgentHubState, fs: FileStore, audit: AuditService, decode: Decoder) returns (st': AgentHubState)
    ensures st' == AuditPass(st, fs.files, fs.dirs, audit, decode)
  {
    if !fs.Exists(ProjectDir) {
      return st.(errors := GlobalErrors);
    }
    var tree := fs.files;
    var todo := Audited(tree);
    var errorDict: ErrorMap := map[];
    while todo != {}
      invariant todo <= Audited(tree)
      invariant WalkedSoFar(tree, st.errorHistory, audit, decode, todo, errorDict)
      decreases todo
    {
      var rel :| rel in todo;
      var path := JoinPath(ProjectDir, rel);
      var reply := audit(rel, tree[path], Get(st.errorHistory, rel, []));
      var errors := Findings(reply, decode);
      WalkStep(tree, st.errorHistory, audit, decode, todo, errorDict, rel);
      if errors != [] {
        errorDict := errorDict[rel := errors];
      }
      todo := todo - {rel};
    }
    AuditErrorsUnique(tree, st.errorHistory, audit, decode, errorDict);
    st' := st.(errors := errorDict, errorHistory := errorDict, codeGenerated := st.codeGenerated || errorDict == map[]);
  }

  /** The error map holds exactly the files audited so far (those not in `todo`) with non-empty findings, each with its findings. */
  ghost predicate WalkedSoFar(tree: map<string, string>, history: ErrorMap, audit: AuditService, decode: Decoder,
                              todo: set<string>, m: ErrorMap)
  {
    && (forall rel :: rel in m <==> (rel in Audited(tree) && rel !in todo && FileFindings(tree, history, audit, decode, rel) != []))
    && (forall rel | rel in m :: rel in Audited(tree) && m[rel] == FileFindings(tree, history, audit, decode, rel))
  }

  /** Auditing one more file keeps the error map in step with the walk. */
  lemma WalkStep(tree: map<string, string>, history: ErrorMap, audit: AuditService, decode: Decoder,
                 todo: set<string>, m: ErrorMap, rel: string)
    requires todo <= Audited(tree) && rel in todo
    requires WalkedSoFar(tree, history, audit, decode, todo, m)
    ensures var f := FileFindings(tree, history, audit, decode, rel);
      WalkedSoFar(tree, history, audit, decode, todo - {rel}, if f != [] then m[rel := f] else m)
  {
    WalkStepKeys(tree, history, audit, decode, todo, m, rel);
    WalkStepValues(tree, history, audit, decode, todo, m, rel);
  }

  /** Auditing one more file keeps the keys of the error map in step with the walk. */
  lemma WalkStepKeys(tree: map<string, string>, history: ErrorMap, audit: AuditService, decode: Decoder,
                     todo: set<string>, m: ErrorMap, rel: string)
    requires todo <= Audited(tree) && rel in todo
    requires WalkedSoFar(tree, history, audit, decode, todo, m)
    ensures var f := FileFindings(tree, history, audit, decode, rel); var m' := if f != [] then m[rel := f] else m;
      forall x :: x in m' <==> (x in Audited(tree) && x !in todo - {rel} && FileFindings(tree, history, audit, decode, x) != [])
  {
  }

  /** Auditing one more file keeps the values of the error map in step with the walk. */
  lemma WalkStepValues(tree: map<string, string>, history: ErrorMap, audit: AuditService, decode: Decoder,
                       todo: set<string>, m: ErrorMap, rel: string)
    requires todo <= Audited(tree) && rel in todo
    requires WalkedSoFar(tree, history, audit, decode, todo, m)
    ensures var f := FileFindings(tree, history, audit, decode, rel); var m' := if f != [] then m[rel := f] else m;
      forall x | x in m' :: x in Audited(tree) && m'[x] == FileFindings(tree, history, audit, decode, x)
  {
  }

  /**
   * What the audit pass changes: `errors` always; `error_history` (replaced
   * by the new map, not merged) and `code_generated` (set exactly when the
   * map is empty, never cleared) only when the project exists; nothing else.
   */
  lemma AuditPassFrame(st: AgentHubState, tree: map<string, string>, dirs: set<string>, audit: AuditService, decode: Decoder)
    ensures var r := AuditPass(st, tree, dirs, audit, decode);
      && r == st.(errors := r.errors, errorHistory := r.errorHistory, codeGenerated := r.codeGenerated)
      && r.codeGenerated == (st.codeGenerated || r.errors == map[])
      && (ProjectDir in tree || ProjectDir in dirs ==> r.errorHistory == r.errors)
      && (ProjectDir !in tree && ProjectDir !in dirs ==> r.errors == GlobalErrors && r.errorHistory == st.errorHistory)
      && NonEmptyLists(r.errors)
  {
    assert "_global" in GlobalErrors;
  }

  /** A file whose name has a dot only at its very start has no suffix. */
  lemma RFindOnlyDot(a: string, b: string)
    requires '.' !in b
    ensures RFind(a + "." + b, '.') == |a|
  {
    var s := a + "." + b;
    var i := RFind(s, '.');
    assert s[|a|] == '.';
  }

  /** Lower-casing text with no upper-case ASCII letter changes nothing. */
  lemma LowerOfLower(s: string)
    requires forall i :: 0 <= i < |s| ==> !('A' <= s[i] <= 'Z')
    ensures Lower(s) == s
  {
  }

  /** A name ending in a one-dot ending that is lower-case and not allowed fails the suffix test. */
  lemma EndingExcluded(name: string, e: string)
    requires |e| >= 2 && e[0] == '.' && '.' !in e[1..] && Lower(e) == e && e !in AllowedSuffixes
    requires EndsWith(name, e)
    ensures Lower(Suffix(name)) !in AllowedSuffixes
  {
    var a := name[..|name| - |e|];
    assert name == a + "." + e[1..];
    RFindOnlyDot(a, e[1..]);
    var suf := Suffix(name);
    if 0 < |a| {
      assert suf == e;
    } else {
      assert suf == [];
      assert Lower(suf) == [];
    }
  }

  /** The name filter's list of skipped endings never excludes a file the suffix test would keep. */
  lemma SkippedEndingsRedundant(name: string)
    ensures KeepName(name) <==> !StartsWith(name, ".") && Lower(Suffix(name)) in AllowedSuffixes
  {
    forall j | 0 <= j < |SkippedEndings| && EndsWith(name, SkippedEndings[j])
      ensures Lower(Suffix(name)) !in AllowedSuffixes
    {
      SkippedEndingExcluded(name, j);
    }
  }

  lemma SkippedEndingExcluded(name: string, j: nat)
    requires j < |SkippedEndings| && EndsWith(name, SkippedEndings[j])
    ensures Lower(Suffix(name)) !in AllowedSuffixes
  {
    var e := SkippedEndings[j];
    LowerOfLower(e);
    EndingExcluded(name, e);
  }

  /** Every allowed suffix ends with a lower-case ASCII letter. */
  lemma AllowedSuffixesEndInLetter(s: string)
    requires s in AllowedSuffixes
    ensures s != [] && 'a' <= s[|s| - 1] <= 'z'
  {
  }

  /** An audited name ends with an ASCII letter. */
  lemma KeptNameEndsInLetter(name: string)
    requires KeepName(name)
    ensures name != [] && IsAsciiLetter(name[|name| - 1])
  {
    AllowedSuffixEndsInLetter(Suffix(name));
    SuffixSharesLast(name);
  }

  /** A suffix that lower-cases to an allowed one ends in a letter. */
  lemma AllowedSuffixEndsInLetter(suf: string)
    requires Lower(suf) in AllowedSuffixes
    ensures suf != [] && IsAsciiLetter(suf[|suf| - 1])
  {
    AllowedSuffixesEndInLetter(Lower(suf));
    LowerKeepsLetter(suf);
  }

  /** A text whose lower-cased last character is a lower-case letter ends in a letter. */
  lemma LowerKeepsLetter(s: string)
    requires Lower(s) != [] && 'a' <= Lower(s)[|s| - 1] <= 'z'
    ensures s != [] && IsAsciiLetter(s[|s| - 1])
  {
  }

  /** A non-empty suffix ends with the name's last character. */
  lemma SuffixSharesLast(name: string)
    requires Suffix(name) != []
    ensures name != [] && name[|name| - 1] == Suffix(name)[|Suffix(name)| - 1]
  {
  }

  /** Every path the audit records (including the `_global` marker) ends with an ASCII letter. */
  lemma ErrorKeysEndInLetter(st: AgentHubState, tree: map<string, string>, dirs: set<string>, audit: AuditService, decode: Decoder)
    ensures forall rel | rel in AuditPass(st, tree, dirs, audit, decode).errors :: rel != [] && IsAsciiLetter(rel[|rel| - 1])
  {
    var errs := AuditPass(st, tree, dirs, audit, decode).errors;
    forall rel | rel in errs ensures rel != [] && IsAsciiLetter(rel[|rel| - 1]) {
      if ProjectDir in tree || ProjectDir in dirs {
        AuditedPathEndsInLetter(tree, rel);
      } else {
        assert rel == "_global";
      }
    }
  }

  lemma AuditedPathEndsInLetter(tree: map<string, string>, rel: string)
    requires AuditedPath(tree, rel)
    ensures rel != [] && IsAsciiLetter(rel[|rel| - 1])
  {
    var name := FileName(rel);
    KeptNameEndsInLetter(name);
    assert rel[|rel| - 1] == name[|name| - 1];
  }

  /** Only files inside `my_project` matter: trees that agree there give the same error map. */
  lemma AuditSeesOnlyProject(t1: map<string, string>, t2: map<string, string>, history: ErrorMap, audit: AuditService, decode: Decoder)
    requires forall k | Under(k, ProjectDir) :: (k in t1 <==> k in t2) && (k in t1 ==> t1[k] == t2[k])
    ensures AuditErrors(t1, history, audit, decode) == AuditErrors(t2, history, audit, decode)
  {
    var e1 := AuditErrors(t1, history, audit, decode);
    var e2 := AuditErrors(t2, history, audit, decode);
    forall rel ensures (rel in e1 <==> rel in e2) && (rel in e1 ==> e1[rel] == e2[rel]) {
      SameProjectFile(t1, t2, history, audit, decode, rel);
    }
    MapsAgree(e1, e2);
  }

  /** Two error maps with the same keys and the same list at each key are the same map. */
  lemma MapsAgree(e1: ErrorMap, e2: ErrorMap)
    requires forall rel :: (rel in e1 <==> rel in e2) && (rel in e1 ==> e1[rel] == e2[rel])
    ensures e1 == e2
  {
    assert e1.Keys == e2.Keys;
  }

  /** Trees that agree inside `my_project` agree on whether `rel` is audited and on its findings. */
  lemma SameProjectFile(t1: map<string, string>, t2: map<string, string>, history: ErrorMap, audit: AuditService, decode: Decoder, rel: string)
    requires forall k | Under(k, ProjectDir) :: (k in t1 <==> k in t2) && (k in t1 ==> t1[k] == t2[k])
    ensures AuditedPath(t1, rel) <==> AuditedPath(t2, rel)
    ensures AuditedPath(t1, rel) ==>
      FileFindings(t1, history, audit, decode, rel) == FileFindings(t2, history, audit, decode, rel)
  {
    RelativeToJoin(ProjectDir, rel);
  }

  /** A payload wrapped in a "```json" fence on its own lines comes back out unchanged. */
  lemma JsonFenceRoundTrip(p: string)
    requires IsStripped(p) && !Contains(p, "```")
    ensures JsonPayload("```json\n" + p + "\n" + "```") == p
  {
    var text := "```json\n" + p + "\n" + "```";
    assert text[..7] == "```json";
    ClosingFence(p);
    JsonPayloadOpened(text);
    FencedBody(p);
    StripSurrounded(p);
  }

  /** Between the opening tag and the closing fence lies the payload with its two newlines. */
  lemma FencedBody(p: string)
    ensures ("```json\n" + p + "\n" + "```")[7..|p| + 9] == "\n" + p + "\n"
  {
    var text := "```json\n" + p + "\n" + "```";
    var body := "\n" + p + "\n";
    forall i | 0 <= i < |body| ensures text[7 + i] == body[i] {
      if 1 <= i <= |p| {
        assert text[7 + i] == p[i - 1];
      }
    }
  }

  /** A reply that opens with "```json" yields the trimmed text between that tag and the next fence. */
  lemma JsonPayloadOpened(text: string)
    requires OccursAt(text, "```json", 0)
    ensures PayloadStart(text) == 7 && JsonPayload(text) == PayloadFrom(text, 7)
  {
    assert Find(text, "```json", 0) == 0;
  }

  /** In a fenced payload the first "```" after the opening tag is the closing fence. */
  lemma ClosingFence(p: string)
    requires !Contains(p, "```")
    ensures Find("```json\n" + p + "\n" + "```", "```", 7) == |p| + 9
  {
    var text := "```json\n" + p + "\n" + "```";
    var close := |p| + 9;
    OccursAtEnd("```json\n" + p + "\n", "```");
    forall i | 7 <= i < close ensures !OccursAt(text, "```", i) {
      FenceInsidePayload(p, i);
    }
    FindFirst(text, "```", 7, close);
  }

  lemma FenceInsidePayload(p: string, i: nat)
    requires !Contains(p, "```") && 7 <= i < |p| + 9
    ensures !OccursAt("```json\n" + p + "\n" + "```", "```", i)
  {
    if i == 7 || |p| + 5 < i {
      NewlineBreaksFence(p, i);
    } else {
      FenceWithinPayload(p, i);
    }
  }

  /** A "```" starting at the opening newline or over the closing newline would have to include that newline. */
  lemma NewlineBreaksFence(p: string, i: nat)
    requires i == 7 || |p| + 5 < i < |p| + 9
    ensures !OccursAt("```json\n" + p + "\n" + "```", "```", i)
  {
    var text := "```json\n" + p + "\n" + "```";
    var j := if i == 7 then 0 else |p| + 8 - i;
    if i + 3 <= |text| {
      assert text[i..i + 3][j] == text[i + j] == '\n';
    }
  }

  /** Inside the payload a "```" of the wrapped text is one of the payload. */
  lemma FenceWithinPayload(p: string, i: nat)
    requires 8 <= i <= |p| + 5
    ensures OccursAt("```json\n" + p + "\n" + "```", "```", i) == OccursAt(p, "```", i - 8)
  {
    var text := "```json\n" + p + "\n" + "```";
    forall k | i <= k < i + 3 ensures text[k] == p[k - 8] {
    }
    assert text[i..i + 3] == p[i - 8..i - 5];
  }

  /** Stripping a stripped text framed by one newline on each side gives back the text. */
  lemma StripSurrounded(p: string)
    requires IsStripped(p)
    ensures Strip("\n" + p + "\n") == p
  {
    var s := "\n" + p + "\n";
    if p == [] {
      assert SkipWhile(s, 0, IsSpace) == 2;
    } else {
      assert SkipWhile(s, 1, IsSpace) == 1;
      assert SkipWhile(s, 0, IsSpace) == 1;
      var t := s[1..];
      assert t == p + "\n";
      assert t[..|t| - 1] == p;
      assert TrailingSpace(p) == 0;
      assert TrailingSpace(t) == 1;
    }
  }

  /** Without a closing fence the last character of the reply is cut off before decoding. */
  lemma UnclosedFenceDropsLastChar(body: string)
    requires body != [] && !Contains(body, "`")
    ensures JsonPayload("```json" + body) == Strip(body[..|body| - 1])
  {
    var text := "```json" + body;
    assert OccursAt(text, "```json", 0);
    JsonPayloadOpened(text);
    NoClosingFence(body);
    assert text[7..|text| - 1] == body[..|body| - 1];
  }

  /** A body without a backquote holds no closing fence. */
  lemma NoClosingFence(body: string)
    requires !Contains(body, "`")
    ensures Find("```json" + body, "```", 7) == -1
  {
    var text := "```json" + body;
    ContainsIff(body, "`");
    forall i | 7 <= i ensures !OccursAt(text, "```", i) {
      if i + 3 <= |text| {
        assert !OccursAt(body, "`", i - 7);
        assert body[i - 7..i - 6] == [text[i]];
        assert text[i..i + 3][0] == text[i];
      }
    }
  }
}
