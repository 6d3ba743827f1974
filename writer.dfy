/**
 * The project writer, `write_files_to_directory`: it picks a base directory,
 * removes it if it exists, creates it, and writes every parsed file beneath
 * it, creating the directories on the way. Any step that the file system
 * refuses raises, and the writer stops there.
 */
module Writer {
  import opened PyStr
  import opened Wrappers
  import opened Parser
  import opened FileTree

  /** Conventional first segments that are never taken for the project's own root. */
  const ReservedRoots: seq<string> := ["src", "app", "lib", "tests", "docs"]

  /**
   * The base directory: the first path's first segment when the path has a
   * "/" and that segment is not reserved; otherwise `my_project`.
   */
  function DetectBase(files: seq<FileEntry>): (base: string)
    requires files != []
    ensures '/' !in base
    ensures base == [] <==> (files[0].path != [] && files[0].path[0] == '/')
    ensures ValidRelPath(files[0].path) ==> IsName(base)
    ensures base == ProjectDir || (Under(files[0].path, base) && base !in ReservedRoots)
    ensures '/' in files[0].path && Root(files[0].path) !in ReservedRoots ==> Under(files[0].path, base)
  {
    var first := files[0].path;
    UnderIffRoot(first, Root(first));
    assert '/' in first ==> Split(first, '/')[0] == Root(first) && Split(first, '/')[0] in Split(first, '/');
    if '/' in first && Root(first) !in ReservedRoots then Root(first) else ProjectDir
  }

  /** `relative_path`: the entry's path with one leading `<base>/` taken off. */
  function Relative(base: string, path: string): (rel: string)
    ensures Under(path, base) ==> JoinPath(base, rel) == path
    ensures !Under(path, base) ==> rel == path
  {
    if Under(path, base) then RelativeTo(path, base) else path
  }

  /** `file_path`: the relative path joined under `base`. */
  function Target(base: string, path: string): (t: string)
    ensures Under(t, base)
    ensures Under(path, base) ==> t == path
    ensures !Under(path, base) ==> t == JoinPath(base, path)
  {
    RelativeToJoin(base, Relative(base, path));
    JoinPath(base, Relative(base, path))
  }

  /** An absolute relative path: `os.path.join` then drops the base, and the file goes outside the working directory. */
  predicate Absolute(rel: string)
  {
    rel != [] && rel[0] == '/'
  }

  /** The "/"-separated segments of `file_path`. */
  function FileSegments(base: string, path: string): (segs: seq<string>)
    ensures |segs| >= 1 && forall i | 0 <= i < |segs| :: '/' !in segs[i]
  {
    Split(Target(base, path), '/')
  }

  /** The working directory after a step of the writer, and whether that step raised. */
  datatype Written = Written(files: map<string, string>, dirs: set<string>, raised: bool)

  /**
   * One turn of the writer's loop: `os.makedirs(os.path.dirname(file_path))`
   * and then `open(file_path, "w")`. It raises when a file is in the way of
   * a directory, when the last segment is not a name, or when a directory
   * has the file's name. An absolute path, or one that climbs above the
   * working directory, writes outside it.
   */
  function AfterEntry(files: map<string, string>, dirs: set<string>, base: string, e: FileEntry): (w: Written)
    ensures w.raised ==> w.files == files
    ensures dirs <= w.dirs
  {
    if Absolute(Relative(base, e.path)) then Written(files, dirs, false)
    else
      var segs := FileSegments(base, e.path);
      var made := MakeDirsFrom(files, dirs, [], segs[..|segs| - 1]);
      var last := segs[|segs| - 1];
      if made.raised then Written(files, made.dirs, true)
      else if made.at.None? then Written(files, made.dirs, false)
      else if !IsName(last) then Written(files, made.dirs, true)
      else if Key(made.at.value + [last]) in made.dirs then Written(files, made.dirs, true)
      else Written(files[Key(made.at.value + [last]) := e.content], made.dirs, false)
  }

  /** The writer's loop: the entries in order, up to the first one that raises. */
  function AfterEntries(files: map<string, string>, dirs: set<string>, base: string, entries: seq<FileEntry>): Written
    decreases |entries|
  {
    if entries == [] then Written(files, dirs, false)
    else
      var w := AfterEntry(files, dirs, base, entries[0]);
      if w.raised then w else AfterEntries(w.files, w.dirs, base, entries[1..])
  }

  /**
   * `shutil.rmtree(base_dir)` when it exists, then `os.makedirs(base_dir)`.
   * "" does not exist and cannot be created; "." and ".." always exist, are
   * emptied and then cannot be removed; a plain file cannot be removed as a
   * directory.
   */
  function Prepared(files: map<string, string>, dirs: set<string>, base: string): Written
  {
    if base == [] then Written(files, dirs, true)
    else if base == "." || base == ".." then Written(map[], {}, true)
    else if base in files then Written(files, dirs, true)
    else if base in dirs then Written(Removed(files, base), RemovedDirs(dirs, base) + {base}, false)
    else Written(files, dirs + {base}, false)
  }

  /** `write_files_to_directory(entries)`: nothing for an empty list; otherwise the base is prepared and filled. */
  function Installed(files: map<string, string>, dirs: set<string>, entries: seq<FileEntry>): Written
  {
    if entries == [] then Written(files, dirs, false)
    else
      var base := DetectBase(entries);
      var p := Prepared(files, dirs, base);
      if p.raised then p else AfterEntries(p.files, p.dirs, base, entries)
  }

  /** Where an entry's file lands, read from its path alone; None when it goes outside the working directory or names no file. */
  function Landing(base: string, path: string): Option<string>
  {
    if Absolute(Relative(base, path)) then None
    else
      var segs := FileSegments(base, path);
      match Resolve([], segs[..|segs| - 1])
      case None => None
      case Some(at) => if IsName(segs[|segs| - 1]) then Some(Key(at + [segs[|segs| - 1]])) else None
  }

  /** The entry's `file_path` steps into the top-level entry `top`, as a directory on its way or as the file itself. */
  predicate Reaches(base: string, path: string, top: string)
  {
    !Absolute(Relative(base, path)) && Visits([], FileSegments(base, path), [top])
  }

  /** An entry that does not raise writes its content where its path lands, and changes no other file. */
  lemma EntryLands(files: map<string, string>, dirs: set<string>, base: string, e: FileEntry)
    ensures var w := AfterEntry(files, dirs, base, e);
      && (!w.raised && Landing(base, e.path).None? ==> w.files == files)
      && (!w.raised && Landing(base, e.path).Some? ==> w.files == files[Landing(base, e.path).value := e.content])
  {
    if !Absolute(Relative(base, e.path)) {
      var segs := FileSegments(base, e.path);
      MakeDirsResolves(files, dirs, [], segs[..|segs| - 1]);
    }
  }

  /** A path that no entry lands on keeps what it had, whether or not the loop raises. */
  lemma {:induction false} AfterEntriesElsewhere(files: map<string, string>, dirs: set<string>, base: string,
                                                  entries: seq<FileEntry>, k: string)
    requires forall n | 0 <= n < |entries| :: Landing(base, entries[n].path) != Some(k)
    ensures var w := AfterEntries(files, dirs, base, entries);
      (k in w.files) == (k in files) && (k in files ==> w.files[k] == files[k])
    decreases |entries|
  {
    if entries != [] {
      EntryLands(files, dirs, base, entries[0]);
      var w := AfterEntry(files, dirs, base, entries[0]);
      if !w.raised {
        assert forall n | 0 <= n < |entries| - 1 :: entries[1..][n] == entries[n + 1];
        AfterEntriesElsewhere(w.files, w.dirs, base, entries[1..], k);
      }
    }
  }

  /** When the loop runs to the end, a path holds a file exactly when it held one before or some entry lands on it. */
  lemma {:induction false} AfterEntriesKeys(files: map<string, string>, dirs: set<string>, base: string,
                                             entries: seq<FileEntry>, k: string)
    requires !AfterEntries(files, dirs, base, entries).raised
    ensures k in AfterEntries(files, dirs, base, entries).files
        <==> k in files || exists n :: 0 <= n < |entries| && Landing(base, entries[n].path) == Some(k)
    decreases |entries|
  {
    if entries != [] {
      EntryLands(files, dirs, base, entries[0]);
      var w := AfterEntry(files, dirs, base, entries[0]);
      AfterEntriesKeys(w.files, w.dirs, base, entries[1..], k);
      if exists n :: 0 <= n < |entries| && Landing(base, entries[n].path) == Some(k) {
        var n :| 0 <= n < |entries| && Landing(base, entries[n].path) == Some(k);
        if n > 0 {
          assert Landing(base, entries[1..][n - 1].path) == Some(k);
        }
      }
      if exists n :: 0 <= n < |entries| - 1 && Landing(base, entries[1..][n].path) == Some(k) {
        var n :| 0 <= n < |entries| - 1 && Landing(base, entries[1..][n].path) == Some(k);
        assert Landing(base, entries[n + 1].path) == Some(k);
      }
    }
  }

  /** When the loop runs to the end and several entries land on one path, the last of them wins. */
  lemma {:induction false} AfterEntriesLastWins(files: map<string, string>, dirs: set<string>, base: string,
                                                 entries: seq<FileEntry>, n: nat)
    requires n < |entries| && Landing(base, entries[n].path).Some?
    requires !AfterEntries(files, dirs, base, entries).raised
    requires forall m | n < m < |entries| :: Landing(base, entries[m].path) != Landing(base, entries[n].path)
    ensures var t := Landing(base, entries[n].path).value;
      t in AfterEntries(files, dirs, base, entries).files
      && AfterEntries(files, dirs, base, entries).files[t] == entries[n].content
    decreases |entries|
  {
    EntryLands(files, dirs, base, entries[0]);
    var w := AfterEntry(files, dirs, base, entries[0]);
    if n == 0 {
      assert forall m | 0 <= m < |entries| - 1 :: entries[1..][m] == entries[m + 1];
      AfterEntriesElsewhere(w.files, w.dirs, base, entries[1..], Landing(base, entries[0].path).value);
    } else {
      assert entries[1..][n - 1] == entries[n];
      forall m | n - 1 < m < |entries| - 1
        ensures Landing(base, entries[1..][m].path) != Landing(base, entries[n].path)
      {
        assert entries[1..][m] == entries[m + 1];
      }
      AfterEntriesLastWins(w.files, w.dirs, base, entries[1..], n - 1);
    }
  }

  /** Unless it raises, preparing the base leaves it an existing directory with nothing inside, and everything else as it was. */
  lemma PreparedFresh(files: map<string, string>, dirs: set<string>, base: string, k: string)
    requires ValidTree(files, dirs) && !Prepared(files, dirs, base).raised
    ensures var p := Prepared(files, dirs, base);
      && base in p.dirs && base !in p.files
      && (Under(k, base) ==> k !in p.files)
      && (!Under(k, base) ==> (k in p.files) == (k in files) && (k in files ==> p.files[k] == files[k]))
  {
    if base !in dirs && k in files {
      NothingUnderMissing(files, dirs, base, k);
    }
  }

  /** Inside the base directory, a path holds a file afterwards exactly when some entry lands on it. */
  lemma InstalledInside(files: map<string, string>, dirs: set<string>, entries: seq<FileEntry>, k: string)
    requires ValidTree(files, dirs) && entries != [] && !Installed(files, dirs, entries).raised
    requires Under(k, DetectBase(entries))
    ensures k in Installed(files, dirs, entries).files
        <==> exists n :: 0 <= n < |entries| && Landing(DetectBase(entries), entries[n].path) == Some(k)
  {
    var base := DetectBase(entries);
    PreparedFresh(files, dirs, base, k);
    var p := Prepared(files, dirs, base);
    AfterEntriesKeys(p.files, p.dirs, base, entries, k);
  }

  /** Outside the base directory, a path no entry lands on keeps what it had. */
  lemma InstalledOutside(files: map<string, string>, dirs: set<string>, entries: seq<FileEntry>, k: string)
    requires ValidTree(files, dirs) && entries != [] && !Installed(files, dirs, entries).raised
    requires !Under(k, DetectBase(entries))
    requires forall n | 0 <= n < |entries| :: Landing(DetectBase(entries), entries[n].path) != Some(k)
    ensures var w := Installed(files, dirs, entries);
      (k in w.files) == (k in files) && (k in files ==> w.files[k] == files[k])
  {
    var base := DetectBase(entries);
    PreparedFresh(files, dirs, base, k);
    var p := Prepared(files, dirs, base);
    AfterEntriesElsewhere(p.files, p.dirs, base, entries, k);
  }

  /** When the writer runs to the end, each path an entry lands on holds the content of the last entry landing there. */
  lemma InstalledLastWins(files: map<string, string>, dirs: set<string>, entries: seq<FileEntry>, n: nat)
    requires n < |entries| && !Installed(files, dirs, entries).raised
    requires Landing(DetectBase(entries), entries[n].path).Some?
    requires forall m | n < m < |entries| ::
      Landing(DetectBase(entries), entries[m].path) != Landing(DetectBase(entries), entries[n].path)
    ensures var t := Landing(DetectBase(entries), entries[n].path).value;
      t in Installed(files, dirs, entries).files && Installed(files, dirs, entries).files[t] == entries[n].content
  {
    var base := DetectBase(entries);
    var p := Prepared(files, dirs, base);
    AfterEntriesLastWins(p.files, p.dirs, base, entries, n);
  }

  /** A non-default base is the first path's own first segment, so that path is written where it names. */
  lemma FirstFileNotDoubleNested(files: seq<FileEntry>)
    requires files != []
    requires DetectBase(files) != ProjectDir
    ensures Target(DetectBase(files), files[0].path) == files[0].path
  {
  }

  /** A canonical path is relative: it is not empty and does not start with "/". */
  lemma CanonicalIsRelative(p: string)
    requires ValidRelPath(p)
    ensures !Absolute(p) && p != []
  {
    assert Split(p, '/')[0] in Split(p, '/');
  }

  /** Joining a canonical relative path under a one-segment base gives the base followed by the path's own names. */
  lemma JoinSegments(base: string, rel: string)
    requires IsName(base) && '/' !in base && ValidRelPath(rel)
    ensures var segs := Split(JoinPath(base, rel), '/');
      && !Absolute(rel) && segs == [base] + Split(rel, '/') && IsLocation(segs)
      && Key(segs) == JoinPath(base, rel)
  {
    CanonicalIsRelative(rel);
    SplitCons(base, '/', rel);
    var segs := Split(JoinPath(base, rel), '/');
    forall i | 0 <= i < |segs| ensures IsName(segs[i]) {
      if i > 0 {
        assert segs[i] == Split(rel, '/')[i - 1];
        assert Split(rel, '/')[i - 1] in Split(rel, '/');
      }
    }
    JoinSplit(JoinPath(base, rel), '/');
  }

  /** For a canonical relative path, the directories of `file_path` form a location and its last segment is a name. */
  lemma CanonicalParts(base: string, path: string)
    requires IsName(base) && '/' !in base && ValidRelPath(Relative(base, path))
    ensures var segs := FileSegments(base, path);
      && !Absolute(Relative(base, path)) && IsLocation(segs)
      && IsLocation(segs[..|segs| - 1]) && IsName(segs[|segs| - 1]) && Key(segs) == Target(base, path)
      && segs[0] == base
  {
    var rel := Relative(base, path);
    JoinSegments(base, rel);
    assert Target(base, path) == JoinPath(base, rel);
  }

  /** A canonical relative path lands on `file_path`. */
  lemma CanonicalLanding(base: string, path: string)
    requires IsName(base) && '/' !in base && ValidRelPath(Relative(base, path))
    ensures Landing(base, path) == Some(Target(base, path))
  {
    CanonicalParts(base, path);
    var segs := FileSegments(base, path);
    var names := segs[..|segs| - 1];
    MakeDirsClear(map[], {}, [], names);
    MakeDirsResolves(map[], {}, [], names);
    assert [] + names == names;
    FrontLast(segs);
  }

  /** A file standing where a directory of a canonical `file_path` is needed makes the entry raise. */
  lemma CanonicalBlocked(files: map<string, string>, dirs: set<string>, base: string, e: FileEntry, j: nat)
    requires IsName(base) && '/' !in base && ValidRelPath(Relative(base, e.path))
    requires 1 <= j < |FileSegments(base, e.path)| && Key(FileSegments(base, e.path)[..j]) in files
    ensures AfterEntry(files, dirs, base, e).raised
  {
    CanonicalParts(base, e.path);
    var segs := FileSegments(base, e.path);
    var names := segs[..|segs| - 1];
    assert [] + names[..j] == segs[..j];
    MakeDirsBlocked(files, dirs, [], names, j);
  }

  /** With no file in the way, a canonical entry raises exactly when a directory has its name, and otherwise writes it. */
  lemma CanonicalClear(files: map<string, string>, dirs: set<string>, base: string, e: FileEntry)
    requires IsName(base) && '/' !in base && ValidRelPath(Relative(base, e.path))
    requires var segs := FileSegments(base, e.path);
      forall j | 1 <= j < |segs| :: Key(segs[..j]) !in files
    ensures var w := AfterEntry(files, dirs, base, e);
      && (w.raised <==> Target(base, e.path) in dirs)
      && (!w.raised ==> w.files == files[Target(base, e.path) := e.content])
  {
    CanonicalParts(base, e.path);
    var segs := FileSegments(base, e.path);
    ClearDirs(files, dirs, base, e.path);
    FrontLast(segs);
  }

  /** With no file in the way, the directories of a canonical path are made without trouble, and the file's own path is a directory afterwards only if it was one before. */
  lemma ClearDirs(files: map<string, string>, dirs: set<string>, base: string, path: string)
    requires IsName(base) && '/' !in base && ValidRelPath(Relative(base, path))
    requires var segs := FileSegments(base, path);
      forall j | 1 <= j < |segs| :: Key(segs[..j]) !in files
    ensures var segs := FileSegments(base, path); var w := MakeDirsFrom(files, dirs, [], segs[..|segs| - 1]);
      && !w.raised && w.at == Some(segs[..|segs| - 1])
      && (Target(base, path) in w.dirs <==> Target(base, path) in dirs)
  {
    CanonicalParts(base, path);
    var segs := FileSegments(base, path);
    var names := segs[..|segs| - 1];
    NoFileOnTheWay(files, segs, [], names);
    MakeDirsClear(files, dirs, [], names);
    assert [] + names == names;
    NotAPrefixKey(segs);
  }

  /** No file at a proper prefix of `segs` means none on the way from `cur`, the top, to the directory of `segs`. */
  lemma NoFileOnTheWay(files: map<string, string>, segs: seq<string>, cur: seq<string>, names: seq<string>)
    requires segs != [] && cur == [] && names == segs[..|segs| - 1]
    requires forall j | 1 <= j < |segs| :: Key(segs[..j]) !in files
    ensures forall j | 1 <= j <= |names| :: Key(cur + names[..j]) !in files
  {
    forall j | 1 <= j <= |names| ensures Key(cur + names[..j]) !in files {
      assert cur + names[..j] == segs[..j];
      assert Key(segs[..j]) !in files;
    }
  }

  /** The key of a location is not the key of any proper prefix of it. */
  lemma NotAPrefixKey(segs: seq<string>)
    requires IsLocation(segs) && segs != []
    ensures Key(segs) !in PrefixKeys([], segs[..|segs| - 1])
  {
    var names := segs[..|segs| - 1];
    if Key(segs) in PrefixKeys([], names) {
      var j :| 1 <= j <= |names| && Key(segs) == Key([] + names[..j]);
      assert [] + names[..j] == names[..j];
      KeyInjective(segs, names[..j]);
    }
  }

  /**
   * For a canonical relative path the file lands on `file_path`, and the
   * entry raises exactly when a file stands where a directory on the way is
   * needed, or a directory already has the file's name.
   */
  lemma CanonicalEntry(files: map<string, string>, dirs: set<string>, base: string, e: FileEntry)
    requires IsName(base) && '/' !in base && ValidRelPath(Relative(base, e.path))
    ensures Landing(base, e.path) == Some(Target(base, e.path))
    ensures var w := AfterEntry(files, dirs, base, e); var segs := FileSegments(base, e.path);
      && (w.raised <==> Target(base, e.path) in dirs || exists j | 1 <= j < |segs| :: Key(segs[..j]) in files)
      && (!w.raised ==> w.files == files[Target(base, e.path) := e.content])
  {
    CanonicalLanding(base, e.path);
    var segs := FileSegments(base, e.path);
    if exists j | 1 <= j < |segs| :: Key(segs[..j]) in files {
      var j :| 1 <= j < |segs| && Key(segs[..j]) in files;
      CanonicalBlocked(files, dirs, base, e, j);
    } else {
      CanonicalClear(files, dirs, base, e);
    }
  }

  /** A canonical relative path under a base other than `top` never steps into the top-level entry `top`. */
  lemma CanonicalNeverReaches(base: string, path: string, top: string)
    requires IsName(base) && '/' !in base && ValidRelPath(Relative(base, path)) && base != top
    ensures !Reaches(base, path, top)
  {
    CanonicalParts(base, path);
    var segs := FileSegments(base, path);
    assert IsLocation(segs[1..]);
    assert [] + [base] == [base];
    if Visits([base], segs[1..], [top]) {
      VisitsDeeper([base], segs[1..], [top]);
    }
  }

  /** An entry that never steps into the top-level entry `top` neither creates nor writes it. */
  lemma EntryAvoids(files: map<string, string>, dirs: set<string>, base: string, e: FileEntry, top: string)
    requires top != [] && '/' !in top && top !in files && top !in dirs
    requires !Reaches(base, e.path, top)
    ensures top !in AfterEntry(files, dirs, base, e).files && top !in AfterEntry(files, dirs, base, e).dirs
  {
    if !Absolute(Relative(base, e.path)) {
      var segs := FileSegments(base, e.path);
      var names := segs[..|segs| - 1];
      var last := segs[|segs| - 1];
      assert names + [last] == segs;
      VisitsSnoc([], names, last, [top]);
      MakeDirsAvoids(files, dirs, [], names, top);
      MakeDirsResolves(files, dirs, [], names);
      var made := MakeDirsFrom(files, dirs, [], names);
      if !made.raised && made.at.Some? && IsName(last) && Key(made.at.value + [last]) == top {
        KeyIsTop(made.at.value + [last], top);
      }
    }
  }

  /** A loop whose entries never step into the top-level entry `top` leaves it absent. */
  lemma {:induction false} AfterEntriesAvoid(files: map<string, string>, dirs: set<string>, base: string,
                                              entries: seq<FileEntry>, top: string)
    requires top != [] && '/' !in top && top !in files && top !in dirs
    requires forall n | 0 <= n < |entries| :: !Reaches(base, entries[n].path, top)
    ensures top !in AfterEntries(files, dirs, base, entries).files
    ensures top !in AfterEntries(files, dirs, base, entries).dirs
    decreases |entries|
  {
    if entries != [] {
      EntryAvoids(files, dirs, base, entries[0], top);
      var w := AfterEntry(files, dirs, base, entries[0]);
      assert forall n | 0 <= n < |entries| - 1 :: entries[1..][n] == entries[n + 1];
      AfterEntriesAvoid(w.files, w.dirs, base, entries[1..], top);
    }
  }

  /** Writing under another base, with no entry stepping into `top`, leaves the top-level entry `top` absent. */
  lemma InstalledAvoids(files: map<string, string>, dirs: set<string>, entries: seq<FileEntry>, top: string)
    requires top != [] && '/' !in top && top !in files && top !in dirs
    requires entries != [] ==> DetectBase(entries) != top
    requires forall n | 0 <= n < |entries| :: !Reaches(DetectBase(entries), entries[n].path, top)
    ensures top !in Installed(files, dirs, entries).files && top !in Installed(files, dirs, entries).dirs
  {
    if entries != [] {
      var base := DetectBase(entries);
      PreparedAvoids(files, dirs, base, top);
      var p := Prepared(files, dirs, base);
      if !p.raised {
        AfterEntriesAvoid(p.files, p.dirs, base, entries, top);
      }
    }
  }

  /** Preparing another base leaves an absent path absent. */
  lemma PreparedAvoids(files: map<string, string>, dirs: set<string>, base: string, top: string)
    requires top !in files && top !in dirs && base != top
    ensures top !in Prepared(files, dirs, base).files && top !in Prepared(files, dirs, base).dirs
  {
  }

  /** The path `<out>/../<top>/<name>`, which climbs out of its first directory into the top-level directory `top`. */
  function ClimbingPath(out: string, top: string, name: string): string
  {
    out + "/../" + top + "/" + name
  }

  /** `out`, `top` and `name` are single names, and `out` is not a reserved first segment. */
  predicate ClimbNames(out: string, top: string, name: string)
  {
    && IsName(out) && IsName(top) && IsName(name) && '/' !in out && '/' !in top && '/' !in name
    && out !in ReservedRoots
  }

  /** Such a path takes `out` as its base, keeps its `../` after the base is taken off, and is written where it names. */
  lemma ClimbBase(out: string, top: string, name: string, content: string)
    requires '/' !in out && out !in ReservedRoots
    ensures DetectBase([FileEntry(ClimbingPath(out, top, name), content)]) == out
    ensures Relative(out, ClimbingPath(out, top, name)) == "../" + top + "/" + name
    ensures Target(out, ClimbingPath(out, top, name)) == ClimbingPath(out, top, name)
  {
    var p := ClimbingPath(out, top, name);
    var rest := "../" + top + "/" + name;
    assert '/' in p && Root(p) == out by {
      assert p == out + ['/'] + rest;
      IndexOfAfter(out, '/', rest);
    }
    assert Under(p, out) && RelativeTo(p, out) == rest by {
      assert p == out + ['/'] + rest;
      assert p[..|out| + 1] == out + "/";
      assert p[|out| + 1..] == rest;
    }
  }

  /** The segments of such a path. */
  lemma ClimbSplit(out: string, top: string, name: string)
    requires '/' !in out && '/' !in top && '/' !in name
    ensures Split(ClimbingPath(out, top, name), '/') == [out, "..", top, name]
  {
    assert Split(ClimbingPath(out, top, name), '/') == [out] + ([".."] + ([top] + [name])) by {
      var r3 := top + ['/'] + name;
      var r2 := ".." + ['/'] + r3;
      assert ClimbingPath(out, top, name) == out + ['/'] + r2;
      assert '/' !in "..";
      SplitCons(out, '/', r2);
      SplitCons("..", '/', r3);
      SplitCons(top, '/', name);
      assert Split(name, '/') == [name];
    }
    assert [out] + ([".."] + ([top] + [name])) == [out, "..", top, name] by {
      assert [top] + [name] == [top, name];
      assert [".."] + [top, name] == ["..", top, name];
      assert [out] + ["..", top, name] == [out, "..", top, name];
    }
  }

  /** The walk of `os.makedirs` for `<out>/../<top>` once `out` exists: `top` is created beside it. */
  lemma ClimbWalk(out: string, top: string)
    requires IsName(out) && IsName(top) && '/' !in out && '/' !in top
    ensures MakeDirsFrom(map[], {out}, [], [out, "..", top]) == DirsMade({out, top}, Some([top]), false)
  {
    assert Key([] + [out]) == out && Key([] + [top]) == top;
    assert [out, "..", top][1..] == ["..", top];
    assert ["..", top][1..] == [top];
    assert [top][1..] == [];
    assert [out][..0] == [];
    assert {out} + {out} == {out};
    assert MakeDirsFrom(map[], {out}, [], [out, "..", top]) == MakeDirsFrom(map[], {out}, [out], ["..", top]);
    assert MakeDirsFrom(map[], {out}, [out], ["..", top]) == MakeDirsFrom(map[], {out}, [], [top]);
    assert [] + [top] == [top] && {out} + {top} == {out, top};
    assert MakeDirsFrom(map[], {out}, [], [top]) == MakeDirsFrom(map[], {out, top}, [top], []);
  }

  /** An entry with the segments `front + [name]`, whose directories `front` are made without trouble ending at `at`, and whose file name is free there, is written there. */
  lemma EntryWritten(files: map<string, string>, dirs: set<string>, base: string, path: string, content: string,
                     front: seq<string>, name: string, made: set<string>, at: seq<string>)
    requires !Absolute(Relative(base, path)) && FileSegments(base, path) == front + [name]
    requires MakeDirsFrom(files, dirs, [], front) == DirsMade(made, Some(at), false)
    requires IsName(name) && Key(at + [name]) !in made
    ensures AfterEntry(files, dirs, base, FileEntry(path, content)) == Written(files[Key(at + [name]) := content], made, false)
  {
    var segs := front + [name];
    assert segs[..|segs| - 1] == front && segs[|segs| - 1] == name;
  }

  /** The entry `<out>/../<top>/<name>` under the base `out` is relative, with the segments `out`, `..`, `top`, `name`. */
  lemma ClimbSegments(out: string, top: string, name: string)
    requires ClimbNames(out, top, name)
    ensures !Absolute(Relative(out, ClimbingPath(out, top, name)))
    ensures FileSegments(out, ClimbingPath(out, top, name)) == [out, "..", top] + [name]
  {
    ClimbBase(out, top, name, []);
    ClimbSplit(out, top, name);
    Snoc3(out, "..", top, name);
  }

  lemma Snoc3<T>(a: T, b: T, c: T, d: T)
    ensures [a, b, c] + [d] == [a, b, c, d]
  {
  }

  /** The file `<top>/<name>` is a path with a "/", so it is neither `out` nor `top`. */
  lemma ClimbTarget(out: string, top: string, name: string)
    requires '/' !in out && '/' !in top
    ensures Key([top] + [name]) == JoinPath(top, name) && JoinPath(top, name) !in {out, top}
  {
    KeySnoc([top], name);
    assert Key([top]) == top;
    SlashInJoin(top, name);
  }

  /** Once `out` exists, the entry `<out>/../<top>/<name>` creates `top` and writes the file inside it. */
  lemma ClimbEntry(out: string, top: string, name: string, content: string)
    requires ClimbNames(out, top, name)
    ensures AfterEntry(map[], {out}, out, FileEntry(ClimbingPath(out, top, name), content))
         == Written(map[JoinPath(top, name) := content], {out, top}, false)
  {
    ClimbPieces(out, top, name, content);
    EntryWritten(map[], {out}, out, ClimbingPath(out, top, name), content, [out, "..", top], name, {out, top}, [top]);
  }

  /** What the writer needs to know about `<out>/../<top>/<name>` once `out` exists: its segments, the directories it makes, and where its file goes. */
  lemma ClimbPieces(out: string, top: string, name: string, content: string)
    requires ClimbNames(out, top, name)
    ensures !Absolute(Relative(out, ClimbingPath(out, top, name)))
    ensures FileSegments(out, ClimbingPath(out, top, name)) == [out, "..", top] + [name]
    ensures MakeDirsFrom(map[], {out}, [], [out, "..", top]) == DirsMade({out, top}, Some([top]), false)
    ensures IsName(name) && Key([top] + [name]) !in {out, top}
    ensures map[][Key([top] + [name]) := content] == map[JoinPath(top, name) := content]
  {
    ClimbSegments(out, top, name);
    ClimbWalk(out, top);
    ClimbTarget(out, top, name);
  }

  /** The entry `<out>/../<top>/<name>` steps into `top`. */
  lemma ClimbReaches(out: string, top: string, name: string)
    requires ClimbNames(out, top, name)
    ensures Reaches(out, ClimbingPath(out, top, name), top)
  {
    ClimbSegments(out, top, name);
    Snoc3(out, "..", top, name);
    var segs := [out, "..", top, name];
    assert Visits([], [top, name], [top]) by {
      assert [] + [top] == [top];
    }
    assert Visits([out], ["..", top, name], [top]) by {
      assert [out][..0] == [] && ["..", top, name][1..] == [top, name];
    }
    assert Visits([], segs, [top]) by {
      assert [] + [out] == [out] && segs[1..] == ["..", top, name];
    }
  }

  /**
   * A path that climbs out of its base: `<out>/../<top>/<name>` (such as
   * `out/../my_project/main.py`) makes `out` the base, then creates `top`
   * beside it and writes the file there.
   */
  lemma ClimbOutOfBase(out: string, top: string, name: string, content: string)
    requires ClimbNames(out, top, name)
    ensures Reaches(out, ClimbingPath(out, top, name), top)
    ensures Installed(map[], {}, [FileEntry(ClimbingPath(out, top, name), content)])
         == Written(map[JoinPath(top, name) := content], {out, top}, false)
  {
    var e := FileEntry(ClimbingPath(out, top, name), content);
    ClimbBase(out, top, name, content);
    ClimbEntry(out, top, name, content);
    ClimbReaches(out, top, name);
    assert Prepared(map[], {}, out) == Written(map[], {out}, false) by {
      assert {} + {out} == {out};
    }
    var w := Written(map[JoinPath(top, name) := content], {out, top}, false);
    assert [e][0] == e && [e][1..] == [];
    assert AfterEntries(map[], {out}, out, [e]) == AfterEntries(w.files, w.dirs, out, []);
  }

  /**
   * `shutil.rmtree(base_dir)` when it exists, then `os.makedirs(base_dir,
   * exist_ok=True)`.
   */
  method PrepareBase(fs: FileStore, base: string) returns (raised: bool)
    requires fs.Valid() && '/' !in base
    modifies fs
    ensures fs.Valid()
    ensures Written(fs.files, fs.dirs, raised) == Prepared(old(fs.files), old(fs.dirs), base)
  {
    if base == "." || base == ".." {
      // the working directory, or the one above it: emptied, then it cannot be removed
      fs.RemoveAll();
      return true;
    }
    assert !ValidRelPath([]) by {
      assert Split([], '/')[0] == [] && Split([], '/')[0] in Split([], '/');
    }
    if fs.Exists(base) {
      if base in fs.files {
        return true;
      }
      fs.RemoveTree(base);
    }
    if base == [] {
      return true;
    }
    assert Split(base, '/') == [base];
    fs.MakeDir(base);
    return false;
  }

  /** One turn of the loop: the directories of `file_path`, then the file itself. */
  method WriteEntry(fs: FileStore, base: string, e: FileEntry) returns (raised: bool)
    requires fs.Valid()
    modifies fs
    ensures fs.Valid()
    ensures Written(fs.files, fs.dirs, raised) == AfterEntry(old(fs.files), old(fs.dirs), base, e)
  {
    var relativePath := e.path;
    if StartsWith(relativePath, base + "/") {
      relativePath := relativePath[|base| + 1..];
    }
    if Absolute(relativePath) {
      return false;
    }
    var filePath := JoinPath(base, relativePath);
    var segs := Split(filePath, '/');
    var at;
    at, raised := fs.MakeDirs(segs[..|segs| - 1]);
    if raised {
      return;
    }
    if at == None {
      return false;
    }
    raised := PlaceFile(fs, at.value, segs[|segs| - 1], e.content);
  }

  /** `open(file_path, "w")` once the directories exist up to `at`: it raises on a name that is no file name, or where a directory stands. */
  method PlaceFile(fs: FileStore, at: seq<string>, last: string, content: string) returns (raised: bool)
    requires fs.Valid() && IsLocation(at) && (at != [] ==> Key(at) in fs.dirs) && '/' !in last
    modifies fs`files
    ensures fs.Valid()
    ensures raised == (!IsName(last) || Key(at + [last]) in fs.dirs)
    ensures fs.files == if raised then old(fs.files) else old(fs.files)[Key(at + [last]) := content]
  {
    if !IsName(last) {
      return true;
    }
    var target := Key(at + [last]);
    if target in fs.dirs {
      return true;
    }
    KeyValid(at + [last]);
    if at != [] {
      ParentOfKey(at, last);
    }
    fs.WriteFile(target, content);
    return false;
  }

  /** The loop of `write_files_to_directory`: each entry in turn, stopping at the first that raises. */
  method WriteEntries(fs: FileStore, base: string, entries: seq<FileEntry>) returns (raised: bool)
    requires fs.Valid()
    modifies fs
    ensures fs.Valid()
    ensures Written(fs.files, fs.dirs, raised) == AfterEntries(old(fs.files), old(fs.dirs), base, entries)
  {
    var i := 0;
    while i < |entries|
      invariant 0 <= i <= |entries| && fs.Valid()
      invariant AfterEntries(fs.files, fs.dirs, base, entries[i..]) == AfterEntries(old(fs.files), old(fs.dirs), base, entries)
    {
      assert entries[i..][1..] == entries[i + 1..];
      raised := WriteEntry(fs, base, entries[i]);
      if raised {
        return;
      }
      i := i + 1;
    }
    return false;
  }

  /**
   * `write_files_to_directory(entries)`: nothing at all for an empty list;
   * otherwise the base directory is removed, re-created and filled, up to
   * the first step that raises.
   */
  method WriteFilesToDirectory(fs: FileStore, entries: seq<FileEntry>) returns (raised: bool)
    requires fs.Valid()
    modifies fs
    ensures fs.Valid()
    ensures Written(fs.files, fs.dirs, raised) == Installed(old(fs.files), old(fs.dirs), entries)
  {
    if entries == [] {
      return false;
    }
    var base := DetectBase(entries);
    raised := PrepareBase(fs, base);
    if raised {
      return;
    }
    raised := WriteEntries(fs, base, entries);
  }
}
