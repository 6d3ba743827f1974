/**
 * The working directory as the pipeline sees it: files by path (segments
 * joined with "/") with their text, and the directories that exist.
 */
module FileTree {
  import opened PyStr
  import opened Wrappers

  /** The directory the audit and fix passes always work in. */
  const ProjectDir: string := "my_project"

  /** `p.split("/")[0]`. */
  function Root(p: string): (r: string)
    ensures '/' !in r
    ensures '/' !in p ==> r == p
  {
    if '/' in p then p[..IndexOf(p, '/')] else p
  }

  /** The path `k` lies inside the directory `d`. */
  predicate Under(k: string, d: string)
  {
    StartsWith(k, d + "/")
  }

  /** For a one-segment directory name, lying inside it means having it as first segment. */
  lemma UnderIffRoot(k: string, d: string)
    requires '/' !in d
    ensures Under(k, d) <==> ('/' in k && Root(k) == d)
  {
    if Under(k, d) {
      assert k[|d|] == (d + "/")[|d|] == '/';
      assert k[..|d|] == (d + "/")[..|d|] == d;
      IndexOfAfter(d, '/', k[|d| + 1..]);
      assert k == d + "/" + k[|d| + 1..];
    }
    if '/' in k && Root(k) == d {
      var i := IndexOf(k, '/');
      assert k[..|d| + 1] == k[..i] + [k[i]];
    }
  }

  /** `os.path.join(d, rel)` for a relative `rel`. */
  function JoinPath(d: string, rel: string): string
  {
    d + "/" + rel
  }

  /** `os.path.relpath(k, d)` for a path inside `d`. */
  function RelativeTo(k: string, d: string): (rel: string)
    requires Under(k, d)
    ensures JoinPath(d, rel) == k
    ensures |rel| < |k|
  {
    assert k == k[..|d| + 1] + k[|d| + 1..];
    k[|d| + 1..]
  }

  lemma RelativeToJoin(d: string, rel: string)
    ensures Under(JoinPath(d, rel), d) && RelativeTo(JoinPath(d, rel), d) == rel
  {
    assert JoinPath(d, rel)[..|d| + 1] == d + "/";
  }

  /** A joined path is never a top-level name. */
  lemma SlashInJoin(d: string, rel: string)
    ensures '/' in JoinPath(d, rel)
  {
    assert JoinPath(d, rel)[|d|] == '/';
  }

  /** A joined path keeps `d` as its first segment. */
  lemma RootOfJoin(d: string, rel: string)
    requires '/' !in d
    ensures '/' in JoinPath(d, rel) && Root(JoinPath(d, rel)) == d
  {
    RelativeToJoin(d, rel);
    UnderIffRoot(JoinPath(d, rel), d);
  }

  /** A name without "/" lies inside no directory. */
  lemma NotUnderWithoutSlash(k: string, d: string)
    requires '/' !in k
    ensures !Under(k, d)
  {
    if |d| + 1 <= |k| {
      assert k[..|d| + 1][|d|] == k[|d|];
      assert (d + "/")[|d|] == '/';
    }
  }

  /** `my_project` itself lies inside no directory. */
  lemma ProjectDirInNoDirectory(d: string)
    ensures !Under(ProjectDir, d)
  {
    assert '/' !in ProjectDir;
    NotUnderWithoutSlash(ProjectDir, d);
  }

  /** A segment that names an entry; "", "." and ".." name none. */
  predicate IsName(s: string)
  {
    s != [] && s != "." && s != ".."
  }

  /** A canonical relative path: every "/"-separated segment is a name. */
  predicate ValidRelPath(p: string)
  {
    forall s | s in Split(p, '/') :: IsName(s)
  }

  /** A place in the working directory, given by the names that lead to it from the top. */
  predicate IsLocation(loc: seq<string>)
  {
    forall i | 0 <= i < |loc| :: IsName(loc[i]) && '/' !in loc[i]
  }

  /** The path of a location: its names joined with "/". */
  function Key(loc: seq<string>): string
  {
    Join(loc, '/')
  }

  /** The directory holding a path that has a "/": everything before the last "/". */
  function Parent(p: string): string
    requires '/' in p
  {
    p[..RFind(p, '/')]
  }

  /** A path's directory exists, unless the path is a top-level name. */
  predicate InDir(k: string, dirs: set<string>)
  {
    '/' in k ==> Parent(k) in dirs
  }

  /**
   * What the file system guarantees of a working directory: every path is
   * canonical, no path is both a file and a directory, and every file and
   * directory sits in a directory that exists.
   */
  predicate ValidTree(files: map<string, string>, dirs: set<string>)
  {
    && (forall d | d in dirs :: ValidRelPath(d) && InDir(d, dirs))
    && (forall k | k in files :: ValidRelPath(k) && k !in dirs && InDir(k, dirs))
  }

  /** Appending a name to a non-empty location appends "/" and the name to its path. */
  lemma {:induction false} KeySnoc(loc: seq<string>, x: string)
    requires loc != []
    ensures Key(loc + [x]) == Key(loc) + "/" + x
    decreases |loc|
  {
    if |loc| == 1 {
      assert loc + [x] == [loc[0], x];
      assert Key(loc) == loc[0];
      assert Key([loc[0], x]) == loc[0] + "/" + Key([x]);
    } else {
      KeySnoc(loc[1..], x);
      assert (loc + [x])[1..] == loc[1..] + [x];
      assert Key(loc) == loc[0] + "/" + Key(loc[1..]);
    }
  }

  /** The directory of a location's path is the path of the location one level up. */
  lemma ParentOfKey(loc: seq<string>, x: string)
    requires loc != [] && '/' !in x
    ensures '/' in Key(loc + [x]) && Parent(Key(loc + [x])) == Key(loc)
  {
    KeySnoc(loc, x);
    var k := Key(loc + [x]);
    var a := Key(loc);
    assert k[|a|] == '/';
    assert forall j | |a| < j < |k| :: k[j] == x[j - |a| - 1];
    assert RFind(k, '/') == |a|;
  }

  /** A location's path is canonical and splits back into the location. */
  lemma KeyValid(loc: seq<string>)
    requires IsLocation(loc) && loc != []
    ensures Split(Key(loc), '/') == loc && ValidRelPath(Key(loc))
  {
    SplitJoin(loc, '/');
    forall s | s in loc ensures IsName(s) {
      var i :| 0 <= i < |loc| && loc[i] == s;
    }
  }

  /** Two locations with the same path are the same location. */
  lemma KeyInjective(l: seq<string>, m: seq<string>)
    requires IsLocation(l) && IsLocation(m) && l != [] && m != []
    requires Key(l) == Key(m)
    ensures l == m
  {
    KeyValid(l);
    KeyValid(m);
  }

  /** Only the one-name location has a top-level name as its path. */
  lemma KeyIsTop(loc: seq<string>, top: string)
    requires top != [] && '/' !in top && Key(loc) == top
    ensures loc == [top]
  {
  }

  /** The tree without directory `d` and everything in it (`shutil.rmtree(d)`). */
  function Removed(tree: map<string, string>, d: string): (r: map<string, string>)
    ensures forall k | k in r :: k in tree && !Under(k, d) && r[k] == tree[k]
    ensures forall k | k in tree && !Under(k, d) :: k in r
  {
    map k | k in tree && !Under(k, d) :: tree[k]
  }

  /** The directories left once directory `d` and everything in it are removed. */
  function RemovedDirs(dirs: set<string>, d: string): (r: set<string>)
    ensures forall x | x in r :: x in dirs && x != d && !Under(x, d)
    ensures forall x | x in dirs && x != d && !Under(x, d) :: x in r
  {
    set x | x in dirs && x != d && !Under(x, d)
  }

  /** A path whose directory is `d`, or lies inside `d`, lies inside `d` itself. */
  lemma UnderParent(k: string, d: string)
    requires '/' in k && (Parent(k) == d || Under(Parent(k), d))
    ensures Under(k, d)
  {
    var i := RFind(k, '/');
    if Parent(k) == d {
      assert k[..|d| + 1] == k[..i] + [k[i]];
    } else {
      assert k[..|d| + 1] == Parent(k)[..|d| + 1];
    }
  }

  /** A path inside `d` is either directly in `d` or its directory lies inside `d` too. */
  lemma ParentUnder(k: string, d: string)
    requires Under(k, d)
    ensures '/' in k && (Parent(k) == d || Under(Parent(k), d))
  {
    assert k[|d|] == (d + "/")[|d|] == '/';
    var i := RFind(k, '/');
    assert k[..|d|] == (d + "/")[..|d|];
    if i > |d| {
      assert Parent(k)[..|d| + 1] == k[..|d| + 1];
    }
  }

  /** In a valid tree, nothing lies inside a directory that does not exist. */
  lemma {:induction false} NothingUnderMissing(files: map<string, string>, dirs: set<string>, d: string, k: string)
    requires ValidTree(files, dirs) && d !in dirs
    requires k in files || k in dirs
    ensures !Under(k, d)
    decreases |k|
  {
    if Under(k, d) {
      ParentUnder(k, d);
      if Parent(k) != d {
        NothingUnderMissing(files, dirs, d, Parent(k));
      }
    }
  }

  /** What `os.makedirs` did: the directories now present, where it stopped, and whether it raised. */
  datatype DirsMade = DirsMade(dirs: set<string>, at: Option<seq<string>>, raised: bool)

  /**
   * `os.makedirs(path, exist_ok=True)` for the segments `segs` of `path`,
   * walked from the location `cur`: "" and "." stay, ".." goes one level up,
   * and a name steps into that directory, creating it when it is missing and
   * raising when a file holds the name. `at` is None once the walk climbs
   * above the working directory; what it does there is not followed.
   */
  function MakeDirsFrom(files: map<string, string>, dirs: set<string>, cur: seq<string>, segs: seq<string>)
    : (w: DirsMade)
    ensures dirs <= w.dirs
    decreases |segs|
  {
    if segs == [] then DirsMade(dirs, Some(cur), false)
    else if segs[0] == [] || segs[0] == "." then MakeDirsFrom(files, dirs, cur, segs[1..])
    else if segs[0] == ".." then
      if cur == [] then DirsMade(dirs, None, false)
      else MakeDirsFrom(files, dirs, cur[..|cur| - 1], segs[1..])
    else if Key(cur + [segs[0]]) in files then DirsMade(dirs, Some(cur), true)
    else MakeDirsFrom(files, dirs + {Key(cur + [segs[0]])}, cur + [segs[0]], segs[1..])
  }

  /** Where the segments `segs` lead from `cur`, read from the path alone; None once they climb above the working directory. */
  function Resolve(cur: seq<string>, segs: seq<string>): Option<seq<string>>
    decreases |segs|
  {
    if segs == [] then Some(cur)
    else if segs[0] == [] || segs[0] == "." then Resolve(cur, segs[1..])
    else if segs[0] == ".." then (if cur == [] then None else Resolve(cur[..|cur| - 1], segs[1..]))
    else Resolve(cur + [segs[0]], segs[1..])
  }

  /** Walking `segs` from `cur` steps into the location `loc` on the way, before any climb above the working directory. */
  predicate Visits(cur: seq<string>, segs: seq<string>, loc: seq<string>)
    decreases |segs|
  {
    if segs == [] then false
    else if segs[0] == [] || segs[0] == "." then Visits(cur, segs[1..], loc)
    else if segs[0] == ".." then cur != [] && Visits(cur[..|cur| - 1], segs[1..], loc)
    else cur + [segs[0]] == loc || Visits(cur + [segs[0]], segs[1..], loc)
  }

  /** Unless it raises, `os.makedirs` ends where the path leads. */
  lemma {:induction false} MakeDirsResolves(files: map<string, string>, dirs: set<string>, cur: seq<string>, segs: seq<string>)
    ensures !MakeDirsFrom(files, dirs, cur, segs).raised ==> MakeDirsFrom(files, dirs, cur, segs).at == Resolve(cur, segs)
    decreases |segs|
  {
    if segs == [] {
    } else if segs[0] == [] || segs[0] == "." {
      MakeDirsResolves(files, dirs, cur, segs[1..]);
    } else if segs[0] == ".." {
      if cur != [] {
        MakeDirsResolves(files, dirs, cur[..|cur| - 1], segs[1..]);
      }
    } else if Key(cur + [segs[0]]) !in files {
      MakeDirsResolves(files, dirs + {Key(cur + [segs[0]])}, cur + [segs[0]], segs[1..]);
    }
  }

  /** A top-level name the walk never steps into is not created by it. */
  lemma {:induction false} MakeDirsAvoids(files: map<string, string>, dirs: set<string>, cur: seq<string>, segs: seq<string>, top: string)
    requires top != [] && '/' !in top && top !in dirs
    requires !Visits(cur, segs, [top])
    ensures top !in MakeDirsFrom(files, dirs, cur, segs).dirs
    decreases |segs|
  {
    if segs == [] {
    } else if segs[0] == [] || segs[0] == "." {
      MakeDirsAvoids(files, dirs, cur, segs[1..], top);
    } else if segs[0] == ".." {
      if cur != [] {
        MakeDirsAvoids(files, dirs, cur[..|cur| - 1], segs[1..], top);
      }
    } else if Key(cur + [segs[0]]) !in files {
      if Key(cur + [segs[0]]) == top {
        KeyIsTop(cur + [segs[0]], top);
      }
      MakeDirsAvoids(files, dirs + {Key(cur + [segs[0]])}, cur + [segs[0]], segs[1..], top);
    }
  }

  /** Stepping into one more segment visits what the shorter walk visited, or the place that segment names. */
  lemma {:induction false} VisitsSnoc(cur: seq<string>, segs: seq<string>, x: string, loc: seq<string>)
    ensures Visits(cur, segs + [x], loc)
        <==> Visits(cur, segs, loc)
             || (Resolve(cur, segs).Some? && IsName(x) && Resolve(cur, segs).value + [x] == loc)
    decreases |segs|
  {
    if segs == [] {
      assert [x][1..] == [];
    } else {
      assert (segs + [x])[1..] == segs[1..] + [x];
      if segs[0] == [] || segs[0] == "." {
        VisitsSnoc(cur, segs[1..], x, loc);
      } else if segs[0] == ".." {
        if cur != [] {
          VisitsSnoc(cur[..|cur| - 1], segs[1..], x, loc);
        }
      } else {
        VisitsSnoc(cur + [segs[0]], segs[1..], x, loc);
      }
    }
  }

  /** A non-empty list is its front followed by its last element. */
  lemma FrontLast(segs: seq<string>)
    requires segs != []
    ensures segs[..|segs| - 1] + [segs[|segs| - 1]] == segs
  {
  }

  /** Down a path of names, every location visited lies deeper than the start. */
  lemma {:induction false} VisitsDeeper(cur: seq<string>, names: seq<string>, loc: seq<string>)
    requires IsLocation(names) && Visits(cur, names, loc)
    ensures |loc| > |cur|
    decreases |names|
  {
    if cur + [names[0]] != loc {
      VisitsDeeper(cur + [names[0]], names[1..], loc);
    }
  }

  /** The paths of the locations strictly below `cur` on the way down `names`. */
  function PrefixKeys(cur: seq<string>, names: seq<string>): set<string>
  {
    set j | 1 <= j <= |names| :: Key(cur + names[..j])
  }

  /** Down a path of names, `os.makedirs` raises when a file holds one of the directories on the way. */
  lemma {:induction false} MakeDirsBlocked(files: map<string, string>, dirs: set<string>, cur: seq<string>, names: seq<string>, j: nat)
    requires IsLocation(names) && 1 <= j <= |names|
    requires Key(cur + names[..j]) in files
    ensures MakeDirsFrom(files, dirs, cur, names).raised
    decreases |names|
  {
    var key := Key(cur + [names[0]]);
    if j == 1 {
      assert cur + names[..1] == cur + [names[0]];
    } else if key !in files {
      assert cur + [names[0]] + names[1..][..j - 1] == cur + names[..j];
      MakeDirsBlocked(files, dirs + {key}, cur + [names[0]], names[1..], j - 1);
    }
  }

  /**
   * Down a path of names with no file in the way, `os.makedirs` ends at the
   * bottom and adds only the directories on the way.
   */
  lemma {:induction false} MakeDirsClear(files: map<string, string>, dirs: set<string>, cur: seq<string>, names: seq<string>)
    requires IsLocation(names)
    requires forall j | 1 <= j <= |names| :: Key(cur + names[..j]) !in files
    ensures var w := MakeDirsFrom(files, dirs, cur, names);
      && !w.raised && w.at == Some(cur + names) && w.dirs <= dirs + PrefixKeys(cur, names)
    decreases |names|
  {
    if names == [] {
      assert cur + names == cur;
    } else {
      var next := cur + [names[0]];
      assert cur + names[..1] == next;
      forall j | 1 <= j <= |names| - 1 ensures Key(next + names[1..][..j]) !in files {
        assert next + names[1..][..j] == cur + names[..j + 1];
      }
      MakeDirsClear(files, dirs + {Key(next)}, next, names[1..]);
      forall x | x in PrefixKeys(next, names[1..]) ensures x in PrefixKeys(cur, names) {
        var j :| 1 <= j <= |names| - 1 && x == Key(next + names[1..][..j]);
        assert next + names[1..][..j] == cur + names[..j + 1];
      }
      assert next + names[1..] == cur + names;
    }
  }

  class FileStore {
    /** Every file of the working directory, by path, with its text. */
    var files: map<string, string>
    /** Every directory of the working directory, by path. */
    var dirs: set<string>

    ghost predicate Valid()
      reads this
    {
      ValidTree(files, dirs)
    }

    constructor (files0: map<string, string>, dirs0: set<string>)
      ensures files == files0 && dirs == dirs0
    {
      files := files0;
      dirs := dirs0;
    }

    /** `os.path.exists(p)` for a canonical path. */
    predicate Exists(p: string)
      reads this
    {
      p in files || p in dirs
    }

    /** `shutil.rmtree(d)` on an existing directory. */
    method RemoveTree(d: string)
      requires Valid() && d in dirs
      modifies this
      ensures Valid()
      ensures files == Removed(old(files), d)
      ensures dirs == RemovedDirs(old(dirs), d)
    {
      files := Removed(files, d);
      dirs := RemovedDirs(dirs, d);
      forall k | (k in files || k in dirs) && '/' in k ensures Parent(k) in dirs {
        if Parent(k) == d || Under(Parent(k), d) {
          UnderParent(k, d);
        }
      }
    }

    /** Everything in the working directory removed at once. */
    method RemoveAll()
      modifies this
      ensures Valid()
      ensures files == map[] && dirs == {}
    {
      files := map[];
      dirs := {};
    }

    /** `os.mkdir(d)` for a canonical path that is free and whose directory exists. */
    method MakeDir(d: string)
      requires Valid() && ValidRelPath(d) && d !in files && InDir(d, dirs)
      modifies this`dirs
      ensures Valid()
      ensures dirs == old(dirs) + {d}
    {
      dirs := dirs + {d};
    }

    /**
     * `os.makedirs` on the segments `segs`, walked from the top of the
     * working directory: each directory on the way is created in turn.
     */
    method MakeDirs(segs: seq<string>) returns (at: Option<seq<string>>, raised: bool)
      requires Valid()
      requires forall i | 0 <= i < |segs| :: '/' !in segs[i]
      modifies this`dirs
      ensures Valid()
      ensures DirsMade(dirs, at, raised) == MakeDirsFrom(files, old(dirs), [], segs)
      ensures at.Some? ==> IsLocation(at.value) && (at.value != [] ==> Key(at.value) in dirs)
    {
      var cur: seq<string> := [];
      var i := 0;
      while i < |segs|
        invariant 0 <= i <= |segs| && Valid()
        invariant IsLocation(cur) && (cur != [] ==> Key(cur) in dirs)
        invariant MakeDirsFrom(files, dirs, cur, segs[i..]) == MakeDirsFrom(files, old(dirs), [], segs)
      {
        var s := segs[i];
        assert segs[i..][1..] == segs[i + 1..];
        if s == [] || s == "." {
        } else if s == ".." {
          if cur == [] {
            return None, false;
          }
          UpOneLevel(cur);
          cur := cur[..|cur| - 1];
        } else {
          raised := EnterDir(cur, s);
          if raised {
            return Some(cur), true;
          }
          cur := cur + [s];
        }
        i := i + 1;
      }
      return Some(cur), false;
    }

    /** One step of `os.makedirs`: the directory `s` inside `cur` is created unless it exists; a file of that name makes it raise. */
    method EnterDir(cur: seq<string>, s: string) returns (raised: bool)
      requires Valid() && IsLocation(cur) && (cur != [] ==> Key(cur) in dirs)
      requires IsName(s) && '/' !in s
      modifies this`dirs
      ensures Valid()
      ensures raised == (Key(cur + [s]) in files)
      ensures dirs == if raised then old(dirs) else old(dirs) + {Key(cur + [s])}
    {
      var key := Key(cur + [s]);
      if key in files {
        return true;
      }
      if key !in dirs {
        KeyValid(cur + [s]);
        if cur != [] {
          ParentOfKey(cur, s);
        }
        MakeDir(key);
      }
      return false;
    }

    /** The location one level up from an existing directory exists too. */
    lemma UpOneLevel(cur: seq<string>)
      requires Valid() && IsLocation(cur) && cur != [] && Key(cur) in dirs
      ensures IsLocation(cur[..|cur| - 1]) && (|cur| > 1 ==> Key(cur[..|cur| - 1]) in dirs)
    {
      if |cur| > 1 {
        ParentOfKey(cur[..|cur| - 1], cur[|cur| - 1]);
        assert cur[..|cur| - 1] + [cur[|cur| - 1]] == cur;
      }
    }

    /** `open(p, "w").write(text)`: replaces a file, or creates one at a free canonical path whose directory exists. */
    method WriteFile(p: string, text: string)
      requires Valid()
      requires p in files || (ValidRelPath(p) && p !in dirs && InDir(p, dirs))
      modifies this`files
      ensures Valid()
      ensures files == old(files)[p := text]
    {
      files := files[p := text];
    }
  }
}
