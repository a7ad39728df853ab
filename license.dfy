// The license lookup of AbstractLicenseMojo: starting from the project's base
// directory, look for the license file there and then in up to
// maxParentCount parent directories, without leaving the Git repository or
// the multi-module Maven project.

module License {
  import opened Strings

  // ------------------------------------------------------------------
  // Paths and the file system
  // ------------------------------------------------------------------

  /** An absolute path, as the names below the root; the root itself is []. */
  type Path = seq<string>

  /** The license filename as the path it parses to: absolute or relative, and its names. */
  datatype FileName = FileName(absolute: bool, names: seq<string>)

  /** A snapshot of the file system: the regular files and the directories that exist. */
  datatype FileSystem = FileSystem(files: set<Path>, dirs: set<Path>)

  /** MojoUtils.isMavenProjectFolder: the directory holds a regular file `pom.xml`. */
  predicate IsMavenProjectFolder(fs: FileSystem, dir: Path)
  {
    dir + ["pom.xml"] in fs.files
  }

  /** MojoUtils.isGitRoot: the directory holds a directory `.git`. */
  predicate IsGitRoot(fs: FileSystem, dir: Path)
  {
    dir + [".git"] in fs.dirs
  }

  /** A path without `.` or `..` names, as normalize() leaves it. */
  predicate Normal(p: Path)
  {
    forall k :: 0 <= k < |p| ==> p[k] != "." && p[k] != ".."
  }

  /** One name of normalize(): `.` stays put, `..` goes up (and stays at the root), any other name goes down. */
  function Step(dir: Path, name: string): (r: Path)
  {
    if name == "." then dir
    else if name == ".." then (if dir == [] then [] else dir[..|dir| - 1])
    else dir + [name]
  }

  /** Path.normalize() of an absolute path, name by name from the root. */
  function Normalize(names: seq<string>): (r: Path)
    ensures Normal(r) && |r| <= |names|
    decreases |names|
  {
    if names == [] then [] else Step(Normalize(names[..|names| - 1]), names[|names| - 1])
  }

  /** Path.resolve(): an absolute filename replaces the directory, a relative one is appended to it. */
  function Resolve(dir: Path, f: FileName): Path
  {
    if f.absolute then f.names else dir + f.names
  }

  /** Path.startsWith(Path): the names of `prefix` begin `p`. */
  predicate StartsWith(p: Path, prefix: Path)
  {
    |prefix| <= |p| && p[..|prefix|] == prefix
  }

  /** A relative filename lands below the directory, with its names after the directory's; an absolute one ignores the directory. */
  lemma {:induction false} ResolveBelow(dir: Path, f: FileName)
    ensures !f.absolute ==> StartsWith(Resolve(dir, f), dir) && Resolve(dir, f)[|dir|..] == f.names
    ensures f.absolute ==> forall other: Path :: Resolve(other, f) == f.names
  {
    var r := Resolve(dir, f);
    if !f.absolute {
      assert r[..|dir|] == dir && r[|dir|..] == f.names;
    }
  }

  /** Path.startsWith compares whole names: it is reflexive, transitive and antisymmetric. */
  lemma {:induction false} StartsWithOrder(p: Path, q: Path, r: Path)
    ensures StartsWith(p, p)
    ensures StartsWith(p, q) && StartsWith(q, r) ==> StartsWith(p, r)
    ensures StartsWith(p, q) && StartsWith(q, p) ==> p == q
  {
    assert p[..|p|] == p;
    if StartsWith(p, q) && StartsWith(q, r) {
      assert p[..|r|] == p[..|q|][..|r|];
    }
    if StartsWith(p, q) && StartsWith(q, p) {
      assert p == p[..|q|];
    }
  }

  /**
   * The two tests look at a name resolved against the directory: a Maven
   * project needs `pom.xml` as a regular file, a Git root needs `.git` as a
   * directory, so the other kind of entry under that name does not count.
   */
  lemma {:induction false} FolderTests(fs: FileSystem, dir: Path)
    ensures IsMavenProjectFolder(fs, dir) <==> Resolve(dir, FileName(false, ["pom.xml"])) in fs.files
    ensures IsGitRoot(fs, dir) <==> Resolve(dir, FileName(false, [".git"])) in fs.dirs
    ensures !IsMavenProjectFolder(FileSystem(fs.files - {dir + ["pom.xml"]}, fs.dirs + {dir + ["pom.xml"]}), dir)
    ensures !IsGitRoot(FileSystem(fs.files + {dir + [".git"]}, fs.dirs - {dir + [".git"]}), dir)
  {
  }

  /** Path.getParent() of a path that has one. */
  function Parent(dir: Path): (r: Path)
    requires dir != []
    ensures |r| == |dir| - 1 && StartsWith(dir, r)
  {
    dir[..|dir| - 1]
  }

  /** The directory `k` levels above `dir`. */
  function Ancestor(dir: Path, k: nat): (r: Path)
    requires k <= |dir|
    ensures |r| == |dir| - k && StartsWith(dir, r)
  {
    dir[..|dir| - k]
  }

  /** The file the search looks at in `dir`: dir.resolve(filename).normalize(). */
  function Candidate(dir: Path, f: FileName): Path
  {
    Normalize(Resolve(dir, f))
  }

  // ------------------------------------------------------------------
  // What findLicenseFile decides
  // ------------------------------------------------------------------

  /** How findLicenseFile ends: the file, or the failure it throws. */
  datatype Outcome =
    | Found(file: Path)
    | InvalidFilename(filename: FileName)
    | LeavingGitProject
    | LeavingMavenProject
    | FileNotFound(filename: FileName, dir: Path)
      // getParent() of the root is null, and isMavenProjectFolder(null) throws a NullPointerException
    | NullParent

  /** The loop of findLicenseFile from `dir` with `left` parents still to examine. */
  function Climb(fs: FileSystem, dir: Path, f: FileName, left: int): (r: Outcome)
    ensures r.Found? ==> r.file in fs.files
    ensures !r.InvalidFilename?
    decreases if left <= 0 then 0 else left
  {
    if left <= 0 then FileNotFound(f, dir)
    else if IsGitRoot(fs, dir) then LeavingGitProject
    else if dir == [] then NullParent
    else
      var parent := Parent(dir);
      if !IsMavenProjectFolder(fs, parent) && !IsGitRoot(fs, parent) then LeavingMavenProject
      else if Candidate(parent, f) in fs.files then Found(Candidate(parent, f))
      else Climb(fs, parent, f, left - 1)
  }

  /** findLicenseFile(baseDir, filename, maxParentCount): the base directory first, then the parents. */
  function Search(fs: FileSystem, baseDir: Path, f: FileName, maxParentCount: int): (r: Outcome)
    ensures r.Found? ==> r.file in fs.files
  {
    var dir := Normalize(baseDir);
    var candidate := Candidate(dir, f);
    if !StartsWith(candidate, dir) then InvalidFilename(f)
    else if candidate in fs.files then Found(candidate)
    else Climb(fs, dir, f, maxParentCount)
  }

  /** The debug lines of the lookup and the info line of a skipped execution. */
  datatype LicenseEvent = FileFound(file: Path) | Skipped

  /** abortIfGitRoot: a failure exactly when the directory is a Git root. */
  method AbortIfGitRoot(fs: FileSystem, dir: Path) returns (failure: Option<Outcome>)
    ensures failure.Some? <==> IsGitRoot(fs, dir)
    ensures failure.Some? ==> failure.value == LeavingGitProject
  {
    if IsGitRoot(fs, dir) {
      return Some(LeavingGitProject);
    }
    return None;
  }

  /**
   * findLicenseFile: check the base directory, then move `dir` up one parent
   * per turn of the counted loop; the debug line is logged only for the file
   * returned.
   */
  method FindLicenseFile(fs: FileSystem, baseDir: Path, filename: FileName, maxParentCount: int)
    returns (r: Outcome, log: seq<LicenseEvent>)
    ensures r == Search(fs, baseDir, filename, maxParentCount)
    ensures log == if r.Found? then [FileFound(r.file)] else []
  {
    var dir := Normalize(baseDir);
    var candidate := Candidate(dir, filename);
    if !StartsWith(candidate, dir) {
      return InvalidFilename(filename), [];
    }
    if candidate in fs.files {
      return Found(candidate), [FileFound(candidate)];
    }
    var i := 0;
    while i < maxParentCount
      invariant 0 <= i
      invariant Climb(fs, dir, filename, maxParentCount - i) == Search(fs, baseDir, filename, maxParentCount)
      decreases maxParentCount - i
    {
      var failure := AbortIfGitRoot(fs, dir);
      if failure.Some? {
        return failure.value, [];
      }
      if dir == [] {
        return NullParent, [];
      }
      dir := Parent(dir);
      if !IsMavenProjectFolder(fs, dir) && !IsGitRoot(fs, dir) {
        return LeavingMavenProject, [];
      }
      candidate := Candidate(dir, filename);
      if candidate in fs.files {
        return Found(candidate), [FileFound(candidate)];
      }
      i := i + 1;
    }
    return FileNotFound(filename, dir), [];
  }

  /** What execute() does: nothing but an info line when skipped, otherwise the lookup and processLicenseFile. */
  datatype Execution = SkippedExecution | Processed(licenseFile: Path) | Failed(failure: Outcome)

  method Execute(fs: FileSystem, skipLicense: bool, baseDir: Path, licenseFilename: FileName, maxParentCount: int)
    returns (e: Execution, log: seq<LicenseEvent>)
    ensures skipLicense ==> e == SkippedExecution && log == [Skipped]
    ensures !skipLicense ==> var r := Search(fs, baseDir, licenseFilename, maxParentCount);
      && (r.Found? ==> e == Processed(r.file) && log == [FileFound(r.file)])
      && (!r.Found? ==> e == Failed(r) && log == [])
  {
    if skipLicense {
      return SkippedExecution, [Skipped];
    }
    var r;
    r, log := FindLicenseFile(fs, baseDir, licenseFilename, maxParentCount);
    if r.Found? {
      e := Processed(r.file);
    } else {
      e := Failed(r);
    }
  }

  // ------------------------------------------------------------------
  // Properties of the lookup
  // ------------------------------------------------------------------

  /** normalize() leaves a normal path as it is; with the ensures of Normalize, it is idempotent. */
  lemma {:induction false} NormalizeNormal(p: Path)
    requires Normal(p)
    ensures Normalize(p) == p
    decreases |p|
  {
    if p != [] {
      var init := p[..|p| - 1];
      assert Normal(init) by {
        forall k | 0 <= k < |init| ensures init[k] != "." && init[k] != ".." {
          assert init[k] == p[k];
        }
      }
      NormalizeNormal(init);
      assert p == init + [p[|p| - 1]];
    }
  }

  lemma {:induction false} NormalizeIdempotent(names: seq<string>)
    ensures Normalize(Normalize(names)) == Normalize(names)
  {
    NormalizeNormal(Normalize(names));
  }

  /** Appending names without `..` to a normal directory never climbs out of it. */
  lemma {:induction false} NormalizeBelow(dir: Path, names: seq<string>)
    requires Normal(dir) && ".." !in names
    ensures StartsWith(Normalize(dir + names), dir)
    decreases |names|
  {
    if names == [] {
      assert dir + names == dir;
      NormalizeNormal(dir);
    } else {
      var init := names[..|names| - 1];
      assert (dir + names)[..|dir + names| - 1] == dir + init;
      assert ".." !in init by {
        forall k | 0 <= k < |init| ensures init[k] != ".." {
          assert init[k] == names[k];
        }
      }
      NormalizeBelow(dir, init);
      var below := Normalize(dir + init);
      var last := names[|names| - 1];
      assert (dir + names)[|dir + names| - 1] == last;
      if last != "." {
        assert (below + [last])[..|dir|] == below[..|dir|];
      }
    }
  }

  /** A relative filename without `..` is never rejected as escaping the project. */
  lemma {:induction false} PlainFilenameAccepted(fs: FileSystem, baseDir: Path, f: FileName, maxParentCount: int)
    requires !f.absolute && ".." !in f.names
    ensures !Search(fs, baseDir, f, maxParentCount).InvalidFilename?
  {
    NormalizeBelow(Normalize(baseDir), f.names);
  }

  /** `../name` from a base directory that is not named `name` is rejected before anything is looked up. */
  lemma {:induction false} ParentFilenameRejected(fs: FileSystem, baseDir: Path, name: string, maxParentCount: int)
    requires Normalize(baseDir) != [] && name != "." && name != ".."
    requires name != Normalize(baseDir)[|Normalize(baseDir)| - 1]
    ensures Search(fs, baseDir, FileName(false, ["..", name]), maxParentCount) == InvalidFilename(FileName(false, ["..", name]))
  {
    var dir := Normalize(baseDir);
    var names := dir + ["..", name];
    NormalizeNormal(dir);
    assert names[..|names| - 1][..|names| - 2] == dir;
    var up := names[..|names| - 1];
    assert up[..|up| - 1] == dir && up[|up| - 1] == "..";
    assert Normalize(up) == dir[..|dir| - 1];
    var c := Candidate(dir, FileName(false, ["..", name]));
    assert c == Normalize(names);
    assert c == dir[..|dir| - 1] + [name];
    assert c[|dir| - 1] != dir[|dir| - 1];
  }

  /** The level above level `j` of `dir` is the parent of level `j`. */
  lemma {:induction false} AncestorParent(dir: Path, j: nat)
    requires j < |dir|
    ensures Ancestor(dir, j) != [] && Ancestor(dir, j + 1) == Parent(Ancestor(dir, j))
  {
  }

  /** The loop may step from level `j` to level `j + 1`: no Git root at `j`, a Maven project or Git root at `j + 1`. */
  predicate Passable(fs: FileSystem, dir: Path, j: nat)
    requires j < |dir|
  {
    && !IsGitRoot(fs, Ancestor(dir, j))
    && (IsMavenProjectFolder(fs, Ancestor(dir, j + 1)) || IsGitRoot(fs, Ancestor(dir, j + 1)))
  }

  /**
   * When the first `k` steps up are allowed and none of the levels reached
   * holds the file, the search carries on from level `k` with `k` fewer
   * parents to examine.
   */
  lemma {:induction false} ClimbReaches(fs: FileSystem, dir: Path, f: FileName, left: int, k: nat)
    requires k <= left && k <= |dir|
    requires forall j :: 0 <= j < k ==> Passable(fs, dir, j)
    requires forall j :: 1 <= j <= k ==> Candidate(Ancestor(dir, j), f) !in fs.files
    ensures Climb(fs, dir, f, left) == Climb(fs, Ancestor(dir, k), f, left - k)
  {
    if k == 0 {
      assert Ancestor(dir, 0) == dir;
    } else {
      ClimbReaches(fs, dir, f, left, k - 1);
      var here := Ancestor(dir, k - 1);
      AncestorParent(dir, k - 1);
      assert Passable(fs, dir, k - 1);
      assert Candidate(Ancestor(dir, k), f) !in fs.files;
      assert Climb(fs, here, f, left - (k - 1)) == Climb(fs, Ancestor(dir, k), f, left - k);
    }
  }

  /** With every step allowed and no level holding the file, the failure names the directory `maxParentCount` levels up. */
  lemma {:induction false} ClimbExhausted(fs: FileSystem, dir: Path, f: FileName, maxParentCount: nat)
    requires maxParentCount <= |dir|
    requires forall j :: 0 <= j < maxParentCount ==> Passable(fs, dir, j)
    requires forall j :: 1 <= j <= maxParentCount ==> Candidate(Ancestor(dir, j), f) !in fs.files
    ensures Climb(fs, dir, f, maxParentCount) == FileNotFound(f, Ancestor(dir, maxParentCount))
  {
    ClimbReaches(fs, dir, f, maxParentCount, maxParentCount);
  }

  /** With the first `k - 1` steps allowed and the file at level `k` (and the step there allowed), that file is found. */
  lemma {:induction false} ClimbFinds(fs: FileSystem, dir: Path, f: FileName, left: int, k: nat)
    requires 1 <= k <= left && k <= |dir|
    requires forall j :: 0 <= j < k ==> Passable(fs, dir, j)
    requires forall j :: 1 <= j < k ==> Candidate(Ancestor(dir, j), f) !in fs.files
    requires Candidate(Ancestor(dir, k), f) in fs.files
    ensures Climb(fs, dir, f, left) == Found(Candidate(Ancestor(dir, k), f))
  {
    ClimbReaches(fs, dir, f, left, k - 1);
    AncestorParent(dir, k - 1);
    assert Passable(fs, dir, k - 1);
  }

  /** A Git root reached with parents still to examine stops the search. */
  lemma {:induction false} ClimbStopsAtGitRoot(fs: FileSystem, dir: Path, f: FileName, left: int, k: nat)
    requires k < left && k <= |dir|
    requires forall j :: 0 <= j < k ==> Passable(fs, dir, j)
    requires forall j :: 1 <= j <= k ==> Candidate(Ancestor(dir, j), f) !in fs.files
    requires IsGitRoot(fs, Ancestor(dir, k))
    ensures Climb(fs, dir, f, left) == LeavingGitProject
  {
    ClimbReaches(fs, dir, f, left, k);
  }

  /** Reaching, with turns left, a parent that is neither a Maven project nor a Git root fails with "leaving Maven project". */
  lemma {:induction false} ClimbLeavesMaven(fs: FileSystem, dir: Path, f: FileName, left: int, k: nat)
    requires 1 <= k <= left && k <= |dir|
    requires forall j :: 0 <= j < k - 1 ==> Passable(fs, dir, j)
    requires forall j :: 1 <= j < k ==> Candidate(Ancestor(dir, j), f) !in fs.files
    requires !IsGitRoot(fs, Ancestor(dir, k - 1))
    requires !IsMavenProjectFolder(fs, Ancestor(dir, k)) && !IsGitRoot(fs, Ancestor(dir, k))
    ensures Climb(fs, dir, f, left) == LeavingMavenProject
  {
    ClimbReaches(fs, dir, f, left, k - 1);
    AncestorParent(dir, k - 1);
  }

  /** Level `k` above the parent is level `k + 1` above the directory. */
  lemma {:induction false} AncestorShift(dir: Path, k: nat)
    requires dir != [] && k < |dir|
    ensures Ancestor(Parent(dir), k) == Ancestor(dir, k + 1)
  {
  }

  /** One allowed step up without finding the file: the loop carries on from the parent. */
  predicate MovesUp(fs: FileSystem, dir: Path, f: FileName, left: int)
  {
    && left > 0 && !IsGitRoot(fs, dir) && dir != []
    && (IsMavenProjectFolder(fs, Parent(dir)) || IsGitRoot(fs, Parent(dir)))
    && Candidate(Parent(dir), f) !in fs.files
  }

  /** The file the loop returns is the candidate of a level it was allowed to reach. */
  lemma {:induction false} ClimbFoundSound(fs: FileSystem, dir: Path, f: FileName, left: int)
    requires Climb(fs, dir, f, left).Found?
    ensures exists k :: 1 <= k <= left && k <= |dir| && Climb(fs, dir, f, left).file == Candidate(Ancestor(dir, k), f)
    decreases if left <= 0 then 0 else left
  {
    var file := Climb(fs, dir, f, left).file;
    if MovesUp(fs, dir, f, left) {
      var parent := Parent(dir);
      ClimbFoundSound(fs, parent, f, left - 1);
      var k :| 1 <= k <= left - 1 && k <= |parent| && file == Candidate(Ancestor(parent, k), f);
      AncestorShift(dir, k);
    } else {
      assert Parent(dir) == Ancestor(dir, 1);
    }
  }

  /** A Git-root failure has a Git root at a level below the last one the loop may examine. */
  lemma {:induction false} ClimbGitSound(fs: FileSystem, dir: Path, f: FileName, left: int)
    requires Climb(fs, dir, f, left).LeavingGitProject?
    ensures exists k :: 0 <= k < left && k <= |dir| && IsGitRoot(fs, Ancestor(dir, k))
    decreases if left <= 0 then 0 else left
  {
    if MovesUp(fs, dir, f, left) {
      var parent := Parent(dir);
      ClimbGitSound(fs, parent, f, left - 1);
      var k :| 0 <= k < left - 1 && k <= |parent| && IsGitRoot(fs, Ancestor(parent, k));
      AncestorShift(dir, k);
    } else {
      assert Ancestor(dir, 0) == dir;
    }
  }

  /** A Maven-project failure has a level, within reach, that is neither a Maven project nor a Git root. */
  lemma {:induction false} ClimbMavenSound(fs: FileSystem, dir: Path, f: FileName, left: int)
    requires Climb(fs, dir, f, left).LeavingMavenProject?
    ensures exists k :: (1 <= k <= left && k <= |dir|
      && !IsMavenProjectFolder(fs, Ancestor(dir, k)) && !IsGitRoot(fs, Ancestor(dir, k)))
    decreases if left <= 0 then 0 else left
  {
    if MovesUp(fs, dir, f, left) {
      var parent := Parent(dir);
      ClimbMavenSound(fs, parent, f, left - 1);
      var k :| 1 <= k <= left - 1 && k <= |parent|
        && !IsMavenProjectFolder(fs, Ancestor(parent, k)) && !IsGitRoot(fs, Ancestor(parent, k));
      AncestorShift(dir, k);
    } else {
      assert Parent(dir) == Ancestor(dir, 1);
    }
  }

  /** The NullPointerException happens only when there are more parents to examine than the path has. */
  lemma {:induction false} ClimbNullSound(fs: FileSystem, dir: Path, f: FileName, left: int)
    requires Climb(fs, dir, f, left).NullParent?
    ensures |dir| < left
    decreases if left <= 0 then 0 else left
  {
    if MovesUp(fs, dir, f, left) {
      ClimbNullSound(fs, Parent(dir), f, left - 1);
    }
  }

  /** Not-found names the directory `left` levels up, or the starting one when there is nothing to examine. */
  lemma {:induction false} ClimbNotFoundSound(fs: FileSystem, dir: Path, f: FileName, left: int)
    requires Climb(fs, dir, f, left).FileNotFound?
    ensures Climb(fs, dir, f, left).filename == f
    ensures left <= 0 ==> Climb(fs, dir, f, left).dir == dir
    ensures left > 0 ==> left <= |dir| && Climb(fs, dir, f, left).dir == Ancestor(dir, left)
    decreases if left <= 0 then 0 else left
  {
    if MovesUp(fs, dir, f, left) {
      var parent := Parent(dir);
      ClimbNotFoundSound(fs, parent, f, left - 1);
      if left - 1 <= 0 {
        assert parent == Ancestor(dir, 1);
      } else {
        AncestorShift(dir, left - 1);
      }
    }
  }

  /** The file findLicenseFile returns is the candidate of the base directory or of a parent within maxParentCount levels. */
  lemma {:induction false} SearchFoundSound(fs: FileSystem, baseDir: Path, f: FileName, maxParentCount: int)
    requires Search(fs, baseDir, f, maxParentCount).Found?
    ensures exists k: nat :: (k <= |Normalize(baseDir)| && (k == 0 || k <= maxParentCount)
      && Search(fs, baseDir, f, maxParentCount).file == Candidate(Ancestor(Normalize(baseDir), k), f))
  {
    var dir := Normalize(baseDir);
    var file := Search(fs, baseDir, f, maxParentCount).file;
    if Candidate(dir, f) in fs.files {
      assert file == Candidate(dir, f);
      assert Ancestor(dir, 0) == dir;
    } else {
      assert Search(fs, baseDir, f, maxParentCount) == Climb(fs, dir, f, maxParentCount);
      ClimbFoundSound(fs, dir, f, maxParentCount);
      var k :| 1 <= k <= maxParentCount && k <= |dir| && file == Candidate(Ancestor(dir, k), f);
    }
  }

  /** With maxParentCount at most 0 only the base directory is looked at. */
  lemma {:induction false} NoParentsOnlyBaseDir(fs: FileSystem, baseDir: Path, f: FileName, maxParentCount: int)
    requires maxParentCount <= 0
    ensures var r := Search(fs, baseDir, f, maxParentCount);
      || r == InvalidFilename(f)
      || r == Found(Candidate(Normalize(baseDir), f))
      || r == FileNotFound(f, Normalize(baseDir))
  {
  }
}
