/**
  The part of the filesystem the bot touches: named directories, each a flat
  map from file name to contents, with the three operations the pool uses
  (existence test, rename, and the directory walk behind a glob pattern).
*/
module Files {
  import opened Wrappers
  import opened PathNames

  type Bytes = seq<bv8>

  /** `<dir>/<name>`: a file directly inside a directory. */
  datatype Path = Path(dir: string, name: string)

  type Dir = map<string, Bytes>
  type Dirs = map<string, Dir>

  datatype IoError = NotFound | PermissionDenied

  predicate Present(dirs: Dirs, p: Path) {
    p.dir in dirs && p.name in dirs[p.dir]
  }

  function Contents(dirs: Dirs, p: Path): Bytes
    requires Present(dirs, p)
  {
    dirs[p.dir][p.name]
  }

  /** `a` and `b` agree on whether `p` exists and on what it holds. */
  predicate SameAt(a: Dirs, b: Dirs, p: Path) {
    (Present(a, p) <==> Present(b, p)) && (Present(a, p) ==> Contents(a, p) == Contents(b, p))
  }

  /**
    The directories after `from` is renamed to `to`: `from` is gone, `to`
    holds what `from` held (replacing any file already there), and nothing
    else changes. Renaming a file onto itself changes nothing.
  */
  function Moved(dirs: Dirs, from: Path, to: Path): (r: Dirs)
    requires Present(dirs, from) && to.dir in dirs
    ensures r.Keys == dirs.Keys
    ensures Present(r, to) && Contents(r, to) == Contents(dirs, from)
    ensures from != to ==> !Present(r, from)
    ensures forall p :: p != from && p != to ==> SameAt(dirs, r, p)
  {
    var removed := dirs[from.dir := dirs[from.dir] - {from.name}];
    removed[to.dir := removed[to.dir][to.name := Contents(dirs, from)]]
  }

  /**
    What `std::fs::rename(from, to)` reports: permission is refused for the
    paths in `refused`; a missing source file or a missing target directory
    is `NotFound`; otherwise the rename succeeds.
  */
  function RenameOutcome(dirs: Dirs, refused: set<Path>, from: Path, to: Path): (r: Outcome<IoError>)
    ensures r.Pass? <==> from !in refused && Present(dirs, from) && to.dir in dirs
  {
    if from in refused then Fail(PermissionDenied)
    else if !Present(dirs, from) || to.dir !in dirs then Fail(NotFound)
    else Pass
  }

  /** The directories after an attempted rename: moved on success, untouched on failure. */
  function AfterRename(dirs: Dirs, refused: set<Path>, from: Path, to: Path): (r: Dirs)
    ensures r.Keys == dirs.Keys
    ensures forall p :: p != from && p != to ==> SameAt(dirs, r, p)
    ensures RenameOutcome(dirs, refused, from, to).Pass? ==>
      Present(r, to) && Contents(r, to) == Contents(dirs, from) && (from != to ==> !Present(r, from))
    ensures RenameOutcome(dirs, refused, from, to).Fail? ==> r == dirs
    ensures forall p :: p != to && Present(r, p) ==> Present(dirs, p) && Contents(r, p) == Contents(dirs, p)
  {
    if RenameOutcome(dirs, refused, from, to).Pass? then Moved(dirs, from, to) else dirs
  }

  /**
    A rename from one directory into another under the same file name keeps
    the two directories' sets of names disjoint.
  */
  lemma RenameKeepsDisjoint(dirs: Dirs, refused: set<Path>, from: Path, to: Path)
    requires from.dir in dirs && to.dir in dirs && from.dir != to.dir && from.name == to.name
    requires dirs[from.dir].Keys !! dirs[to.dir].Keys
    ensures var r := AfterRename(dirs, refused, from, to); r[from.dir].Keys !! r[to.dir].Keys
  {
  }

  /** The operating system's view of the directories the program works on. */
  class FileSystem {
    var dirs: Dirs
    /** Paths whose rename the system refuses (permissions, locks). */
    var refused: set<Path>
    /** Existing paths the system will not open for reading (permissions, locks). */
    var unopenable: set<Path>

    /** `Path::exists`: the path names a file in an existing directory. */
    function Exists(p: Path): (r: bool)
      reads this
      ensures r <==> p.dir in dirs && p.name in dirs[p.dir]
    {
      Present(dirs, p)
    }

    /** Whether `File::open` succeeds: the file exists and may be read. */
    function CanOpen(p: Path): (r: bool)
      reads this
      ensures r <==> Exists(p) && p !in unopenable
    {
      Present(dirs, p) && p !in unopenable
    }

    /** `std::fs::rename`. */
    method Rename(from: Path, to: Path) returns (r: Outcome<IoError>)
      modifies this`dirs
      ensures r == RenameOutcome(old(dirs), refused, from, to)
      ensures dirs == AfterRename(old(dirs), refused, from, to)
    {
      r := RenameOutcome(dirs, refused, from, to);
      if r.Pass? {
        dirs := Moved(dirs, from, to);
      }
    }

    /**
      The paths a glob for names ending in `suffix` yields: every file directly in `dir`
      whose name ends in `suffix`, each once. A directory that does not exist
      yields nothing.
    */
    method Glob(dir: string, suffix: string) returns (found: seq<Path>)
      ensures forall p :: p in found <==> p.dir == dir && Present(dirs, p) && HasSuffix(p.name, suffix)
      ensures forall i, j :: 0 <= i < j < |found| ==> found[i] != found[j]
    {
      found := [];
      if dir !in dirs {
        return;
      }
      var rest := dirs[dir].Keys;
      while rest != {}
        invariant rest <= dirs[dir].Keys
        invariant forall p :: p in found <==>
          p.dir == dir && p.name in dirs[dir] && p.name !in rest && HasSuffix(p.name, suffix)
        invariant forall i, j :: 0 <= i < j < |found| ==> found[i] != found[j]
        decreases rest
      {
        var n :| n in rest;
        if HasSuffix(n, suffix) {
          found := found + [Path(dir, n)];
        }
        rest := rest - {n};
      }
    }
  }
}
