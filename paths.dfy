/**
 * Directory paths, the package manifests (`package.json`) found in them, and
 * the upward directory walk that both `findProjectRoot` and the manifest
 * search perform.
 *
 * The filesystem is an input: a map from a directory to what reading its
 * `package.json` gives. A directory that is a key holds a `package.json`
 * (`existsSync` is true); the value is `None` when that file cannot be read
 * or is not JSON.
 */
module Paths {
  import opened Wrappers
  import Text

  /** A normalised POSIX path: absolute (`/a/b`) or relative to the working directory (`a/b`, `.`). */
  datatype Path = Path(absolute: bool, segments: seq<string>)

  const Root: Path := Path(true, [])

  /** `path.dirname`: drop the last segment; `/` and `.` are their own parents. */
  function Dirname(p: Path): (r: Path)
    ensures r.absolute == p.absolute
    ensures p.segments == [] ==> r == p
    ensures p.segments != [] ==> r.segments == p.segments[..|p.segments| - 1]
  {
    if p.segments == [] then p else Path(p.absolute, p.segments[..|p.segments| - 1])
  }

  /** The path as a string, with `/` as `path.sep`. */
  function PathText(p: Path): string {
    if p.absolute then "/" + Text.Join(p.segments, '/')
    else if p.segments == [] then "."
    else Text.Join(p.segments, '/')
  }

  /** The ancestor of `d` that keeps its first `k` segments. */
  function Ancestor(d: Path, k: int): Path
    requires 0 <= k <= |d.segments|
  {
    Path(d.absolute, d.segments[..k])
  }

  /**
   * The fewest segments a directory the walks visit can have: a walk never
   * visits `/` (its loop stops there) but does visit `.`, which is its own
   * parent and ends the walk after being visited.
   */
  function Lowest(d: Path): nat {
    if d.absolute then 1 else 0
  }

  /** The walk from `d` tests its ancestor with `k` segments, within `budget` tests when there is one. */
  predicate Visited(d: Path, k: int, budget: Option<nat>) {
    Lowest(d) <= k <= |d.segments| && (budget.Some? ==> |d.segments| - k < budget.value)
  }

  /**
   * The upward walk shared by `findProjectRoot` and `getPackageVersion`:
   * test `d`, then its parent, and so on, stopping before `/`, after `.`, or
   * when `budget` tests have been made; the first directory passing `test`
   * is the answer.
   */
  function NearestAncestor(d: Path, budget: Option<nat>, test: Path -> bool): (r: Option<Path>)
    ensures r.Some? ==> test(r.value)
    decreases |d.segments|
  {
    if d == Root || budget == Some(0) then None
    else if test(d) then Some(d)
    else if d.segments == [] then None
    else NearestAncestor(Dirname(d), if budget.Some? then Some(budget.value - 1) else None, test)
  }

  /**
   * What the walk finds: the visited ancestor with the most segments that
   * passes `test`, and nothing exactly when no visited ancestor passes.
   */
  lemma {:induction false} NearestAncestorSpec(d: Path, budget: Option<nat>, test: Path -> bool)
    ensures var r := NearestAncestor(d, budget, test);
      && (r.Some? ==> exists k :: Visited(d, k, budget) && r.value == Ancestor(d, k) && test(r.value)
                        && forall j :: k < j <= |d.segments| ==> !test(Ancestor(d, j)))
      && (r.None? <==> forall k :: Visited(d, k, budget) ==> !test(Ancestor(d, k)))
    decreases |d.segments|
  {
    var n := |d.segments|;
    assert Ancestor(d, n) == d;
    if d == Root || budget == Some(0) {
    } else if test(d) {
      assert Visited(d, n, budget);
    } else if d.segments == [] {
      assert forall k :: Visited(d, k, budget) ==> k == 0;
    } else {
      var p := Dirname(d);
      var b' := if budget.Some? then Some(budget.value - 1) else None;
      NearestAncestorSpec(p, b', test);
      assert forall k :: 0 <= k <= n - 1 ==> Ancestor(p, k) == Ancestor(d, k);
      assert forall k :: Visited(d, k, budget) && k < n ==> Visited(p, k, b');
      assert forall k :: Visited(p, k, b') ==> Visited(d, k, budget);
    }
  }

  /** What reading a `package.json` gives; absent maps stand for missing objects. */
  datatype Manifest = Manifest(
    name: Option<string>,
    version: Option<string>,
    dependencies: map<string, string>,
    devDependencies: map<string, string>)

  type FileSystem = map<Path, Option<Manifest>>

  /** JavaScript truthiness of a possibly missing string: the empty string is falsy. */
  predicate Truthy(s: Option<string>) {
    s.Some? && s.value != ""
  }

  /** `obj[key]` on a string map. */
  function Lookup(m: map<string, string>, key: string): Option<string> {
    if key in m then Some(m[key]) else None
  }

  /** The parsed `package.json` in `dir`, or `None` when reading or parsing it throws. */
  function ManifestAt(fs: FileSystem, dir: Path): Option<Manifest> {
    if dir in fs then fs[dir] else None
  }

  /** The directory `findProjectRoot(start)` answers: the walk from `dirname(start)`, else the working directory. */
  function ProjectRoot(fs: FileSystem, start: Path, cwd: Path): Path {
    NearestAncestor(Dirname(start), None, d => d in fs).GetOr(cwd)
  }

  /**
   * `findProjectRoot(start)`: the nearest ancestor of `dirname(start)` that
   * holds a `package.json`, never `/` itself, and the working directory when
   * there is none.
   */
  method FindProjectRoot(fs: FileSystem, start: Path, cwd: Path) returns (root: Path)
    ensures root == ProjectRoot(fs, start, cwd)
  {
    var currentDir := Dirname(start);
    while currentDir != Root
      invariant NearestAncestor(currentDir, None, d => d in fs).GetOr(cwd) == ProjectRoot(fs, start, cwd)
      decreases |currentDir.segments|
    {
      if currentDir in fs {
        return currentDir;
      }
      var parentDir := Dirname(currentDir);
      if parentDir == currentDir {
        break;
      }
      currentDir := parentDir;
    }
    return cwd;
  }

  /**
   * `findProjectRoot` answers the nearest visited ancestor of `dirname(start)`
   * holding a `package.json`, and the working directory exactly when no
   * visited ancestor holds one.
   */
  lemma ProjectRootNearest(fs: FileSystem, start: Path, cwd: Path)
    ensures var d := Dirname(start);
      var root := ProjectRoot(fs, start, cwd);
      && ((exists k :: Visited(d, k, None) && Ancestor(d, k) in fs) ==>
            exists k :: Visited(d, k, None) && root == Ancestor(d, k) && root in fs
              && forall j :: k < j <= |d.segments| ==> Ancestor(d, j) !in fs)
      && ((forall k :: Visited(d, k, None) ==> Ancestor(d, k) !in fs) ==> root == cwd)
  {
    NearestAncestorSpec(Dirname(start), None, d => d in fs);
  }

  /** A `package.json` at `/` is never found: with no other one on the way the answer is the working directory. */
  lemma ProjectRootSkipsFilesystemRoot(fs: FileSystem, start: Path, cwd: Path)
    requires start.absolute
    requires forall k :: 1 <= k < |start.segments| ==> Ancestor(start, k) !in fs
    ensures ProjectRoot(fs, start, cwd) == cwd
  {
    var d := Dirname(start);
    NearestAncestorSpec(d, None, p => p in fs);
    forall k | Visited(d, k, None)
      ensures Ancestor(d, k) !in fs
    {
      assert Ancestor(d, k) == Ancestor(start, k);
    }
  }
}
