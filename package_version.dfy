/**
 * `getPackageVersion`, shared by the two dependency analysers and the
 * versions script: resolve the package's entry point, walk up from its
 * directory to the first `package.json` that belongs to the package, and
 * answer its version; when resolution throws, answer from the project's own
 * manifest instead. Every failure is reported as a fixed sentinel string.
 *
 * The three copies differ only in the bound on the walk (`Some(10)` in
 * `dependencies.ts`, none elsewhere) and in the directory whose manifest the
 * fallback reads; both are parameters here.
 */
module PackageVersion {
  import opened Wrappers
  import opened Paths
  import Text

  const VersionMissing: string := "version not found in package.json"
  const ManifestMissing: string := "package.json not found"
  const NotInProject: string := "not in project package.json"
  const ResolutionError: string := "resolution error"

  /**
   * What the version lookup reads: the filesystem, and the entry point
   * `require.resolve` gives for each package name it can resolve (a name
   * that is not a key makes it throw).
   */
  datatype Host = Host(fs: FileSystem, resolve: map<string, Path>, cwd: Path)

  /**
   * The walk accepts the manifest in `dir` when its `name` is the package,
   * or the directory text ends with the package name after a separator, or
   * mentions `node_modules` anywhere and ends with the name.
   */
  predicate MatchesPackage(dir: Path, m: Manifest, name: string) {
    || m.name == Some(name)
    || (Text.Contains(PathText(dir), "node_modules") && Text.EndsWith(PathText(dir), name))
    || Text.EndsWith(PathText(dir), "/" + name)
  }

  /** `dir` holds a readable `package.json` that the walk accepts for `name`. */
  predicate Accepts(fs: FileSystem, name: string, dir: Path) {
    dir in fs && fs[dir].Some? && MatchesPackage(dir, fs[dir].value, name)
  }

  /** `Accepts` as the test handed to the shared upward walk. */
  function AcceptsTest(fs: FileSystem, name: string): Path -> bool {
    dir => Accepts(fs, name, dir)
  }

  /** The directory whose manifest the walk from `dirname(entry)` settles on. */
  function FindManifest(fs: FileSystem, entry: Path, name: string, maxDepth: Option<nat>): Option<Path> {
    NearestAncestor(Dirname(entry), maxDepth, AcceptsTest(fs, name))
  }

  /** How many more directories a walk bounded by `maxDepth` may test after `depth` of them. */
  function Remaining(maxDepth: Option<nat>, depth: nat): Option<nat>
    requires maxDepth.Some? ==> depth <= maxDepth.value
  {
    if maxDepth.Some? then Some(maxDepth.value - depth) else None
  }

  /**
   * The walk: test `dirname(entry)` and its parents, never `/`, at most
   * `maxDepth` of them when there is a bound, and stop at the first
   * accepted manifest.
   */
  method WalkToManifest(fs: FileSystem, entry: Path, name: string, maxDepth: Option<nat>)
    returns (found: Option<Path>)
    ensures found == FindManifest(fs, entry, name, maxDepth)
  {
    var currentDir := Dirname(entry);
    var depth: nat := 0;
    while currentDir != Root && (maxDepth.None? || depth < maxDepth.value)
      invariant maxDepth.Some? ==> depth <= maxDepth.value
      invariant NearestAncestor(currentDir, Remaining(maxDepth, depth), AcceptsTest(fs, name))
                == FindManifest(fs, entry, name, maxDepth)
      decreases |currentDir.segments|
    {
      depth := depth + 1;
      if currentDir in fs && fs[currentDir].Some? {
        var packageData := fs[currentDir].value;
        if packageData.name == Some(name) {
          return Some(currentDir);
        }
        if MatchesPackage(currentDir, packageData, name) {
          return Some(currentDir);
        }
      }
      var parentDir := Dirname(currentDir);
      if parentDir == currentDir {
        break;
      }
      currentDir := parentDir;
    }
    return None;
  }

  /**
   * The fallback answer read from the project manifest: `devDependencies`
   * entries override `dependencies` ones, and a missing or empty entry gives
   * the sentinel; an unreadable manifest gives `"resolution error"`.
   */
  function FallbackVersion(project: Option<Manifest>, name: string): string {
    match project
    case None => ResolutionError
    case Some(m) =>
      var merged := m.dependencies + m.devDependencies;
      if Truthy(Lookup(merged, name)) then merged[name] else NotInProject
  }

  /**
   * What `getPackageVersion(name)` answers, walking at most `maxDepth`
   * directories and falling back to the manifest in `projectDir`.
   */
  function VersionOf(host: Host, name: string, maxDepth: Option<nat>, projectDir: Path): string {
    if name !in host.resolve then FallbackVersion(ManifestAt(host.fs, projectDir), name)
    else match FindManifest(host.fs, host.resolve[name], name, maxDepth)
      case None => ManifestMissing
      case Some(dir) =>
        var version := host.fs[dir].value.version;
        if Truthy(version) then version.value else VersionMissing
  }

  /** `getPackageVersion(name)` with the walk bound and fallback directory of one of its three copies. */
  method GetPackageVersion(host: Host, name: string, maxDepth: Option<nat>, projectDir: Path)
    returns (version: string)
    ensures version == VersionOf(host, name, maxDepth, projectDir)
  {
    if name !in host.resolve {
      version := FallbackVersion(ManifestAt(host.fs, projectDir), name);
      return;
    }
    var packageJsonPath := WalkToManifest(host.fs, host.resolve[name], name, maxDepth);
    if packageJsonPath.Some? {
      var packageJson := host.fs[packageJsonPath.value].value;
      if !Truthy(packageJson.version) {
        return VersionMissing;
      }
      return packageJson.version.value;
    } else {
      return ManifestMissing;
    }
  }

  /** A version answer is never the empty string: a falsy version or entry turns into a sentinel. */
  lemma VersionNonEmpty(host: Host, name: string, maxDepth: Option<nat>, projectDir: Path)
    ensures VersionOf(host, name, maxDepth, projectDir) != ""
  {
  }

  /**
   * The manifest the walk settles on belongs to an ancestor of the entry
   * point's directory (never `/`), within `maxDepth` directories of it, is
   * readable and accepted; every directory visited before it was not.
   */
  lemma FoundManifestIsNearestMatch(fs: FileSystem, entry: Path, name: string, maxDepth: Option<nat>)
    requires FindManifest(fs, entry, name, maxDepth).Some?
    ensures var d := Dirname(entry);
      var dir := FindManifest(fs, entry, name, maxDepth).value;
      exists k :: Visited(d, k, maxDepth) && dir == Ancestor(d, k) && Accepts(fs, name, dir)
        && forall j :: k < j <= |d.segments| ==> !Accepts(fs, name, Ancestor(d, j))
  {
    NearestAncestorSpec(Dirname(entry), maxDepth, AcceptsTest(fs, name));
  }

  /**
   * `"package.json not found"` comes from a walk on which no visited
   * directory is accepted; otherwise the answer comes from the nearest
   * accepted manifest: its version, or the sentinel when that version is
   * missing or empty.
   */
  lemma ManifestMissingWhenNoMatch(host: Host, name: string, maxDepth: Option<nat>, projectDir: Path)
    requires name in host.resolve
    ensures var d := Dirname(host.resolve[name]);
      var version := VersionOf(host, name, maxDepth, projectDir);
      && ((forall k :: Visited(d, k, maxDepth) ==> !Accepts(host.fs, name, Ancestor(d, k))) ==> version == ManifestMissing)
      && ((exists k :: Visited(d, k, maxDepth) && Accepts(host.fs, name, Ancestor(d, k))) ==>
            exists k :: Visited(d, k, maxDepth) && Accepts(host.fs, name, Ancestor(d, k))
              && (forall j :: k < j <= |d.segments| ==> !Accepts(host.fs, name, Ancestor(d, j)))
              && version == (if Truthy(host.fs[Ancestor(d, k)].value.version)
                             then host.fs[Ancestor(d, k)].value.version.value else VersionMissing))
  {
    var d := Dirname(host.resolve[name]);
    NearestAncestorSpec(d, maxDepth, AcceptsTest(host.fs, name));
    if FindManifest(host.fs, host.resolve[name], name, maxDepth).Some? {
      FoundManifestIsNearestMatch(host.fs, host.resolve[name], name, maxDepth);
    }
  }

  /** The bounded walk of `dependencies.ts` settles at most nine levels above the entry point's directory. */
  lemma BoundedWalkStaysClose(fs: FileSystem, entry: Path, name: string)
    requires FindManifest(fs, entry, name, Some(10)).Some?
    ensures |FindManifest(fs, entry, name, Some(10)).value.segments| + 10 > |Dirname(entry).segments|
  {
    FoundManifestIsNearestMatch(fs, entry, name, Some(10));
  }

  /** A resolved package never reads the project manifest: its answer is the same whatever `projectDir` is. */
  lemma FallbackOnlyOnResolutionFailure(host: Host, name: string, maxDepth: Option<nat>, dir1: Path, dir2: Path)
    requires name in host.resolve
    ensures VersionOf(host, name, maxDepth, dir1) == VersionOf(host, name, maxDepth, dir2)
  {
  }

  /** In the fallback, a non-empty `devDependencies` entry wins over the `dependencies` one. */
  lemma DevDependencyOverrides(m: Manifest, name: string)
    requires name in m.devDependencies && m.devDependencies[name] != ""
    ensures FallbackVersion(Some(m), name) == m.devDependencies[name]
  {
  }

  /**
   * The override is by presence, not by truthiness: an empty `devDependencies`
   * entry hides a non-empty `dependencies` one.
   */
  lemma EmptyDevEntryHidesDependency(m: Manifest, name: string)
    requires name in m.devDependencies && m.devDependencies[name] == ""
    ensures FallbackVersion(Some(m), name) == NotInProject
  {
  }

  /** A name in `dependencies` alone is answered from there. */
  lemma DependencyUsedWithoutDevEntry(m: Manifest, name: string)
    requires name !in m.devDependencies && name in m.dependencies && m.dependencies[name] != ""
    ensures FallbackVersion(Some(m), name) == m.dependencies[name]
  {
  }
}
