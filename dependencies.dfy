/**
 * `getItemDependencies` of `dependencies.ts`: classify a file's imports as
 * internal or external using the `compilerOptions.paths` aliases of the
 * project's `tsconfig.json`, split off the external packages the project
 * lists as dev dependencies, and optionally annotate both lists with
 * versions found by a walk bounded to ten directories.
 */
module Dependencies {
  import opened Wrappers
  import opened Paths
  import PackageVersion
  import ImportSets
  import Text

  /** `dependencies.ts` walks at most ten directories up from a package's entry point. */
  const MaxDepth: nat := 10

  /** The alias with a trailing slash-star removed, as `dependencies.ts` does before matching. */
  function AliasPrefix(alias: string): (r: string)
    ensures Text.EndsWith(alias, "/*") ==> r + "/*" == alias
    ensures !Text.EndsWith(alias, "/*") ==> r == alias
  {
    if Text.EndsWith(alias, "/*") then alias[..|alias| - 2] else alias
  }

  /** The specifier is the alias prefix, or lies under it; an empty prefix matches nothing. */
  predicate MatchesAlias(spec: string, alias: string) {
    var prefix := AliasPrefix(alias);
    prefix != "" && (spec == prefix || Text.StartsWith(spec, prefix + "/"))
  }

  /** A specifier is internal when it is relative or matches one of the aliases. */
  predicate IsInternal(spec: string, aliases: seq<string>) {
    Text.StartsWith(spec, ".") || exists i :: 0 <= i < |aliases| && MatchesAlias(spec, aliases[i])
  }

  /** The `isInternal` loop: relative specifiers first, then the aliases in key order until one matches. */
  method ClassifyImport(spec: string, aliases: seq<string>) returns (internal: bool)
    ensures internal == IsInternal(spec, aliases)
  {
    if Text.StartsWith(spec, ".") {
      return true;
    }
    for i := 0 to |aliases|
      invariant forall k :: 0 <= k < i ==> !MatchesAlias(spec, aliases[k])
    {
      var aliasPrefix := AliasPrefix(aliases[i]);
      if aliasPrefix != "" && (spec == aliasPrefix || Text.StartsWith(spec, aliasPrefix + "/")) {
        return true;
      }
    }
    return false;
  }

  /** A match under an alias stops at a segment boundary: the prefix is followed by `/` or by nothing. */
  lemma AliasMatchAtSegmentBoundary(spec: string, alias: string)
    requires MatchesAlias(spec, alias)
    ensures var prefix := AliasPrefix(alias);
      Text.StartsWith(spec, prefix) && (|spec| == |prefix| || spec[|prefix|] == '/')
  {
    var prefix := AliasPrefix(alias);
    if spec != prefix {
      assert spec[..|prefix| + 1] == prefix + "/";
      assert spec[..|prefix|] == (prefix + "/")[..|prefix|];
    }
  }

  /** With no aliases (an unreadable `tsconfig.json` gives none), only relative specifiers are internal. */
  lemma NoAliasesOnlyRelative(spec: string)
    ensures IsInternal(spec, []) <==> Text.StartsWith(spec, ".")
  {
  }

  /** The alias `@/` + `*` takes in `@/lib/x` but not the scoped package `@radix-ui/react-slot`. */
  lemma ScopedPackageNotUnderAtAlias()
    ensures IsInternal("@/lib/x", ["@/*"])
    ensures !IsInternal("@radix-ui/react-slot", ["@/*"])
  {
    assert AliasPrefix("@/*") == "@";
    assert MatchesAlias("@/lib/x", ["@/*"][0]) by {
      assert "@/lib/x"[..2] == "@/";
    }
    var scoped := "@radix-ui/react-slot";
    assert !Text.StartsWith(scoped, ".") by {
      assert scoped[0] == '@';
    }
    assert !MatchesAlias(scoped, ["@/*"][0]) by {
      assert scoped[1] == 'r';
    }
  }

  /** The alias keys of `compilerOptions.paths` in the `tsconfig.json` of `dir`, or none when it cannot be read. */
  function AliasesAt(tsconfigs: map<Path, seq<string>>, dir: Path): seq<string> {
    if dir in tsconfigs then tsconfigs[dir] else []
  }

  /** `IsInternal` under fixed aliases, as the test handed to the partition. */
  function InternalTest(aliases: seq<string>): string -> bool {
    s => IsInternal(s, aliases)
  }

  /** The two sets the classification of `raw` fills. */
  function Classification(raw: seq<string>, aliases: seq<string>): (seq<string>, seq<string>) {
    ImportSets.Partition(ImportSets.Specifiers(raw), InternalTest(aliases))
  }

  /**
   * The import loop: strip the quotes from each specifier and add it to the
   * internal or the external set.
   */
  method PartitionImports(raw: seq<string>, aliases: seq<string>)
    returns (externalPackages: seq<string>, internalImports: seq<string>)
    ensures (externalPackages, internalImports) == Classification(raw, aliases)
  {
    externalPackages, internalImports := [], [];
    var specs := ImportSets.Specifiers(raw);
    var test := InternalTest(aliases);
    for i := 0 to |raw|
      invariant (externalPackages, internalImports) == ImportSets.Partition(specs[..i], test)
    {
      var moduleSpecifier := ImportSets.StripQuotes(raw[i]);
      var isInternal := ClassifyImport(moduleSpecifier, aliases);
      ImportSets.PartitionStep(specs[..i], moduleSpecifier, test);
      assert specs[..i + 1] == specs[..i] + [moduleSpecifier];
      assert test(moduleSpecifier) == isInternal;
      if isInternal {
        internalImports := ImportSets.Add(internalImports, moduleSpecifier);
      } else {
        externalPackages := ImportSets.Add(externalPackages, moduleSpecifier);
      }
    }
    assert specs[..|raw|] == specs;
  }

  /**
   * `getItemDependencies(filePath, includeVersion)` for a file whose imports
   * have the module specifiers `raw`. The project root is the one
   * `findProjectRoot(filePath)` gives; the version fallback reads the
   * manifest of `findProjectRoot(process.cwd())`.
   */
  method GetItemDependencies(host: PackageVersion.Host, tsconfigs: map<Path, seq<string>>,
                             filePath: Path, raw: seq<string>, includeVersion: bool)
    returns (r: ImportSets.Dependencies)
    ensures var root := ProjectRoot(host.fs, filePath, host.cwd);
      var (ext, internal) := Classification(raw, AliasesAt(tsconfigs, root));
      var dev := ImportSets.DevSplit(ext, ManifestAt(host.fs, root));
      var fallbackDir := ProjectRoot(host.fs, host.cwd, host.cwd);
      && r.internalImports == internal
      && |r.externalPackages| == |ext| && |r.devDependencies| == |dev|
      && (!includeVersion ==> r.externalPackages == ext && r.devDependencies == dev)
      && (includeVersion ==>
            && (forall i :: 0 <= i < |ext| ==>
                  r.externalPackages[i] == ImportSets.Annotated(ext[i],
                    PackageVersion.VersionOf(host, Text.BaseSegment(ext[i]), Some(MaxDepth), fallbackDir)))
            && (forall i :: 0 <= i < |dev| ==>
                  r.devDependencies[i] == ImportSets.Annotated(dev[i],
                    PackageVersion.VersionOf(host, dev[i], Some(MaxDepth), fallbackDir))))
  {
    var projectRoot := FindProjectRoot(host.fs, filePath, host.cwd);
    var externalPackages, internalImports := PartitionImports(raw, AliasesAt(tsconfigs, projectRoot));
    var devDependencies := ImportSets.SplitDevDependencies(externalPackages, ManifestAt(host.fs, projectRoot));
    var externalPackagesResult, devDependenciesResult := externalPackages, devDependencies;
    if includeVersion {
      var fallbackDir := FindProjectRoot(host.fs, host.cwd, host.cwd);
      externalPackagesResult := ImportSets.AnnotateExternal(host, externalPackages, Some(MaxDepth), fallbackDir);
      devDependenciesResult := ImportSets.AnnotateDev(host, devDependencies, Some(MaxDepth), fallbackDir);
    }
    r := ImportSets.Dependencies(externalPackagesResult, devDependenciesResult, internalImports);
  }
}
