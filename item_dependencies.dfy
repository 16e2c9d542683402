/**
 * `getItemDependencies` of `getItemDependencies.ts`: the same analysis as
 * `dependencies.ts`, with internal imports recognised by the fixed prefixes
 * `~`, `@/` and `.`, and an unbounded walk when looking up versions.
 */
module ItemDependencies {
  import opened Wrappers
  import opened Paths
  import PackageVersion
  import ImportSets
  import Text

  /** A specifier is external when it starts with none of `~`, `@/` and `.`. */
  predicate IsExternal(spec: string) {
    !Text.StartsWith(spec, "~") && !Text.StartsWith(spec, "@/") && !Text.StartsWith(spec, ".")
  }

  /** The classification test handed to the partition: internal is not external. */
  function InternalTest(): string -> bool {
    s => !IsExternal(s)
  }

  /** A scoped package such as `@radix-ui/react-slot` is external; the alias-style `@/lib/x` is not. */
  lemma ScopedPackageIsExternal()
    ensures IsExternal("@radix-ui/react-slot")
    ensures !IsExternal("@/lib/x")
  {
    var scoped := "@radix-ui/react-slot";
    assert scoped[0] == '@' && scoped[1] == 'r';
    assert "@/lib/x"[..2] == "@/";
  }

  /** The two sets the classification of `raw` fills. */
  function Classification(raw: seq<string>): (seq<string>, seq<string>) {
    ImportSets.Partition(ImportSets.Specifiers(raw), InternalTest())
  }

  /**
   * The import loop: strip the quotes from each specifier and add it to the
   * external set when it has none of the internal prefixes, else to the
   * internal set.
   */
  method PartitionImports(raw: seq<string>) returns (externalPackages: seq<string>, internalImports: seq<string>)
    ensures (externalPackages, internalImports) == Classification(raw)
  {
    externalPackages, internalImports := [], [];
    var specs := ImportSets.Specifiers(raw);
    var test := InternalTest();
    for i := 0 to |raw|
      invariant (externalPackages, internalImports) == ImportSets.Partition(specs[..i], test)
    {
      var moduleSpecifier := ImportSets.StripQuotes(raw[i]);
      ImportSets.PartitionStep(specs[..i], moduleSpecifier, test);
      assert specs[..i + 1] == specs[..i] + [moduleSpecifier];
      if !Text.StartsWith(moduleSpecifier, "~") && !Text.StartsWith(moduleSpecifier, "@/")
        && !Text.StartsWith(moduleSpecifier, ".")
      {
        externalPackages := ImportSets.Add(externalPackages, moduleSpecifier);
      } else {
        internalImports := ImportSets.Add(internalImports, moduleSpecifier);
      }
    }
    assert specs[..|raw|] == specs;
  }

  /**
   * `getItemDependencies(filePath, includeVersion)` for a file whose imports
   * have the module specifiers `raw`; versions come from an unbounded walk
   * with the fallback manifest of `findProjectRoot(process.cwd())`.
   */
  method GetItemDependencies(host: PackageVersion.Host, filePath: Path, raw: seq<string>, includeVersion: bool)
    returns (r: ImportSets.Dependencies)
    ensures var root := ProjectRoot(host.fs, filePath, host.cwd);
      var (ext, internal) := Classification(raw);
      var dev := ImportSets.DevSplit(ext, ManifestAt(host.fs, root));
      var fallbackDir := ProjectRoot(host.fs, host.cwd, host.cwd);
      && r.internalImports == internal
      && |r.externalPackages| == |ext| && |r.devDependencies| == |dev|
      && (!includeVersion ==> r.externalPackages == ext && r.devDependencies == dev)
      && (includeVersion ==>
            && (forall i :: 0 <= i < |ext| ==>
                  r.externalPackages[i] == ImportSets.Annotated(ext[i],
                    PackageVersion.VersionOf(host, Text.BaseSegment(ext[i]), None, fallbackDir)))
            && (forall i :: 0 <= i < |dev| ==>
                  r.devDependencies[i] == ImportSets.Annotated(dev[i],
                    PackageVersion.VersionOf(host, dev[i], None, fallbackDir))))
  {
    var externalPackages, internalImports := PartitionImports(raw);
    var projectRoot := FindProjectRoot(host.fs, filePath, host.cwd);
    var devDependencies := ImportSets.SplitDevDependencies(externalPackages, ManifestAt(host.fs, projectRoot));
    var externalPackagesResult, devDependenciesResult := externalPackages, devDependencies;
    if includeVersion {
      var fallbackDir := FindProjectRoot(host.fs, host.cwd, host.cwd);
      externalPackagesResult := ImportSets.AnnotateExternal(host, externalPackages, None, fallbackDir);
      devDependenciesResult := ImportSets.AnnotateDev(host, devDependencies, None, fallbackDir);
    }
    r := ImportSets.Dependencies(externalPackagesResult, devDependenciesResult, internalImports);
  }
}
