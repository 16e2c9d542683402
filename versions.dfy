/**
 * `scripts/versions.ts`: for every source file of the internal component
 * library, report its external imports (other than `react`) with their
 * versions. The console output becomes the returned report; the fallback
 * manifest is the one next to the script's parent directory.
 */
module Versions {
  import opened Wrappers
  import opened Paths
  import PackageVersion
  import ImportSets
  import ItemDependencies
  import Text
  import Seqs

  /** A specifier is reported when it is not exactly `react` and has none of the internal prefixes. */
  predicate IsReported(spec: string) {
    spec != "react" && ItemDependencies.IsExternal(spec)
  }

  /** `IsReported` as the test handed to `Seqs.Filter`. */
  function ReportedTest(): string -> bool {
    s => IsReported(s)
  }

  /** Only the exact name `react` is skipped: `react-dom` is reported. */
  lemma OnlyExactReactSkipped()
    ensures !IsReported("react")
    ensures IsReported("react-dom")
  {
    var s := "react-dom";
    assert s[0] == 'r';
  }

  /** The set of reported specifiers of one file, in order of first occurrence. */
  function FileImports(raw: seq<string>): seq<string> {
    ImportSets.FromSeq(Seqs.Filter(ImportSets.Specifiers(raw), ReportedTest()))
  }

  /** A file's reported imports are distinct, and are exactly its reported specifiers. */
  lemma FileImportsSpec(raw: seq<string>)
    ensures ImportSets.Distinct(FileImports(raw))
    ensures forall s :: s in FileImports(raw) <==> s in ImportSets.Specifiers(raw) && IsReported(s)
  {
  }

  /** The import loop of one file: strip quotes and add the reported specifiers to the set. */
  method CollectImports(raw: seq<string>) returns (imports: seq<string>)
    ensures imports == FileImports(raw)
  {
    imports := [];
    var specs := ImportSets.Specifiers(raw);
    for i := 0 to |raw|
      invariant imports == ImportSets.FromSeq(Seqs.Filter(specs[..i], ReportedTest()))
    {
      var moduleSpecifier := ImportSets.StripQuotes(raw[i]);
      Seqs.FilterPrefixStep(specs, i, ReportedTest());
      if moduleSpecifier != "react" && !Text.StartsWith(moduleSpecifier, "~")
        && !Text.StartsWith(moduleSpecifier, "@/") && !Text.StartsWith(moduleSpecifier, ".")
      {
        imports := ImportSets.Add(imports, moduleSpecifier);
      }
    }
    assert specs[..|raw|] == specs;
  }

  /** One source file of the component library: its path and the module specifiers of its imports. */
  datatype SourceFile = SourceFile(path: Path, imports: seq<string>)

  /** What the script prints for one file: its name and each reported package with its version. */
  datatype FileReport = FileReport(file: string, dependencies: seq<(string, string)>)

  /** `path.basename`: the last segment, or the empty string for `/` and `.`. */
  function Basename(p: Path): string {
    if p.segments == [] then "" else p.segments[|p.segments| - 1]
  }

  /** The report for one file: its base name, and each reported import with the version found for it. */
  predicate ReportFor(host: PackageVersion.Host, projectDir: Path, file: SourceFile, report: FileReport) {
    var names := FileImports(file.imports);
    && report.file == Basename(file.path)
    && |report.dependencies| == |names|
    && forall k :: 0 <= k < |names| ==>
         report.dependencies[k] == (names[k], PackageVersion.VersionOf(host, names[k], None, projectDir))
  }

  /**
   * The body of the loop over files: collect the file's reported imports,
   * then look each one up by its full specifier with an unbounded walk and
   * the fallback manifest in `projectDir`.
   */
  method ReportFile(host: PackageVersion.Host, projectDir: Path, file: SourceFile) returns (report: FileReport)
    ensures ReportFor(host, projectDir, file, report)
  {
    var uniqueImports := CollectImports(file.imports);
    var lines: seq<(string, string)> := [];
    for k := 0 to |uniqueImports|
      invariant |lines| == k
      invariant forall j :: 0 <= j < k ==>
        lines[j] == (uniqueImports[j], PackageVersion.VersionOf(host, uniqueImports[j], None, projectDir))
    {
      var version := PackageVersion.GetPackageVersion(host, uniqueImports[k], None, projectDir);
      lines := lines + [(uniqueImports[k], version)];
    }
    report := FileReport(Basename(file.path), lines);
  }

  /**
   * `findExternalDependencies` over the source files in order: every file
   * gets a report (an empty one prints "No external dependencies found.").
   */
  method FindExternalDependencies(host: PackageVersion.Host, projectDir: Path, files: seq<SourceFile>)
    returns (reports: seq<FileReport>)
    ensures |reports| == |files|
    ensures forall f :: 0 <= f < |files| ==> ReportFor(host, projectDir, files[f], reports[f])
  {
    reports := [];
    for f := 0 to |files|
      invariant |reports| == f
      invariant forall g :: 0 <= g < f ==> ReportFor(host, projectDir, files[g], reports[g])
    {
      var report := ReportFile(host, projectDir, files[f]);
      reports := reports + [report];
    }
  }
}
