/**
 * The insertion-ordered string sets the dependency analysers fill, and the
 * steps they share once every import has been classified: splitting off the
 * dev dependencies and annotating names with versions.
 */
module ImportSets {
  import opened Wrappers
  import opened Paths
  import PackageVersion
  import Text
  import opened Seqs

  /** No string occurs twice: a JavaScript `Set<string>` read in insertion order. */
  predicate Distinct(s: seq<string>) {
    forall i, j :: 0 <= i < j < |s| ==> s[i] != s[j]
  }

  /** `set.add(x)`: appended when new, otherwise nothing changes. */
  function Add(s: seq<string>, x: string): (r: seq<string>)
    ensures Distinct(s) ==> Distinct(r)
    ensures forall y :: y in r <==> y in s || y == x
    ensures |s| <= |r| && r[..|s|] == s
  {
    if x in s then s else s + [x]
  }

  /** The set that adding `xs` in order to an empty set gives. */
  function FromSeq(xs: seq<string>): (r: seq<string>)
    ensures Distinct(r)
    ensures forall y :: y in r <==> y in xs
    decreases |xs|
  {
    if xs == [] then [] else Add(FromSeq(xs[..|xs| - 1]), xs[|xs| - 1])
  }

  /** A sequence that already has no repeats is kept as it is, order included. */
  lemma {:induction false} FromSeqOfDistinct(xs: seq<string>)
    requires Distinct(xs)
    ensures FromSeq(xs) == xs
    decreases |xs|
  {
    if xs != [] {
      var init, last := xs[..|xs| - 1], xs[|xs| - 1];
      DistinctInit(xs);
      FromSeqOfDistinct(init);
      assert FromSeq(xs) == Add(init, last) == init + [last];
      assert init + [last] == xs;
    }
  }

  /** Dropping the last element of a sequence without repeats leaves one without it. */
  lemma DistinctInit(xs: seq<string>)
    requires Distinct(xs) && xs != []
    ensures Distinct(xs[..|xs| - 1]) && xs[|xs| - 1] !in xs[..|xs| - 1]
  {
    var init := xs[..|xs| - 1];
    forall i, j | 0 <= i < j < |init| ensures init[i] != init[j] {
      assert init[i] == xs[i] && init[j] == xs[j];
    }
    forall i | 0 <= i < |init| ensures init[i] != xs[|xs| - 1] {
      assert init[i] == xs[i];
    }
  }

  /** Building a set from a set changes nothing. */
  lemma FromSeqIdempotent(xs: seq<string>)
    ensures FromSeq(FromSeq(xs)) == FromSeq(xs)
  {
    FromSeqOfDistinct(FromSeq(xs));
  }

  /** `.replace(/^['"]|['"]$/g, '')`: one quote at each end removed. */
  function StripQuotes(s: string): (r: string)
    ensures exists a, b :: (0 <= a <= b <= |s| && a <= 1 && |s| - 1 <= b && r == s[a..b]
      && (forall k :: 0 <= k < a ==> s[k] in "'\"")
      && (forall k :: b <= k < |s| ==> s[k] in "'\""))
  {
    var a := if |s| > 0 && s[0] in "'\"" then 1 else 0;
    var b := if |s| > a && s[|s| - 1] in "'\"" then |s| - 1 else |s|;
    assert forall k :: b <= k < |s| ==> k == |s| - 1 && s[k] in "'\"";
    s[a..b]
  }

  /** The quotes of a quoted specifier are exactly what is removed. */
  lemma StripQuotesOfQuoted(q1: char, body: string, q2: char)
    requires q1 in "'\"" && q2 in "'\""
    ensures StripQuotes([q1] + body + [q2]) == body
  {
    var s := [q1] + body + [q2];
    assert s[1..|s| - 1] == body;
  }

  /** A specifier that neither starts nor ends with a quote is left alone. */
  lemma StripQuotesOfUnquoted(s: string)
    requires s == [] || (s[0] !in "'\"" && s[|s| - 1] !in "'\"")
    ensures StripQuotes(s) == s
  {
    assert s[0..|s|] == s;
  }

  /** The module specifiers of a file's imports with their quotes stripped. */
  function Specifiers(raw: seq<string>): (r: seq<string>)
    ensures |r| == |raw|
    ensures forall i :: 0 <= i < |raw| ==> r[i] == StripQuotes(raw[i])
  {
    seq(|raw|, i requires 0 <= i < |raw| => StripQuotes(raw[i]))
  }

  /** What the analysers return. */
  datatype Dependencies = Dependencies(
    externalPackages: seq<string>,
    devDependencies: seq<string>,
    internalImports: seq<string>)

  /**
   * The (external, internal) sets that classifying `specs` in order with
   * `isInternal` fills: each specifier is added to one of the two.
   */
  function Partition(specs: seq<string>, isInternal: string -> bool): (seq<string>, seq<string>)
    decreases |specs|
  {
    if specs == [] then ([], [])
    else
      var (ext, internal) := Partition(specs[..|specs| - 1], isInternal);
      var last := specs[|specs| - 1];
      if isInternal(last) then (ext, Add(internal, last)) else (Add(ext, last), internal)
  }

  /** Classifying one more specifier adds it to exactly one of the two sets. */
  lemma PartitionStep(specs: seq<string>, x: string, isInternal: string -> bool)
    ensures var (ext, internal) := Partition(specs, isInternal);
      Partition(specs + [x], isInternal)
      == if isInternal(x) then (ext, Add(internal, x)) else (Add(ext, x), internal)
  {
    assert (specs + [x])[..|specs|] == specs;
  }

  /**
   * Every specifier lands in exactly one of the two sets, by its
   * classification; neither set repeats a specifier; and each set lists its
   * specifiers in order of first occurrence.
   */
  lemma {:induction false} PartitionSpec(specs: seq<string>, isInternal: string -> bool)
    ensures var (ext, internal) := Partition(specs, isInternal);
      && ext == FromSeq(Filter(specs, s => !isInternal(s)))
      && internal == FromSeq(Filter(specs, isInternal))
      && Distinct(ext) && Distinct(internal)
      && (forall s :: s in ext <==> s in specs && !isInternal(s))
      && (forall s :: s in internal <==> s in specs && isInternal(s))
    decreases |specs|
  {
    if specs != [] {
      PartitionSpec(specs[..|specs| - 1], isInternal);
    }
  }

  /** The manifest's `devDependencies[base]` is truthy. */
  predicate DevListed(project: Option<Manifest>, base: string) {
    project.Some? && Truthy(Lookup(project.value.devDependencies, base))
  }

  /** The base segments of `external`, in order, whose `devDependencies` entry is truthy. */
  function DevCandidates(external: seq<string>, project: Option<Manifest>): (r: seq<string>)
    ensures forall b :: b in r <==> exists p :: p in external && b == Text.BaseSegment(p) && DevListed(project, b)
    decreases |external|
  {
    if external == [] then []
    else
      var init := DevCandidates(external[..|external| - 1], project);
      var base := Text.BaseSegment(external[|external| - 1]);
      assert forall p :: p in external <==> p in external[..|external| - 1] || p == external[|external| - 1];
      if DevListed(project, base) then init + [base] else init
  }

  /** The dev-dependency set: the distinct dev-listed base segments of the external packages. */
  function DevSplit(external: seq<string>, project: Option<Manifest>): seq<string> {
    FromSeq(DevCandidates(external, project))
  }

  /**
   * The dev-dependency set holds exactly the base segments (text before the
   * first `/`) of external packages that the manifest lists as truthy dev
   * dependencies, without repeats; with no readable manifest it is empty.
   */
  lemma DevSplitSpec(external: seq<string>, project: Option<Manifest>)
    ensures var dev := DevSplit(external, project);
      && Distinct(dev)
      && (forall b :: b in dev <==> exists p :: p in external && b == Text.BaseSegment(p) && DevListed(project, b))
      && (forall b :: b in dev ==> '/' !in b)
      && (project.None? ==> dev == [])
  {
    var dev := DevSplit(external, project);
    if project.None? && dev != [] {
      assert dev[0] in dev;
    }
  }

  /** A scoped package's base segment is its scope alone, so it is looked up under the scope. */
  lemma ScopedBaseIsScope(scope: string, pkg: string)
    requires '/' !in scope
    ensures Text.BaseSegment(scope + "/" + pkg) == scope
  {
    var s := scope + "/" + pkg;
    assert Text.IndexOf(s, '/') == |scope| by {
      assert s[|scope|] == '/';
      assert forall k :: 0 <= k < |scope| ==> s[k] == scope[k];
    }
    assert s[..|scope|] == scope;
  }

  /**
   * As written, a scoped package listed under its full name among the dev
   * dependencies is not found there: the lookup asks for its scope alone.
   */
  lemma ScopedDevDependencyMissed(scope: string, pkg: string, project: Option<Manifest>)
    requires '/' !in scope
    requires DevListed(project, scope + "/" + pkg) && !DevListed(project, scope)
    ensures DevSplit([scope + "/" + pkg], project) == []
  {
    ScopedBaseIsScope(scope, pkg);
    DevSplitSpec([scope + "/" + pkg], project);
  }

  /**
   * The package a specifier names, as evidently intended: `@scope/name` for
   * a scoped specifier, the text before the first `/` for any other.
   */
  function PackageName(s: string): (r: string)
    ensures !(|s| > 0 && s[0] == '@') ==> r == Text.BaseSegment(s)
  {
    if |s| > 0 && s[0] == '@' && '/' in s then
      var i := Text.IndexOf(s, '/');
      s[..i + 1] + Text.BaseSegment(s[i + 1..])
    else Text.BaseSegment(s)
  }

  /** The corrected name keeps scope and package, and drops any subpath. */
  lemma ScopedPackageNameKept(scope: string, pkg: string, sub: string)
    requires |scope| > 0 && scope[0] == '@' && '/' !in scope && '/' !in pkg
    ensures PackageName(scope + "/" + pkg) == scope + "/" + pkg
    ensures PackageName(scope + "/" + pkg + "/" + sub) == scope + "/" + pkg
  {
    ScopedNameOf(scope, pkg, "");
    ScopedNameOf(scope, pkg, "/" + sub);
    assert scope + "/" + pkg + "" == scope + "/" + pkg;
    assert scope + "/" + pkg + "/" + sub == scope + "/" + pkg + ("/" + sub);
  }

  lemma ScopedNameOf(scope: string, pkg: string, tail: string)
    requires |scope| > 0 && scope[0] == '@' && '/' !in scope && '/' !in pkg
    requires tail == "" || tail[0] == '/'
    ensures PackageName(scope + "/" + pkg + tail) == scope + "/" + pkg
  {
    var s := scope + "/" + pkg + tail;
    assert s[0] == '@' && s[|scope|] == '/';
    assert Text.IndexOf(s, '/') == |scope| by {
      assert forall k :: 0 <= k < |scope| ==> s[k] == scope[k];
    }
    assert s[..|scope| + 1] == scope + "/";
    var rest := s[|scope| + 1..];
    assert rest == pkg + tail;
    if tail == "" {
      assert '/' !in rest;
    } else {
      assert Text.IndexOf(rest, '/') == |pkg| by {
        assert rest[|pkg|] == '/';
        assert forall k :: 0 <= k < |pkg| ==> rest[k] == pkg[k];
      }
      assert rest[..|pkg|] == pkg;
      assert Text.BaseSegment(rest) == Text.Split(rest, '/')[0];
    }
  }

  /**
   * The dev-dependency loop: for each external package in order, add its base
   * segment when the project manifest lists it as a truthy dev dependency.
   * A manifest that cannot be read leaves the set empty.
   */
  method SplitDevDependencies(external: seq<string>, project: Option<Manifest>) returns (dev: seq<string>)
    ensures dev == DevSplit(external, project)
  {
    dev := [];
    if project.None? {
      return;
    }
    for i := 0 to |external|
      invariant dev == DevSplit(external[..i], project)
    {
      assert external[..i + 1][..i] == external[..i];
      var basePackage := Text.BaseSegment(external[i]);
      if Truthy(Lookup(project.value.devDependencies, basePackage)) {
        assert DevCandidates(external[..i + 1], project) == DevCandidates(external[..i], project) + [basePackage];
        dev := Add(dev, basePackage);
      }
    }
    assert external[..|external|] == external;
  }

  /** `${pkg}@${version}` */
  function Annotated(pkg: string, version: string): (r: string)
    ensures Text.StartsWith(r, pkg + "@")
    ensures r[|pkg| + 1..] == version
  {
    pkg + "@" + version
  }

  /**
   * A version without `@` can be read back off the annotation, and so can the
   * package, even a scoped one that contains `@` itself: `Annotated` loses
   * nothing.
   */
  lemma AnnotatedInjective(p1: string, v1: string, p2: string, v2: string)
    requires '@' !in v1 && '@' !in v2 && Annotated(p1, v1) == Annotated(p2, v2)
    ensures p1 == p2 && v1 == v2
  {
    var a := Annotated(p1, v1);
    if |p1| < |p2| {
      NoAtInVersion(p1, v1, |p2|);
      NoAtInVersion(p2, v2, |p2|);
      assert false;
    } else if |p2| < |p1| {
      NoAtInVersion(p2, v2, |p1|);
      NoAtInVersion(p1, v1, |p1|);
      assert false;
    }
    assert p1 == a[..|p1|];
    assert p2 == a[..|p2|];
  }

  /** Past the package, the only `@` of an annotation with an `@`-free version is the separator. */
  lemma NoAtInVersion(pkg: string, version: string, i: nat)
    requires '@' !in version && |pkg| <= i < |Annotated(pkg, version)|
    ensures Annotated(pkg, version)[i] == '@' <==> i == |pkg|
  {
    if i > |pkg| {
      assert Annotated(pkg, version)[i] == version[i - |pkg| - 1];
    }
  }

  /**
   * The external packages annotated in order: each `p` becomes
   * `p@version(base(p))`, the version looked up by base segment.
   */
  method AnnotateExternal(host: PackageVersion.Host, external: seq<string>, maxDepth: Option<nat>, projectDir: Path)
    returns (r: seq<string>)
    ensures |r| == |external|
    ensures forall i :: 0 <= i < |external| ==>
      r[i] == Annotated(external[i], PackageVersion.VersionOf(host, Text.BaseSegment(external[i]), maxDepth, projectDir))
  {
    r := [];
    for i := 0 to |external|
      invariant |r| == i
      invariant forall k :: 0 <= k < i ==>
        r[k] == Annotated(external[k], PackageVersion.VersionOf(host, Text.BaseSegment(external[k]), maxDepth, projectDir))
    {
      var basePackage := Text.BaseSegment(external[i]);
      var version := PackageVersion.GetPackageVersion(host, basePackage, maxDepth, projectDir);
      r := r + [Annotated(external[i], version)];
    }
  }

  /** The dev dependencies annotated in order: each `d` becomes `d@version(d)`. */
  method AnnotateDev(host: PackageVersion.Host, dev: seq<string>, maxDepth: Option<nat>, projectDir: Path)
    returns (r: seq<string>)
    ensures |r| == |dev|
    ensures forall i :: 0 <= i < |dev| ==>
      r[i] == Annotated(dev[i], PackageVersion.VersionOf(host, dev[i], maxDepth, projectDir))
  {
    r := [];
    for i := 0 to |dev|
      invariant |r| == i
      invariant forall k :: 0 <= k < i ==> r[k] == Annotated(dev[k], PackageVersion.VersionOf(host, dev[k], maxDepth, projectDir))
    {
      var version := PackageVersion.GetPackageVersion(host, dev[i], maxDepth, projectDir);
      r := r + [Annotated(dev[i], version)];
    }
  }
}
