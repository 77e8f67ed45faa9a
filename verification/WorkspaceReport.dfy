/** What the report on a workspace holds, and how far setting the version gets
    (`collectVersionMismatches` and `setWorkspaceVersion` in scripts/lib/version.ts). */
module WorkspaceReport {
  import opened Wrappers
  import opened ManifestBlocks
  import opened ManifestRequirements
  import opened ManifestRewrite
  import opened ManifestEntries
  import opened Workspace

  /** The package's manifest exists and its version can be read. */
  ghost predicate Readable(files: Files, p: Package, tool: Tool) {
    p.manifest in files && tool.read(files[p.manifest]).Ok?
  }

  /** What is wrong with a manifest that cannot be read. */
  function Trouble(files: Files, p: Package, tool: Tool): Error
    requires !Readable(files, p, tool)
  {
    if p.manifest !in files then NoSuchFile(p.manifest)
    else BadManifest(p.manifest, tool.read(files[p.manifest]).error)
  }

  /** The package's own version is another one. */
  ghost predicate WrongVersion(files: Files, p: Package, version: string, tool: Tool, m: VersionMismatch) {
    && Readable(files, p, tool) && tool.read(files[p.manifest]).value != version
    && m == ManifestVersion(p.name, p.manifest, tool.read(files[p.manifest]).value)
  }

  /** A published package requires another version of a dependency. */
  ghost predicate WrongDependency(files: Files, p: Package, tool: Tool, m: VersionMismatch) {
    && p.publish && p.manifest in files && m.DependencyVersion? && m.package == p.name && m.manifest == p.manifest
    && m.dependency in tool.report(files[p.manifest])
  }

  ghost predicate Wrong(files: Files, p: Package, version: string, tool: Tool, m: VersionMismatch) {
    WrongVersion(files, p, version, tool, m) || WrongDependency(files, p, tool, m)
  }

  lemma SomePackage(packages: seq<Package>, p: Package)
    requires packages != []
    ensures p in packages <==> p == packages[0] || p in packages[1..]
  {
    assert packages == [packages[0]] + packages[1..];
  }

  lemma {:induction false} ManifestsReported(files: Files, packages: seq<Package>, version: string, tool: Tool,
                                             m: VersionMismatch)
    ensures var r := ManifestMismatches(files, packages, version, tool);
      && (r.Ok? <==> forall p :: p in packages ==> Readable(files, p, tool))
      && (r.Ok? ==> (m in r.value <==> exists p :: p in packages && WrongVersion(files, p, version, tool, m)))
  {
    if packages != [] {
      forall p ensures p in packages <==> p == packages[0] || p in packages[1..] { SomePackage(packages, p); }
      ManifestsReported(files, packages[1..], version, tool, m);
      assert packages[0] in packages;
    }
  }

  lemma InPackageHolds(p: Package, found: seq<Mismatch>, m: VersionMismatch)
    ensures m in InPackage(p, found) <==>
      m.DependencyVersion? && m.package == p.name && m.manifest == p.manifest && m.dependency in found
  {
    var r := InPackage(p, found);
    if m in r {
      var i :| 0 <= i < |r| && r[i] == m;
      assert found[i] in found;
    }
    if m.DependencyVersion? && m.package == p.name && m.manifest == p.manifest && m.dependency in found {
      var i :| 0 <= i < |found| && found[i] == m.dependency;
      assert r[i] == m;
    }
  }

  lemma {:induction false} DependenciesReported(files: Files, packages: seq<Package>, tool: Tool, m: VersionMismatch)
    ensures var r := DependencyMismatches(files, packages, tool);
      && (r.Ok? <==> forall p :: p in packages && p.publish ==> p.manifest in files)
      && (r.Ok? ==> (m in r.value <==> exists p :: p in packages && WrongDependency(files, p, tool, m)))
  {
    if packages != [] {
      var p := packages[0];
      forall q ensures q in packages <==> q == p || q in packages[1..] { SomePackage(packages, q); }
      DependenciesReported(files, packages[1..], tool, m);
      assert p in packages;
      if p.manifest in files { InPackageHolds(p, tool.report(files[p.manifest]), m); }
    }
  }

  /** A report is made exactly if every manifest can be read, and holds exactly the
      manifests with another version and the dependencies that require another one. */
  lemma ReportExactly(files: Files, packages: seq<Package>, version: string, tool: Tool, m: VersionMismatch)
    ensures var r := CollectMismatches(files, packages, version, tool);
      && (r.Ok? <==> forall p :: p in packages ==> Readable(files, p, tool))
      && (r.Ok? ==> (m in r.value <==> exists p :: p in packages && Wrong(files, p, version, tool, m)))
  {
    ManifestsReported(files, packages, version, tool, m);
    DependenciesReported(files, packages, tool, m);
  }

  /** Otherwise the first manifest that cannot be read is named. */
  lemma {:induction false} FirstTroubleNamed(files: Files, packages: seq<Package>, version: string, tool: Tool)
    returns (k: nat)
    requires CollectMismatches(files, packages, version, tool).Err?
    ensures k < |packages| && !Readable(files, packages[k], tool)
    ensures forall j :: 0 <= j < k ==> Readable(files, packages[j], tool)
    ensures CollectMismatches(files, packages, version, tool).error == Trouble(files, packages[k], tool)
  {
    var any := ManifestVersion("", "", "");
    ManifestsReported(files, packages, version, tool, any);
    DependenciesReported(files, packages, tool, any);
    k := 0;
    if Readable(files, packages[0], tool) {
      var rest := packages[1..];
      forall q ensures q in packages <==> q == packages[0] || q in rest { SomePackage(packages, q); }
      ManifestsReported(files, rest, version, tool, any);
      var n := FirstTroubleNamed(files, rest, version, tool);
      k := n + 1;
      assert forall j :: 0 < j < |packages| ==> packages[j] == rest[j - 1];
    }
  }

  /** Setting the version stops at the first package that fails: everything before it has
      been set, and nothing behind it was touched. */
  lemma {:induction false} SetStopsAt(files: Files, packages: seq<Package>, tool: Tool) returns (k: nat)
    requires SetAll(files, packages, tool).0.Some?
    ensures k < |packages|
    ensures var (failed, written) := SetAll(files, packages, tool);
      && SetAll(files, packages[..k], tool) == (None, written)
      && SetPackage(written, packages[k], tool) == Err(failed.value)
    decreases |packages|
  {
    k := 0;
    var r := SetPackage(files, packages[0], tool);
    if r.Ok? {
      var n := SetStopsAt(r.value, packages[1..], tool);
      k := n + 1;
      assert packages[..k][1..] == packages[1..][..n];
    }
  }

  /** A package fails exactly if its manifest is missing or cannot be rewritten; otherwise
      its manifest, and no other file, is what the rewriting makes of it. */
  lemma PackageSet(files: Files, p: Package, tool: Tool, path: string)
    ensures var r := SetPackage(files, p, tool);
      && (r.Err? <==> p.manifest !in files || tool.rewrite(files[p.manifest], p.publish).Err?)
      && (r.Ok? ==> r.value.Keys == files.Keys
                    && tool.rewrite(files[p.manifest], p.publish) == Ok(r.value[p.manifest])
                    && (path in files && path != p.manifest ==> r.value[path] == files[path]))
      && (r.Err? && p.manifest !in files ==> r.error == NoSuchFile(p.manifest))
  {
  }

  /** A manifest of an unpublished package gets its version and no more; that of a published
      one then has its requirements set to `~` and the version. */
  lemma ManifestSet(text: string, publish: bool, managed: set<string>, version: string, semver: Cargo.Semver)
    ensures var r := CargoTool(managed, version, semver).rewrite(text, publish);
      && (r.Ok? <==> Cargo.ReadVersion(text, semver).Ok?)
      && (r.Ok? && !publish ==> Cargo.WithVersion(text, version, semver) == r)
      && (r.Ok? && publish ==>
            && Cargo.WithVersion(text, version, semver).Ok?
            && r.value == Written(Cargo.WithVersion(text, version, semver).value, managed, "~" + version))
  {
  }

  // ----- a workspace that was set -----

  /** The block is of a published package, holds a path, and requires another version. */
  ghost predicate Lagging(packages: seq<Package>, version: string, b: Block) {
    && (exists q :: q in packages && q.publish && q.name == b.name)
    && (exists i :: 0 <= i <= |b.text| && "path = " <= b.text[i..])
    && ReadRequirement(b.text) != Some("~" + version)
  }

  /** An empty report says of each package that it reads the version and, if published, that
      nothing is found in its manifest. */
  lemma NothingReported(files: Files, packages: seq<Package>, version: string, tool: Tool, p: Package)
    requires CollectMismatches(files, packages, version, tool) == Ok([]) && p in packages
    ensures p.manifest in files && tool.read(files[p.manifest]) == Ok(version)
    ensures p.publish ==> tool.report(files[p.manifest]) == []
  {
    ReportExactly(files, packages, version, tool, ManifestVersion("", "", ""));
    assert Readable(files, p, tool);
    var text := files[p.manifest];
    var m := ManifestVersion(p.name, p.manifest, tool.read(text).value);
    ReportExactly(files, packages, version, tool, m);
    assert !Wrong(files, p, version, tool, m);
    if p.publish && tool.report(text) != [] {
      var d := DependencyVersion(p.name, p.manifest, tool.report(text)[0]);
      ReportExactly(files, packages, version, tool, d);
      assert Wrong(files, p, version, tool, d);
    }
  }

  lemma NoneLags(text: string, packages: seq<Package>, version: string, b: Block)
    requires Mismatches(text, PublishedNames(packages), "~" + version) == []
    requires b in Located(ScanManifest(text).pieces, 0)
    ensures !Lagging(packages, version, b)
  {
    MismatchReported(text, PublishedNames(packages), "~" + version, Mismatch(b.name, ReadRequirement(b.text)));
  }

  /** Once the version was set every manifest reads it, and in a published one every
      dependency on a published package by path requires `~` and that version. */
  lemma WorkspaceSettled(files: Files, packages: seq<Package>, version: string, semver: Cargo.Semver, p: Package,
                         b: Block)
    requires Release(version, semver) && p in packages
    requires forall q :: q in packages && q.publish && q.manifest in files ==>
               Calm(files[q.manifest], PublishedNames(packages), version, semver)
    requires SetAll(files, packages, CargoTool(PublishedNames(packages), version, semver)).0.None?
    ensures var written := SetAll(files, packages, CargoTool(PublishedNames(packages), version, semver)).1;
      && p.manifest in written && Cargo.ReadVersion(written[p.manifest], semver) == Ok(version)
      && (p.publish && b in Located(ScanManifest(written[p.manifest]).pieces, 0) ==> !Lagging(packages, version, b))
  {
    var tool := CargoTool(PublishedNames(packages), version, semver);
    var written := SetAll(files, packages, tool).1;
    SetLeavesNoMismatch(files, packages, version, semver);
    NothingReported(written, packages, version, tool, p);
    if p.publish && b in Located(ScanManifest(written[p.manifest]).pieces, 0) {
      NoneLags(written[p.manifest], packages, version, b);
    }
  }
}
