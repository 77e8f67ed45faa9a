/** Setting one version across a workspace of Cargo packages
    (`setWorkspaceVersion` and `collectVersionMismatches` in scripts/lib/version.ts). */
module Workspace {
  import opened Wrappers
  import opened Sequences
  import opened Text
  import opened ManifestRequirements
  import opened ManifestRewrite
  import opened ManifestWriter
  import opened VersionKeeping
  import Cargo = CargoVersion

  datatype Package = Package(name: string, manifest: string, publish: bool)

  datatype Error = NoSuchFile(path: string) | BadManifest(path: string, error: Cargo.Error)

  /** Contents by path. */
  type Files = map<string, string>

  function PublishedNames(packages: seq<Package>): set<string> {
    set p | p in packages && p.publish :: p.name
  }

  /** The requirement one package of the workspace has on another. */
  function RequirementFor(version: string): string { "~" + version }

  /** A release version: its own normal form, made of the characters of section 2,
      9 and 10 of Semantic Versioning 2.0.0. */
  ghost predicate Release(version: string, semver: Cargo.Semver) {
    semver(version) == Some(version) && Requirement(version)
  }

  // ----- writing -----

  /** One manifest: first its own version, then, if published, its requirements. */
  function SetText(text: string, publish: bool, managed: set<string>, version: string, semver: Cargo.Semver)
    : Result<string, Cargo.Error>
  {
    var t := Cargo.WithVersion(text, version, semver);
    if t.Err? || !publish then t else Ok(Written(t.value, managed, RequirementFor(version)))
  }

  /** What is done to one manifest: setting it, reading its version, reporting its
      dependencies. */
  datatype Tool = Tool(
    rewrite: (string, bool) -> Result<string, Cargo.Error>,
    read: string -> Result<string, Cargo.Error>,
    report: string -> seq<Mismatch>)

  function CargoTool(managed: set<string>, version: string, semver: Cargo.Semver): Tool {
    Tool(
      (text, publish) => SetText(text, publish, managed, version, semver),
      text => Cargo.ReadVersion(text, semver),
      text => Mismatches(text, managed, RequirementFor(version)))
  }

  function SetPackage(files: Files, p: Package, tool: Tool): Result<Files, Error> {
    if p.manifest !in files then Err(NoSuchFile(p.manifest))
    else
      var t := tool.rewrite(files[p.manifest], p.publish);
      if t.Err? then Err(BadManifest(p.manifest, t.error)) else Ok(files[p.manifest := t.value])
  }

  /** All packages in turn; the first failure leaves the files written so far. */
  function SetAll(files: Files, packages: seq<Package>, tool: Tool): (Option<Error>, Files) {
    if packages == [] then (None, files)
    else
      var r := SetPackage(files, packages[0], tool);
      if r.Err? then (Some(r.error), files) else SetAll(r.value, packages[1..], tool)
  }

  method WritePackage(files: Files, p: Package, managed: set<string>, version: string, semver: Cargo.Semver)
    returns (r: Result<Files, Error>)
    requires Requirement(version)
    ensures r == SetPackage(files, p, CargoTool(managed, version, semver))
  {
    if p.manifest !in files { return Err(NoSuchFile(p.manifest)); }
    var t := Cargo.WriteVersion(files[p.manifest], version, semver);
    if t.Err? { return Err(BadManifest(p.manifest, t.error)); }
    if !p.publish { return Ok(files[p.manifest := t.value]); }
    RequirementGood(version);
    var text, _ := WriteRequirements(t.value, managed, RequirementFor(version));
    return Ok(files[p.manifest := text]);
  }

  lemma RequirementGood(version: string)
    requires Requirement(version)
    ensures Requirement(RequirementFor(version))
  {
    AllConcat("~", version, RequirementChar);
  }

  method SetWorkspaceVersion(files: Files, packages: seq<Package>, version: string, semver: Cargo.Semver)
    returns (failed: Option<Error>, written: Files)
    requires Requirement(version)
    ensures (failed, written) == SetAll(files, packages, CargoTool(PublishedNames(packages), version, semver))
  {
    var managed := PublishedNames(packages);
    ghost var tool := CargoTool(managed, version, semver);
    written := files;
    failed := None;
    assert packages[0..] == packages;
    for k := 0 to |packages|
      invariant SetAll(written, packages[k..], tool) == SetAll(files, packages, tool)
    {
      assert packages[k..][1..] == packages[k + 1..];
      var r := WritePackage(written, packages[k], managed, version, semver);
      if r.Err? {
        failed := Some(r.error);
        return;
      }
      written := r.value;
    }
  }

  // ----- reporting -----

  datatype VersionMismatch =
    | ManifestVersion(package: string, manifest: string, actual: string)
    | DependencyVersion(package: string, manifest: string, dependency: Mismatch)

  function ManifestMismatches(files: Files, packages: seq<Package>, version: string, tool: Tool)
    : Result<seq<VersionMismatch>, Error>
  {
    if packages == [] then Ok([])
    else
      var p := packages[0];
      if p.manifest !in files then Err(NoSuchFile(p.manifest))
      else
        var actual := tool.read(files[p.manifest]);
        if actual.Err? then Err(BadManifest(p.manifest, actual.error))
        else
          var more := ManifestMismatches(files, packages[1..], version, tool);
          if more.Err? then more
          else if actual.value == version then more
          else Ok([ManifestVersion(p.name, p.manifest, actual.value)] + more.value)
  }

  function InPackage(p: Package, found: seq<Mismatch>): (r: seq<VersionMismatch>)
    ensures |r| == |found|
  {
    Map(found, d => DependencyVersion(p.name, p.manifest, d))
  }

  function DependencyMismatches(files: Files, packages: seq<Package>, tool: Tool): Result<seq<VersionMismatch>, Error> {
    if packages == [] then Ok([])
    else
      var p := packages[0];
      if !p.publish then DependencyMismatches(files, packages[1..], tool)
      else if p.manifest !in files then Err(NoSuchFile(p.manifest))
      else
        var more := DependencyMismatches(files, packages[1..], tool);
        if more.Err? then more
        else Ok(InPackage(p, tool.report(files[p.manifest])) + more.value)
  }

  function CollectMismatches(files: Files, packages: seq<Package>, version: string, tool: Tool)
    : Result<seq<VersionMismatch>, Error>
  {
    var m := ManifestMismatches(files, packages, version, tool);
    if m.Err? then m
    else
      var d := DependencyMismatches(files, packages, tool);
      if d.Err? then d else Ok(m.value + d.value)
  }

  // ----- one manifest that was set -----

  /** With its stale entries blanked out the manifest reads the version, and none of them
      stands where the reader will take its successor for the package's version. */
  ghost predicate KeepsVersion(text: string, managed: set<string>, version: string, semver: Cargo.Semver) {
    && VersionClear(text, managed, RequirementFor(version))
    && Cargo.ReadVersion(Blanked(text, managed, RequirementFor(version)), semver) == Ok(version)
  }

  /** After its requirements were rewritten a manifest reads the version if and only if it
      keeps it in this sense. */
  lemma RewriteKeepsVersionIff(text: string, managed: set<string>, version: string, semver: Cargo.Semver)
    requires Requirement(version) && semver(RequirementFor(version)) != Some(version)
    ensures Cargo.ReadVersion(Written(text, managed, RequirementFor(version)), semver) == Ok(version) <==>
              KeepsVersion(text, managed, version, semver)
  {
    RequirementGood(version);
    RewrittenVersion(text, managed, RequirementFor(version));
  }

  /** For a manifest that reads the version and whose stale entries stand on one line each
      it is enough to look at the manifest as it is. */
  lemma PlainlyKeepsVersionIff(text: string, managed: set<string>, version: string, semver: Cargo.Semver)
    requires Requirement(version) && semver(RequirementFor(version)) != Some(version)
    requires EntriesTidy(text, managed, RequirementFor(version)) && Cargo.ReadVersion(text, semver) == Ok(version)
    ensures KeepsVersion(text, managed, version, semver) <==> PlainlyClear(text, managed, RequirementFor(version))
  {
    RewriteKeepsVersionIff(text, managed, version, semver);
    RequirementGood(version);
    RewrittenPlainly(text, managed, RequirementFor(version));
  }

  /** The file with its version line replaced, as it is if that fails. */
  function Versioned(text: string, version: string, semver: Cargo.Semver): string {
    var t := Cargo.WithVersion(text, version, semver);
    if t.Ok? then t.value else text
  }

  ghost predicate Calm(text: string, managed: set<string>, version: string, semver: Cargo.Semver) {
    var t := Versioned(text, version, semver);
    BracesCancel(t, managed, RequirementFor(version)) && KeepsVersion(t, managed, version, semver)
  }

  ghost predicate Finished(text: string, managed: set<string>, version: string, semver: Cargo.Semver) {
    Cargo.ReadVersion(text, semver) == Ok(version) && Mismatches(text, managed, RequirementFor(version)) == []
  }

  lemma MatchingUnwritten(text: string, managed: set<string>, requirement: string)
    requires Mismatches(text, managed, requirement) == []
    ensures Written(text, managed, requirement) == text
  {
    NoMismatches(text, managed, requirement);
    NothingToWrite(text, managed, requirement);
  }

  lemma SetTextFinished(text: string, publish: bool, managed: set<string>, version: string, semver: Cargo.Semver)
    requires Finished(text, managed, version, semver)
    ensures SetText(text, publish, managed, version, semver) == Ok(text)
  {
    MatchingUnwritten(text, managed, RequirementFor(version));
  }

  lemma VersionedOnce(text: string, version: string, semver: Cargo.Semver)
    requires Release(version, semver) && Cargo.WithVersion(text, version, semver).Ok?
    ensures var t := Versioned(text, version, semver);
            Cargo.ReadVersion(t, semver) == Ok(version) && Versioned(t, version, semver) == t
  {
    Cargo.VersionWritten(text, version, semver);
  }

  lemma SetTextCalm(text: string, managed: set<string>, version: string, semver: Cargo.Semver)
    requires Release(version, semver) && Calm(text, managed, version, semver)
    requires Cargo.WithVersion(text, version, semver).Ok?
    ensures Finished(SetText(text, true, managed, version, semver).value, managed, version, semver)
  {
    var t := Versioned(text, version, semver);
    VersionedOnce(text, version, semver);
    RequirementGood(version);
    WriteSettles(t, managed, RequirementFor(version));
    RewrittenVersion(t, managed, RequirementFor(version));
  }

  // ----- a workspace that was set has no mismatch -----

  /** Setting a manifest gives it the version, or leaves one alone that is finished;
      setting one that is ready for a published package finishes it. */
  ghost predicate Settles(tool: Tool, version: string, ready: string -> bool) {
    forall text, publish :: tool.rewrite(text, publish).Ok? ==>
      var t := tool.rewrite(text, publish).value;
      && (ready(text) ==> ready(t))
      && (!publish || ready(text) ==> tool.read(t) == Ok(version))
      && (publish && ready(text) ==> tool.report(t) == [])
      && (tool.read(text) == Ok(version) && tool.report(text) == [] ==> t == text)
  }

  ghost predicate Done(files: Files, p: Package, version: string, tool: Tool) {
    && p.manifest in files && tool.read(files[p.manifest]) == Ok(version)
    && (p.publish ==> tool.report(files[p.manifest]) == [])
  }

  ghost predicate AllReady(files: Files, packages: seq<Package>, ready: string -> bool) {
    forall p :: p in packages && p.publish && p.manifest in files ==> ready(files[p.manifest])
  }

  ghost predicate AllDone(files: Files, packages: seq<Package>, version: string, tool: Tool) {
    forall p :: p in packages ==> Done(files, p, version, tool)
  }

  lemma {:induction false} SetAllDone(files: Files, before: seq<Package>, packages: seq<Package>,
                                      version: string, tool: Tool, ready: string -> bool)
    requires Settles(tool, version, ready) && AllReady(files, before + packages, ready)
    requires AllDone(files, before, version, tool) && SetAll(files, packages, tool).0.None?
    ensures AllDone(SetAll(files, packages, tool).1, before + packages, version, tool)
    decreases |packages|
  {
    if packages == [] {
      assert before + packages == before;
    } else {
      var q := packages[0];
      var next := SetPackage(files, q, tool).value;
      assert q in before + packages;
      assert (before + [q]) + packages[1..] == before + packages;
      assert Done(next, q, version, tool);
      assert AllDone(next, before + [q], version, tool);
      SetAllDone(next, before + [q], packages[1..], version, tool, ready);
    }
  }

  lemma {:induction false} DoneReports(files: Files, packages: seq<Package>, version: string, tool: Tool)
    requires AllDone(files, packages, version, tool)
    ensures ManifestMismatches(files, packages, version, tool) == Ok([])
    ensures DependencyMismatches(files, packages, tool) == Ok([])
  {
    if packages != [] {
      assert packages[0] in packages;
      assert forall p :: p in packages[1..] ==> p in packages;
      DoneReports(files, packages[1..], version, tool);
      var p := packages[0];
      assert p.publish ==> InPackage(p, tool.report(files[p.manifest])) + [] == [];
    }
  }

  lemma DoneCollects(files: Files, packages: seq<Package>, version: string, tool: Tool)
    requires AllDone(files, packages, version, tool)
    ensures CollectMismatches(files, packages, version, tool) == Ok([])
  {
    DoneReports(files, packages, version, tool);
    var none: seq<VersionMismatch> := [];
    assert none + none == none;
  }

  lemma SetLeavesNothing(files: Files, packages: seq<Package>, version: string, tool: Tool, ready: string -> bool)
    requires Settles(tool, version, ready) && AllReady(files, packages, ready)
    requires SetAll(files, packages, tool).0.None?
    ensures CollectMismatches(SetAll(files, packages, tool).1, packages, version, tool) == Ok([])
  {
    assert [] + packages == packages;
    SetAllDone(files, [], packages, version, tool, ready);
    DoneCollects(SetAll(files, packages, tool).1, packages, version, tool);
  }

  lemma CargoSettles(managed: set<string>, version: string, semver: Cargo.Semver, ready: string -> bool)
    requires Release(version, semver)
    requires forall text :: ready(text) <==>
               Calm(text, managed, version, semver) || Finished(text, managed, version, semver)
    ensures Settles(CargoTool(managed, version, semver), version, ready)
  {
    var tool := CargoTool(managed, version, semver);
    forall text, publish | tool.rewrite(text, publish).Ok?
      ensures var t := tool.rewrite(text, publish).value;
              && (ready(text) ==> ready(t))
              && (!publish || ready(text) ==> tool.read(t) == Ok(version))
              && (publish && ready(text) ==> tool.report(t) == [])
              && (tool.read(text) == Ok(version) && tool.report(text) == [] ==> t == text)
    {
      VersionedOnce(text, version, semver);
      if Finished(text, managed, version, semver) {
        SetTextFinished(text, publish, managed, version, semver);
      } else if publish && ready(text) {
        SetTextCalm(text, managed, version, semver);
      }
    }
  }

  /** After the workspace version was set no manifest and no managed dependency is
      reported. */
  lemma SetLeavesNoMismatch(files: Files, packages: seq<Package>, version: string, semver: Cargo.Semver)
    requires Release(version, semver)
    requires forall p :: p in packages && p.publish && p.manifest in files ==>
               Calm(files[p.manifest], PublishedNames(packages), version, semver)
    ensures var tool := CargoTool(PublishedNames(packages), version, semver);
            var (failed, written) := SetAll(files, packages, tool);
            failed.None? ==> CollectMismatches(written, packages, version, tool) == Ok([])
  {
    var managed := PublishedNames(packages);
    var tool := CargoTool(managed, version, semver);
    var ready := text => Calm(text, managed, version, semver) || Finished(text, managed, version, semver);
    CargoSettles(managed, version, semver, ready);
    if SetAll(files, packages, tool).0.None? { SetLeavesNothing(files, packages, version, tool, ready); }
  }

  // ----- and only if every published manifest keeps its version -----

  /** A manifest that does not read the version is reported, one way or the other. */
  lemma {:induction false} WrongVersionReported(files: Files, packages: seq<Package>, version: string, tool: Tool,
                                                p: Package)
    requires p in packages && p.manifest in files && tool.read(files[p.manifest]) != Ok(version)
    ensures ManifestMismatches(files, packages, version, tool) != Ok([])
  {
    if packages[0] != p {
      assert p in packages[1..];
      WrongVersionReported(files, packages[1..], version, tool, p);
    }
  }

  lemma WrongVersionCollected(files: Files, packages: seq<Package>, version: string, tool: Tool, p: Package)
    requires p in packages && p.manifest in files && tool.read(files[p.manifest]) != Ok(version)
    ensures CollectMismatches(files, packages, version, tool) != Ok([])
  {
    WrongVersionReported(files, packages, version, tool, p);
  }

  // ----- a manifest of one package -----

  /** No two packages share this manifest. */
  ghost predicate Once(packages: seq<Package>, path: string) {
    forall i, j :: 0 <= i < j < |packages| ==> packages[i].manifest != path || packages[j].manifest != path
  }

  lemma {:induction false} OthersUntouched(files: Files, packages: seq<Package>, tool: Tool, path: string)
    requires path in files && forall p :: p in packages ==> p.manifest != path
    requires SetAll(files, packages, tool).0.None?
    ensures path in SetAll(files, packages, tool).1 && SetAll(files, packages, tool).1[path] == files[path]
    decreases |packages|
  {
    if packages != [] {
      assert packages[0] in packages;
      OthersUntouched(SetPackage(files, packages[0], tool).value, packages[1..], tool, path);
    }
  }

  /** Such a manifest is set once, and stays as it is then. */
  lemma {:induction false} SetOnce(files: Files, packages: seq<Package>, tool: Tool, p: Package)
    requires p in packages && Once(packages, p.manifest) && p.manifest in files && SetAll(files, packages, tool).0.None?
    ensures var end := SetAll(files, packages, tool).1;
            && p.manifest in end && tool.rewrite(files[p.manifest], p.publish) == Ok(end[p.manifest])
    decreases |packages|
  {
    var q, rest := packages[0], packages[1..];
    var next := SetPackage(files, q, tool).value;
    if q == p {
      forall r | r in rest ensures r.manifest != p.manifest {
        var k :| 0 <= k < |rest| && rest[k] == r;
        assert packages[k + 1] == r;
      }
      OthersUntouched(next, rest, tool, p.manifest);
    } else {
      var k :| 0 <= k < |packages| && packages[k] == p;
      assert q.manifest != p.manifest;
      assert rest[k - 1] == p;
      assert Once(rest, p.manifest) by {
        assert forall i :: 0 <= i < |rest| ==> rest[i] == packages[i + 1];
      }
      SetOnce(next, rest, tool, p);
    }
  }

  // ----- a manifest that several packages share -----

  /** Setting a doomed manifest for a published package makes it unreadable, and an
      unreadable one cannot be set. */
  ghost predicate Spoils(tool: Tool, doomed: string -> bool) {
    forall text, publish :: tool.rewrite(text, publish).Ok? ==>
      var t := tool.rewrite(text, publish).value;
      tool.read(text).Ok? && (doomed(text) ==> if publish then tool.read(t).Err? else doomed(t))
  }

  lemma {:induction false} UnreadableStays(files: Files, packages: seq<Package>, tool: Tool, doomed: string -> bool,
                                           path: string)
    requires Spoils(tool, doomed) && path in files && tool.read(files[path]).Err?
    requires SetAll(files, packages, tool).0.None?
    ensures path in SetAll(files, packages, tool).1 && SetAll(files, packages, tool).1[path] == files[path]
    decreases |packages|
  {
    if packages != [] {
      var next := SetPackage(files, packages[0], tool).value;
      assert tool.rewrite(files[packages[0].manifest], packages[0].publish).Ok?;
      UnreadableStays(next, packages[1..], tool, doomed, path);
    }
  }

  lemma {:induction false} DoomedEndsUnreadable(files: Files, packages: seq<Package>, tool: Tool,
                                                doomed: string -> bool,
                                                p: Package)
    requires Spoils(tool, doomed) && p in packages && p.publish && p.manifest in files && doomed(files[p.manifest])
    requires SetAll(files, packages, tool).0.None?
    ensures var end := SetAll(files, packages, tool).1; p.manifest in end && tool.read(end[p.manifest]).Err?
    decreases |packages|
  {
    var q := packages[0];
    var next := SetPackage(files, q, tool).value;
    assert tool.rewrite(files[q.manifest], q.publish).Ok?;
    if q.manifest == p.manifest && q.publish {
      UnreadableStays(next, packages[1..], tool, doomed, p.manifest);
    } else {
      assert p in packages[1..];
      DoomedEndsUnreadable(next, packages[1..], tool, doomed, p);
    }
  }

  ghost predicate Doomed(text: string, managed: set<string>, version: string, semver: Cargo.Semver) {
    var t := Versioned(text, version, semver);
    EntriesTidy(t, managed, RequirementFor(version)) && !PlainlyClear(t, managed, RequirementFor(version))
  }

  lemma CargoSpoils(managed: set<string>, version: string, semver: Cargo.Semver, doomed: string -> bool)
    requires Release(version, semver) && semver(RequirementFor(version)).None?
    requires forall text :: doomed(text) <==> Doomed(text, managed, version, semver)
    ensures Spoils(CargoTool(managed, version, semver), doomed)
  {
    var tool := CargoTool(managed, version, semver);
    RequirementGood(version);
    forall text, publish | tool.rewrite(text, publish).Ok?
      ensures var t := tool.rewrite(text, publish).value;
              tool.read(text).Ok? && (doomed(text) ==> if publish then tool.read(t).Err? else doomed(t))
    {
      VersionedOnce(text, version, semver);
      if doomed(text) && publish {
        RewrittenPlainly(Versioned(text, version, semver), managed, RequirementFor(version));
      }
    }
  }

  // ----- the workspace -----

  /** The package's manifest, with its version line replaced, keeps its version. */
  ghost predicate Kept(files: Files, p: Package, managed: set<string>, version: string, semver: Cargo.Semver) {
    p.publish && p.manifest in files ==>
      KeepsVersion(Versioned(files[p.manifest], version, semver), managed, version, semver)
  }

  ghost predicate TidyPackage(files: Files, p: Package, managed: set<string>, version: string, semver: Cargo.Semver) {
    p.publish && p.manifest in files ==>
      EntriesTidy(Versioned(files[p.manifest], version, semver), managed, RequirementFor(version))
  }

  ghost predicate BalancedPackage(files: Files, p: Package, managed: set<string>, version: string, semver: Cargo.Semver)
  {
    p.publish && p.manifest in files ==>
      BracesCancel(Versioned(files[p.manifest], version, semver), managed, RequirementFor(version))
  }

  lemma LostOnce(files: Files, packages: seq<Package>, managed: set<string>, version: string, semver: Cargo.Semver,
                 p: Package)
    requires Release(version, semver) && semver(RequirementFor(version)).None?
    requires SetAll(files, packages, CargoTool(managed, version, semver)).0.None?
    requires p in packages && !Kept(files, p, managed, version, semver) && Once(packages, p.manifest)
    ensures var end := SetAll(files, packages, CargoTool(managed, version, semver)).1;
            p.manifest in end && Cargo.ReadVersion(end[p.manifest], semver) != Ok(version)
  {
    var text := files[p.manifest];
    SetOnce(files, packages, CargoTool(managed, version, semver), p);
    RewriteKeepsVersionIff(Versioned(text, version, semver), managed, version, semver);
  }

  lemma LostTidily(files: Files, packages: seq<Package>, managed: set<string>, version: string, semver: Cargo.Semver,
                   p: Package)
    requires Release(version, semver) && semver(RequirementFor(version)).None?
    requires SetAll(files, packages, CargoTool(managed, version, semver)).0.None?
    requires p in packages && !Kept(files, p, managed, version, semver)
    requires TidyPackage(files, p, managed, version, semver)
    requires Cargo.WithVersion(files[p.manifest], version, semver).Ok?
    ensures var end := SetAll(files, packages, CargoTool(managed, version, semver)).1;
            p.manifest in end && Cargo.ReadVersion(end[p.manifest], semver) != Ok(version)
  {
    var text := files[p.manifest];
    VersionedOnce(text, version, semver);
    PlainlyKeepsVersionIff(Versioned(text, version, semver), managed, version, semver);
    var doomed := t => Doomed(t, managed, version, semver);
    CargoSpoils(managed, version, semver, doomed);
    DoomedEndsUnreadable(files, packages, CargoTool(managed, version, semver), doomed, p);
  }

  /** If setting a workspace succeeds, every manifest of it could be set to begin with. */
  lemma {:induction false} AllCouldBeSet(files: Files, packages: seq<Package>, tool: Tool, couldBe: string -> bool,
                                         p: Package)
    requires p in packages && p.manifest in files && SetAll(files, packages, tool).0.None?
    requires forall text, publish :: tool.rewrite(text, publish).Ok? ==> couldBe(text)
    ensures couldBe(files[p.manifest])
    decreases |packages|
  {
    var q := packages[0];
    assert tool.rewrite(files[q.manifest], q.publish).Ok?;
    if q.manifest != p.manifest {
      assert p in packages[1..];
      AllCouldBeSet(SetPackage(files, q, tool).value, packages[1..], tool, couldBe, p);
    }
  }

  lemma LostReported(files: Files, packages: seq<Package>, managed: set<string>, version: string, semver: Cargo.Semver,
                     p: Package)
    requires Release(version, semver) && semver(RequirementFor(version)).None?
    requires SetAll(files, packages, CargoTool(managed, version, semver)).0.None?
    requires p in packages && !Kept(files, p, managed, version, semver)
    requires Once(packages, p.manifest) || TidyPackage(files, p, managed, version, semver)
    ensures var tool := CargoTool(managed, version, semver);
            CollectMismatches(SetAll(files, packages, tool).1, packages, version, tool) != Ok([])
  {
    var tool := CargoTool(managed, version, semver);
    if Once(packages, p.manifest) {
      LostOnce(files, packages, managed, version, semver, p);
    } else {
      AllCouldBeSet(files, packages, tool, text => Cargo.WithVersion(text, version, semver).Ok?, p);
      LostTidily(files, packages, managed, version, semver, p);
    }
    WrongVersionCollected(SetAll(files, packages, tool).1, packages, version, tool, p);
  }

  /** A workspace that was set has no mismatch if and only if every published manifest
      keeps its version. The braces of replaced values cancel out, and a manifest that
      several packages share has each stale entry on one line. */
  lemma SetLeavesNoMismatchIff(files: Files, packages: seq<Package>, version: string, semver: Cargo.Semver)
    requires Release(version, semver) && semver(RequirementFor(version)).None?
    requires SetAll(files, packages, CargoTool(PublishedNames(packages), version, semver)).0.None?
    requires forall p :: p in packages ==> BalancedPackage(files, p, PublishedNames(packages), version, semver)
    requires forall p :: p in packages ==>
               Once(packages, p.manifest) || TidyPackage(files, p, PublishedNames(packages), version, semver)
    ensures var managed := PublishedNames(packages);
            var tool := CargoTool(managed, version, semver);
            CollectMismatches(SetAll(files, packages, tool).1, packages, version, tool) == Ok([]) <==>
              forall p :: p in packages ==> Kept(files, p, managed, version, semver)
  {
    var managed := PublishedNames(packages);
    if forall p :: p in packages ==> Kept(files, p, managed, version, semver) {
      forall p | p in packages && p.publish && p.manifest in files
        ensures Calm(files[p.manifest], managed, version, semver)
      {
        assert Kept(files, p, managed, version, semver) && BalancedPackage(files, p, managed, version, semver);
      }
      SetLeavesNoMismatch(files, packages, version, semver);
    } else {
      var p :| p in packages && !Kept(files, p, managed, version, semver);
      LostReported(files, packages, managed, version, semver, p);
    }
  }
}
