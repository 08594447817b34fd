/** The validator, the merge and the comparison gate as they run, in loops over tables. */
module InventoryRun {
  import opened Text
  import opened Sorting
  import opened Inventory
  import opened InventoryMerge

  // ---- The validator ----

  /** A lookup table of releases by key. */
  ghost predicate TableFor(table: map<string, Release>, releases: seq<Release>) {
    && (forall r :: r in releases ==> ReleaseKey(r) in table)
    && (forall k :: k in table ==> table[k] in releases && ReleaseKey(table[k]) == k)
  }

  predicate PlanesKnown(releases: seq<Release>) { forall r :: r in releases ==> r.plane in PLANES }

  lemma {:induction false} PlanesByIndex(releases: seq<Release>)
    ensures PlanesKnown(releases) <==> forall i :: 0 <= i < |releases| ==> IsPlane(releases[i].plane)
  {
    if PlanesKnown(releases) {
      forall i | 0 <= i < |releases| ensures IsPlane(releases[i].plane) { assert releases[i] in releases; }
    }
  }

  /** `isResolvedStackPlane` */
  predicate IsPlane(plane: string) { plane in PLANES }

  lemma {:induction false} TableSnoc(m: map<string, Release>, releases: seq<Release>, r: Release)
    requires TableFor(m, releases)
    ensures TableFor(m[ReleaseKey(r) := r], releases + [r])
  {
  }

  /** The lookup table, filled in turn. */
  method FillTable(releases: seq<Release>) returns (m: map<string, Release>)
    ensures TableFor(m, releases)
  {
    m := map[];
    for i := 0 to |releases|
      invariant TableFor(m, releases[..i])
    {
      assert releases[..i + 1] == releases[..i] + [releases[i]];
      TableSnoc(m, releases[..i], releases[i]);
      m := m[ReleaseKey(releases[i]) := releases[i]];
    }
    assert releases[..|releases|] == releases;
  }

  /** The checks of the loop over the releases; what makes a plane known is a parameter. */
  method WalkReleases(keys: seq<Pair>, planes: seq<string>, known: string -> bool) returns (ok: bool)
    requires |keys| == |planes|
    ensures ok <==> Ascending(keys) && forall i :: 0 <= i < |planes| ==> known(planes[i])
  {
    for i := 0 to |keys|
      invariant StepsUp(keys, i)
      invariant forall j :: 0 <= j < i ==> known(planes[j])
    {
      if i > 0 && !Less(keys[i - 1], keys[i]) {
        StepDown(keys, i);
        return false;
      }
      if !known(planes[i]) { return false; }
    }
    StepsAscend(keys);
    return true;
  }

  method CheckReleases(releases: seq<Release>) returns (table: Option<map<string, Release>>)
    ensures table.Some? <==> Ascending(Keys(releases, ReleasePair)) && PlanesKnown(releases)
    ensures table.Some? ==> TableFor(table.value, releases)
  {
    var planes := seq(|releases|, i requires 0 <= i < |releases| => releases[i].plane);
    var ok := WalkReleases(Keys(releases, ReleasePair), planes, IsPlane);
    PlanesByIndex(releases);
    assert forall i :: 0 <= i < |releases| ==> planes[i] == releases[i].plane;
    if !ok { return None; }
    var m := FillTable(releases);
    return Some(m);
  }

  /** With one release for each key, the table decides what the releases do. */
  lemma {:induction false} OneRelease(table: map<string, Release>, releases: seq<Release>, r: Release)
    requires TableFor(table, releases) && ReleasesOk(releases) && r in releases
    ensures table[ReleaseKey(r)] == r
  {
    var t := table[ReleaseKey(r)];
    ReleaseKeyIsPair(r, t);
    AscendingIsDistinct(releases, ReleasePair);
    var i :| 0 <= i < |releases| && releases[i] == r;
    var j :| 0 <= j < |releases| && releases[j] == t;
  }

  predicate Fits(table: map<string, Release>, kind: string, s: Source) {
    SourceKey(s) in table && SourceFits(kind, s, table[SourceKey(s)])
  }

  lemma {:induction false} FitsIff(table: map<string, Release>, releases: seq<Release>, kind: string, s: Source)
    requires TableFor(table, releases) && ReleasesOk(releases)
    ensures Fits(table, kind, s) <==> SourceOk(kind, s, releases)
  {
    if SourceOk(kind, s, releases) {
      var r :| r in releases && SourceFits(kind, s, r);
      OneRelease(table, releases, r);
    }
  }

  /** The keys of the releases that this artifact is the chart of. */
  ghost predicate Charts(table: map<string, Release>, a: Artifact, k: string) {
    k in table && exists s :: IsChartOf(a, s, table[k])
  }

  /** Whether this source makes the artifact the chart of its release. */
  predicate Marks(table: map<string, Release>, a: Artifact, s: Source) {
    SourceKey(s) in table && a.kind == CHART && a.reference == table[SourceKey(s)].chart + "@" + table[SourceKey(s)].version
  }

  ghost predicate MarkedBy(table: map<string, Release>, a: Artifact, sources: seq<Source>, k: string) {
    exists s :: s in sources && Marks(table, a, s) && SourceKey(s) == k
  }

  lemma {:induction false} ChartsIsMarked(table: map<string, Release>, a: Artifact, releases: seq<Release>, k: string)
    requires TableFor(table, releases)
    ensures Charts(table, a, k) <==> MarkedBy(table, a, a.sources, k)
  {
    if Charts(table, a, k) {
      var s :| IsChartOf(a, s, table[k]);
      assert Marks(table, a, s);
    }
    if MarkedBy(table, a, a.sources, k) {
      var s :| s in a.sources && Marks(table, a, s) && SourceKey(s) == k;
      assert IsChartOf(a, s, table[k]);
    }
  }

  lemma {:induction false} MarkedSnoc(table: map<string, Release>, a: Artifact, sources: seq<Source>, s: Source, k: string)
    ensures MarkedBy(table, a, sources + [s], k) <==> MarkedBy(table, a, sources, k) || (Marks(table, a, s) && SourceKey(s) == k)
  {
    var all := sources + [s];
    assert s in all;
  }

  predicate AllFit(table: map<string, Release>, kind: string, sources: seq<Source>) {
    forall s :: s in sources ==> Fits(table, kind, s)
  }

  lemma {:induction false} MarkedNext(table: map<string, Release>, a: Artifact, sources: seq<Source>, s: Source, found: set<string>)
    requires forall k :: k in found <==> MarkedBy(table, a, sources, k)
    ensures forall k :: MarkedBy(table, a, sources + [s], k) <==> k in found || (Marks(table, a, s) && SourceKey(s) == k)
  {
    forall k ensures MarkedBy(table, a, sources + [s], k) <==> k in found || (Marks(table, a, s) && SourceKey(s) == k) {
      MarkedSnoc(table, a, sources, s, k);
    }
  }

  /** The loop over the sources of one artifact. */
  method CheckSources(table: map<string, Release>, a: Artifact) returns (charts: Option<set<string>>)
    ensures charts.Some? <==> a.sources != [] && Ascending(Keys(a.sources, SourcePair)) && AllFit(table, a.kind, a.sources)
    ensures charts.Some? ==> forall k :: k in charts.value <==> MarkedBy(table, a, a.sources, k)
  {
    if a.sources == [] { return None; }
    var keys := Keys(a.sources, SourcePair);
    var found: set<string> := {};
    for i := 0 to |a.sources|
      invariant StepsUp(keys, i) && AllFit(table, a.kind, a.sources[..i])
      invariant forall k :: k in found <==> MarkedBy(table, a, a.sources[..i], k)
    {
      var s := a.sources[i];
      if i > 0 && !Less(keys[i - 1], keys[i]) {
        StepDown(keys, i);
        return None;
      }
      if !Fits(table, a.kind, s) {
        assert s in a.sources;
        return None;
      }
      assert a.sources[..i + 1] == a.sources[..i] + [s];
      MarkedNext(table, a, a.sources[..i], s, found);
      if Marks(table, a, s) { found := found + {SourceKey(s)}; }
    }
    assert a.sources[..|a.sources|] == a.sources;
    StepsAscend(keys);
    return Some(found);
  }

  lemma {:induction false} SourcesOkIff(table: map<string, Release>, a: Artifact, releases: seq<Release>)
    requires TableFor(table, releases) && ReleasesOk(releases)
    ensures SourcesOk(a, releases) <==>
            a.sources != [] && Ascending(Keys(a.sources, SourcePair)) && AllFit(table, a.kind, a.sources)
  {
    forall s ensures Fits(table, a.kind, s) <==> SourceOk(a.kind, s, releases) {
      FitsIff(table, releases, a.kind, s);
    }
  }

  /** The check of an artifact's own fields is a parameter of the loops, which do not look into
      it. */
  ghost predicate ArtifactOk(a: Artifact, valid: Artifact -> bool, releases: seq<Release>) {
    valid(a) && SourcesOk(a, releases)
  }

  ghost predicate AllOk(artifacts: seq<Artifact>, n: nat, valid: Artifact -> bool, releases: seq<Release>)
    requires n <= |artifacts|
  {
    n == 0 || (AllOk(artifacts, n - 1, valid, releases) && ArtifactOk(artifacts[n - 1], valid, releases))
  }

  ghost predicate ChartedBy(table: map<string, Release>, artifacts: seq<Artifact>, n: nat, k: string)
    requires n <= |artifacts|
  {
    n > 0 && (ChartedBy(table, artifacts, n - 1, k) || Charts(table, artifacts[n - 1], k))
  }

  lemma {:induction false} ChartedByOne(table: map<string, Release>, artifacts: seq<Artifact>, n: nat, k: string)
    requires n <= |artifacts|
    ensures ChartedBy(table, artifacts, n, k) <==> exists j :: 0 <= j < n && Charts(table, artifacts[j], k)
  {
    if n > 0 { ChartedByOne(table, artifacts, n - 1, k); }
  }

  /** One artifact. */
  method CheckArtifact(table: map<string, Release>, a: Artifact, valid: Artifact -> bool, ghost releases: seq<Release>) returns (charts: Option<set<string>>)
    requires TableFor(table, releases) && ReleasesOk(releases)
    ensures charts.Some? <==> ArtifactOk(a, valid, releases)
    ensures charts.Some? ==> forall k :: k in charts.value <==> Charts(table, a, k)
  {
    charts := CheckSources(table, a);
    SourcesOkIff(table, a, releases);
    forall k ensures Charts(table, a, k) <==> MarkedBy(table, a, a.sources, k) {
      ChartsIsMarked(table, a, releases, k);
    }
    if !valid(a) { charts := None; }
  }

  /** The loop over the artifacts. */
  method WalkArtifacts(table: map<string, Release>, artifacts: seq<Artifact>, valid: Artifact -> bool, ghost releases: seq<Release>) returns (charts: Option<set<string>>)
    requires TableFor(table, releases) && ReleasesOk(releases)
    ensures charts.Some? <==> Ascending(Keys(artifacts, ArtifactPair)) && AllOk(artifacts, |artifacts|, valid, releases)
    ensures charts.Some? ==> forall k :: k in charts.value <==> ChartedBy(table, artifacts, |artifacts|, k)
  {
    var keys := Keys(artifacts, ArtifactPair);
    var found: set<string> := {};
    for i := 0 to |artifacts|
      invariant StepsUp(keys, i) && AllOk(artifacts, i, valid, releases)
      invariant forall k :: k in found <==> ChartedBy(table, artifacts, i, k)
    {
      if i > 0 && !Less(keys[i - 1], keys[i]) {
        StepDown(keys, i);
        return None;
      }
      var more := CheckArtifact(table, artifacts[i], valid, releases);
      if more.None? {
        NotAllOk(artifacts, i, valid, releases, |artifacts|);
        return None;
      }
      found := found + more.value;
    }
    StepsAscend(keys);
    return Some(found);
  }

  lemma {:induction false} NotAllOk(artifacts: seq<Artifact>, i: nat, valid: Artifact -> bool, releases: seq<Release>, n: nat)
    requires i < n <= |artifacts| && !ArtifactOk(artifacts[i], valid, releases)
    ensures !AllOk(artifacts, n, valid, releases)
  {
    if i < n - 1 { NotAllOk(artifacts, i, valid, releases, n - 1); }
  }

  method CheckArtifacts(table: map<string, Release>, artifacts: seq<Artifact>, ghost releases: seq<Release>) returns (ok: bool)
    requires TableFor(table, releases) && ReleasesOk(releases)
    ensures ok <==> ArtifactsOk(artifacts, releases)
  {
    var charts := WalkArtifacts(table, artifacts, ValidArtifact, releases);
    ArtifactsOkIff(artifacts, releases);
    if charts.None? { return false; }
    ok := forall k :: k in table ==> k in charts.value;
    ChartsIff(table, artifacts, releases, charts.value);
  }

  lemma {:induction false} ArtifactsOkIff(artifacts: seq<Artifact>, releases: seq<Release>)
    ensures ArtifactsOk(artifacts, releases) <==>
            && Ascending(Keys(artifacts, ArtifactPair)) && AllOk(artifacts, |artifacts|, ValidArtifact, releases)
            && forall r :: r in releases ==> HasChart(artifacts, r)
  {
    AllOkMeans(artifacts, |artifacts|, ValidArtifact, releases);
  }

  lemma {:induction false} AllOkMeans(artifacts: seq<Artifact>, n: nat, valid: Artifact -> bool, releases: seq<Release>)
    requires n <= |artifacts|
    ensures AllOk(artifacts, n, valid, releases) <==> forall a :: a in artifacts[..n] ==> valid(a) && SourcesOk(a, releases)
    ensures artifacts[..|artifacts|] == artifacts
  {
    if n > 0 {
      AllOkMeans(artifacts, n - 1, valid, releases);
      assert artifacts[..n] == artifacts[..n - 1] + [artifacts[n - 1]];
    }
  }

  lemma {:induction false} ChartsIff(table: map<string, Release>, artifacts: seq<Artifact>, releases: seq<Release>, charts: set<string>)
    requires TableFor(table, releases) && ReleasesOk(releases)
    requires forall k :: k in charts <==> ChartedBy(table, artifacts, |artifacts|, k)
    ensures (forall k :: k in table ==> k in charts) <==> forall r :: r in releases ==> HasChart(artifacts, r)
  {
    forall r | r in releases ensures ReleaseKey(r) in charts <==> HasChart(artifacts, r) {
      OneRelease(table, releases, r);
      ChartIff(table, artifacts, r);
    }
    forall k | k in table ensures table[k] in releases && ReleaseKey(table[k]) == k { }
  }

  lemma {:induction false} ChartIff(table: map<string, Release>, artifacts: seq<Artifact>, r: Release)
    requires ReleaseKey(r) in table && table[ReleaseKey(r)] == r
    ensures ChartedBy(table, artifacts, |artifacts|, ReleaseKey(r)) <==> HasChart(artifacts, r)
  {
    var k := ReleaseKey(r);
    ChartedByOne(table, artifacts, |artifacts|, k);
    if HasChart(artifacts, r) {
      var a, s :| a in artifacts && IsChartOf(a, s, r);
      var j :| 0 <= j < |artifacts| && artifacts[j] == a;
      assert Charts(table, artifacts[j], k);
    }
    if j :| 0 <= j < |artifacts| && Charts(table, artifacts[j], k) {
      assert artifacts[j] in artifacts;
    }
  }

  /** `validateResolvedStackInventory` */
  method Validate(inv: Inventory) returns (ok: bool)
    ensures ok <==> Valid(inv)
  {
    if inv.schema != SCHEMA || !inv.source.valid || inv.releases == [] || inv.artifacts == [] || !ValidWarnings(inv.warnings) {
      return false;
    }
    var table := CheckReleases(inv.releases);
    if table.None? { return false; }
    ok := CheckArtifacts(table.value, inv.artifacts, inv.releases);
  }
}
