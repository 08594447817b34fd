/** Inputs on which the merge gives up a property: whole sets of three valid inventories that it
    accepts. */
module InventoryWitnesses {
  import opened Text
  import opened Sorting
  import opened Inventory
  import opened InventoryMerge
  import opened InventoryGates
  import opened InventoryMergeRun

  // ---- Inventories of one chart ----

  /** The chart of one release, used from one source. */
  function ChartArtifact(repository: string, name: string, version: string, s: Source): Artifact {
    Artifact(CHART, name, repository, version, "", repository + "/" + name + "@" + version, [s])
  }

  function OneChart(from: StackSource, r: Release, a: Artifact): Inventory { Inventory(SCHEMA, from, [r], [a], []) }

  lemma {:induction false} OneChartValid(from: StackSource, r: Release, a: Artifact, s: Source)
    requires from.valid && r.plane in PLANES && ValidArtifact(a) && a.kind == CHART && a.sources == [s]
    requires SourceKey(s) == ReleaseKey(r) && s.requirement == "" && a.reference == r.chart + "@" + r.version
    ensures Valid(OneChart(from, r, a))
  {
    OneSourceOk(r, a, s);
    OneHasChart(r, a, s);
    OneArtifactOk(r, a, ValidArtifact);
  }

  /** With validity of the artifact as an argument, so that what it means stays out of sight. */
  lemma {:induction false} OneArtifactOk(r: Release, a: Artifact, valid: Artifact -> bool)
    requires valid(a) && SourcesOk(a, [r]) && HasChart([a], r)
    ensures Ascending(Keys([a], ArtifactPair)) && (forall x :: x in [a] ==> valid(x) && SourcesOk(x, [r]))
    ensures forall x :: x in [r] ==> HasChart([a], x)
  {
  }

  lemma {:induction false} OneSourceOk(r: Release, a: Artifact, s: Source)
    requires a.kind == CHART && a.sources == [s] && SourceKey(s) == ReleaseKey(r) && s.requirement == ""
    ensures SourcesOk(a, [r])
  {
    assert r in [r] && SourceFits(CHART, s, r);
  }

  lemma {:induction false} OneHasChart(r: Release, a: Artifact, s: Source)
    requires a.kind == CHART && a.sources == [s] && SourceKey(s) == ReleaseKey(r) && a.reference == r.chart + "@" + r.version
    ensures HasChart([a], r)
  {
    assert a in [a] && IsChartOf(a, s, r);
  }

  /** A short text of letters, digits and `@`. */
  predicate Short(s: string) { 1 <= |s| <= 3 && forall i :: 0 <= i < |s| ==> IsAlnum(s[i]) || s[i] == '@' }

  /** A chart of repository `r` whose name holds no slash. */
  lemma {:induction false} ShortChartValid(name: string, version: string, s: Source)
    requires Short(name) && Short(version)
    ensures ValidArtifact(ChartArtifact("r", name, version, s))
  {
    var chart := "r" + "/" + name;
    ChartResolved(chart, name);
    PlainIsResolved(version);
    ShortBase(chart, name);
    ShortRepository(chart, name);
    assert version != "latest" by { assert |"latest"| == 6; }
    ParsedParts(chart, name, version);
  }

  lemma {:induction false} ParsedParts(chart: string, name: string, version: string)
    requires !Unresolved(chart) && !Unresolved(version) && version != "latest"
    requires TrimSuffix(chart, "/") == chart && Base(chart) == name && name != "" && name != "." && name != "/"
    requires TrimSuffix(chart, "/" + name) == "r"
    ensures ParseChart(chart, version) == Some(ChartRef("r", name, chart + "@" + version))
  {
  }

  lemma {:induction false} ShortRepository(chart: string, name: string)
    requires chart == "r" + "/" + name
    ensures TrimSuffix(chart, "/" + name) == "r"
  {
    assert chart[1..] == "/" + name && chart[..1] == "r";
  }

  lemma {:induction false} ChartResolved(chart: string, name: string)
    requires chart == "r" + "/" + name && Short(name)
    ensures !Unresolved(chart)
  {
    forall i | 0 <= i < |chart| ensures IsAlnum(chart[i]) || chart[i] == '@' || chart[i] == '/' {
      if i >= 2 { assert chart[i] == name[i - 2]; }
    }
    PlainIsResolved(chart);
  }

  lemma {:induction false} PlainIsResolved(s: string)
    requires s != "" && forall i :: 0 <= i < |s| ==> IsAlnum(s[i]) || s[i] == '@' || s[i] == '/'
    ensures !Unresolved(s)
  {
    assert TrimSpace(s) == s;
  }

  lemma {:induction false} ShortBase(chart: string, name: string)
    requires chart == "r" + "/" + name && Short(name)
    ensures TrimSuffix(chart, "/") == chart && Base(chart) == name && name != "" && name != "." && name != "/"
  {
    assert chart[|chart| - 1] == name[|name| - 1];
    forall i | 2 <= i < |chart| ensures chart[i] != '/' { assert chart[i] == name[i - 2]; }
    LastSlash(chart);
    assert chart[|chart| - 1..] == [name[|name| - 1]];
    assert TrimSlashes(chart) == chart;
    assert chart[2..] == name;
  }

  lemma {:induction false} LastSlash(s: string)
    requires |s| >= 2 && s[1] == '/' && forall i :: 2 <= i < |s| ==> s[i] != '/'
    ensures LastIndex(s, '/') == 1
  {
    if |s| > 2 { LastSlash(s[..|s| - 1]); }
  }

  lemma {:induction false} OneShort(from: StackSource, r: Release, name: string, version: string, s: Source)
    requires from.valid && r.plane in PLANES && Short(name) && Short(version)
    requires SourceKey(s) == ReleaseKey(r) && s.requirement == "" && r.chart == "r" + "/" + name && r.version == version
    ensures Valid(OneChart(from, r, ChartArtifact("r", name, version, s)))
  {
    ShortChartValid(name, version, s);
    OneChartValid(from, r, ChartArtifact("r", name, version, s), s);
  }

  // ---- Three stacks ----

  function ThreeStacks(x: Inventory, y: Inventory, z: Inventory): (os: seq<Owned>) {
    [Owned(STACKS[0], x), Owned(STACKS[1], y), Owned(STACKS[2], z)]
  }

  lemma {:induction false} ThreeLists(x: Inventory, y: Inventory, z: Inventory)
    ensures var os := ThreeStacks(x, y, z);
            && InventoriesOf(os) == [x, y, z]
            && ReleasesOf([x, y, z]) == x.releases + y.releases + z.releases
            && ArtifactsOf([x, y, z]) == x.artifacts + y.artifacts + z.artifacts
            && Flat(os) == Tag(STACKS[0], x.artifacts) + Tag(STACKS[1], y.artifacts) + Tag(STACKS[2], z.artifacts)
  {
    var o, p, q := Owned(STACKS[0], x), Owned(STACKS[1], y), Owned(STACKS[2], z);
    assert InventoriesOf([]) == [];
    ListSnoc([], o);
    assert [] + [o] == [o];
    ListSnoc([o], p);
    assert [o] + [p] == [o, p];
    ListSnoc([o, p], q);
    assert [o, p] + [q] == ThreeStacks(x, y, z);
    assert InventoriesOf(ThreeStacks(x, y, z)) == [x, y, z];
  }

  /** Three inventories of one release and one chart each, of charts that do not clash. */
  ghost predicate ThreeCharts(from: StackSource, rs: seq<Release>, cs: seq<Artifact>) {
    && |rs| == 3 && |cs| == 3
    && (forall i :: 0 <= i < 3 ==> StackOf(rs[i].plane) == Some(STACKS[i]) && Valid(OneChart(from, rs[i], cs[i])))
    && (forall i, j :: 0 <= i < j < 3 ==> cs[i].name != cs[j].name)
  }

  function StacksFor(from: StackSource, rs: seq<Release>, cs: seq<Artifact>): (os: seq<Owned>)
    requires |rs| == 3 && |cs| == 3
  {
    ThreeStacks(OneChart(from, rs[0], cs[0]), OneChart(from, rs[1], cs[1]), OneChart(from, rs[2], cs[2]))
  }

  function EntriesFor(cs: seq<Artifact>): (flat: seq<Entry>)
    requires |cs| == 3
  {
    [Entry(STACKS[0], cs[0]), Entry(STACKS[1], cs[1]), Entry(STACKS[2], cs[2])]
  }

  lemma {:induction false} ListsFor(from: StackSource, rs: seq<Release>, cs: seq<Artifact>)
    requires |rs| == 3 && |cs| == 3
    ensures var os := StacksFor(from, rs, cs);
            ReleasesOf(InventoriesOf(os)) == rs && ArtifactsOf(InventoriesOf(os)) == cs && Flat(os) == EntriesFor(cs)
  {
    var os := StacksFor(from, rs, cs);
    ThreeLists(os[0].inventory, os[1].inventory, os[2].inventory);
    assert rs == [rs[0]] + [rs[1]] + [rs[2]] && cs == [cs[0]] + [cs[1]] + [cs[2]];
  }

  /** Artifacts of different names pass the merge's gate. */
  lemma {:induction false} NamesPass(cs: seq<Artifact>)
    requires |cs| == 3 && forall i, j :: 0 <= i < j < 3 ==> cs[i].name != cs[j].name
    ensures OwnerGate(EntriesFor(cs))
  {
    var flat := EntriesFor(cs);
    forall i, j | 0 <= j < i < |flat| ensures OwnerAllows(flat, j, i) {
      assert flat[i].artifact == cs[i] && flat[j].artifact == cs[j];
    }
  }

  lemma {:induction false} StacksOwn(from: StackSource, rs: seq<Release>, cs: seq<Artifact>)
    requires ThreeCharts(from, rs, cs)
    ensures AllOwned(StacksFor(from, rs, cs)) && AllValid(InventoriesOf(StacksFor(from, rs, cs)))
  {
    var os := StacksFor(from, rs, cs);
    forall i | 0 <= i < 3 ensures ValidOwned(os[i]) && Valid(os[i].inventory) {
      assert os[i] == Owned(STACKS[i], OneChart(from, rs[i], cs[i]));
      assert os[i].inventory.releases == [rs[i]];
    }
    forall o | o in os ensures ValidOwned(o) {
      var i :| 0 <= i < |os| && os[i] == o;
    }
  }

  /** The merge accepts them, since it compares only artifacts of one name. */
  lemma {:induction false} ThreeChartsMerge(from: StackSource, rs: seq<Release>, cs: seq<Artifact>)
    requires ThreeCharts(from, rs, cs)
    ensures AllOwned(StacksFor(from, rs, cs)) && Mergeable(StacksFor(from, rs, cs))
  {
    ListsFor(from, rs, cs);
    StacksOwn(from, rs, cs);
    KeysDiffer(rs);
    NamesPass(cs);
  }

  /** The comparison accepts them exactly when their sources are plain. */
  lemma {:induction false} ThreeChartsCompare(from: StackSource, rs: seq<Release>, cs: seq<Artifact>)
    requires ThreeCharts(from, rs, cs)
    ensures CompareGate(Flat(StacksFor(from, rs, cs))) <==> AllPlain(EntriesFor(cs))
  {
    ThreeChartsMerge(from, rs, cs);
    ListsFor(from, rs, cs);
    StacksCompare(StacksFor(from, rs, cs), EntriesFor(cs));
  }

  lemma {:induction false} StacksCompare(os: seq<Owned>, flat: seq<Entry>)
    requires AllOwned(os) && |os| == 3 && (forall i :: 0 <= i < 3 ==> os[i].stack == STACKS[i]) && Flat(os) == flat && OwnerGate(flat)
    ensures CompareGate(flat) <==> AllPlain(flat)
  {
    GatesAgree(os, os);
  }

  lemma {:induction false} KeysDiffer(rs: seq<Release>)
    requires |rs| == 3 && forall i :: 0 <= i < 3 ==> StackOf(rs[i].plane) == Some(STACKS[i])
    ensures DisjointReleases(rs)
  {
    forall i, j | 0 <= i < j < 3 ensures ReleaseKey(rs[i]) != ReleaseKey(rs[j]) {
      assert STACKS[i] != STACKS[j];
      KnownPlane(rs[i].plane);
      KnownPlane(rs[j].plane);
      if ReleaseKey(rs[i]) == ReleaseKey(rs[j]) { ReleaseKeyIsPair(rs[i], rs[j]); }
    }
  }

  // ---- One reference, two charts ----

  /** Two charts of one reference in two stacks: the merge accepts them, and its result is not
      the union. */
  lemma {:induction false} SharedReferenceLosesChart(from: StackSource, rs: seq<Release>, cs: seq<Artifact>, out: Inventory)
    requires ThreeCharts(from, rs, cs) && ArtifactPair(cs[0]) == ArtifactPair(cs[1])
    ensures Mergeable(StacksFor(from, rs, cs))
    ensures IsCombined(InventoriesOf(StacksFor(from, rs, cs)), out) ==> !IsUnion(InventoriesOf(StacksFor(from, rs, cs)), out)
  {
    ThreeChartsMerge(from, rs, cs);
    ListsFor(from, rs, cs);
    NotUnion(InventoriesOf(StacksFor(from, rs, cs)), out, cs[0], cs[1]);
  }

  lemma {:induction false} NotUnion(invs: seq<Inventory>, out: Inventory, a: Artifact, b: Artifact)
    requires AllValid(invs) && a in ArtifactsOf(invs) && b in ArtifactsOf(invs)
    requires ArtifactPair(a) == ArtifactPair(b) && a.name != b.name
    ensures IsCombined(invs, out) ==> !IsUnion(invs, out)
  {
    if IsCombined(invs, out) && IsUnion(invs, out) { UnionAgrees(invs, out, a, b); }
  }

  /** The second and third of the three releases stay; the first has a name and a source of its
      own choice. */
  const T := Source("compute-plane", "b", "")
  const U := Source("observability", "c", "")

  function ReleaseFor(plane: string, name: string, chart: string, version: string): Release {
    Release(plane, name, "", true, "r" + "/" + chart, version)
  }

  function TrioReleases(release: string, names: seq<string>, versions: seq<string>): (rs: seq<Release>)
    requires |names| == |versions| == 3
  {
    [ReleaseFor("control-plane", release, names[0], versions[0]), ReleaseFor(T.plane, T.release, names[1], versions[1]),
     ReleaseFor(U.plane, U.release, names[2], versions[2])]
  }

  function TrioCharts(s: Source, names: seq<string>, versions: seq<string>): (cs: seq<Artifact>)
    requires |names| == |versions| == 3
  {
    [ChartArtifact("r", names[0], versions[0], s), ChartArtifact("r", names[1], versions[1], T), ChartArtifact("r", names[2], versions[2], U)]
  }

  ghost predicate Trio(release: string, s: Source, names: seq<string>, versions: seq<string>) {
    && |names| == |versions| == 3 && (forall i :: 0 <= i < 3 ==> Short(names[i]) && Short(versions[i]))
    && (forall i, j :: 0 <= i < j < 3 ==> names[i] != names[j])
    && s.requirement == "" && SourceKey(s) == "control-plane" + "/" + release
  }

  lemma {:induction false} TrioIsThree(from: StackSource, release: string, s: Source, names: seq<string>, versions: seq<string>)
    requires from.valid && Trio(release, s, names, versions)
    ensures ThreeCharts(from, TrioReleases(release, names, versions), TrioCharts(s, names, versions))
  {
    var rs, cs := TrioReleases(release, names, versions), TrioCharts(s, names, versions);
    OneShort(from, rs[0], names[0], versions[0], s);
    OneShort(from, rs[1], names[1], versions[1], T);
    OneShort(from, rs[2], names[2], versions[2], U);
    forall i, j | 0 <= i < j < 3 ensures cs[i].name != cs[j].name { assert cs[i].name == names[i] && cs[j].name == names[j]; }
  }

  lemma {:induction false} TrioPlain(s: Source, names: seq<string>, versions: seq<string>)
    requires |names| == |versions| == 3
    ensures AllPlain(EntriesFor(TrioCharts(s, names, versions))) <==> '/' !in s.plane
  {
    var flat := EntriesFor(TrioCharts(s, names, versions));
    assert flat[0] in flat && s in flat[0].artifact.sources;
    PlaneHasNoSlash(T.plane);
    PlaneHasNoSlash(U.plane);
  }

  /** `r/n` at `1@2` and `r/n@1` at `2` have the one reference `r/n@1@2`. */
  const AT_NAMES := ["n", "n@1", "o"]
  const AT_VERSIONS := ["1@2", "2", "3"]
  const AT_SOURCE := Source("control-plane", "a", "")

  lemma {:induction false} AtSignInput()
    ensures Trio("a", AT_SOURCE, AT_NAMES, AT_VERSIONS)
    ensures var cs := TrioCharts(AT_SOURCE, AT_NAMES, AT_VERSIONS); ArtifactPair(cs[0]) == ArtifactPair(cs[1])
  {
    assert "r" + "/" + "n" + "@" + "1@2" == "r" + "/" + "n@1" + "@" + "2";
  }

  /** On these both gates accept, and the result of the merge is not the union: the name and the
      version of one chart are gone. */
  lemma {:induction false} AtSignLosesChart(from: StackSource, out: Inventory)
    requires from.valid
    ensures var os := StacksFor(from, TrioReleases("a", AT_NAMES, AT_VERSIONS), TrioCharts(AT_SOURCE, AT_NAMES, AT_VERSIONS));
            && Mergeable(os) && CompareGate(Flat(os))
            && (IsCombined(InventoriesOf(os), out) ==> !IsUnion(InventoriesOf(os), out))
  {
    AtSignInput();
    TrioIsThree(from, "a", AT_SOURCE, AT_NAMES, AT_VERSIONS);
    TrioPlain(AT_SOURCE, AT_NAMES, AT_VERSIONS);
    PlaneHasNoSlash(AT_SOURCE.plane);
    var rs, cs := TrioReleases("a", AT_NAMES, AT_VERSIONS), TrioCharts(AT_SOURCE, AT_NAMES, AT_VERSIONS);
    ThreeChartsCompare(from, rs, cs);
    SharedReferenceLosesChart(from, rs, cs, out);
  }

  // ---- A slash in a plane ----

  /** The chart of a release `x/y` may be listed under plane `control-plane/x` and release `y`: the
      inventory is valid, the merge accepts it, and the comparison refuses it. */
  lemma {:induction false} SlashedPlaneSplitsGates(from: StackSource, x: string, y: string, names: seq<string>, versions: seq<string>)
    requires from.valid
    requires Trio(x + "/" + y, Source("control-plane" + "/" + x, y, ""), names, versions)
    ensures var os := StacksFor(from, TrioReleases(x + "/" + y, names, versions), TrioCharts(Source("control-plane" + "/" + x, y, ""), names, versions));
            Mergeable(os) && !CompareGate(Flat(os))
  {
    var s := Source("control-plane" + "/" + x, y, "");
    TrioIsThree(from, x + "/" + y, s, names, versions);
    TrioPlain(s, names, versions);
    assert s.plane[|"control-plane"|] == '/';
    ThreeChartsMerge(from, TrioReleases(x + "/" + y, names, versions), TrioCharts(s, names, versions));
    ThreeChartsCompare(from, TrioReleases(x + "/" + y, names, versions), TrioCharts(s, names, versions));
  }

  /** There are such inventories for every release name with a slash in it. */
  lemma {:induction false} SlashedInput(x: string, y: string)
    ensures Trio(x + "/" + y, Source("control-plane" + "/" + x, y, ""), ["n", "m", "o"], ["1", "2", "3"])
  {
    assert "control-plane" + "/" + x + "/" + y == "control-plane" + "/" + (x + "/" + y);
  }
}
