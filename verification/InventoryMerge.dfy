/** The merge of stack inventories (`mergeResolvedStackInventories`): what it gives, and that
    validity is closed under it. */
module InventoryMerge {
  import opened Text
  import opened Sorting
  import opened Inventory

  // ---- One artifact from many ----

  /** The index of the source with this plane and release, if any. */
  function IndexOf(sources: seq<Source>, p: Pair): (i: Option<nat>)
    ensures i.Some? ==> i.value < |sources| && SourcePair(sources[i.value]) == p
    ensures i.None? <==> forall j :: 0 <= j < |sources| ==> SourcePair(sources[j]) != p
  {
    if sources == [] then None
    else if SourcePair(sources[0]) == p then Some(0)
    else
      var r := IndexOf(sources[1..], p);
      assert forall j :: 1 <= j < |sources| ==> sources[j] == sources[1..][j - 1];
      if r.Some? then Some(r.value + 1) else None
  }

  /** `mergeResolvedArtifactSource` */
  function MergeSource(sources: seq<Source>, c: Source): seq<Source> {
    var i := IndexOf(sources, SourcePair(c));
    if i.None? then sources + [c]
    else if c.requirement == REQUIRED then sources[i.value := sources[i.value].(requirement := REQUIRED)]
    else sources
  }

  function MergeSources(sources: seq<Source>, more: seq<Source>): seq<Source> {
    if more == [] then sources
    else MergeSource(MergeSources(sources, more[..|more| - 1]), more[|more| - 1])
  }

  ghost predicate NoneShared(a: seq<Source>, b: seq<Source>) {
    forall i, j :: 0 <= i < |a| && 0 <= j < |b| ==> SourcePair(a[i]) != SourcePair(b[j])
  }

  /** Sources that share no release are all kept. */
  lemma {:induction false} MergeApartSources(sources: seq<Source>, more: seq<Source>)
    requires NoneShared(sources, more) && DistinctKeys(more, SourcePair)
    ensures MergeSources(sources, more) == sources + more
  {
    if more == [] {
      assert sources + more == sources;
    } else {
      var init, last := more[..|more| - 1], more[|more| - 1];
      MergeApartSources(sources, init);
      assert sources + more == sources + init + [last];
    }
  }

  /** Some source of this plane and release is required. */
  ghost predicate IsRequired(sources: seq<Source>, plane: string, release: string) {
    exists i :: 0 <= i < |sources| && sources[i] == Source(plane, release, "required")
  }

  ghost predicate IsNamed(sources: seq<Source>, plane: string, release: string) {
    exists i :: 0 <= i < |sources| && sources[i].plane == plane && sources[i].release == release
  }

  /** One source more: it is named as any, and required once any of them was. */
  lemma {:induction false} MergeSourceMeans(sources: seq<Source>, c: Source, plane: string, release: string)
    requires DistinctKeys(sources, SourcePair)
    ensures var out := MergeSource(sources, c);
            && DistinctKeys(out, SourcePair)
            && (IsNamed(out, plane, release) <==> IsNamed(sources + [c], plane, release))
            && (IsRequired(out, plane, release) <==> IsRequired(sources + [c], plane, release))
  {
    var out, all, i := MergeSource(sources, c), sources + [c], IndexOf(sources, SourcePair(c));
    assert all[|sources|] == c && forall k :: 0 <= k < |sources| ==> all[k] == sources[k];
    if i.Some? { MergedSource(sources, c, i.value, plane, release); }
  }

  /** What one more source of a release that is there leaves. */
  ghost predicate MergedAt(sources: seq<Source>, c: Source, i: nat, out: seq<Source>) {
    && i < |sources| && |out| == |sources| && SourcePair(sources[i]) == SourcePair(c)
    && out[i] == (if c.requirement == "required" then sources[i].(requirement := "required") else sources[i])
    && forall k :: 0 <= k < |sources| && k != i ==> out[k] == sources[k]
  }

  lemma {:induction false} MergedSource(sources: seq<Source>, c: Source, i: nat, plane: string, release: string)
    requires DistinctKeys(sources, SourcePair) && i < |sources| && SourcePair(sources[i]) == SourcePair(c) && IndexOf(sources, SourcePair(c)) == Some(i)
    ensures var out := MergeSource(sources, c);
            && DistinctKeys(out, SourcePair)
            && (IsNamed(out, plane, release) <==> IsNamed(sources + [c], plane, release))
            && (IsRequired(out, plane, release) <==> IsRequired(sources + [c], plane, release))
  {
    var out := MergeSource(sources, c);
    assert MergedAt(sources, c, i, out);
    MergedNames(sources, c, i, out, plane, release);
    MergedRequires(sources, c, i, out, plane, release);
    assert forall k :: 0 <= k < |out| ==> SourcePair(out[k]) == SourcePair(sources[k]);
  }

  lemma {:induction false} MergedNames(sources: seq<Source>, c: Source, i: nat, out: seq<Source>, plane: string, release: string)
    requires MergedAt(sources, c, i, out)
    ensures IsNamed(out, plane, release) <==> IsNamed(sources + [c], plane, release)
  {
    var all := sources + [c];
    assert all[|sources|] == c && forall k :: 0 <= k < |sources| ==> all[k] == sources[k];
    if IsNamed(all, plane, release) {
      var k :| 0 <= k < |all| && all[k].plane == plane && all[k].release == release;
      var j := if k < |sources| then k else i;
      assert out[j].plane == plane && out[j].release == release;
    }
    if IsNamed(out, plane, release) {
      var k :| 0 <= k < |out| && out[k].plane == plane && out[k].release == release;
      assert all[k].plane == plane && all[k].release == release;
    }
  }

  lemma {:induction false} MergedRequires(sources: seq<Source>, c: Source, i: nat, out: seq<Source>, plane: string, release: string)
    requires MergedAt(sources, c, i, out)
    ensures IsRequired(out, plane, release) <==> IsRequired(sources + [c], plane, release)
  {
    var all := sources + [c];
    assert all[|sources|] == c && forall k :: 0 <= k < |sources| ==> all[k] == sources[k];
    if IsRequired(all, plane, release) {
      var k :| 0 <= k < |all| && all[k] == Source(plane, release, "required");
      assert out[if k < |sources| then k else i] == Source(plane, release, "required");
    }
    if IsRequired(out, plane, release) {
      var k :| 0 <= k < |out| && out[k] == Source(plane, release, "required");
      assert all[k] == out[k] || all[|sources|] == out[k];
    }
  }

  type Table = map<Pair, Artifact>

  /** The table of artifacts by type and reference: the first of each, with the sources of
      those that follow merged in. A valid type holds no NUL, so that the text the code joins
      them into is as good as the pair. */
  function Add(m: Table, a: Artifact): Table {
    var k := ArtifactPair(a);
    if k in m then m[k := m[k].(sources := MergeSources(m[k].sources, a.sources))] else m[k := a]
  }

  function TableOf(artifacts: seq<Artifact>): (m: Table)
  {
    if artifacts == [] then map[] else Add(TableOf(artifacts[..|artifacts| - 1]), artifacts[|artifacts| - 1])
  }

  /** All sources of the artifacts with one key, in order. */
  function SourcesOf(artifacts: seq<Artifact>, k: Pair): seq<Source> {
    if artifacts == [] then []
    else
      var init, last := artifacts[..|artifacts| - 1], artifacts[|artifacts| - 1];
      SourcesOf(init, k) + (if ArtifactPair(last) == k then last.sources else [])
  }

  lemma {:induction false} SourcesOfHolds(artifacts: seq<Artifact>, k: Pair, s: Source)
    ensures s in SourcesOf(artifacts, k) <==> exists a :: a in artifacts && ArtifactPair(a) == k && s in a.sources
  {
    if artifacts != [] {
      var init, last := artifacts[..|artifacts| - 1], artifacts[|artifacts| - 1];
      SourcesOfHolds(init, k, s);
      assert artifacts == init + [last];
    }
  }

  /** No release is a source of two artifacts with one key, or twice of one. */
  ghost predicate Apart(artifacts: seq<Artifact>) {
    && (forall i :: 0 <= i < |artifacts| ==> DistinctKeys(artifacts[i].sources, SourcePair))
    && (forall i, j :: 0 <= i < j < |artifacts| && ArtifactPair(artifacts[i]) == ArtifactPair(artifacts[j]) ==>
          NoneShared(artifacts[i].sources, artifacts[j].sources))
  }

  lemma {:induction false} SourcesOfApart(artifacts: seq<Artifact>, k: Pair, x: Artifact)
    requires ArtifactPair(x) == k && forall i :: 0 <= i < |artifacts| && ArtifactPair(artifacts[i]) == k ==> NoneShared(artifacts[i].sources, x.sources)
    ensures NoneShared(SourcesOf(artifacts, k), x.sources)
  {
    if artifacts != [] {
      var init, last := artifacts[..|artifacts| - 1], artifacts[|artifacts| - 1];
      assert forall i :: 0 <= i < |init| ==> init[i] == artifacts[i];
      SourcesOfApart(init, k, x);
      assert artifacts[|artifacts| - 1] == last;
    }
  }

  /** The first artifact of a type and reference. */
  ghost predicate IsFirst(artifacts: seq<Artifact>, i: nat, k: Pair) {
    && i < |artifacts| && ArtifactPair(artifacts[i]) == k
    && forall j :: 0 <= j < i ==> ArtifactPair(artifacts[j]) != k
  }

  /** The table: which keys it has, whose fields, and which sources. */
  lemma {:induction false} TableIs(artifacts: seq<Artifact>, k: Pair)
    requires Apart(artifacts)
    ensures k in TableOf(artifacts) <==> exists i :: 0 <= i < |artifacts| && ArtifactPair(artifacts[i]) == k
    ensures k in TableOf(artifacts) ==>
              var a := TableOf(artifacts)[k];
              && a.sources == SourcesOf(artifacts, k) && DistinctKeys(a.sources, SourcePair)
              && exists i :: 0 <= i < |artifacts| && IsFirst(artifacts, i, k) && a == artifacts[i].(sources := a.sources)
    ensures k !in TableOf(artifacts) ==> SourcesOf(artifacts, k) == []
  {
    if artifacts != [] {
      var init, last := artifacts[..|artifacts| - 1], artifacts[|artifacts| - 1];
      var n := |init|;
      assert artifacts[n] == last && forall i :: 0 <= i < n ==> init[i] == artifacts[i];
      assert Apart(init);
      TableIs(init, k);
      var m := TableOf(init);
      if ArtifactPair(last) == k {
        SourcesOfApart(init, k, last);
        if k in m {
          MergeApartSources(m[k].sources, last.sources);
          DistinctConcat(m[k].sources, last.sources);
        } else {
          assert [] + last.sources == last.sources;
          assert IsFirst(artifacts, n, k);
        }
      } else {
        assert SourcesOf(artifacts, k) == SourcesOf(init, k);
      }
      if k in m {
        var i :| 0 <= i < |init| && IsFirst(init, i, k) && m[k] == init[i].(sources := m[k].sources);
        assert IsFirst(artifacts, i, k);
      }
    }
  }

  lemma {:induction false} DistinctConcat(a: seq<Source>, b: seq<Source>)
    requires DistinctKeys(a, SourcePair) && DistinctKeys(b, SourcePair) && NoneShared(a, b)
    ensures DistinctKeys(a + b, SourcePair)
  {
  }

  // ---- All inventories ----

  function ReleasesOf(invs: seq<Inventory>): seq<Release> {
    if invs == [] then [] else ReleasesOf(invs[..|invs| - 1]) + invs[|invs| - 1].releases
  }

  function ArtifactsOf(invs: seq<Inventory>): seq<Artifact> {
    if invs == [] then [] else ArtifactsOf(invs[..|invs| - 1]) + invs[|invs| - 1].artifacts
  }

  ghost predicate AllValid(invs: seq<Inventory>) { forall i :: 0 <= i < |invs| ==> Valid(invs[i]) }

  /** No release, looked up by its key, occurs twice. */
  ghost predicate DisjointReleases(releases: seq<Release>) {
    forall i, j :: 0 <= i < j < |releases| ==> ReleaseKey(releases[i]) != ReleaseKey(releases[j])
  }

  lemma {:induction false} ReleaseMembers(invs: seq<Inventory>, r: Release)
    ensures r in ReleasesOf(invs) <==> exists n :: 0 <= n < |invs| && r in invs[n].releases
  {
    if invs != [] {
      var init := invs[..|invs| - 1];
      ReleaseMembers(init, r);
      assert forall n :: 0 <= n < |init| ==> init[n] == invs[n];
    }
  }

  lemma {:induction false} ArtifactMembers(invs: seq<Inventory>, a: Artifact)
    ensures a in ArtifactsOf(invs) <==> exists n :: 0 <= n < |invs| && a in invs[n].artifacts
  {
    if invs != [] {
      var init := invs[..|invs| - 1];
      ArtifactMembers(init, a);
      assert forall n :: 0 <= n < |init| ==> init[n] == invs[n];
    }
  }

  ghost predicate InReleases(s: Source, releases: seq<Release>) {
    exists r :: r in releases && ReleaseKey(r) == SourceKey(s)
  }

  ghost predicate SourcesIn(a: Artifact, releases: seq<Release>) {
    forall s :: s in a.sources ==> InReleases(s, releases)
  }

  /** The sources of valid inventories are all among their releases. */
  lemma {:induction false} SourcesAreIn(invs: seq<Inventory>, a: Artifact)
    requires AllValid(invs) && a in ArtifactsOf(invs)
    ensures SourcesIn(a, ReleasesOf(invs)) && DistinctKeys(a.sources, SourcePair)
  {
    ArtifactMembers(invs, a);
    var n :| 0 <= n < |invs| && a in invs[n].artifacts;
    SourcesAreInOne(invs[n], a);
    forall s | s in a.sources ensures InReleases(s, ReleasesOf(invs)) {
      var r :| r in invs[n].releases && ReleaseKey(r) == SourceKey(s);
      ReleaseMembers(invs, r);
    }
  }

  lemma {:induction false} SourcesAreInOne(inv: Inventory, a: Artifact)
    requires Valid(inv) && a in inv.artifacts
    ensures SourcesIn(a, inv.releases) && DistinctKeys(a.sources, SourcePair)
  {
    assert SourcesOk(a, inv.releases);
    forall s | s in a.sources ensures InReleases(s, inv.releases) {
      var r :| r in inv.releases && SourceFits(a.kind, s, r);
    }
    AscendingIsDistinct(a.sources, SourcePair);
  }

  lemma {:induction false} AscendingIsDistinct<T>(s: seq<T>, key: T -> Pair)
    requires Ascending(Keys(s, key))
    ensures DistinctKeys(s, key)
  {
    var ks := Keys(s, key);
    forall i, j | 0 <= i < j < |s| ensures key(s[i]) != key(s[j]) {
      assert Less(ks[i], ks[j]);
      LessIsStrict(ks[i], ks[j]);
    }
  }

  /** Artifacts whose sources lie in releases that share no key share no source. */
  lemma {:induction false} ApartAcross(a: Artifact, b: Artifact, p: seq<Release>, q: seq<Release>)
    requires SourcesIn(a, p) && SourcesIn(b, q) && DisjointReleases(p + q)
    ensures NoneShared(a.sources, b.sources)
  {
    forall i, j | 0 <= i < |a.sources| && 0 <= j < |b.sources| ensures SourcePair(a.sources[i]) != SourcePair(b.sources[j]) {
      assert InReleases(a.sources[i], p) && InReleases(b.sources[j], q);
      var r :| r in p && ReleaseKey(r) == SourceKey(a.sources[i]);
      var t :| t in q && ReleaseKey(t) == SourceKey(b.sources[j]);
      var x :| 0 <= x < |p| && p[x] == r;
      var y :| 0 <= y < |q| && q[y] == t;
      assert (p + q)[x] == r && (p + q)[|p| + y] == t;
    }
  }

  /** So the artifacts of valid inventories with disjoint releases are apart. */
  lemma {:induction false} ArtifactsApart(invs: seq<Inventory>)
    requires AllValid(invs) && DisjointReleases(ReleasesOf(invs))
    ensures Apart(ArtifactsOf(invs))
  {
    if invs != [] {
      var init, last := invs[..|invs| - 1], invs[|invs| - 1];
      var p, q := ReleasesOf(init), last.releases;
      var x, y := ArtifactsOf(init), last.artifacts;
      DisjointPrefix(p, q);
      ArtifactsApart(init);
      AscendingIsDistinct(y, ArtifactPair);
      forall a | a in x ensures SourcesIn(a, p) { SourcesAreIn(init, a); }
      forall b | b in y ensures SourcesIn(b, q) && DistinctKeys(b.sources, SourcePair) { SourcesAreInOne(last, b); }
      ApartConcat(x, y, p, q);
    }
  }

  lemma {:induction false} DisjointPrefix(p: seq<Release>, q: seq<Release>)
    requires DisjointReleases(p + q)
    ensures DisjointReleases(p)
  {
    var all := p + q;
    assert forall i :: 0 <= i < |p| ==> all[i] == p[i];
  }

  lemma {:induction false} ApartConcat(x: seq<Artifact>, y: seq<Artifact>, p: seq<Release>, q: seq<Release>)
    requires Apart(x) && DistinctKeys(y, ArtifactPair) && DisjointReleases(p + q)
    requires forall a :: a in x ==> SourcesIn(a, p)
    requires forall b :: b in y ==> SourcesIn(b, q) && DistinctKeys(b.sources, SourcePair)
    ensures Apart(x + y)
  {
    var all := x + y;
    forall i, j | 0 <= i < j < |all| && ArtifactPair(all[i]) == ArtifactPair(all[j])
      ensures NoneShared(all[i].sources, all[j].sources)
    {
      if i < |x| <= j {
        assert all[i] in x && all[j] in y;
        ApartAcross(all[i], all[j], p, q);
      }
    }
  }

  // ---- The combined inventory ----

  function Tidied(a: Artifact): Artifact { a.(sources := SortBy(a.sources, SourcePair)) }

  ghost predicate FromTable(m: Table, a: Artifact) { exists k :: k in m && a == Tidied(m[k]) }

  /** The combined inventory: the releases sorted, the artifacts of the table in ascending
      order with their sources sorted, whatever order the table is walked in. */
  ghost predicate IsCombined(invs: seq<Inventory>, out: Inventory) {
    && invs != [] && out.schema == SCHEMA && out.source == invs[0].source && out.warnings == []
    && out.releases == SortBy(ReleasesOf(invs), ReleasePair)
    && Ascending(Keys(out.artifacts, ArtifactPair))
    && forall a :: a in out.artifacts <==> FromTable(TableOf(ArtifactsOf(invs)), a)
  }

  /** There is at most one. */
  lemma {:induction false} CombinedIsUnique(invs: seq<Inventory>, x: Inventory, y: Inventory)
    requires IsCombined(invs, x) && IsCombined(invs, y)
    ensures x == y
  {
    AscendingIsUnique(x.artifacts, y.artifacts, ArtifactPair);
  }

  lemma {:induction false} CombinedReleases(invs: seq<Inventory>, out: Inventory)
    requires IsCombined(invs, out) && AllValid(invs) && DisjointReleases(ReleasesOf(invs))
    ensures ReleasesOk(out.releases) && out.releases != []
    ensures forall r :: r in out.releases <==> exists n :: 0 <= n < |invs| && r in invs[n].releases
  {
    var all := ReleasesOf(invs);
    forall r ensures r in out.releases <==> r in all { SortMembers(all, ReleasePair, r); }
    forall r ensures r in all <==> exists n :: 0 <= n < |invs| && r in invs[n].releases { ReleaseMembers(invs, r); }
    forall r | r in all ensures r.plane in PLANES {
      var n :| 0 <= n < |invs| && r in invs[n].releases;
      assert ReleasesOk(invs[n].releases);
    }
    SortAscends(all, ReleasePair);
    assert invs[0].releases[0] in all;
  }

  /** The pairs of artifact and source are exactly those of the inputs. */
  ghost predicate HasPair(artifacts: seq<Artifact>, k: Pair, s: Source) {
    exists a :: a in artifacts && ArtifactPair(a) == k && s in a.sources
  }

  lemma {:induction false} CombinedAt(invs: seq<Inventory>, out: Inventory, k: Pair)
    requires IsCombined(invs, out) && AllValid(invs) && DisjointReleases(ReleasesOf(invs))
    ensures k in TableOf(ArtifactsOf(invs)) <==> exists a :: a in ArtifactsOf(invs) && ArtifactPair(a) == k
    ensures k in TableOf(ArtifactsOf(invs)) ==>
              var a := Tidied(TableOf(ArtifactsOf(invs))[k]);
              && a in out.artifacts && ArtifactPair(a) == k && Ascending(Keys(a.sources, SourcePair))
              && (forall s :: s in a.sources <==> HasPair(ArtifactsOf(invs), k, s))
              && exists x :: x in ArtifactsOf(invs) && a == x.(sources := a.sources)
  {
    var all := ArtifactsOf(invs);
    ArtifactsApart(invs);
    TableIs(all, k);
    if k in TableOf(all) {
      var b := TableOf(all)[k];
      assert FromTable(TableOf(all), Tidied(b));
      SortAscends(b.sources, SourcePair);
      forall s ensures s in Tidied(b).sources <==> HasPair(all, k, s) {
        SortMembers(b.sources, SourcePair, s);
        SourcesOfHolds(all, k, s);
      }
      var i :| 0 <= i < |all| && ArtifactPair(all[i]) == k && b == all[i].(sources := b.sources);
      assert all[i] in all && Tidied(b) == all[i].(sources := Tidied(b).sources);
    }
  }

  /** The combined artifacts and sources are the union of the inputs'. */
  lemma {:induction false} PairsAreUnion(invs: seq<Inventory>, out: Inventory, k: Pair, s: Source)
    requires IsCombined(invs, out) && AllValid(invs) && DisjointReleases(ReleasesOf(invs))
    ensures HasPair(out.artifacts, k, s) <==> exists n :: 0 <= n < |invs| && HasPair(invs[n].artifacts, k, s)
  {
    var all := ArtifactsOf(invs);
    if HasPair(out.artifacts, k, s) {
      var a :| a in out.artifacts && ArtifactPair(a) == k && s in a.sources;
      var j :| j in TableOf(all) && a == Tidied(TableOf(all)[j]);
      CombinedAt(invs, out, j);
      var x :| x in all && ArtifactPair(x) == k && s in x.sources;
      ArtifactMembers(invs, x);
    }
    if n :| 0 <= n < |invs| && HasPair(invs[n].artifacts, k, s) {
      var x :| x in invs[n].artifacts && ArtifactPair(x) == k && s in x.sources;
      ArtifactMembers(invs, x);
      CombinedAt(invs, out, k);
    }
  }

  // ---- Whole artifacts ----

  /** The artifact of these fields, used by this source, is listed. */
  ghost predicate Holds(artifacts: seq<Artifact>, x: Artifact, s: Source) {
    exists a :: a in artifacts && SameFields(a, x) && s in a.sources
  }

  ghost predicate SomeHolds(invs: seq<Inventory>, x: Artifact, s: Source) {
    exists n :: 0 <= n < |invs| && Holds(invs[n].artifacts, x, s)
  }

  /** The pairs of artifact, with all its fields, and source are those of the inputs. */
  ghost predicate IsUnion(invs: seq<Inventory>, out: Inventory) {
    forall x, s :: Holds(out.artifacts, x, s) <==> SomeHolds(invs, x, s)
  }

  /** No two artifacts of the inputs share type and reference but differ in a field. */
  ghost predicate FieldsAgree(artifacts: seq<Artifact>) {
    forall a, b :: a in artifacts && b in artifacts && ArtifactPair(a) == ArtifactPair(b) ==> SameFields(a, b)
  }

  lemma {:induction false} SomeHoldsIs(invs: seq<Inventory>, x: Artifact, s: Source)
    ensures SomeHolds(invs, x, s) <==> Holds(ArtifactsOf(invs), x, s)
  {
    if n :| 0 <= n < |invs| && Holds(invs[n].artifacts, x, s) {
      var a :| a in invs[n].artifacts && SameFields(a, x) && s in a.sources;
      ArtifactMembers(invs, a);
    }
    if Holds(ArtifactsOf(invs), x, s) {
      var a :| a in ArtifactsOf(invs) && SameFields(a, x) && s in a.sources;
      ArtifactMembers(invs, a);
      var n :| 0 <= n < |invs| && a in invs[n].artifacts;
      assert Holds(invs[n].artifacts, x, s);
    }
  }

  /** What the result lists under one type and reference: the fields of one input artifact. */
  lemma {:induction false} CombinedOne(invs: seq<Inventory>, out: Inventory, a: Artifact)
    requires IsCombined(invs, out) && AllValid(invs) && DisjointReleases(ReleasesOf(invs)) && a in out.artifacts
    ensures exists x :: x in ArtifactsOf(invs) && SameFields(a, x)
    ensures forall s :: s in a.sources <==> HasPair(ArtifactsOf(invs), ArtifactPair(a), s)
  {
    var k :| k in TableOf(ArtifactsOf(invs)) && a == Tidied(TableOf(ArtifactsOf(invs))[k]);
    CombinedAt(invs, out, k);
  }

  lemma {:induction false} ListedOnce(out: Inventory, a: Artifact, b: Artifact)
    requires Ascending(Keys(out.artifacts, ArtifactPair)) && a in out.artifacts && b in out.artifacts
    requires ArtifactPair(a) == ArtifactPair(b)
    ensures a == b
  {
    AscendingIsDistinct(out.artifacts, ArtifactPair);
    var i :| 0 <= i < |out.artifacts| && out.artifacts[i] == a;
    var j :| 0 <= j < |out.artifacts| && out.artifacts[j] == b;
  }

  lemma {:induction false} AgreeingHolds(invs: seq<Inventory>, out: Inventory, x: Artifact, s: Source)
    requires IsCombined(invs, out) && AllValid(invs) && DisjointReleases(ReleasesOf(invs))
    requires FieldsAgree(ArtifactsOf(invs))
    ensures Holds(out.artifacts, x, s) <==> Holds(ArtifactsOf(invs), x, s)
  {
    var all := ArtifactsOf(invs);
    if Holds(out.artifacts, x, s) {
      var a :| a in out.artifacts && SameFields(a, x) && s in a.sources;
      CombinedOne(invs, out, a);
      var y :| y in all && SameFields(a, y);
      var z :| z in all && ArtifactPair(z) == ArtifactPair(a) && s in z.sources;
      assert SameFields(y, z) && SameFields(z, x);
    }
    if Holds(all, x, s) {
      var y :| y in all && SameFields(y, x) && s in y.sources;
      CombinedAt(invs, out, ArtifactPair(y));
      var a := Tidied(TableOf(all)[ArtifactPair(y)]);
      var z :| z in all && a == z.(sources := a.sources);
      assert SameFields(y, z) && SameFields(a, x);
      assert HasPair(all, ArtifactPair(y), s);
    }
  }

  /** A union lists every input artifact with its own fields, and only one of a reference. */
  lemma {:induction false} UnionAgrees(invs: seq<Inventory>, out: Inventory, a: Artifact, b: Artifact)
    requires IsCombined(invs, out) && AllValid(invs) && IsUnion(invs, out)
    requires a in ArtifactsOf(invs) && b in ArtifactsOf(invs) && ArtifactPair(a) == ArtifactPair(b)
    ensures SameFields(a, b)
  {
    var x := ListedFor(invs, out, a);
    var y := ListedFor(invs, out, b);
    ListedOnce(out, x, y);
  }

  lemma {:induction false} ListedFor(invs: seq<Inventory>, out: Inventory, a: Artifact) returns (x: Artifact)
    requires AllValid(invs) && IsUnion(invs, out) && a in ArtifactsOf(invs)
    ensures x in out.artifacts && SameFields(x, a) && ArtifactPair(x) == ArtifactPair(a)
  {
    InputArtifactOk(invs, a);
    assert Holds(ArtifactsOf(invs), a, a.sources[0]);
    SomeHoldsIs(invs, a, a.sources[0]);
    assert Holds(out.artifacts, a, a.sources[0]);
    x :| x in out.artifacts && SameFields(x, a) && a.sources[0] in x.sources;
  }

  /** The merge keeps every pair of whole artifact and source, and adds none, exactly when no two
      input artifacts share type and reference but differ in a field. */
  lemma {:induction false} UnionIff(invs: seq<Inventory>, out: Inventory)
    requires IsCombined(invs, out) && AllValid(invs) && DisjointReleases(ReleasesOf(invs))
    ensures IsUnion(invs, out) <==> FieldsAgree(ArtifactsOf(invs))
  {
    if FieldsAgree(ArtifactsOf(invs)) {
      forall x, s ensures Holds(out.artifacts, x, s) <==> SomeHolds(invs, x, s) {
        SomeHoldsIs(invs, x, s);
        AgreeingHolds(invs, out, x, s);
      }
    }
    if IsUnion(invs, out) {
      forall a, b | a in ArtifactsOf(invs) && b in ArtifactsOf(invs) && ArtifactPair(a) == ArtifactPair(b)
        ensures SameFields(a, b)
      {
        UnionAgrees(invs, out, a, b);
      }
    }
  }

  /** So it does whenever no chart's version holds `@`. */
  lemma {:induction false} UnionWithoutAt(invs: seq<Inventory>, out: Inventory)
    requires IsCombined(invs, out) && AllValid(invs) && DisjointReleases(ReleasesOf(invs))
    requires forall a :: a in ArtifactsOf(invs) && a.kind == CHART ==> '@' !in a.version
    ensures IsUnion(invs, out)
  {
    forall a, b | a in ArtifactsOf(invs) && b in ArtifactsOf(invs) && ArtifactPair(a) == ArtifactPair(b)
      ensures SameFields(a, b)
    {
      InputArtifactOk(invs, a);
      InputArtifactOk(invs, b);
      FieldsByReference(a, b);
    }
    UnionIff(invs, out);
  }

  lemma {:induction false} InputArtifactOk(invs: seq<Inventory>, x: Artifact)
    requires AllValid(invs) && x in ArtifactsOf(invs)
    ensures ValidArtifact(x) && x.sources != []
    ensures forall s :: s in x.sources ==> SourceOk(x.kind, s, ReleasesOf(invs))
  {
    ArtifactMembers(invs, x);
    var n :| 0 <= n < |invs| && x in invs[n].artifacts;
    assert ArtifactsOk(invs[n].artifacts, invs[n].releases);
    assert SourcesOk(x, invs[n].releases);
    forall s | s in x.sources ensures SourceOk(x.kind, s, ReleasesOf(invs)) {
      var r :| r in invs[n].releases && SourceFits(x.kind, s, r);
      ReleaseMembers(invs, r);
    }
  }

  lemma {:induction false} PairSourceOk(invs: seq<Inventory>, k: Pair, s: Source)
    requires AllValid(invs) && HasPair(ArtifactsOf(invs), k, s)
    ensures SourceOk(k.fst, s, ReleasesOf(invs))
  {
    var y :| y in ArtifactsOf(invs) && ArtifactPair(y) == k && s in y.sources;
    InputArtifactOk(invs, y);
  }

  lemma {:induction false} CombinedArtifactOk(invs: seq<Inventory>, out: Inventory, a: Artifact)
    requires IsCombined(invs, out) && AllValid(invs) && DisjointReleases(ReleasesOf(invs))
    requires a in out.artifacts
    ensures ValidArtifact(a) && SourcesOk(a, out.releases)
  {
    var all := ArtifactsOf(invs);
    var k :| k in TableOf(all) && a == Tidied(TableOf(all)[k]);
    CombinedAt(invs, out, k);
    var x :| x in all && a == x.(sources := a.sources);
    InputArtifactOk(invs, x);
    SameFieldsValid(x, a);
    assert HasPair(all, k, x.sources[0]);
    assert x.sources[0] in a.sources;
    forall s | s in a.sources ensures SourceOk(a.kind, s, out.releases) {
      PairSourceOk(invs, k, s);
      var r :| r in ReleasesOf(invs) && SourceFits(a.kind, s, r);
      SortMembers(ReleasesOf(invs), ReleasePair, r);
    }
  }

  lemma {:induction false} SameFieldsValid(x: Artifact, a: Artifact)
    requires ValidArtifact(x) && a == x.(sources := a.sources)
    ensures ValidArtifact(a)
  {
  }

  lemma {:induction false} CombinedChart(invs: seq<Inventory>, out: Inventory, r: Release)
    requires IsCombined(invs, out) && AllValid(invs) && DisjointReleases(ReleasesOf(invs))
    requires r in out.releases
    ensures HasChart(out.artifacts, r)
  {
    CombinedReleases(invs, out);
    var n :| 0 <= n < |invs| && r in invs[n].releases;
    assert HasChart(invs[n].artifacts, r);
    var x, s :| x in invs[n].artifacts && IsChartOf(x, s, r);
    ArtifactMembers(invs, x);
    var k := ArtifactPair(x);
    CombinedAt(invs, out, k);
    assert HasPair(ArtifactsOf(invs), k, s);
    assert IsChartOf(Tidied(TableOf(ArtifactsOf(invs))[k]), s, r);
  }

  /** Validity is closed under the merge: the final validation cannot fail. */
  lemma {:induction false} CombinedIsValid(invs: seq<Inventory>, out: Inventory)
    requires IsCombined(invs, out) && AllValid(invs) && DisjointReleases(ReleasesOf(invs))
    ensures Valid(out)
  {
    CombinedReleases(invs, out);
    forall a | a in out.artifacts ensures ValidArtifact(a) && SourcesOk(a, out.releases) {
      CombinedArtifactOk(invs, out, a);
    }
    forall r | r in out.releases ensures HasChart(out.artifacts, r) {
      CombinedChart(invs, out, r);
    }
    var x := invs[0].artifacts[0];
    ArtifactMembers(invs, x);
    CombinedAt(invs, out, ArtifactPair(x));
  }
}
