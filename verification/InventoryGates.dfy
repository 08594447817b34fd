/** The two conflict gates: the one of the merge, which tracks the stack that first names an
    artifact, and the pairwise one of the comparison (`catalog_inventory.go`,
    `inventory_compare.go`). */
module InventoryGates {
  import opened Text
  import opened Inventory

  /** An artifact with the stack whose inventory lists it. */
  datatype Entry = Entry(stack: string, artifact: Artifact)

  /** Type and name; a valid type holds no NUL, so that the text the code joins them into is as
      good as the pair. */
  predicate SameIdentity(a: Artifact, b: Artifact) { a.kind == b.kind && a.name == b.name }

  /** Two tags of one image repository. */
  predicate HelperPair(a: Artifact, b: Artifact) {
    b.kind == IMAGE && a.repository == b.repository && a.version != "" && b.version != "" && a.version != b.version
  }

  /** The first entry with the identity of entry `i`. */
  function FirstWith(flat: seq<Entry>, i: nat, k: nat): (f: nat)
    requires k <= i < |flat|
    ensures k <= f <= i && SameIdentity(flat[f].artifact, flat[i].artifact)
    ensures forall j :: k <= j < f ==> !SameIdentity(flat[j].artifact, flat[i].artifact)
    decreases i - k
  {
    if SameIdentity(flat[k].artifact, flat[i].artifact) then k else FirstWith(flat, i, k + 1)
  }

  /** The stack that owns the identity of entry `i` when the merge gets there. */
  function OwnerOf(flat: seq<Entry>, i: nat): string
    requires i < |flat|
  {
    flat[FirstWith(flat, i, 0)].stack
  }

  predicate OwnerAllows(flat: seq<Entry>, j: nat, i: nat)
    requires j < i < |flat|
  {
    var a, b := flat[j].artifact, flat[i].artifact;
    SameIdentity(a, b) ==> a.reference == b.reference || (OwnerOf(flat, i) == flat[i].stack && HelperPair(a, b))
  }

  /** The gate of the merge: entry by entry, against all before. */
  ghost predicate OwnerGate(flat: seq<Entry>) {
    forall i, j :: 0 <= j < i < |flat| ==> OwnerAllows(flat, j, i)
  }

  /** No two entries conflict. */
  predicate Compatible(x: Entry, y: Entry) {
    SameIdentity(x.artifact, y.artifact) ==>
      x.artifact.reference == y.artifact.reference || (x.stack == y.stack && HelperPair(x.artifact, y.artifact))
  }

  ghost predicate Pairwise(flat: seq<Entry>) { forall x, y :: x in flat && y in flat ==> Compatible(x, y) }

  /** The entries of one stack stand together. */
  ghost predicate Blocks(flat: seq<Entry>) {
    forall i, j, k :: 0 <= i < j < k < |flat| && flat[i].stack == flat[k].stack ==> flat[j].stack == flat[i].stack
  }

  lemma {:induction false} CompatibleSymmetric(x: Entry, y: Entry)
    requires Compatible(x, y)
    ensures Compatible(y, x)
  {
  }

  lemma {:induction false} OwnerAllowsPair(flat: seq<Entry>, j: nat, i: nat)
    requires j < i < |flat| && Blocks(flat) && OwnerAllows(flat, j, i)
    ensures Compatible(flat[j], flat[i])
  {
    if SameIdentity(flat[j].artifact, flat[i].artifact) {
      var f := FirstWith(flat, i, 0);
      assert f <= j;
    }
  }

  lemma {:induction false} PairOwnerAllows(flat: seq<Entry>, j: nat, i: nat)
    requires j < i < |flat| && Pairwise(flat)
    ensures OwnerAllows(flat, j, i)
  {
    var f := FirstWith(flat, i, 0);
    assert flat[f] in flat && flat[j] in flat && flat[i] in flat;
    assert Compatible(flat[j], flat[i]) && Compatible(flat[f], flat[i]) && Compatible(flat[f], flat[j]);
  }

  /** Tracking the first owner decides as comparing every pair does. */
  lemma {:induction false} OwnerGateIsPairwise(flat: seq<Entry>)
    requires Blocks(flat)
    ensures OwnerGate(flat) <==> Pairwise(flat)
  {
    if OwnerGate(flat) {
      forall x, y | x in flat && y in flat ensures Compatible(x, y) {
        var i :| 0 <= i < |flat| && flat[i] == x;
        var j :| 0 <= j < |flat| && flat[j] == y;
        if i < j {
          OwnerAllowsPair(flat, i, j);
        } else if j < i {
          OwnerAllowsPair(flat, j, i);
          CompatibleSymmetric(y, x);
        }
      }
    }
    if Pairwise(flat) {
      forall i, j | 0 <= j < i < |flat| ensures OwnerAllows(flat, j, i) {
        PairOwnerAllows(flat, j, i);
      }
    }
  }

  /** Two entries that may stand together: of different type or name, with one reference, or two
      tags of one image repository in one stack. */
  ghost predicate MayStand(x: Entry, y: Entry) {
    var a, b := x.artifact, y.artifact;
    || a.kind != b.kind || a.name != b.name || a.reference == b.reference
    || (x.stack == y.stack && a.kind == "container-image" && a.repository == b.repository
        && a.version != "" && b.version != "" && a.version != b.version)
  }

  /** The gate of the merge accepts exactly the entries of which any two may stand together. */
  lemma {:induction false} GateMeans(flat: seq<Entry>)
    requires Blocks(flat)
    ensures OwnerGate(flat) <==> forall x, y :: x in flat && y in flat ==> MayStand(x, y)
  {
    OwnerGateIsPairwise(flat);
    forall x, y ensures Compatible(x, y) <==> MayStand(x, y) { }
  }

  // ---- The comparison ----

  /** `stackKeyForPlane` */
  function StackOf(plane: string): Option<string> {
    if plane == "control-plane" then Some("self-managed")
    else if plane == "compute-plane" then Some("compute-plane")
    else if plane == "observability" then Some("observability")
    else None
  }

  lemma {:induction false} PlaneStacks(plane: string, stack: string)
    ensures StackOf(plane) == Some(stack) <==>
            || (plane == "control-plane" && stack == "self-managed") || (plane == "compute-plane" && stack == "compute-plane")
            || (plane == "observability" && stack == "observability")
  {
  }

  /** What the comparison keeps of an artifact; its sorted list of stacks is a set here. */
  datatype Comparable = Comparable(kind: string, name: string, reference: string, stacks: set<string>)

  /** The stacks of the sources; none if a plane is unknown. */
  function StacksOf(sources: seq<Source>): Option<set<string>> {
    if sources == [] then Some({})
    else
      var rest := StacksOf(sources[..|sources| - 1]);
      var stack := StackOf(sources[|sources| - 1].plane);
      if rest.None? || stack.None? then None else Some(rest.value + {stack.value})
  }

  /** `comparableArtifactFromResolved`, as far as the gate looks. */
  function ComparableOf(a: Artifact): Option<Comparable> {
    var stacks := StacksOf(a.sources);
    if stacks.None? then None else Some(Comparable(a.kind, a.name, a.reference, stacks.value))
  }

  /** `distinctOwnedHelperVersions` */
  predicate DistinctOwned(l: Comparable, r: Comparable) {
    && l.kind == IMAGE && r.kind == IMAGE && |l.stacks| == 1 && |r.stacks| == 1 && l.stacks == r.stacks
    && TwoTags(ParseImage(l.reference), ParseImage(r.reference))
  }

  predicate TwoTags(x: Option<Image>, y: Option<Image>) {
    && x.Some? && y.Some? && x.value.repository == y.value.repository
    && x.value.version != "" && y.value.version != "" && x.value.version != y.value.version
  }

  predicate CompareAllows(a: Artifact, b: Artifact) {
    var l, r := ComparableOf(a), ComparableOf(b);
    l.Some? && r.Some? &&
    (SameIdentity(a, b) ==> a.reference == b.reference || DistinctOwned(l.value, r.value))
  }

  /** The gate of the comparison: artifact by artifact, against all before. */
  ghost predicate CompareGate(flat: seq<Entry>) {
    && (forall i :: 0 <= i < |flat| ==> ComparableOf(flat[i].artifact).Some?)
    && forall i, j :: 0 <= j < i < |flat| ==> CompareAllows(flat[j].artifact, flat[i].artifact)
  }

  /** An inventory with the stack it belongs to. */
  datatype Owned = Owned(stack: string, inventory: Inventory)

  /** Valid, and with releases of the stack's own plane only (`validateInventoryPlaneOwnership`). */
  ghost predicate ValidOwned(o: Owned) {
    Valid(o.inventory) && forall r :: r in o.inventory.releases ==> StackOf(r.plane) == Some(o.stack)
  }

  function Tag(stack: string, artifacts: seq<Artifact>): (out: seq<Entry>)
    ensures |out| == |artifacts| && forall i :: 0 <= i < |out| ==> out[i] == Entry(stack, artifacts[i])
  {
    seq(|artifacts|, i requires 0 <= i < |artifacts| => Entry(stack, artifacts[i]))
  }

  function Flat(os: seq<Owned>): seq<Entry> {
    if os == [] then [] else Flat(os[..|os| - 1]) + Tag(os[|os| - 1].stack, os[|os| - 1].inventory.artifacts)
  }

  ghost predicate Lists(o: Owned, e: Entry) { e.stack == o.stack && e.artifact in o.inventory.artifacts }

  lemma {:induction false} FlatMembers(os: seq<Owned>, e: Entry)
    ensures e in Flat(os) <==> exists o :: o in os && Lists(o, e)
  {
    if os != [] {
      var init, last := os[..|os| - 1], os[|os| - 1];
      FlatMembers(init, e);
      assert os == init + [last];
      var tagged := Tag(last.stack, last.inventory.artifacts);
      if e in tagged {
        var i :| 0 <= i < |tagged| && tagged[i] == e;
        assert last in os && Lists(last, e);
      }
      if Lists(last, e) {
        var i :| 0 <= i < |last.inventory.artifacts| && last.inventory.artifacts[i] == e.artifact;
        assert tagged[i] == e;
      }
    }
  }

  /** A source names its plane in full: the slash of the lookup key is not inside it. */
  predicate PlainSources(a: Artifact) { forall s :: s in a.sources ==> '/' !in s.plane }

  lemma {:induction false} KnownPlane(plane: string)
    requires StackOf(plane).Some?
    ensures plane in PLANES && '/' !in plane
  {
  }

  lemma {:induction false} StacksOfOne(sources: seq<Source>, stack: string)
    requires forall s :: s in sources && '/' !in s.plane ==> StackOf(s.plane) == Some(stack)
    ensures StacksOf(sources).Some? <==> forall s :: s in sources ==> '/' !in s.plane
    ensures StacksOf(sources).Some? && sources != [] ==> StacksOf(sources).value == {stack}
  {
    if sources != [] {
      var init, last := sources[..|sources| - 1], sources[|sources| - 1];
      assert sources == init + [last];
      StacksOfOne(init, stack);
      if StackOf(last.plane).Some? { KnownPlane(last.plane); }
    }
  }

  /** In a valid inventory of one plane, an artifact is comparable exactly when its sources are
      plain, and then its one stack is the inventory's. */
  lemma {:induction false} OwnedStacks(o: Owned, a: Artifact)
    requires ValidOwned(o) && a in o.inventory.artifacts
    ensures ComparableOf(a).Some? <==> PlainSources(a)
    ensures ComparableOf(a).Some? ==> ComparableOf(a).value.stacks == {o.stack}
  {
    assert SourcesOk(a, o.inventory.releases);
    forall s | s in a.sources && '/' !in s.plane ensures StackOf(s.plane) == Some(o.stack) {
      var r :| r in o.inventory.releases && SourceFits(a.kind, s, r);
      KnownPlane(r.plane);
      JoinedApart(r.plane, r.name, s.plane, s.release, '/');
    }
    StacksOfOne(a.sources, o.stack);
  }

  lemma {:induction false} AllowsIsCompatible(o: Owned, p: Owned, a: Artifact, b: Artifact)
    requires ValidOwned(o) && ValidOwned(p) && a in o.inventory.artifacts && b in p.inventory.artifacts
    requires PlainSources(a) && PlainSources(b)
    ensures CompareAllows(a, b) <==> Compatible(Entry(o.stack, a), Entry(p.stack, b))
  {
    OwnedStacks(o, a);
    OwnedStacks(p, b);
    assert ValidArtifact(a) && ValidArtifact(b);
    if SameIdentity(a, b) { OwnedHelpers(a, b, o.stack, p.stack); }
  }

  /** Parsing the references of valid images gives back their fields. */
  lemma {:induction false} OwnedHelpers(a: Artifact, b: Artifact, x: string, y: string)
    requires ValidArtifact(a) && ValidArtifact(b) && SameIdentity(a, b)
    ensures DistinctOwned(Comparable(a.kind, a.name, a.reference, {x}), Comparable(b.kind, b.name, b.reference, {y})) == (x == y && HelperPair(a, b))
  {
    OneStack(x, y);
    if a.kind == IMAGE {
      ImageFields(a);
      ImageFields(b);
      TagsOfImages(a, b, ParseImage(a.reference), ParseImage(b.reference));
    }
  }

  lemma {:induction false} OneStack(x: string, y: string)
    ensures ({x} == {y}) == (x == y)
  {
    assert x in {x};
  }

  lemma {:induction false} TagsOfImages(a: Artifact, b: Artifact, i: Option<Image>, j: Option<Image>)
    requires i == Some(Image(a.name, a.repository, a.version, a.digest)) && j == Some(Image(b.name, b.repository, b.version, b.digest)) && b.kind == IMAGE
    ensures TwoTags(i, j) == HelperPair(a, b)
  {
  }

  lemma {:induction false} ImageFields(a: Artifact)
    requires ValidArtifact(a) && a.kind == IMAGE
    ensures ParseImage(a.reference) == Some(Image(a.name, a.repository, a.version, a.digest))
  {
    assert CHART[0] != IMAGE[0];
  }

  ghost predicate AllOwned(os: seq<Owned>) { forall o :: o in os ==> ValidOwned(o) }

  ghost predicate AllPlain(flat: seq<Entry>) { forall e :: e in flat ==> PlainSources(e.artifact) }

  lemma {:induction false} EntryAllows(os: seq<Owned>, x: Entry, y: Entry)
    requires AllOwned(os) && x in Flat(os) && y in Flat(os) && PlainSources(x.artifact) && PlainSources(y.artifact)
    ensures CompareAllows(x.artifact, y.artifact) <==> Compatible(x, y)
  {
    FlatMembers(os, x);
    FlatMembers(os, y);
    var o :| o in os && Lists(o, x);
    var p :| p in os && Lists(p, y);
    AllowsIsCompatible(o, p, x.artifact, y.artifact);
  }

  lemma {:induction false} CompareGateIsPairwise(os: seq<Owned>)
    requires AllOwned(os)
    ensures CompareGate(Flat(os)) <==> AllPlain(Flat(os)) && Pairwise(Flat(os))
  {
    var flat := Flat(os);
    forall e | e in flat ensures ComparableOf(e.artifact).Some? <==> PlainSources(e.artifact) {
      FlatMembers(os, e);
      var o :| o in os && Lists(o, e);
      OwnedStacks(o, e.artifact);
    }
    if CompareGate(flat) {
      forall e | e in flat ensures PlainSources(e.artifact) {
        var i :| 0 <= i < |flat| && flat[i] == e;
      }
      forall x, y | x in flat && y in flat ensures Compatible(x, y) {
        var i :| 0 <= i < |flat| && flat[i] == x;
        var j :| 0 <= j < |flat| && flat[j] == y;
        if i != j {
          EntryAllows(os, x, y);
          EntryAllows(os, y, x);
          if j < i {
            assert CompareAllows(flat[j].artifact, flat[i].artifact);
            CompatibleSymmetric(y, x);
          }
        }
      }
    }
    if AllPlain(flat) && Pairwise(flat) {
      forall i, j | 0 <= j < i < |flat| ensures CompareAllows(flat[j].artifact, flat[i].artifact) {
        EntryAllows(os, flat[j], flat[i]);
      }
    }
  }

  lemma {:induction false} FlatBlocks(os: seq<Owned>)
    requires forall i, j :: 0 <= i < j < |os| ==> os[i].stack != os[j].stack
    ensures Blocks(Flat(os))
  {
    if os != [] {
      var init, last := os[..|os| - 1], os[|os| - 1];
      FlatBlocks(init);
      var x, y := Flat(init), Tag(last.stack, last.inventory.artifacts);
      forall e | e in x ensures e.stack != last.stack {
        FlatMembers(init, e);
        var o :| o in init && Lists(o, e);
        var i :| 0 <= i < |init| && init[i] == o;
        assert os[i] == o && os[|os| - 1] == last;
      }
      BlocksConcat(x, y, last.stack);
    }
  }

  lemma {:induction false} BlocksConcat(x: seq<Entry>, y: seq<Entry>, stack: string)
    requires Blocks(x) && (forall e :: e in x ==> e.stack != stack) && (forall i :: 0 <= i < |y| ==> y[i].stack == stack)
    ensures Blocks(x + y)
  {
    var all := x + y;
    forall i, j, k | 0 <= i < j < k < |all| && all[i].stack == all[k].stack ensures all[j].stack == all[i].stack {
      if i < |x| { assert all[i] in x; }
    }
  }

  /** For valid inventories of distinct stacks, the comparison accepts them in any order exactly
      when the merge accepts them and every source names its plane in full. */
  lemma {:induction false} GatesAgree(os: seq<Owned>, files: seq<Owned>)
    requires AllOwned(os) && forall i, j :: 0 <= i < j < |os| ==> os[i].stack != os[j].stack
    requires forall o :: o in files <==> o in os
    ensures CompareGate(Flat(files)) <==> OwnerGate(Flat(os)) && AllPlain(Flat(os))
  {
    FlatBlocks(os);
    OwnerGateIsPairwise(Flat(os));
    CompareGateIsPairwise(files);
    forall e ensures e in Flat(files) <==> e in Flat(os) {
      FlatMembers(os, e);
      FlatMembers(files, e);
    }
  }

  /** Without the last condition they differ: a source may name its release with the slash of
      the lookup key moved into the plane; the validator finds the release, and only the
      comparison refuses the plane. */
  lemma {:induction false} SlashedPlaneIsFound(r: Release, s: Source, x: string, y: string)
    requires r.plane == "control-plane" && r.name == x + "/" + y
    requires s.plane == r.plane + "/" + x && s.release == y && s.requirement == ""
    ensures SourceFits(IMAGE, s, r) && StacksOf([s]) == None
  {
    assert ReleaseKey(r) == SourceKey(s);
    assert '/' in s.plane by { assert s.plane[|r.plane|] == '/'; }
    if StackOf(s.plane).Some? { KnownPlane(s.plane); }
    assert [s][..0] == [];
  }

  // ---- The comparison, on the artifacts alone ----

  ghost predicate KnownPlanes(sources: seq<Source>) {
    forall s :: s in sources ==> s.plane in {"control-plane", "compute-plane", "observability"}
  }

  /** All sources are of one plane. */
  ghost predicate OfPlane(sources: seq<Source>, plane: string) { sources != [] && forall s :: s in sources ==> s.plane == plane }

  lemma {:induction false} StacksIff(sources: seq<Source>)
    ensures StacksOf(sources).Some? <==> KnownPlanes(sources)
    ensures forall plane :: StackOf(plane).Some? && StacksOf(sources).Some? ==>
              (StacksOf(sources).value == {StackOf(plane).value} <==> OfPlane(sources, plane))
    ensures StacksOf(sources).Some? && sources != [] ==> StackOf(sources[0].plane).Some? && StackOf(sources[0].plane).value in StacksOf(sources).value
    ensures StacksOf(sources).Some? && sources == [] ==> StacksOf(sources).value == {}
  {
    if sources != [] {
      var init, last := sources[..|sources| - 1], sources[|sources| - 1];
      assert sources == init + [last];
      StacksIff(init);
      forall plane | StackOf(plane).Some? && StacksOf(sources).Some?
        ensures StacksOf(sources).value == {StackOf(plane).value} <==> OfPlane(sources, plane)
      {
        OneMoreStack(init, last, plane);
      }
    }
  }

  lemma {:induction false} OneMoreStack(init: seq<Source>, last: Source, plane: string)
    requires StackOf(plane).Some? && StacksOf(init).Some? && StackOf(last.plane).Some?
    requires StacksOf(init).value == {StackOf(plane).value} <==> OfPlane(init, plane)
    requires init == [] ==> StacksOf(init).value == {}
    requires init != [] ==> StackOf(init[0].plane).Some? && StackOf(init[0].plane).value in StacksOf(init).value
    ensures StacksOf(init).value + {StackOf(last.plane).value} == {StackOf(plane).value} <==> OfPlane(init + [last], plane)
  {
    var all, x, y := init + [last], StackOf(plane).value, StackOf(last.plane).value;
    var stacks := StacksOf(init).value;
    assert last in all && forall s :: s in init ==> s in all;
    assert y in stacks + {y};
    assert x == y <==> plane == last.plane;
    if init != [] {
      var z := StackOf(init[0].plane).value;
      assert z in stacks + {y};
      if stacks + {y} == {x} { assert forall w :: w in stacks ==> w in stacks + {y}; assert stacks == {x}; }
    }
  }

  /** Two artifacts that the comparison lets stand together: of different type or name, with one
      reference, or two tags of one image repository that one plane alone uses. */
  ghost predicate MayCompare(a: Artifact, b: Artifact) {
    || a.kind != b.kind || a.name != b.name || a.reference == b.reference
    || (&& a.kind == "container-image" && a.repository == b.repository && a.version != "" && b.version != "" && a.version != b.version
        && exists plane :: StackOf(plane).Some? && OfPlane(a.sources, plane) && OfPlane(b.sources, plane))
  }

  lemma {:induction false} OneStackIff(a: seq<Source>, b: seq<Source>)
    requires StacksOf(a).Some? && StacksOf(b).Some?
    ensures (|StacksOf(a).value| == 1 && |StacksOf(b).value| == 1 && StacksOf(a).value == StacksOf(b).value) <==>
            exists plane :: StackOf(plane).Some? && OfPlane(a, plane) && OfPlane(b, plane)
  {
    StacksIff(a);
    StacksIff(b);
    var x, y := StacksOf(a).value, StacksOf(b).value;
    if |x| == 1 && x == y {
      var plane := a[0].plane;
      var stack := StackOf(plane).value;
      SingletonIs(x, stack);
      assert OfPlane(a, plane) && OfPlane(b, plane);
    }
  }

  lemma {:induction false} SingletonIs(x: set<string>, e: string)
    requires |x| == 1 && e in x
    ensures x == {e}
  {
    assert |x - {e}| == 0;
  }

  lemma {:induction false} AllowsIff(a: Artifact, b: Artifact)
    requires ValidArtifact(a) && ValidArtifact(b)
    ensures CompareAllows(a, b) <==> KnownPlanes(a.sources) && KnownPlanes(b.sources) && MayCompare(a, b)
  {
    StacksIff(a.sources);
    StacksIff(b.sources);
    if KnownPlanes(a.sources) && KnownPlanes(b.sources) {
      OneStackIff(a.sources, b.sources);
      if SameIdentity(a, b) && a.kind == IMAGE {
        ImageFields(a);
        ImageFields(b);
        TagsOfImages(a, b, ParseImage(a.reference), ParseImage(b.reference));
      }
    }
  }

  /** The comparison accepts any valid artifacts, of whatever stacks, exactly when every source is
      of a known plane and any two of them may stand together. */
  lemma {:induction false} CompareGateMeans(flat: seq<Entry>)
    requires forall i :: 0 <= i < |flat| ==> ValidArtifact(flat[i].artifact)
    ensures CompareGate(flat) <==>
            && (forall i :: 0 <= i < |flat| ==> KnownPlanes(flat[i].artifact.sources))
            && forall i, j :: 0 <= j < i < |flat| ==> MayCompare(flat[j].artifact, flat[i].artifact)
  {
    forall i | 0 <= i < |flat| ensures ComparableOf(flat[i].artifact).Some? <==> KnownPlanes(flat[i].artifact.sources) { StacksIff(flat[i].artifact.sources); }
    forall i, j | 0 <= j < i < |flat|
      ensures CompareAllows(flat[j].artifact, flat[i].artifact) <==>
              KnownPlanes(flat[j].artifact.sources) && KnownPlanes(flat[i].artifact.sources) && MayCompare(flat[j].artifact, flat[i].artifact)
    {
      AllowsIff(flat[j].artifact, flat[i].artifact);
    }
  }
}
