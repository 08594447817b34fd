/** Documentation editions: the catalog fields that edition checks read. */
module Editions {
  import opened Text
  import opened Versions

  const QUALIFIED := "qualified"

  /** The three stacks, in the order every check visits them. */
  const STACK_NAMES: seq<string> := ["control-plane", "compute-plane", "observability"]

  datatype DocsEdition = DocsEdition(
    version: string, status: string, previousVersion: string, change: string, qualification: string)

  datatype StackRelease = StackRelease(
    version: string, sourceTag: string, sourceCommit: string, inventoryAsset: string)

  datatype Catalog = Catalog(
    docsEdition: Option<DocsEdition>, umbrellaManifestSHA256: string,
    controlPlane: StackRelease, computePlane: StackRelease, observability: StackRelease)
  {
    /** `ReleaseSetStacks.byName`, for the three known names. */
    function Stack(name: string): StackRelease {
      if name == "control-plane" then controlPlane
      else if name == "compute-plane" then computePlane
      else observability
    }
  }

  /** One stack's part of `validateEditionTransition`. */
  function StackTransition(older: string, newer: string, change: string): (r: Outcome)
  {
    if !ValidBare(older) || !ValidBare(newer) then Panic  // compareVersions indexes a nil match
    else
      var o, n := Split(older, '.'), Split(newer, '.');
      if CompareVersions(newer, older) < 0 then Reject
      else if n[0] != o[0] && change != "major" then Reject
      else if n[0] == o[0] && n[1] != o[1] && change == "patch" then Reject
      else Accept
  }

  /** The first stack that does not pass decides. */
  function StackTransitions(previous: Catalog, current: Catalog, change: string, names: seq<string>): (r: Outcome)
    ensures r == Accept <==>
            forall i :: 0 <= i < |names| ==>
              StackTransition(previous.Stack(names[i]).version, current.Stack(names[i]).version, change) == Accept
  {
    if names == [] then Accept
    else
      var r := StackTransition(previous.Stack(names[0]).version, current.Stack(names[0]).version, change);
      if r != Accept then
        assert 0 < |names|;
        r
      else
        var rest := StackTransitions(previous, current, change, names[1..]);
        assert forall i :: 0 <= i < |names[1..]| ==> names[1..][i] == names[i + 1];
        assert forall i :: 0 < i < |names| ==> names[i] == names[1..][i - 1];
        rest
  }

  /** `validateEditionTransition` */
  function EditionTransition(previous: Option<Catalog>, current: Catalog): (r: Outcome)
  {
    if current.docsEdition.None? then Panic
    else
      var edition := current.docsEdition.value;
      if previous.None? then EditionBump("", edition.version, edition.change)
      else if previous.value.docsEdition.None? then Reject
      else
        var before := previous.value.docsEdition.value;
        if edition.previousVersion != before.version then Reject
        else
          var bump := EditionBump(before.version, edition.version, edition.change);
          if bump != Accept then bump
          else StackTransitions(previous.value, current, edition.change, STACK_NAMES)
  }

  /** What an accepted step does to one stack's version, on values. */
  lemma {:induction false} AcceptedStackStep(older: string, newer: string, change: string)
    requires StackTransition(older, newer, change) == Accept
    ensures ValidBare(older) && ValidBare(newer)
    ensures newer == older || CoreLess(BareCore(older), BareCore(newer))
    ensures change != "major" ==> BareCore(newer).major == BareCore(older).major
    ensures change == "patch" ==> BareCore(newer).minor == BareCore(older).minor
  {
    CompareVersionsByCore(newer, older);
    CompareVersionsByCore(older, newer);
    NumericIdentifierByValue(Split(newer, '.')[0], Split(older, '.')[0]);
    NumericIdentifierByValue(Split(newer, '.')[1], Split(older, '.')[1]);
    if change != "major" { assert Split(newer, '.')[0] == Split(older, '.')[0]; }
    CoreTrichotomy(BareCore(newer), BareCore(older));
    BareIsPrinted(older);
    BareIsPrinted(newer);
  }

  /** A stack may take this step: not down, its major only in a major release, its minor not in a
      patch. */
  ghost predicate MayFollow(o: Core, n: Core, change: string) {
    && !CoreLess(n, o)
    && (n.major == o.major || change == "major")
    && (n.major == o.major && n.minor != o.minor ==> change != "patch")
  }

  /** The stack check accepts exactly these steps, and panics exactly on versions that are not
      bare. */
  lemma {:induction false} StackAcceptsIff(older: string, newer: string, change: string)
    ensures StackTransition(older, newer, change) == Accept <==>
            ValidBare(older) && ValidBare(newer) && MayFollow(BareCore(older), BareCore(newer), change)
    ensures StackTransition(older, newer, change) == Panic <==> !ValidBare(older) || !ValidBare(newer)
  {
    if ValidBare(older) && ValidBare(newer) {
      CompareVersionsByCore(newer, older);
      NumericIdentifierByValue(Split(newer, '.')[0], Split(older, '.')[0]);
      NumericIdentifierByValue(Split(newer, '.')[1], Split(older, '.')[1]);
    }
  }

  ghost predicate StackMayFollow(o: StackRelease, n: StackRelease, change: string) {
    ValidBare(o.version) && ValidBare(n.version) && MayFollow(BareCore(o.version), BareCore(n.version), change)
  }

  /** An edition is accepted after another exactly when it names it, its version may follow, and
      so may each of the three stacks. */
  lemma {:induction false} EditionAcceptsIff(p: Catalog, c: Catalog)
    requires c.docsEdition.Some?
    ensures EditionTransition(Some(p), c) == Accept <==>
            && p.docsEdition.Some?
            && (var before, edition := p.docsEdition.value, c.docsEdition.value;
                && edition.previousVersion == before.version
                && EditionBump(before.version, edition.version, edition.change) == Accept
                && StackMayFollow(p.controlPlane, c.controlPlane, edition.change)
                && StackMayFollow(p.computePlane, c.computePlane, edition.change)
                && StackMayFollow(p.observability, c.observability, edition.change))
    ensures EditionTransition(None, c) == Accept <==> ValidStable(c.docsEdition.value.version) && c.docsEdition.value.change == "initial"
  {
    var change := c.docsEdition.value.change;
    StackAcceptsIff(p.controlPlane.version, c.controlPlane.version, change);
    StackAcceptsIff(p.computePlane.version, c.computePlane.version, change);
    StackAcceptsIff(p.observability.version, c.observability.version, change);
    ThreeStacks(p, c, change);
  }

  lemma {:induction false} ThreeStacks(p: Catalog, c: Catalog, change: string)
    ensures StackTransitions(p, c, change, STACK_NAMES) == Accept <==>
            && StackTransition(p.controlPlane.version, c.controlPlane.version, change) == Accept
            && StackTransition(p.computePlane.version, c.computePlane.version, change) == Accept
            && StackTransition(p.observability.version, c.observability.version, change) == Accept
  {
    assert STACK_NAMES[0] == "control-plane" && STACK_NAMES[1] == "compute-plane" && STACK_NAMES[2] == "observability";
    assert |STACK_NAMES| == 3;
  }

  lemma {:induction false} CoreTrichotomy(a: Core, b: Core)
    ensures CoreLess(a, b) || a == b || CoreLess(b, a)
  {
  }
}

/** Umbrella releases: `umbrella_manifest.go`, and what a whole chain of them promises. */
module Umbrella {
  import opened Text
  import opened Versions
  import opened Editions

  datatype UmbrellaStack = UmbrellaStack(
    version: string, sourceTag: string, sourceCommit: string,
    inventoryAsset: string, inventorySHA256: string, compatibleWith: map<string, string>)

  datatype StackSource = StackSource(version: string, tag: string, commit: string)

  function Source(s: UmbrellaStack): StackSource { StackSource(s.version, s.sourceTag, s.sourceCommit) }

  datatype Manifest = Manifest(
    version: string, previousVersion: string, change: string, status: string, qualification: string,
    stacks: map<string, UmbrellaStack>)
  {
    /** A Go map read: the zero value for a missing stack. */
    function Stack(name: string): UmbrellaStack {
      if name in stacks then stacks[name] else UmbrellaStack("", "", "", "", "", map[])
    }

    function StackMetadata(name: string): StackRelease {
      var s := Stack(name);
      StackRelease(s.version, s.sourceTag, s.sourceCommit, s.inventoryAsset)
    }

    function Edition(): DocsEdition { DocsEdition(version, status, previousVersion, change, qualification) }

    /** `umbrellaManifest.catalog` */
    function ToCatalog(): Catalog {
      Catalog(Some(Edition()), "", StackMetadata("control-plane"), StackMetadata("compute-plane"),
              StackMetadata("observability"))
    }
  }

  /** A stack version that stays the same must keep its source and inventory. */
  predicate KeepsImmutable(previous: Manifest, current: Manifest, name: string) {
    var o, n := previous.Stack(name), current.Stack(name);
    o.version == n.version ==> Source(o) == Source(n) && o.inventorySHA256 == n.inventorySHA256
  }

  /** `validateUmbrellaTransition` */
  function UmbrellaTransition(previous: Option<Manifest>, current: Manifest): (r: Outcome)
  {
    if previous.None? then
      if current.previousVersion != "" then Reject else EditionTransition(None, current.ToCatalog())
    else if previous.value.status != QUALIFIED then Reject
    else
      var r := EditionTransition(Some(previous.value.ToCatalog()), current.ToCatalog());
      if r != Accept then r
      else if forall i :: 0 <= i < |STACK_NAMES| ==> KeepsImmutable(previous.value, current, STACK_NAMES[i]) then Accept
      else Reject
  }

  /** A stack of a release may follow that of another: its version may, and if it stays, so do its
      tag, its commit and its inventory's digest. */
  ghost predicate PinMayFollow(o: UmbrellaStack, n: UmbrellaStack, change: string) {
    && ValidBare(o.version) && ValidBare(n.version) && MayFollow(BareCore(o.version), BareCore(n.version), change)
    && (n.version == o.version ==>
          n.sourceTag == o.sourceTag && n.sourceCommit == o.sourceCommit && n.inventorySHA256 == o.inventorySHA256)
  }

  /** A release is accepted after another exactly when that one is qualified and named by it, its
      version may follow, and so may each of the three stacks. The first release is accepted
      exactly when it names none and declares `initial`. */
  lemma {:induction false} UmbrellaAcceptsIff(p: Manifest, c: Manifest)
    ensures UmbrellaTransition(Some(p), c) == Accept <==>
            && p.status == "qualified" && c.previousVersion == p.version
            && EditionBump(p.version, c.version, c.change) == Accept
            && PinMayFollow(p.Stack("control-plane"), c.Stack("control-plane"), c.change)
            && PinMayFollow(p.Stack("compute-plane"), c.Stack("compute-plane"), c.change)
            && PinMayFollow(p.Stack("observability"), c.Stack("observability"), c.change)
    ensures UmbrellaTransition(None, c) == Accept <==> c.previousVersion == "" && ValidStable(c.version) && c.change == "initial"
  {
    EditionAcceptsIff(p.ToCatalog(), c.ToCatalog());
    ThreeKept(p, c);
  }

  lemma {:induction false} ThreeKept(p: Manifest, c: Manifest)
    ensures (forall i :: 0 <= i < |STACK_NAMES| ==> KeepsImmutable(p, c, STACK_NAMES[i])) <==>
            KeepsImmutable(p, c, "control-plane") && KeepsImmutable(p, c, "compute-plane") && KeepsImmutable(p, c, "observability")
  {
    assert STACK_NAMES[0] == "control-plane" && STACK_NAMES[1] == "compute-plane" && STACK_NAMES[2] == "observability";
    assert |STACK_NAMES| == 3;
  }

  /** A release history in which every step was accepted against its neighbour. */
  ghost predicate AcceptedChain(chain: seq<Manifest>) {
    forall i :: 0 <= i < |chain| ==> AcceptedLink(chain, i)
  }

  ghost predicate AcceptedLink(chain: seq<Manifest>, i: nat)
    requires i < |chain|
  {
    UmbrellaTransition(if i == 0 then None else Some(chain[i - 1]), chain[i]) == Accept
  }

  lemma {:induction false} AcceptedVersionIsStable(previous: Option<Manifest>, current: Manifest)
    requires UmbrellaTransition(previous, current) == Accept
    ensures ValidStable(current.version)
  {
  }

  /** One accepted step, on values. */
  lemma {:induction false} AcceptedStep(previous: Manifest, current: Manifest, name: string)
    requires ValidStable(previous.version)
    requires UmbrellaTransition(Some(previous), current) == Accept && name in STACK_NAMES
    ensures ValidStable(current.version) && ChangeIndex(current.change).Some?
    ensures StableCore(current.version) == Successor(StableCore(previous.version), current.change)
    ensures StackTransition(previous.Stack(name).version, current.Stack(name).version, current.change) == Accept
    ensures KeepsImmutable(previous, current, name)
  {
    var p, c := previous.ToCatalog(), current.ToCatalog();
    assert EditionTransition(Some(p), c) == Accept;
    assert EditionBump(previous.version, current.version, current.change) == Accept;
    assert previous.version != "";
    AcceptedBumpIsSuccessor(previous.version, current.version, current.change);
    var i :| 0 <= i < |STACK_NAMES| && STACK_NAMES[i] == name;
    assert p.Stack(name) == previous.StackMetadata(name) && c.Stack(name) == current.StackMetadata(name);
  }

  /** A release and one of its stacks, read as numbers. */
  datatype Point = Point(release: Core, change: string, stack: Core, pin: UmbrellaStack)

  ghost function PointOf(m: Manifest, name: string): Point {
    var s := m.Stack(name);
    Point(if ValidStable(m.version) then StableCore(m.version) else Core(0, 0, 0), m.change,
          if ValidBare(s.version) then BareCore(s.version) else Core(0, 0, 0), s)
  }

  ghost predicate SamePin(a: UmbrellaStack, b: UmbrellaStack) {
    Source(a) == Source(b) && a.inventorySHA256 == b.inventorySHA256
  }

  /** What one accepted step leaves of a stack and its release. */
  ghost predicate PointStep(a: Point, b: Point) {
    && ChangeIndex(b.change).Some?
    && b.release == Successor(a.release, b.change)
    && (a.stack == b.stack || CoreLess(a.stack, b.stack))
    && (a.stack == b.stack ==> SamePin(a.pin, b.pin))
    && (b.change != "major" ==> a.stack.major == b.stack.major)
    && (b.change == "patch" ==> a.stack.minor == b.stack.minor)
  }

  lemma {:induction false} StepOfPoints(chain: seq<Manifest>, k: nat, name: string)
    requires AcceptedChain(chain) && 0 < k < |chain| && name in STACK_NAMES
    ensures ValidStable(chain[k - 1].version) && ValidStable(chain[k].version)
    ensures ValidBare(chain[k - 1].Stack(name).version) && ValidBare(chain[k].Stack(name).version)
    ensures PointStep(PointOf(chain[k - 1], name), PointOf(chain[k], name))
  {
    assert AcceptedLink(chain, k - 1);
    AcceptedVersionIsStable(if k == 1 then None else Some(chain[k - 2]), chain[k - 1]);
    assert AcceptedLink(chain, k);
    StepOfManifests(chain[k - 1], chain[k], name);
  }

  lemma {:induction false} StepOfManifests(p: Manifest, c: Manifest, name: string)
    requires ValidStable(p.version) && UmbrellaTransition(Some(p), c) == Accept && name in STACK_NAMES
    ensures ValidStable(c.version) && ValidBare(p.Stack(name).version) && ValidBare(c.Stack(name).version)
    ensures PointStep(PointOf(p, name), PointOf(c, name))
  {
    AcceptedStep(p, c, name);
    AcceptedStackStep(p.Stack(name).version, c.Stack(name).version, c.change);
    BareIsPrinted(p.Stack(name).version);
    BareIsPrinted(c.Stack(name).version);
  }

  /** The comparison of any two points of a path of accepted steps. */
  lemma {:induction false} FarPoints(points: seq<Point>, i: nat, j: nat)
    requires i < j < |points| && forall k :: 0 < k < |points| ==> PointStep(points[k - 1], points[k])
    ensures CoreLess(points[i].release, points[j].release)
    ensures points[i].stack == points[j].stack || CoreLess(points[i].stack, points[j].stack)
    ensures points[i].stack == points[j].stack ==> SamePin(points[i].pin, points[j].pin)
    ensures points[i].release.major == points[j].release.major ==> points[i].stack.major == points[j].stack.major
    ensures points[i].release.major == points[j].release.major && points[i].release.minor == points[j].release.minor ==>
              points[i].stack.minor == points[j].stack.minor
    decreases j
  {
    assert PointStep(points[j - 1], points[j]);
    if i < j - 1 { FarPoints(points, i, j - 1); }
  }

  /** The points of an accepted chain form such a path. */
  lemma {:induction false} ChainPoints(chain: seq<Manifest>, name: string, i: nat, j: nat) returns (points: seq<Point>)
    requires AcceptedChain(chain) && i < j < |chain| && name in STACK_NAMES
    ensures |points| == |chain|
    ensures forall k :: 0 < k < |points| ==> PointStep(points[k - 1], points[k])
    ensures points[i] == PointOf(chain[i], name) && points[j] == PointOf(chain[j], name)
    ensures ValidStable(chain[i].version) && ValidStable(chain[j].version)
    ensures ValidBare(chain[i].Stack(name).version) && ValidBare(chain[j].Stack(name).version)
  {
    points := seq(|chain|, k requires 0 <= k < |chain| => PointOf(chain[k], name));
    forall k | 0 < k < |points| ensures PointStep(points[k - 1], points[k]) {
      StepOfPoints(chain, k, name);
    }
    StepOfPoints(chain, i + 1, name);
    StepOfPoints(chain, j, name);
  }

  /** Between any two releases of a chain the release version strictly increases and no
      stack regresses. */
  lemma {:induction false} ChainIncreases(chain: seq<Manifest>, i: nat, j: nat, name: string)
    requires AcceptedChain(chain) && i < j < |chain| && name in STACK_NAMES
    ensures ValidStable(chain[i].version) && ValidStable(chain[j].version)
    ensures CoreLess(StableCore(chain[i].version), StableCore(chain[j].version))
    ensures ValidBare(chain[i].Stack(name).version) && ValidBare(chain[j].Stack(name).version)
    ensures CompareVersions(chain[i].Stack(name).version, chain[j].Stack(name).version) <= 0
  {
    var points := ChainPoints(chain, name, i, j);
    FarPoints(points, i, j);
    var a, b := chain[i].Stack(name).version, chain[j].Stack(name).version;
    CompareVersionsByCore(a, b);
    BareIsPrinted(a);
    BareIsPrinted(b);
  }

  /** Any two releases of a chain, neighbours or not, that select the same version of a
      stack select the same source tag, commit and inventory digest. */
  lemma {:induction false} SameVersionSameSource(chain: seq<Manifest>, i: nat, j: nat, name: string)
    requires AcceptedChain(chain) && i <= j < |chain| && name in STACK_NAMES
    requires chain[i].Stack(name).version == chain[j].Stack(name).version
    ensures Source(chain[i].Stack(name)) == Source(chain[j].Stack(name))
    ensures chain[i].Stack(name).inventorySHA256 == chain[j].Stack(name).inventorySHA256
  {
    if i < j {
      var points := ChainPoints(chain, name, i, j);
      FarPoints(points, i, j);
    }
  }

  /** The SemVer promise of a whole chain: releases that share a major version hold the
      same major of every stack, and releases that also share a minor version hold the same
      minor of every stack. */
  lemma {:induction false} SharedReleaseSharesStacks(chain: seq<Manifest>, i: nat, j: nat, name: string)
    requires AcceptedChain(chain) && i < j < |chain| && name in STACK_NAMES
    ensures ValidStable(chain[i].version) && ValidStable(chain[j].version)
    ensures ValidBare(chain[i].Stack(name).version) && ValidBare(chain[j].Stack(name).version)
    ensures var r, r' := StableCore(chain[i].version), StableCore(chain[j].version);
            var s, s' := BareCore(chain[i].Stack(name).version), BareCore(chain[j].Stack(name).version);
            && (r.major == r'.major ==> s.major == s'.major)
            && (r.major == r'.major && r.minor == r'.minor ==> s.minor == s'.minor)
  {
    var points := ChainPoints(chain, name, i, j);
    FarPoints(points, i, j);
  }
}
