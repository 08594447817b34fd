/** Publication bookkeeping of a catalog: retain, mark, reconcile (`catalog_inventory.go`,
    `catalog.go`). */
module Publications {
  import opened Sorting
  import opened CatalogIds

  datatype Publication = Publication(name: string, kind: string, version: string, registry: string)

  /** `publicationIdentityKey` */
  function IdentityKey(name: string, kind: string, version: string): string { name + ":" + kind + ":" + version }

  function ArtifactIdentity(a: Artifact): string { IdentityKey(a.name, a.kind, a.version) }

  predicate Matches(p: Publication, a: Artifact) { p.name == a.name && p.kind == a.kind && p.version == a.version }

  /** `publicationFor` finds one. */
  predicate Published(publications: seq<Publication>, a: Artifact) {
    exists i :: 0 <= i < |publications| && Matches(publications[i], a)
  }

  /** Neither published nor taken from upstream. */
  predicate Unpublished(publications: seq<Publication>, a: Artifact) { !Published(publications, a) && a.upstream == "" }

  // ---- Retain ----

  /** Whether the last artifact of each identity is the catalog's own. */
  function Current(artifacts: seq<Artifact>): map<string, bool> {
    if artifacts == [] then map[]
    else
      var last := artifacts[|artifacts| - 1];
      Current(artifacts[..|artifacts| - 1])[ArtifactIdentity(last) := last.upstream == ""]
  }

  predicate Retained(artifacts: seq<Artifact>, registries: set<string>, p: Publication) {
    var key := IdentityKey(p.name, p.kind, p.version);
    key in Current(artifacts) && Current(artifacts)[key] && p.registry in registries
  }

  function Retain(artifacts: seq<Artifact>, registries: set<string>, publications: seq<Publication>): (out: seq<Publication>) {
    if publications == [] then []
    else
      var init, last := publications[..|publications| - 1], publications[|publications| - 1];
      Retain(artifacts, registries, init) + if Retained(artifacts, registries, last) then [last] else []
  }

  lemma {:induction false} RetainHolds(artifacts: seq<Artifact>, registries: set<string>, publications: seq<Publication>, p: Publication)
    ensures p in Retain(artifacts, registries, publications) <==> p in publications && Retained(artifacts, registries, p)
  {
    if publications != [] {
      var init := publications[..|publications| - 1];
      RetainHolds(artifacts, registries, init, p);
      assert publications == init + [publications[|publications| - 1]];
    }
  }

  lemma {:induction false} RetainTwice(artifacts: seq<Artifact>, registries: set<string>, publications: seq<Publication>)
    requires forall p :: p in publications ==> Retained(artifacts, registries, p)
    ensures Retain(artifacts, registries, publications) == publications
  {
    if publications != [] {
      var init, last := publications[..|publications| - 1], publications[|publications| - 1];
      assert publications == init + [last];
      RetainTwice(artifacts, registries, init);
    }
  }

  /** The last artifact of an identity. */
  ghost predicate IsCurrent(artifacts: seq<Artifact>, i: nat, key: string) {
    && i < |artifacts| && artifacts[i].name + ":" + artifacts[i].kind + ":" + artifacts[i].version == key
    && forall j :: i < j < |artifacts| ==> artifacts[j].name + ":" + artifacts[j].kind + ":" + artifacts[j].version != key
  }

  lemma {:induction false} CurrentIff(artifacts: seq<Artifact>, key: string)
    ensures key in Current(artifacts) && Current(artifacts)[key] <==> exists i: nat :: IsCurrent(artifacts, i, key) && artifacts[i].upstream == ""
  {
    if artifacts != [] {
      var init, n := artifacts[..|artifacts| - 1], |artifacts| - 1;
      CurrentIff(init, key);
      assert forall j :: 0 <= j < n ==> init[j] == artifacts[j];
      if ArtifactIdentity(artifacts[n]) == key {
        assert IsCurrent(artifacts, n, key);
        forall i: nat | IsCurrent(artifacts, i, key) ensures i == n { }
      } else {
        forall i: nat ensures IsCurrent(artifacts, i, key) <==> IsCurrent(init, i, key) { }
      }
    }
  }

  /** A publication is retained exactly when the last artifact of its identity is the catalog's
      own and its registry is defined and public. */
  lemma {:induction false} RetainedIff(artifacts: seq<Artifact>, registries: set<string>, p: Publication)
    ensures Retained(artifacts, registries, p) <==>
            && p.registry in registries
            && exists i: nat :: IsCurrent(artifacts, i, p.name + ":" + p.kind + ":" + p.version) && artifacts[i].upstream == ""
  {
    CurrentIff(artifacts, p.name + ":" + p.kind + ":" + p.version);
  }

  /** Each publication is retained or dropped by itself, in its place. */
  lemma {:induction false} RetainInOrder(artifacts: seq<Artifact>, registries: set<string>, x: seq<Publication>, y: seq<Publication>)
    ensures Retain(artifacts, registries, x + y) == Retain(artifacts, registries, x) + Retain(artifacts, registries, y)
  {
    if y == [] {
      assert x + y == x;
    } else {
      var n := |y| - 1;
      RetainInOrder(artifacts, registries, x, y[..n]);
      assert (x + y)[..|x + y| - 1] == x + y[..n];
    }
  }

  lemma {:induction false} RetainOne(artifacts: seq<Artifact>, registries: set<string>, p: Publication)
    ensures Retain(artifacts, registries, [p]) == if Retained(artifacts, registries, p) then [p] else []
  {
    assert [p][..0] == [];
  }

  // ---- Mark and reconcile ----

  /** The keys of the unpublished artifacts, in order. */
  function Marks(artifacts: seq<Artifact>, publications: seq<Publication>): (keys: seq<string>) {
    if artifacts == [] then []
    else
      var init, last := artifacts[..|artifacts| - 1], artifacts[|artifacts| - 1];
      Marks(init, publications) + if Unpublished(publications, last) then [CatalogKey(last)] else []
  }

  ghost predicate HasPendingKey(artifacts: seq<Artifact>, publications: seq<Publication>, key: string) {
    exists a :: a in artifacts && Unpublished(publications, a) && CatalogKey(a) == key
  }

  lemma {:induction false} MarksHold(artifacts: seq<Artifact>, publications: seq<Publication>, key: string)
    ensures key in Marks(artifacts, publications) <==> HasPendingKey(artifacts, publications, key)
  {
    if artifacts != [] {
      var init, last := artifacts[..|artifacts| - 1], artifacts[|artifacts| - 1];
      MarksHold(init, publications, key);
      assert artifacts == init + [last];
      assert last in artifacts;
    }
  }

  /** Each artifact is marked or not by itself, in its place. */
  lemma {:induction false} MarksInOrder(publications: seq<Publication>, x: seq<Artifact>, y: seq<Artifact>)
    ensures Marks(x + y, publications) == Marks(x, publications) + Marks(y, publications)
  {
    if y == [] {
      assert x + y == x;
    } else {
      var n := |y| - 1;
      MarksInOrder(publications, x, y[..n]);
      assert (x + y)[..|x + y| - 1] == x + y[..n];
    }
  }

  lemma {:induction false} MarksOne(publications: seq<Publication>, a: Artifact)
    ensures Marks([a], publications) == if Unpublished(publications, a) then [CatalogKey(a)] else []
  {
    assert [a][..0] == [];
  }

  /** The keys of the unpublished artifacts that some marker names, by key or by name. */
  function Confirmed(artifacts: seq<Artifact>, publications: seq<Publication>, markers: seq<string>): (keys: set<string>)
  {
    set i | 0 <= i < |artifacts| && Unpublished(publications, artifacts[i])
            && (CatalogKey(artifacts[i]) in markers || artifacts[i].name in markers) :: CatalogKey(artifacts[i])
  }

  /** A key is confirmed exactly when it is that of an artifact, by ID or else by name, that is
      neither from upstream nor published, and a marker is its key or its name. */
  lemma {:induction false} ConfirmedIff(artifacts: seq<Artifact>, publications: seq<Publication>, markers: seq<string>, key: string)
    ensures key in Confirmed(artifacts, publications, markers) <==>
            exists a :: a in artifacts && (key in markers || a.name in markers) && key == (if a.id != "" then a.id else a.name)
                        && a.upstream == "" && forall p :: p in publications ==> p.name != a.name || p.kind != a.kind || p.version != a.version
  {
    forall a ensures Unpublished(publications, a) <==>
                     a.upstream == "" && forall p :: p in publications ==> p.name != a.name || p.kind != a.kind || p.version != a.version
    {
      if Published(publications, a) { var i :| 0 <= i < |publications| && Matches(publications[i], a); assert publications[i] in publications; }
    }
    if key in Confirmed(artifacts, publications, markers) {
      var i :| 0 <= i < |artifacts| && Unpublished(publications, artifacts[i])
               && (CatalogKey(artifacts[i]) in markers || artifacts[i].name in markers) && CatalogKey(artifacts[i]) == key;
      assert artifacts[i] in artifacts;
    }
  }

  function StringPair(s: string): Pair { Pair(s, "") }

  /** Strictly ascending. */
  ghost predicate IsSorted(keys: seq<string>) { Ascending(Keys(keys, StringPair)) }

  /** After marking, every unpublished artifact is confirmed, whatever markers were there. */
  lemma {:induction false} MarkedAreConfirmed(artifacts: seq<Artifact>, publications: seq<Publication>, before: seq<string>, key: string)
    ensures key in Confirmed(artifacts, publications, before + Marks(artifacts, publications)) <==> HasPendingKey(artifacts, publications, key)
  {
    var markers := before + Marks(artifacts, publications);
    if HasPendingKey(artifacts, publications, key) {
      MarksHold(artifacts, publications, key);
      var a :| a in artifacts && Unpublished(publications, a) && CatalogKey(a) == key;
      var i :| 0 <= i < |artifacts| && artifacts[i] == a;
      assert key in markers;
    }
  }

  // ---- The catalog ----

  class Catalog {
    /** The stack artifact, the artifacts and the supplemental ones. */
    const artifacts: seq<Artifact>
    /** The registries that are defined and public. */
    const registries: set<string>
    var publications: seq<Publication>
    var pending: seq<string>

    constructor (artifacts: seq<Artifact>, registries: set<string>, publications: seq<Publication>, pending: seq<string>)
      ensures this.artifacts == artifacts && this.registries == registries
      ensures this.publications == publications && this.pending == pending
    {
      this.artifacts, this.registries := artifacts, registries;
      this.publications, this.pending := publications, pending;
    }

    /** `retainCurrentPublications` */
    method RetainCurrent()
      modifies this`publications
      ensures publications == Retain(artifacts, registries, old(publications))
    {
      var current: map<string, bool> := map[];
      for i := 0 to |artifacts|
        invariant current == Current(artifacts[..i])
      {
        assert artifacts[..i + 1][..i] == artifacts[..i];
        current := current[ArtifactIdentity(artifacts[i]) := artifacts[i].upstream == ""];
      }
      assert artifacts[..|artifacts|] == artifacts;
      var kept: seq<Publication> := [];
      for i := 0 to |publications|
        invariant kept == Retain(artifacts, registries, publications[..i])
      {
        var p := publications[i];
        assert publications[..i + 1][..i] == publications[..i];
        var key := IdentityKey(p.name, p.kind, p.version);
        if key in current && current[key] && p.registry in registries { kept := kept + [p]; }
      }
      assert publications[..|publications|] == publications;
      publications := kept;
    }

    /** `markAllUnpublishedAsPending` */
    method MarkUnpublished()
      modifies this`pending
      ensures pending == old(pending) + Marks(artifacts, publications)
    {
      ghost var before := pending;
      for i := 0 to |artifacts|
        invariant pending == before + Marks(artifacts[..i], publications)
      {
        assert artifacts[..i + 1][..i] == artifacts[..i];
        if Unpublished(publications, artifacts[i]) { pending := pending + [CatalogKey(artifacts[i])]; }
      }
      assert artifacts[..|artifacts|] == artifacts;
    }

    /** `reconcilePublicationPending`: the confirmed keys, once each, sorted. */
    method Reconcile()
      modifies this`pending
      ensures IsSorted(pending)
      ensures forall key :: key in pending <==> key in Confirmed(artifacts, publications, old(pending))
    {
      var found: set<string> := {};
      for m := 0 to |pending|
        invariant pending == old(pending) && found == Confirmed(artifacts, publications, pending[..m])
      {
        found := Confirm(pending[m], pending[..m], found);
        assert pending[..m + 1] == pending[..m] + [pending[m]];
      }
      assert pending[..|pending|] == pending;
      pending := SortedKeys(found);
    }

    /** The inner loop: the artifacts that one marker names. */
    method Confirm(marker: string, ghost markers: seq<string>, before: set<string>) returns (found: set<string>)
      requires before == Confirmed(artifacts, publications, markers)
      ensures found == Confirmed(artifacts, publications, markers + [marker])
    {
      found := before;
      for i := 0 to |artifacts|
        invariant found == before + set k | 0 <= k < i && Unpublished(publications, artifacts[k])
                                            && (marker == CatalogKey(artifacts[k]) || marker == artifacts[k].name) :: CatalogKey(artifacts[k])
      {
        var a := artifacts[i];
        if (marker == CatalogKey(a) || marker == a.name) && Unpublished(publications, a) { found := found + {CatalogKey(a)}; }
      }
    }

    /** The three steps of a refresh. */
    method Refresh()
      modifies this`publications, this`pending
      ensures publications == Retain(artifacts, registries, old(publications))
      ensures Refreshed(artifacts, registries, publications, pending)
    {
      RetainCurrent();
      forall p | p in publications ensures Retained(artifacts, registries, p) {
        RetainHolds(artifacts, registries, old(publications), p);
      }
      ghost var before := pending;
      MarkUnpublished();
      Reconcile();
      forall key ensures key in pending <==> HasPendingKey(artifacts, publications, key) {
        MarkedAreConfirmed(artifacts, publications, before, key);
      }
    }
  }

  /** A set walked in any order, then sorted. */
  method SortedKeys(keys: set<string>) returns (out: seq<string>)
    ensures IsSorted(out) && forall key :: key in out <==> key in keys
  {
    var walked: seq<string> := [];
    var rest := keys;
    while rest != {}
      invariant rest <= keys
      invariant forall i :: 0 <= i < |walked| ==> walked[i] in keys - rest
      invariant forall key :: key in keys - rest ==> key in walked
      invariant DistinctKeys(walked, StringPair)
      decreases rest
    {
      var key :| key in rest;
      rest := rest - {key};
      walked := walked + [key];
    }
    out := SortBy(walked, StringPair);
    SortAscends(walked, StringPair);
    forall key ensures key in out <==> key in keys { SortMembers(walked, StringPair, key); }
  }

  // ---- What a refreshed catalog looks like ----

  /** The state that a refresh leaves: retained publications, and the list of pending keys. */
  ghost predicate Refreshed(artifacts: seq<Artifact>, registries: set<string>, publications: seq<Publication>, pending: seq<string>) {
    && (forall p :: p in publications ==> Retained(artifacts, registries, p))
    && IsSorted(pending) && forall key :: key in pending <==> HasPendingKey(artifacts, publications, key)
  }

  /** A second refresh changes nothing: it retains every publication and lists the same keys. */
  lemma {:induction false} RefreshedIsStable(artifacts: seq<Artifact>, registries: set<string>, publications: seq<Publication>, pending: seq<string>, again: seq<string>)
    requires Refreshed(artifacts, registries, publications, pending)
    requires Refreshed(artifacts, registries, Retain(artifacts, registries, publications), again)
    ensures Retain(artifacts, registries, publications) == publications && again == pending
  {
    RetainTwice(artifacts, registries, publications);
    AscendingIsUnique(again, pending, StringPair);
  }

  /** No other artifact has this one's key or identity. */
  ghost predicate IsUnique(artifacts: seq<Artifact>, i: nat) {
    i < |artifacts| && forall j :: 0 <= j < |artifacts| && j != i ==>
      CatalogKey(artifacts[j]) != CatalogKey(artifacts[i]) && ArtifactIdentity(artifacts[j]) != ArtifactIdentity(artifacts[i])
  }

  lemma {:induction false} CurrentOfUnique(artifacts: seq<Artifact>, i: nat)
    requires i < |artifacts| && forall j :: i < j < |artifacts| ==> ArtifactIdentity(artifacts[j]) != ArtifactIdentity(artifacts[i])
    ensures var key := ArtifactIdentity(artifacts[i]); key in Current(artifacts) && Current(artifacts)[key] == (artifacts[i].upstream == "")
  {
    if i < |artifacts| - 1 { CurrentOfUnique(artifacts[..|artifacts| - 1], i); }
  }

  /** After a refresh every artifact with a key and an identity of its own is in exactly one of
      three states: from upstream, published, or pending. */
  lemma {:induction false} ExactlyOneState(artifacts: seq<Artifact>, registries: set<string>, publications: seq<Publication>, pending: seq<string>, i: nat)
    requires Refreshed(artifacts, registries, publications, pending) && IsUnique(artifacts, i)
    ensures var a := artifacts[i];
            var upstream, published, waits := a.upstream != "", Published(publications, a), CatalogKey(a) in pending;
            && (upstream || published || waits)
            && !(upstream && published) && !(upstream && waits) && !(published && waits)
  {
    var a := artifacts[i];
    CurrentOfUnique(artifacts, i);
    if Published(publications, a) {
      var k :| 0 <= k < |publications| && Matches(publications[k], a);
      assert publications[k] in publications;
    }
    if HasPendingKey(artifacts, publications, CatalogKey(a)) {
      var b :| b in artifacts && Unpublished(publications, b) && CatalogKey(b) == CatalogKey(a);
      var j :| 0 <= j < |artifacts| && artifacts[j] == b;
    }
    assert a in artifacts;
  }
}
