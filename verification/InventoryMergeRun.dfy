/** The merge as it runs, stack by stack, and the gate of the comparison, file by file. */
module InventoryMergeRun {
  import opened Text
  import opened Sorting
  import opened Inventory
  import opened InventoryMerge
  import opened InventoryGates
  import opened InventoryRun

  // ---- The gate state of the merge ----

  function IdentityOf(a: Artifact): Pair { Pair(a.kind, a.name) }

  type Identities = map<Pair, seq<Artifact>>
  type Owners = map<Pair, string>

  /** The artifacts of one identity among the entries so far. */
  function Identified(flat: seq<Entry>, id: Pair): seq<Artifact> {
    if flat == [] then []
    else
      var init, last := flat[..|flat| - 1], flat[|flat| - 1];
      Identified(init, id) + (if IdentityOf(last.artifact) == id then [last.artifact] else [])
  }

  /** The stack that first named an identity. */
  function OwnerAt(flat: seq<Entry>, id: Pair): Option<string> {
    if flat == [] then None
    else
      var init, last := flat[..|flat| - 1], flat[|flat| - 1];
      var before := OwnerAt(init, id);
      if before.Some? then before else if IdentityOf(last.artifact) == id then Some(last.stack) else None
  }

  /** What the gate has recorded of the entries so far. */
  ghost predicate Recorded(flat: seq<Entry>, ids: Identities, owners: Owners) { IdsFor(ids, flat) && OwnersFor(owners, flat) }

  ghost predicate IdsFor(ids: Identities, flat: seq<Entry>) { forall id :: PreviousOf(ids, id) == Identified(flat, id) }

  ghost predicate OwnersFor(owners: Owners, flat: seq<Entry>) { forall id :: OwnerIn(owners, id) == OwnerAt(flat, id) }

  function PreviousOf(ids: Identities, id: Pair): seq<Artifact> { if id in ids then ids[id] else [] }

  function OwnerIn(owners: Owners, id: Pair): Option<string> { if id in owners then Some(owners[id]) else None }

  lemma {:induction false} IdentifiedMembers(flat: seq<Entry>, id: Pair, a: Artifact)
    ensures a in Identified(flat, id) <==> exists i :: 0 <= i < |flat| && flat[i].artifact == a && IdentityOf(a) == id
  {
    if flat != [] {
      var init := flat[..|flat| - 1];
      IdentifiedMembers(init, id, a);
      assert forall i :: 0 <= i < |init| ==> init[i] == flat[i];
    }
  }

  /** The recorded owner is that of the first entry of the identity. */
  lemma {:induction false} OwnerAtFirst(flat: seq<Entry>, id: Pair, f: nat)
    requires f < |flat| && IdentityOf(flat[f].artifact) == id && forall j :: 0 <= j < f ==> IdentityOf(flat[j].artifact) != id
    ensures OwnerAt(flat, id) == Some(flat[f].stack)
  {
    var init := flat[..|flat| - 1];
    assert forall i :: 0 <= i < |init| ==> init[i] == flat[i];
    if f < |init| {
      OwnerAtFirst(init, id, f);
    } else {
      OwnerAtNone(init, id);
    }
  }

  lemma {:induction false} OwnerAtNone(flat: seq<Entry>, id: Pair)
    requires forall j :: 0 <= j < |flat| ==> IdentityOf(flat[j].artifact) != id
    ensures OwnerAt(flat, id) == None
  {
    if flat != [] { OwnerAtNone(flat[..|flat| - 1], id); }
  }

  lemma {:induction false} OwnerStays(flat: seq<Entry>, e: Entry, i: nat)
    requires i < |flat|
    ensures OwnerOf(flat + [e], i) == OwnerOf(flat, i)
  {
    FirstStays(flat, e, i, 0);
  }

  lemma {:induction false} FirstStays(flat: seq<Entry>, e: Entry, i: nat, k: nat)
    requires k <= i < |flat|
    ensures FirstWith(flat + [e], i, k) == FirstWith(flat, i, k)
    decreases i - k
  {
    if !SameIdentity(flat[k].artifact, flat[i].artifact) { FirstStays(flat, e, i, k + 1); }
  }

  /** The check of one artifact against those of its identity. */
  method Allowed(previous: seq<Artifact>, owner: Option<string>, e: Entry) returns (ok: bool)
    ensures ok <==> StepOk(previous, owner, e)
  {
    for k := 0 to |previous|
      invariant StepOk(previous[..k], owner, e)
    {
      if previous[k].reference != e.artifact.reference && !(owner == Some(e.stack) && HelperPair(previous[k], e.artifact)) {
        return false;
      }
    }
    assert previous[..|previous|] == previous;
    return true;
  }

  ghost predicate LastAllowed(flat: seq<Entry>, e: Entry) {
    forall j :: 0 <= j < |flat| ==> OwnerAllows(flat + [e], j, |flat|)
  }

  lemma {:induction false} GateSnoc(flat: seq<Entry>, e: Entry)
    ensures OwnerGate(flat + [e]) <==> OwnerGate(flat) && LastAllowed(flat, e)
  {
    var all := flat + [e];
    forall i, j | 0 <= j < i < |flat| ensures OwnerAllows(all, j, i) <==> OwnerAllows(flat, j, i) {
      OwnerStays(flat, e, i);
    }
    if OwnerGate(all) {
      forall i, j | 0 <= j < i < |flat| ensures OwnerAllows(flat, j, i) { assert OwnerAllows(all, j, i); }
      forall j | 0 <= j < |flat| ensures OwnerAllows(all, j, |flat|) { }
    }
    if OwnerGate(flat) && LastAllowed(flat, e) {
      forall i, j | 0 <= j < i < |all| ensures OwnerAllows(all, j, i) {
        if i < |flat| { assert OwnerAllows(flat, j, i); }
      }
    }
  }

  lemma {:induction false} GatePrefix(flat: seq<Entry>, more: seq<Entry>)
    requires OwnerGate(flat + more)
    ensures OwnerGate(flat)
  {
    if more == [] {
      assert flat + more == flat;
    } else {
      var init, last := more[..|more| - 1], more[|more| - 1];
      assert flat + more == (flat + init) + [last];
      GateSnoc(flat + init, last);
      GatePrefix(flat, init);
    }
  }

  /** The check of the loop on one entry. */
  predicate StepOk(previous: seq<Artifact>, owner: Option<string>, e: Entry) {
    forall k :: 0 <= k < |previous| ==>
      previous[k].reference == e.artifact.reference || (owner == Some(e.stack) && HelperPair(previous[k], e.artifact))
  }

  lemma {:induction false} OwnerOfLast(flat: seq<Entry>, e: Entry)
    requires exists j :: 0 <= j < |flat| && SameIdentity(flat[j].artifact, e.artifact)
    ensures OwnerAt(flat, IdentityOf(e.artifact)) == Some(OwnerOf(flat + [e], |flat|))
  {
    var all := flat + [e];
    var f := FirstWith(all, |flat|, 0);
    var j :| 0 <= j < |flat| && SameIdentity(flat[j].artifact, e.artifact);
    assert all[j] == flat[j];
    assert f <= j;
    assert forall i :: 0 <= i < |flat| ==> all[i] == flat[i];
    OwnerAtFirst(flat, IdentityOf(e.artifact), f);
  }

  /** The recorded state decides the new entry. */
  lemma {:induction false} StepIsLast(flat: seq<Entry>, e: Entry)
    ensures var id := IdentityOf(e.artifact); StepOk(Identified(flat, id), OwnerAt(flat, id), e) <==> LastAllowed(flat, e)
  {
    var id := IdentityOf(e.artifact);
    var previous := Identified(flat, id);
    var all := flat + [e];
    assert forall i :: 0 <= i < |flat| ==> all[i] == flat[i];
    if LastAllowed(flat, e) {
      forall k | 0 <= k < |previous|
        ensures previous[k].reference == e.artifact.reference || (OwnerAt(flat, id) == Some(e.stack) && HelperPair(previous[k], e.artifact))
      {
        IdentifiedMembers(flat, id, previous[k]);
        var i :| 0 <= i < |flat| && flat[i].artifact == previous[k] && IdentityOf(previous[k]) == id;
        OwnerOfLast(flat, e);
        assert OwnerAllows(all, i, |flat|);
      }
    }
    if StepOk(previous, OwnerAt(flat, id), e) {
      forall j | 0 <= j < |flat| ensures OwnerAllows(all, j, |flat|) {
        if SameIdentity(flat[j].artifact, e.artifact) {
          IdentifiedMembers(flat, id, flat[j].artifact);
          var k :| 0 <= k < |previous| && previous[k] == flat[j].artifact;
          OwnerOfLast(flat, e);
        }
      }
    }
  }

  function Record(ids: Identities, a: Artifact): Identities {
    ids[IdentityOf(a) := PreviousOf(ids, IdentityOf(a)) + [a]]
  }

  function Own(owners: Owners, stack: string, a: Artifact): Owners {
    if IdentityOf(a) in owners then owners else owners[IdentityOf(a) := stack]
  }

  lemma {:induction false} IdsSnoc(ids: Identities, flat: seq<Entry>, e: Entry)
    requires IdsFor(ids, flat)
    ensures IdsFor(Record(ids, e.artifact), flat + [e])
  {
    var all := flat + [e];
    assert all[..|all| - 1] == flat;
    forall id ensures PreviousOf(Record(ids, e.artifact), id) == Identified(all, id) {
      assert PreviousOf(ids, id) == Identified(flat, id);
      assert Identified(flat, id) + [] == Identified(flat, id);
    }
  }

  lemma {:induction false} OwnersSnoc(owners: Owners, flat: seq<Entry>, e: Entry)
    requires OwnersFor(owners, flat)
    ensures OwnersFor(Own(owners, e.stack, e.artifact), flat + [e])
  {
    var all := flat + [e];
    assert all[..|all| - 1] == flat;
    forall id ensures OwnerIn(Own(owners, e.stack, e.artifact), id) == OwnerAt(all, id) {
      assert OwnerIn(owners, id) == OwnerAt(flat, id);
    }
  }

  // ---- The loops of the merge ----

  ghost predicate Seen(seen: set<string>, releases: seq<Release>) {
    forall k :: k in seen <==> exists i :: 0 <= i < |releases| && ReleaseKey(releases[i]) == k
  }

  lemma {:induction false} DisjointSnoc(releases: seq<Release>, r: Release, seen: set<string>)
    requires Seen(seen, releases) && DisjointReleases(releases)
    ensures DisjointReleases(releases + [r]) <==> ReleaseKey(r) !in seen
    ensures Seen(seen + {ReleaseKey(r)}, releases + [r])
  {
    var all := releases + [r];
    assert forall i :: 0 <= i < |releases| ==> all[i] == releases[i];
    assert all[|releases|] == r;
    if ReleaseKey(r) in seen {
      var i :| 0 <= i < |releases| && ReleaseKey(releases[i]) == ReleaseKey(r);
      assert ReleaseKey(all[i]) == ReleaseKey(all[|releases|]);
    }
    forall k ensures k in seen + {ReleaseKey(r)} <==> exists i :: 0 <= i < |all| && ReleaseKey(all[i]) == k {
      if k in seen {
        var i :| 0 <= i < |releases| && ReleaseKey(releases[i]) == k;
        assert ReleaseKey(all[i]) == k;
      }
      if k == ReleaseKey(r) { assert ReleaseKey(all[|releases|]) == k; }
    }
  }

  method AddReleases(before: seq<Release>, keys: set<string>, more: seq<Release>) returns (seen: Option<set<string>>)
    requires Seen(keys, before) && DisjointReleases(before)
    ensures seen.Some? <==> DisjointReleases(before + more)
    ensures seen.Some? ==> Seen(seen.value, before + more)
  {
    var now := keys;
    assert before + more[..0] == before;
    for i := 0 to |more|
      invariant Seen(now, before + more[..i]) && DisjointReleases(before + more[..i])
    {
      DisjointSnoc(before + more[..i], more[i], now);
      assert before + more[..i + 1] == (before + more[..i]) + [more[i]];
      if ReleaseKey(more[i]) in now {
        assert before + more == (before + more[..i + 1]) + more[i + 1..];
        if DisjointReleases(before + more) { DisjointPrefix(before + more[..i + 1], more[i + 1..]); }
        return None;
      }
      now := now + {ReleaseKey(more[i])};
    }
    assert more[..|more|] == more;
    return Some(now);
  }

  function AddAll(m: Table, artifacts: seq<Artifact>): Table {
    if artifacts == [] then m else Add(AddAll(m, artifacts[..|artifacts| - 1]), artifacts[|artifacts| - 1])
  }

  lemma {:induction false} TableConcat(x: seq<Artifact>, y: seq<Artifact>)
    ensures TableOf(x + y) == AddAll(TableOf(x), y)
  {
    if y == [] {
      assert x + y == x;
    } else {
      var all := x + y;
      assert all[..|all| - 1] == x + y[..|y| - 1];
      TableConcat(x, y[..|y| - 1]);
    }
  }

  datatype Gate = Gate(table: Table, ids: Identities, owners: Owners)

  /** One artifact: gate, record, merge into the table. */
  method AddArtifact(g: Gate, e: Entry, ghost flat: seq<Entry>) returns (r: Option<Gate>)
    requires Recorded(flat, g.ids, g.owners) && OwnerGate(flat)
    ensures r.Some? <==> OwnerGate(flat + [e])
    ensures r.Some? ==> Recorded(flat + [e], r.value.ids, r.value.owners) && r.value.table == Add(g.table, e.artifact)
  {
    var id := IdentityOf(e.artifact);
    StepIsLast(flat, e);
    GateSnoc(flat, e);
    var ok := Allowed(PreviousOf(g.ids, id), OwnerIn(g.owners, id), e);
    if !ok { return None; }
    IdsSnoc(g.ids, flat, e);
    OwnersSnoc(g.owners, flat, e);
    return Some(Gate(Add(g.table, e.artifact), Record(g.ids, e.artifact), Own(g.owners, e.stack, e.artifact)));
  }

  lemma {:induction false} NotPastConflict(flat: seq<Entry>, tagged: seq<Entry>, i: nat)
    requires i < |tagged| && !OwnerGate(flat + tagged[..i + 1])
    ensures !OwnerGate(flat + tagged)
  {
    assert flat + tagged == (flat + tagged[..i + 1]) + tagged[i + 1..];
    if OwnerGate(flat + tagged) { GatePrefix(flat + tagged[..i + 1], tagged[i + 1..]); }
  }

  lemma {:induction false} TagUpTo(flat: seq<Entry>, stack: string, artifacts: seq<Artifact>, i: nat)
    requires i < |artifacts|
    ensures flat + Tag(stack, artifacts)[..i + 1] == (flat + Tag(stack, artifacts)[..i]) + [Entry(stack, artifacts[i])]
  {
  }

  /** The loop over the artifacts of one stack. */
  method AddArtifacts(g: Gate, stack: string, artifacts: seq<Artifact>, ghost flat: seq<Entry>) returns (r: Option<Gate>)
    requires Recorded(flat, g.ids, g.owners) && OwnerGate(flat)
    ensures r.Some? <==> OwnerGate(flat + Tag(stack, artifacts))
    ensures r.Some? ==> Recorded(flat + Tag(stack, artifacts), r.value.ids, r.value.owners)
    ensures r.Some? ==> r.value.table == AddAll(g.table, artifacts)
  {
    var now := g;
    ghost var tagged := Tag(stack, artifacts);
    assert flat + tagged[..0] == flat;
    for i := 0 to |artifacts|
      invariant Recorded(flat + tagged[..i], now.ids, now.owners) && OwnerGate(flat + tagged[..i])
      invariant now.table == AddAll(g.table, artifacts[..i])
    {
      TagUpTo(flat, stack, artifacts, i);
      var next := AddArtifact(now, Entry(stack, artifacts[i]), flat + tagged[..i]);
      if next.None? {
        NotPastConflict(flat, tagged, i);
        return None;
      }
      assert artifacts[..i + 1][..i] == artifacts[..i];
      now := next.value;
    }
    assert tagged[..|tagged|] == tagged && artifacts[..|artifacts|] == artifacts;
    return Some(now);
  }

  lemma {:induction false} TableKeys(artifacts: seq<Artifact>, k: Pair)
    requires k in TableOf(artifacts)
    ensures ArtifactPair(TableOf(artifacts)[k]) == k
  {
    var init, last := artifacts[..|artifacts| - 1], artifacts[|artifacts| - 1];
    if k in TableOf(init) { TableKeys(init, k); }
  }

  /** The table walked in any order, then sorted. */
  method Collect(m: Table) returns (out: seq<Artifact>)
    requires forall k :: k in m ==> ArtifactPair(m[k]) == k
    ensures Ascending(Keys(out, ArtifactPair))
    ensures forall a :: a in out <==> FromTable(m, a)
  {
    var walked: seq<Artifact> := [];
    var rest := m.Keys;
    while rest != {}
      invariant rest <= m.Keys
      invariant forall i :: 0 <= i < |walked| ==> ArtifactPair(walked[i]) in m.Keys - rest && walked[i] == Tidied(m[ArtifactPair(walked[i])])
      invariant forall k :: k in m.Keys - rest ==> Tidied(m[k]) in walked
      invariant DistinctKeys(walked, ArtifactPair)
      decreases rest
    {
      var k :| k in rest;
      rest := rest - {k};
      walked := walked + [Tidied(m[k])];
    }
    out := SortBy(walked, ArtifactPair);
    SortAscends(walked, ArtifactPair);
    forall a ensures a in out <==> FromTable(m, a) {
      SortMembers(walked, ArtifactPair, a);
    }
  }

  const STACKS: seq<string> := ["self-managed", "compute-plane", "observability"]

  type Inventories = map<string, Inventory>

  predicate Present(inventories: Inventories, n: nat)
    requires n <= |STACKS|
  {
    forall k :: 0 <= k < n ==> STACKS[k] in inventories
  }

  /** The inventories of the first stacks, in the order of the stacks. */
  function OwnedOf(inventories: Inventories, n: nat): (os: seq<Owned>)
    requires n <= |STACKS| && Present(inventories, n)
    ensures |os| == n && forall k :: 0 <= k < n ==> os[k] == Owned(STACKS[k], inventories[STACKS[k]])
  {
    if n == 0 then [] else OwnedOf(inventories, n - 1) + [Owned(STACKS[n - 1], inventories[STACKS[n - 1]])]
  }

  /** The three stacks, in this order. */
  lemma {:induction false} ThreeStacks(inventories: Inventories)
    ensures Present(inventories, |STACKS|) <==>
            "self-managed" in inventories && "compute-plane" in inventories && "observability" in inventories
    ensures Present(inventories, |STACKS|) ==>
              OwnedOf(inventories, |STACKS|) == [Owned("self-managed", inventories["self-managed"]),
                                                 Owned("compute-plane", inventories["compute-plane"]),
                                                 Owned("observability", inventories["observability"])]
  {
    assert STACKS[0] == "self-managed" && STACKS[1] == "compute-plane" && STACKS[2] == "observability" && |STACKS| == 3;
  }

  function InventoriesOf(os: seq<Owned>): (invs: seq<Inventory>)
    ensures |invs| == |os| && forall k :: 0 <= k < |os| ==> invs[k] == os[k].inventory
  {
    seq(|os|, k requires 0 <= k < |os| => os[k].inventory)
  }

  datatype MergeResult = Merged(inventory: Inventory) | Missing | InvalidInput | DuplicateRelease | Conflict | InvalidOutput

  /** What the merge asks of its inputs. */
  ghost predicate Mergeable(os: seq<Owned>) {
    var invs := InventoriesOf(os);
    AllValid(invs) && DisjointReleases(ReleasesOf(invs)) && OwnerGate(Flat(os))
  }

  ghost predicate State(os: seq<Owned>, releases: seq<Release>, seen: set<string>, g: Gate) {
    && Mergeable(os) && releases == ReleasesOf(InventoriesOf(os)) && Seen(seen, releases)
    && Recorded(Flat(os), g.ids, g.owners) && g.table == TableOf(ArtifactsOf(InventoriesOf(os)))
  }

  lemma {:induction false} ListSnoc(os: seq<Owned>, o: Owned)
    ensures var invs := InventoriesOf(os);
            && InventoriesOf(os + [o]) == invs + [o.inventory]
            && ReleasesOf(InventoriesOf(os + [o])) == ReleasesOf(invs) + o.inventory.releases
            && ArtifactsOf(InventoriesOf(os + [o])) == ArtifactsOf(invs) + o.inventory.artifacts
            && Flat(os + [o]) == Flat(os) + Tag(o.stack, o.inventory.artifacts)
  {
    var all := os + [o];
    var invs := InventoriesOf(os);
    assert InventoriesOf(all) == invs + [o.inventory];
    assert (invs + [o.inventory])[..|invs|] == invs;
    assert all[..|all| - 1] == os;
  }

  lemma {:induction false} MergeablePrefix(os: seq<Owned>, more: seq<Owned>)
    requires Mergeable(os + more)
    ensures Mergeable(os)
  {
    if more == [] {
      assert os + more == os;
    } else {
      var init, last := more[..|more| - 1], more[|more| - 1];
      assert os + more == (os + init) + [last];
      ListSnoc(os + init, last);
      var invs := InventoriesOf(os + init);
      DisjointPrefix(ReleasesOf(invs), last.inventory.releases);
      GatePrefix(Flat(os + init), Tag(last.stack, last.inventory.artifacts));
      assert AllValid(invs) by {
        forall k | 0 <= k < |invs| ensures Valid(invs[k]) { assert (invs + [last.inventory])[k] == invs[k]; }
      }
      MergeablePrefix(os, init);
    }
  }

  /** One stack. */
  method AddStack(ghost os: seq<Owned>, o: Owned, releases: seq<Release>, seen: set<string>, g: Gate)
    returns (trouble: Option<MergeResult>, keys: set<string>, next: Gate)
    requires State(os, releases, seen, g)
    ensures trouble.None? <==> Mergeable(os + [o])
    ensures trouble.Some? ==> !trouble.value.Merged? && !trouble.value.InvalidOutput?
    ensures trouble.None? ==> State(os + [o], releases + o.inventory.releases, keys, next)
  {
    keys, next := seen, g;
    ListSnoc(os, o);
    var valid := Validate(o.inventory);
    ghost var invs := InventoriesOf(os);
    ValidSnoc(invs, o.inventory);
    if !valid { return Some(InvalidInput), keys, next; }
    var more := AddReleases(releases, seen, o.inventory.releases);
    if more.None? { return Some(DuplicateRelease), keys, next; }
    var added := AddArtifacts(g, o.stack, o.inventory.artifacts, Flat(os));
    if added.None? { return Some(Conflict), keys, next; }
    TableConcat(ArtifactsOf(invs), o.inventory.artifacts);
    return None, more.value, added.value;
  }

  lemma {:induction false} ValidSnoc(invs: seq<Inventory>, inv: Inventory)
    requires AllValid(invs)
    ensures AllValid(invs + [inv]) <==> Valid(inv)
  {
    var all := invs + [inv];
    if AllValid(all) { assert Valid(all[|invs|]); }
  }

  lemma {:induction false} OwnedPrefix(inventories: Inventories, n: nat)
    requires n < |STACKS| && Present(inventories, |STACKS|)
    ensures var all := OwnedOf(inventories, |STACKS|); all == OwnedOf(inventories, n + 1) + all[n + 1..]
  {
    var all := OwnedOf(inventories, |STACKS|);
    assert all[..n + 1] == OwnedOf(inventories, n + 1);
  }

  lemma {:induction false} NotPastTrouble(inventories: Inventories, n: nat)
    requires n < |STACKS| && Present(inventories, |STACKS|) && !Mergeable(OwnedOf(inventories, n + 1))
    ensures !Mergeable(OwnedOf(inventories, |STACKS|))
  {
    var all := OwnedOf(inventories, |STACKS|);
    OwnedPrefix(inventories, n);
    if Mergeable(all) { MergeablePrefix(OwnedOf(inventories, n + 1), all[n + 1..]); }
  }

  lemma {:induction false} NoStacks()
    ensures State([], [], {}, Gate(map[], map[], map[]))
  {
    assert InventoriesOf([]) == [];
  }

  /** `mergeResolvedStackInventories`: it succeeds exactly when all three inventories are there
      and valid, name no release twice and pass the gate; the result is the one combined
      inventory; and the validation of the result never fails. */
  method Merge(inventories: Inventories) returns (r: MergeResult)
    ensures r.Merged? <==> Present(inventories, |STACKS|) && Mergeable(OwnedOf(inventories, |STACKS|))
    ensures r.Merged? ==> IsCombined(InventoriesOf(OwnedOf(inventories, |STACKS|)), r.inventory) && Valid(r.inventory)
    ensures !r.InvalidOutput?
  {
    var releases: seq<Release> := [];
    var seen: set<string> := {};
    var g := Gate(map[], map[], map[]);
    NoStacks();
    for n := 0 to |STACKS|
      invariant Present(inventories, n)
      invariant State(OwnedOf(inventories, n), releases, seen, g)
    {
      var stack := STACKS[n];
      if stack !in inventories { return Missing; }
      var trouble, keys, next := AddStack(OwnedOf(inventories, n), Owned(stack, inventories[stack]), releases, seen, g);
      if trouble.Some? {
        if Present(inventories, |STACKS|) { NotPastTrouble(inventories, n); }
        return trouble.value;
      }
      releases := releases + inventories[stack].releases;
      seen, g := keys, next;
    }
    r := Finish(OwnedOf(inventories, |STACKS|), releases, g.table);
  }

  /** Sorting, and the validation of the result. */
  method Finish(os: seq<Owned>, releases: seq<Release>, table: Table) returns (r: MergeResult)
    requires os != [] && Mergeable(os) && releases == ReleasesOf(InventoriesOf(os)) && table == TableOf(ArtifactsOf(InventoriesOf(os)))
    ensures r.Merged? && IsCombined(InventoriesOf(os), r.inventory) && Valid(r.inventory)
  {
    forall k | k in table ensures ArtifactPair(table[k]) == k { TableKeys(ArtifactsOf(InventoriesOf(os)), k); }
    var artifacts := Collect(table);
    var combined := Inventory(SCHEMA, os[0].inventory.source, SortBy(releases, ReleasePair), artifacts, []);
    CombinedIsValid(InventoriesOf(os), combined);
    var valid := Validate(combined);
    return if valid then Merged(combined) else InvalidOutput;
  }

  // ---- The gate of the comparison ----

  predicate CompareStep(previous: seq<Artifact>, a: Artifact) {
    ComparableOf(a).Some? &&
    forall k :: 0 <= k < |previous| ==> previous[k].reference == a.reference || CompareAllows(previous[k], a)
  }

  lemma {:induction false} CompareSnoc(flat: seq<Entry>, e: Entry)
    requires CompareGate(flat)
    ensures CompareGate(flat + [e]) <==> CompareStep(Identified(flat, IdentityOf(e.artifact)), e.artifact)
  {
    var all := flat + [e];
    var id := IdentityOf(e.artifact);
    var previous := Identified(flat, id);
    assert all[|flat|] == e && forall i :: 0 <= i < |flat| ==> all[i] == flat[i];
    if CompareGate(all) {
      assert ComparableOf(all[|flat|].artifact).Some?;
      forall k | 0 <= k < |previous| ensures CompareAllows(previous[k], e.artifact) {
        IdentifiedMembers(flat, id, previous[k]);
        var i :| 0 <= i < |flat| && flat[i].artifact == previous[k] && IdentityOf(previous[k]) == id;
        assert CompareAllows(all[i].artifact, all[|flat|].artifact);
      }
    }
    if CompareStep(previous, e.artifact) {
      forall j | 0 <= j < |flat| ensures CompareAllows(flat[j].artifact, e.artifact) {
        if SameIdentity(flat[j].artifact, e.artifact) {
          IdentifiedMembers(flat, id, flat[j].artifact);
          var k :| 0 <= k < |previous| && previous[k] == flat[j].artifact;
        }
      }
      forall i, j | 0 <= j < i < |all| ensures CompareAllows(all[j].artifact, all[i].artifact) {
        if i < |flat| { assert CompareAllows(flat[j].artifact, flat[i].artifact); }
      }
    }
  }

  lemma {:induction false} ComparePrefix(flat: seq<Entry>, more: seq<Entry>)
    requires CompareGate(flat + more)
    ensures CompareGate(flat)
  {
    var all := flat + more;
    forall i | 0 <= i < |flat| ensures ComparableOf(flat[i].artifact).Some? { assert all[i] == flat[i]; }
    forall i, j | 0 <= j < i < |flat| ensures CompareAllows(flat[j].artifact, flat[i].artifact) {
      assert all[i] == flat[i] && all[j] == flat[j];
    }
  }

  /** The check of one artifact against those of its identity. */
  method ComparesWith(previous: seq<Artifact>, a: Artifact) returns (ok: bool)
    ensures ok <==> CompareStep(previous, a)
  {
    if ComparableOf(a).None? { return false; }
    for k := 0 to |previous|
      invariant forall j :: 0 <= j < k ==> previous[j].reference == a.reference || CompareAllows(previous[j], a)
    {
      if previous[k].reference != a.reference && !CompareAllows(previous[k], a) { return false; }
    }
    return true;
  }

  /** One artifact of one file. */
  method CompareArtifact(ids: Identities, e: Entry, ghost flat: seq<Entry>) returns (r: Option<Identities>)
    requires IdsFor(ids, flat) && CompareGate(flat)
    ensures r.Some? <==> CompareGate(flat + [e])
    ensures r.Some? ==> IdsFor(r.value, flat + [e])
  {
    CompareSnoc(flat, e);
    var ok := ComparesWith(PreviousOf(ids, IdentityOf(e.artifact)), e.artifact);
    if !ok { return None; }
    IdsSnoc(ids, flat, e);
    return Some(Record(ids, e.artifact));
  }

  /** The loop over the artifacts of one file. */
  method CompareFile(before: Identities, o: Owned, ghost flat: seq<Entry>) returns (r: Option<Identities>)
    requires IdsFor(before, flat) && CompareGate(flat)
    ensures r.Some? <==> CompareGate(flat + Tag(o.stack, o.inventory.artifacts))
    ensures r.Some? ==> IdsFor(r.value, flat + Tag(o.stack, o.inventory.artifacts))
  {
    var ids, artifacts := before, o.inventory.artifacts;
    ghost var tagged := Tag(o.stack, artifacts);
    assert flat + tagged[..0] == flat;
    for i := 0 to |artifacts|
      invariant IdsFor(ids, flat + tagged[..i]) && CompareGate(flat + tagged[..i])
    {
      TagUpTo(flat, o.stack, artifacts, i);
      var next := CompareArtifact(ids, Entry(o.stack, artifacts[i]), flat + tagged[..i]);
      if next.None? {
        assert flat + tagged == (flat + tagged[..i + 1]) + tagged[i + 1..];
        if CompareGate(flat + tagged) { ComparePrefix(flat + tagged[..i + 1], tagged[i + 1..]); }
        return None;
      }
      ids := next.value;
    }
    assert tagged[..|tagged|] == tagged;
    return Some(ids);
  }

  lemma {:induction false} FlatPrefix(os: seq<Owned>, n: nat)
    requires n <= |os|
    ensures exists more :: Flat(os) == Flat(os[..n]) + more
  {
    if n == |os| {
      assert os[..n] == os && Flat(os) == Flat(os) + [];
    } else {
      FlatPrefix(os[..|os| - 1], n);
      assert os[..|os| - 1][..n] == os[..n];
      var more :| Flat(os[..|os| - 1]) == Flat(os[..n]) + more;
      var tag := Tag(os[|os| - 1].stack, os[|os| - 1].inventory.artifacts);
      assert Flat(os) == Flat(os[..n]) + (more + tag);
    }
  }

  ghost predicate AllFilesValid(os: seq<Owned>) { forall k :: 0 <= k < |os| ==> Valid(os[k].inventory) }

  /** The files so far load. */
  ghost predicate Loads(os: seq<Owned>) { AllFilesValid(os) && CompareGate(Flat(os)) }

  lemma {:induction false} LoadsPrefix(os: seq<Owned>, n: nat)
    requires n <= |os| && Loads(os)
    ensures Loads(os[..n])
  {
    forall k | 0 <= k < n ensures Valid(os[..n][k].inventory) { assert Valid(os[k].inventory); }
    FlatPrefix(os, n);
    var more :| Flat(os) == Flat(os[..n]) + more;
    ComparePrefix(Flat(os[..n]), more);
  }

  lemma {:induction false} LoadsSnoc(os: seq<Owned>, o: Owned)
    requires Loads(os)
    ensures Loads(os + [o]) <==> Valid(o.inventory) && CompareGate(Flat(os) + Tag(o.stack, o.inventory.artifacts))
    ensures Flat(os + [o]) == Flat(os) + Tag(o.stack, o.inventory.artifacts)
  {
    var all := os + [o];
    assert all[..|all| - 1] == os;
    if AllFilesValid(all) { assert Valid(all[|os|].inventory); }
    if Valid(o.inventory) {
      forall k | 0 <= k < |all| ensures Valid(all[k].inventory) { if k < |os| { assert Valid(os[k].inventory); } }
    }
  }

  /** One file: validation, then its artifacts. */
  method LoadFile(ids: Identities, o: Owned, ghost os: seq<Owned>) returns (r: Option<Identities>)
    requires Loads(os) && IdsFor(ids, Flat(os))
    ensures r.Some? <==> Loads(os + [o])
    ensures r.Some? ==> IdsFor(r.value, Flat(os + [o]))
  {
    LoadsSnoc(os, o);
    var valid := Validate(o.inventory);
    if !valid { return None; }
    r := CompareFile(ids, o, Flat(os));
  }

  /** The gate part of `loadComparableInventorySet`, file by file. */
  method CompareFiles(files: seq<Owned>) returns (ok: bool)
    ensures ok <==> Loads(files)
  {
    var ids: Identities := map[];
    for n := 0 to |files|
      invariant Loads(files[..n]) && IdsFor(ids, Flat(files[..n]))
    {
      var next := LoadFile(ids, files[n], files[..n]);
      assert files[..n + 1] == files[..n] + [files[n]];
      if next.None? {
        if Loads(files) { LoadsPrefix(files, n + 1); }
        return false;
      }
      ids := next.value;
    }
    assert files[..|files|] == files;
    return true;
  }
}
