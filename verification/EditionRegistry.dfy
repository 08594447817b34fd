/** The edition registry `fern/editions.yml` and the commands that rewrite it
    (`edition_registry.go`, `umbrella_docs.go`). */
module EditionRegistry {
  import opened Text
  import opened Versions
  import opened Editions
  import opened Umbrella

  datatype Binding = Binding(productCommit: string, manifestSHA256: string, revisions: seq<string>)

  datatype Release = Release(version: string, ref: string, commit: string, mode: string, umbrella: Option<Binding>)

  datatype Registry = Registry(defaultVersion: string, editions: seq<Release>)

  const EMPTY := Registry("", [])

  /** A committed product manifest with the digest of its bytes. */
  datatype ManifestFile = ManifestFile(manifest: Manifest, digest: string)

  /** The repository as the commands see it: the catalog at a commit, and the manifest at a
      product commit for a version, never change. */
  datatype Repository = Repository(
    catalogs: string -> Option<Catalog>, manifests: (string, string) -> Option<ManifestFile>)

  predicate IsHex(s: string) {
    forall i :: 0 <= i < |s| ==> ('0' <= s[i] <= '9' || 'a' <= s[i] <= 'f')
  }

  predicate IsCommit(s: string) { |s| == 40 && IsHex(s) }

  predicate IsDigest(s: string) { |s| == 71 && s[..7] == "sha256:" && IsHex(s[7..]) }

  /** `catalogAtCommit`: only a catalog whose edition declares a valid bump decodes. */
  function CatalogAt(repo: Repository, commit: string): (c: Option<Catalog>)
    ensures c.Some? && c.value.docsEdition.Some? ==>
              var e := c.value.docsEdition.value; EditionBump(e.previousVersion, e.version, e.change) == Accept
  {
    var c := repo.catalogs(commit);
    if c.None? || c.value.docsEdition.None? then c
    else
      var e := c.value.docsEdition.value;
      if EditionBump(e.previousVersion, e.version, e.change) == Accept then c else None
  }

  predicate Distinct<T(==)>(s: seq<T>) { forall i, j :: 0 <= i < j < |s| ==> s[i] != s[j] }

  /** `validateDocsRegistryIdentity` */
  predicate ValidIdentity(r: Release) {
    && ValidStable(r.version) && IsCommit(r.commit)
    && (|| (r.mode == "" && r.umbrella.None? && r.ref == "docs/releases/" + r.version)
        || (&& r.mode == "umbrella" && r.ref == "docs/versions/" + r.version && r.umbrella.Some?
            && ValidBinding(r.umbrella.value, r.commit)))
  }

  predicate ValidBinding(b: Binding, commit: string) {
    && IsCommit(b.productCommit) && IsDigest(b.manifestSHA256) && commit in b.revisions
    && (forall i :: 0 <= i < |b.revisions| ==> IsCommit(b.revisions[i]))
    && Distinct(b.revisions)
  }

  predicate DistinctVersions(editions: seq<Release>) {
    forall i, j :: 0 <= i < j < |editions| ==> editions[i].version != editions[j].version
  }

  predicate Registered(editions: seq<Release>, version: string) {
    exists i :: 0 <= i < |editions| && editions[i].version == version
  }

  /** What `readEditionRegistry` accepts. */
  predicate Readable(g: Registry) {
    && (forall i :: 0 <= i < |g.editions| ==> ValidIdentity(g.editions[i]))
    && DistinctVersions(g.editions)
    && (g.editions != [] ==> Registered(g.editions, g.defaultVersion))
  }

  /** The position of a version, or the length when it is not registered. */
  function Position(editions: seq<Release>, version: string): (i: nat)
    ensures i <= |editions|
    ensures i < |editions| ==> editions[i].version == version
    ensures forall k :: 0 <= k < i ==> editions[k].version != version
  {
    if editions == [] || editions[0].version == version then 0 else 1 + Position(editions[1..], version)
  }

  /** `validateUmbrellaDocsCatalogIdentity`, and the manifest digest that the full catalog
      comparison pins. */
  predicate BindsManifest(c: Catalog, f: ManifestFile) {
    && c.docsEdition == Some(f.manifest.Edition())
    && c.umbrellaManifestSHA256 == f.digest
    && forall i :: 0 <= i < |STACK_NAMES| ==> c.Stack(STACK_NAMES[i]) == f.manifest.StackMetadata(STACK_NAMES[i])
  }

  /** `umbrellaDocsProduct` */
  function Product(repo: Repository, r: Release): (f: Option<ManifestFile>)
    ensures f.Some? ==> f.value.manifest.version == r.version && f.value.manifest.status == QUALIFIED
    ensures f.Some? ==> r.umbrella.Some? && f.value.digest == r.umbrella.value.manifestSHA256
    ensures f.Some? ==> f == repo.manifests(r.umbrella.value.productCommit, r.version)
  {
    if !ValidIdentity(r) || r.umbrella.None? then None
    else
      var f := repo.manifests(r.umbrella.value.productCommit, r.version);
      if f.Some? && f.value.manifest.version == r.version && f.value.manifest.status == QUALIFIED
         && f.value.digest == r.umbrella.value.manifestSHA256 then f else None
  }

  /** `verifyEditionRef`. `outside` is the verdict of the branch, source-tag, navigation and
      content checks, which depend on the remote at the time of the call. */
  function VerifyRef(repo: Repository, r: Release, outside: bool): (c: Option<Catalog>)
    ensures c.Some? ==> c == CatalogAt(repo, r.commit) && c.value.docsEdition.Some?
  {
    if r.mode == "umbrella" then VerifyUmbrellaRef(repo, r, outside)
    else
      var c := CatalogAt(repo, r.commit);
      if outside && c.Some? && c.value.umbrellaManifestSHA256 == "" && c.value.docsEdition.Some?
         && c.value.docsEdition.value.version == r.version && c.value.docsEdition.value.status == QUALIFIED
      then c else None
  }

  /** `verifyUmbrellaDocsRef` */
  function VerifyUmbrellaRef(repo: Repository, r: Release, outside: bool): (c: Option<Catalog>)
    ensures c.Some? ==> c == CatalogAt(repo, r.commit) && c.value.docsEdition.Some?
  {
    var f, c := Product(repo, r), CatalogAt(repo, r.commit);
    if outside && f.Some? && c.Some? && BindsManifest(c.value, f.value) then c else None
  }

  /** What `registerEdition` leaves in the file, and whether it returned without error. */
  function Register(repo: Repository, g: Registry, r: Release, outside: bool): (out: (Registry, bool))
  {
    if !ValidStable(r.version) || r.ref != "docs/releases/" + r.version || !IsCommit(r.commit) || !Readable(g) then (g, false)
    else
      var at := Position(g.editions, r.version);
      if at < |g.editions| then
        // Go compares the binding by address, so an entry that has one never matches.
        (g, g.editions[at] == r && r.umbrella.None? && VerifyRef(repo, r, outside).Some?)
      else
        var c := VerifyRef(repo, r, outside);
        if c.None? then (g, false)
        else
          var p := Position(g.editions, g.defaultVersion);
          var previous := if p < |g.editions| then CatalogAt(repo, g.editions[p].commit) else None;
          if p < |g.editions| && previous.None? then (g, false)
          else if EditionTransition(previous, c.value) != Accept then (g, false)
          else (Registry(r.version, [r] + g.editions), true)
  }

  function Revised(existing: Release, r: Release): (n: Release)
    requires existing.umbrella.Some? && r.umbrella.Some?
  {
    var earlier := existing.umbrella.value.revisions;
    r.(umbrella := Some(r.umbrella.value.(revisions := if r.commit in earlier then earlier else earlier + [r.commit])))
  }

  /** What `reviseUmbrellaDocs` leaves in the file, and whether it returned without error. */
  function Revise(repo: Repository, g: Registry, r: Release, outside: bool): (out: (Registry, bool))
  {
    if !ValidIdentity(r) || r.umbrella.None? || !Readable(g) then (g, false)
    else
      var at := Position(g.editions, r.version);
      if at == |g.editions| then
        if VerifyUmbrellaRef(repo, r, outside).None? then (g, false)
        else (Registry(if g.defaultVersion == "" then r.version else g.defaultVersion, g.editions + [r]), true)
      else
        var existing := g.editions[at];
        if existing.mode != "umbrella" || existing.ref != r.ref
           || existing.umbrella.value.productCommit != r.umbrella.value.productCommit
           || existing.umbrella.value.manifestSHA256 != r.umbrella.value.manifestSHA256 then (g, false)
        else
          var n := Revised(existing, r);
          if VerifyUmbrellaRef(repo, n, outside).None? then (g, false)
          else (g.(editions := g.editions[at := n]), true)
  }

  /** The two commands, as the command line builds them. */
  datatype Command =
    | RegisterEdition(version: string, commit: string, outside: bool)
    | ReviseDocs(version: string, product: string, digest: string, commit: string, outside: bool)

  function Execute(repo: Repository, g: Registry, c: Command): (out: (Registry, bool))
  {
    match c
    case RegisterEdition(v, commit, outside) =>
      Register(repo, g, Release(v, "docs/releases/" + v, commit, "", None), outside)
    case ReviseDocs(v, product, digest, commit, outside) =>
      Revise(repo, g, Release(v, "docs/versions/" + v, commit, "umbrella", Some(Binding(product, digest, [commit]))), outside)
  }

  // ---- What every entry keeps knowing about its commit ----

  ghost predicate LegacyEntry(repo: Repository, e: Release) {
    var c := CatalogAt(repo, e.commit);
    && e.mode == "" && c.Some? && c.value.umbrellaManifestSHA256 == ""
    && c.value.docsEdition.Some? && c.value.docsEdition.value.version == e.version
    && c.value.docsEdition.value.status == QUALIFIED
  }

  ghost predicate UmbrellaEntry(repo: Repository, e: Release) {
    var f, c := Product(repo, e), CatalogAt(repo, e.commit);
    e.mode == "umbrella" && f.Some? && c.Some? && BindsManifest(c.value, f.value)
  }

  /** An entry's catalog carries the entry's own version. */
  lemma {:induction false} EntryVersion(repo: Repository, e: Release)
    requires ValidIdentity(e) && (LegacyEntry(repo, e) || UmbrellaEntry(repo, e))
    ensures CatalogAt(repo, e.commit).Some? && CatalogAt(repo, e.commit).value.docsEdition.Some?
    ensures CatalogAt(repo, e.commit).value.docsEdition.value.version == e.version
    ensures LegacyEntry(repo, e) <==> CatalogAt(repo, e.commit).value.umbrellaManifestSHA256 == ""
  {
  }

  /** The check of `validateEditionRegistry` for one catalog: its predecessor is registered
      and the transition from the predecessor's present catalog is accepted. */
  ghost predicate PredecessorHolds(repo: Repository, editions: seq<Release>, c: Catalog)
    requires c.docsEdition.Some?
  {
    var prev := c.docsEdition.value.previousVersion;
    if prev == "" then EditionTransition(None, c) == Accept
    else
      var p := Position(editions, prev);
      && p < |editions| && CatalogAt(repo, editions[p].commit).Some?
      && EditionTransition(CatalogAt(repo, editions[p].commit), c) == Accept
  }

  ghost predicate SoundEntry(repo: Repository, editions: seq<Release>, e: Release) {
    || UmbrellaEntry(repo, e)
    || (LegacyEntry(repo, e) && PredecessorHolds(repo, editions, CatalogAt(repo, e.commit).value))
  }

  ghost predicate AllSound(repo: Repository, editions: seq<Release>) {
    forall i :: 0 <= i < |editions| ==> SoundEntry(repo, editions, editions[i])
  }

  ghost predicate Inv(repo: Repository, g: Registry) {
    && Readable(g)
    && (g.editions == [] ==> g.defaultVersion == "")
    && AllSound(repo, g.editions)
  }

  // ---- What a step may change ----

  /** An entry's later self: identity fixed, a legacy entry unchanged, revisions only appended. */
  ghost predicate EntryKept(e: Release, n: Release) {
    && n.version == e.version && n.mode == e.mode && n.ref == e.ref
    && (e.umbrella.None? ==> n == e)
    && (e.umbrella.Some? ==>
          && n.umbrella.Some?
          && n.umbrella.value.productCommit == e.umbrella.value.productCommit
          && n.umbrella.value.manifestSHA256 == e.umbrella.value.manifestSHA256
          && e.umbrella.value.revisions <= n.umbrella.value.revisions)
  }

  ghost predicate KeptIn(e: Release, b: seq<Release>) {
    exists j :: 0 <= j < |b| && EntryKept(e, b[j])
  }

  ghost predicate EntriesKept(a: seq<Release>, b: seq<Release>) {
    forall i :: 0 <= i < |a| ==> KeptIn(a[i], b)
  }

  ghost predicate DefaultMoves(a: string, b: string) {
    a == "" || a == b || (ValidStable(a) && ValidStable(b) && CoreLess(StableCore(a), StableCore(b)))
  }

  ghost predicate Evolves(a: Registry, b: Registry) {
    EntriesKept(a.editions, b.editions) && DefaultMoves(a.defaultVersion, b.defaultVersion)
  }

  lemma {:induction false} PositionIs(editions: seq<Release>, version: string, k: nat)
    requires k < |editions| && editions[k].version == version
    requires forall j :: 0 <= j < k ==> editions[j].version != version
    ensures Position(editions, version) == k
  {
  }

  lemma {:induction false} NoPosition(editions: seq<Release>, version: string)
    requires Position(editions, version) == |editions|
    ensures !Registered(editions, version)
  {
  }

  lemma {:induction false} DefaultPosition(g: Registry)
    requires Readable(g)
    ensures Position(g.editions, g.defaultVersion) < |g.editions| <==> g.editions != []
    ensures g.editions != [] ==> ValidStable(g.defaultVersion) && g.defaultVersion != ""
  {
    var p := Position(g.editions, g.defaultVersion);
    if g.editions != [] {
      if p == |g.editions| { NoPosition(g.editions, g.defaultVersion); }
      assert ValidIdentity(g.editions[p]);
    }
  }

  /** A predecessor that holds still holds in a longer list that keeps the first list's
      entries in order and adds no entry of a version already present. */
  lemma {:induction false} PredecessorSurvives(repo: Repository, a: seq<Release>, b: seq<Release>, shift: nat, c: Catalog)
    requires c.docsEdition.Some? && PredecessorHolds(repo, a, c)
    requires |a| + shift <= |b| && DistinctVersions(b)
    requires forall i :: 0 <= i < |a| ==> a[i] == b[i + shift]
    ensures PredecessorHolds(repo, b, c)
  {
    var prev := c.docsEdition.value.previousVersion;
    if prev != "" {
      var p := Position(a, prev);
      assert b[p + shift] == a[p];
      PositionIs(b, prev, p + shift);
    }
  }

  /** Transitions read only the edition and the stacks of the predecessor. */
  lemma {:induction false} TransitionReads(a: Catalog, b: Catalog, c: Catalog)
    requires a.docsEdition == b.docsEdition
    requires forall i :: 0 <= i < |STACK_NAMES| ==> a.Stack(STACK_NAMES[i]) == b.Stack(STACK_NAMES[i])
    ensures EditionTransition(Some(a), c) == EditionTransition(Some(b), c)
  {
    assert a.Stack(STACK_NAMES[0]) == b.Stack(STACK_NAMES[0]);
    assert a.Stack(STACK_NAMES[1]) == b.Stack(STACK_NAMES[1]);
    assert a.Stack(STACK_NAMES[2]) == b.Stack(STACK_NAMES[2]);
    assert a.controlPlane == b.controlPlane && a.computePlane == b.computePlane && a.observability == b.observability;
    assert b == a.(umbrellaManifestSHA256 := b.umbrellaManifestSHA256);
    if c.docsEdition.Some? {
      StackTransitionsRead(a, b, c, c.docsEdition.value.change, STACK_NAMES);
    }
  }

  lemma {:induction false} StackTransitionsRead(a: Catalog, b: Catalog, c: Catalog, change: string, names: seq<string>)
    requires b == a.(umbrellaManifestSHA256 := b.umbrellaManifestSHA256)
    ensures StackTransitions(a, c, change, names) == StackTransitions(b, c, change, names)
  {
    if names != [] { StackTransitionsRead(a, b, c, change, names[1..]); }
  }

  /** The first edition of an empty registry declares no predecessor. */
  lemma {:induction false} FirstEdition(c: Catalog)
    requires c.docsEdition.Some? && EditionTransition(None, c) == Accept
    requires EditionBump(c.docsEdition.value.previousVersion, c.docsEdition.value.version, c.docsEdition.value.change) == Accept
    ensures c.docsEdition.value.previousVersion == ""
  {
  }

  /** `EditionTransition` from the registry's default, or from nothing. */
  ghost predicate FollowsDefault(repo: Repository, g: Registry, c: Catalog) {
    var p := Position(g.editions, g.defaultVersion);
    if p < |g.editions| then
      && CatalogAt(repo, g.editions[p].commit).Some?
      && EditionTransition(CatalogAt(repo, g.editions[p].commit), c) == Accept
    else EditionTransition(None, c) == Accept
  }

  /** A catalog accepted after the default names the default as its predecessor and carries
      a strictly larger version. */
  lemma {:induction false} AcceptedAfterDefault(repo: Repository, g: Registry, r: Release, c: Catalog)
    requires Inv(repo, g) && LegacyEntry(repo, r) && c == CatalogAt(repo, r.commit).value
    requires FollowsDefault(repo, g, c)
    ensures c.docsEdition.value.previousVersion == if g.editions == [] then "" else g.defaultVersion
    ensures DefaultMoves(g.defaultVersion, r.version)
  {
    DefaultPosition(g);
    var p := Position(g.editions, g.defaultVersion);
    if p < |g.editions| {
      EntryVersion(repo, g.editions[p]);
      AcceptedBumpIsSuccessor(g.defaultVersion, r.version, c.docsEdition.value.change);
    } else {
      FirstEdition(c);
    }
  }

  lemma {:induction false} FrontPredecessor(repo: Repository, g: Registry, r: Release, c: Catalog)
    requires c.docsEdition.Some? && Readable(g) && r.version != g.defaultVersion
    requires c.docsEdition.value.previousVersion == if g.editions == [] then "" else g.defaultVersion
    requires FollowsDefault(repo, g, c)
    ensures PredecessorHolds(repo, [r] + g.editions, c)
  {
    DefaultPosition(g);
    FrontPosition(g.editions, r, g.defaultVersion);
  }

  lemma {:induction false} FrontPosition(editions: seq<Release>, r: Release, version: string)
    requires r.version != version
    ensures var p, all := Position(editions, version), [r] + editions;
            Position(all, version) == p + 1 && (p < |editions| ==> all[p + 1] == editions[p])
  {
    assert ([r] + editions)[1..] == editions;
  }

  lemma {:induction false} FrontReadable(g: Registry, r: Release)
    requires Readable(g) && ValidIdentity(r) && !Registered(g.editions, r.version)
    ensures Readable(Registry(r.version, [r] + g.editions))
  {
    var editions := [r] + g.editions;
    assert editions[0] == r;
    forall i | 0 < i < |editions| ensures editions[i] == g.editions[i - 1] && editions[i].version != r.version {
      assert g.editions[i - 1].version != r.version;
    }
  }

  lemma {:induction false} SoundSurvives(repo: Repository, a: seq<Release>, b: seq<Release>, shift: nat, e: Release)
    requires SoundEntry(repo, a, e)
    requires |a| + shift <= |b| && DistinctVersions(b)
    requires forall i :: 0 <= i < |a| ==> a[i] == b[i + shift]
    ensures SoundEntry(repo, b, e)
  {
    if !UmbrellaEntry(repo, e) {
      PredecessorSurvives(repo, a, b, shift, CatalogAt(repo, e.commit).value);
    }
  }

  lemma {:induction false} FrontEntries(repo: Repository, a: seq<Release>, r: Release)
    requires AllSound(repo, a) && DistinctVersions([r] + a) && SoundEntry(repo, [r] + a, r)
    ensures AllSound(repo, [r] + a)
  {
    var b := [r] + a;
    forall i | 0 <= i < |b| ensures SoundEntry(repo, b, b[i]) {
      if i > 0 {
        assert b[i] == a[i - 1];
        assert SoundEntry(repo, a, a[i - 1]);
        SoundSurvives(repo, a, b, 1, a[i - 1]);
      }
    }
  }

  /** A new entry at the front that was accepted against the default. */
  lemma {:induction false} RegisterAdds(repo: Repository, g: Registry, r: Release, c: Catalog)
    requires Inv(repo, g) && ValidIdentity(r) && LegacyEntry(repo, r) && c == CatalogAt(repo, r.commit).value
    requires !Registered(g.editions, r.version) && FollowsDefault(repo, g, c)
    ensures Inv(repo, Registry(r.version, [r] + g.editions))
  {
    AcceptedAfterDefault(repo, g, r, c);
    assert r.version != g.defaultVersion by { StableIsNotEmpty(r.version); }
    FrontReadable(g, r);
    FrontPredecessor(repo, g, r, c);
    FrontEntries(repo, g.editions, r);
  }

  /** Two revisions of one umbrella product have catalogs that agree on everything a
      transition reads. */
  lemma {:induction false} RevisionsAgree(repo: Repository, e: Release, n: Release, c: Catalog)
    requires UmbrellaEntry(repo, e) && UmbrellaEntry(repo, n) && n.version == e.version
    requires e.umbrella.value.productCommit == n.umbrella.value.productCommit
    ensures EditionTransition(CatalogAt(repo, e.commit), c) == EditionTransition(CatalogAt(repo, n.commit), c)
  {
    var a, b := CatalogAt(repo, e.commit).value, CatalogAt(repo, n.commit).value;
    assert Product(repo, e) == Product(repo, n);
    forall i | 0 <= i < |STACK_NAMES| ensures a.Stack(STACK_NAMES[i]) == b.Stack(STACK_NAMES[i]) {
    }
    TransitionReads(a, b, c);
  }

  /** Moving one umbrella entry to another approved commit keeps every predecessor check. */
  lemma {:induction false} ReplacedPredecessor(repo: Repository, a: seq<Release>, at: nat, n: Release, c: Catalog)
    requires at < |a| && UmbrellaEntry(repo, a[at]) && UmbrellaEntry(repo, n) && n.version == a[at].version
    requires a[at].umbrella.value.productCommit == n.umbrella.value.productCommit
    requires c.docsEdition.Some? && PredecessorHolds(repo, a, c)
    ensures PredecessorHolds(repo, a[at := n], c)
  {
    var prev := c.docsEdition.value.previousVersion;
    if prev != "" {
      var p := Position(a, prev);
      PositionIs(a[at := n], prev, p);
      if p == at { RevisionsAgree(repo, a[at], n, c); }
    }
  }

  lemma {:induction false} ReplacedEntries(repo: Repository, a: seq<Release>, at: nat, n: Release)
    requires at < |a| && UmbrellaEntry(repo, a[at]) && UmbrellaEntry(repo, n) && n.version == a[at].version
    requires a[at].umbrella.value.productCommit == n.umbrella.value.productCommit
    requires AllSound(repo, a)
    ensures AllSound(repo, a[at := n])
  {
    var b := a[at := n];
    forall i | 0 <= i < |b| ensures SoundEntry(repo, b, b[i]) {
      if i != at {
        assert b[i] == a[i];
        assert SoundEntry(repo, a, a[i]);
        if !UmbrellaEntry(repo, a[i]) {
          ReplacedPredecessor(repo, a, at, n, CatalogAt(repo, a[i].commit).value);
        }
      }
    }
  }

  lemma {:induction false} ReplacedReadable(g: Registry, at: nat, n: Release)
    requires Readable(g) && at < |g.editions| && ValidIdentity(n) && n.version == g.editions[at].version
    ensures Readable(g.(editions := g.editions[at := n]))
  {
    var editions := g.editions[at := n];
    forall i | 0 <= i < |editions| ensures editions[i].version == g.editions[i].version && ValidIdentity(editions[i]) {
    }
    DefaultPosition(g);
    assert editions[Position(g.editions, g.defaultVersion)].version == g.defaultVersion;
  }

  lemma {:induction false} AppendedEntries(repo: Repository, a: seq<Release>, r: Release)
    requires AllSound(repo, a) && DistinctVersions(a + [r]) && UmbrellaEntry(repo, r)
    ensures AllSound(repo, a + [r])
  {
    var b := a + [r];
    forall i | 0 <= i < |b| ensures SoundEntry(repo, b, b[i]) {
      if i < |a| { OldEntry(repo, a, r, i); }
    }
  }

  lemma {:induction false} OldEntry(repo: Repository, a: seq<Release>, r: Release, i: nat)
    requires AllSound(repo, a) && DistinctVersions(a + [r]) && i < |a|
    ensures SoundEntry(repo, a + [r], (a + [r])[i])
  {
    assert (a + [r])[i] == a[i];
    assert SoundEntry(repo, a, a[i]);
    SoundSurvives(repo, a, a + [r], 0, a[i]);
  }

  lemma {:induction false} AppendedReadable(g: Registry, r: Release)
    requires Readable(g) && ValidIdentity(r) && !Registered(g.editions, r.version)
    requires g.editions == [] ==> g.defaultVersion == ""
    ensures Readable(Registry(if g.defaultVersion == "" then r.version else g.defaultVersion, g.editions + [r]))
  {
    var editions := g.editions + [r];
    forall i | 0 <= i < |editions| ensures ValidIdentity(editions[i]) {
      if i < |g.editions| { assert editions[i] == g.editions[i]; }
    }
    forall i, j | 0 <= i < j < |editions| ensures editions[i].version != editions[j].version {
      assert editions[i] == g.editions[i];
      if j < |g.editions| { assert editions[j] == g.editions[j]; }
    }
    DefaultPosition(g);
    if g.editions != [] {
      assert editions[Position(g.editions, g.defaultVersion)].version == g.defaultVersion;
    } else {
      assert editions[0].version == r.version;
    }
  }

  /** What a registration that changes the file has checked. */
  lemma {:induction false} RegisterChanged(repo: Repository, g: Registry, r: Release, outside: bool)
    requires Inv(repo, g) && r.mode == "" && r.umbrella.None? && Register(repo, g, r, outside).0 != g
    ensures ValidIdentity(r) && LegacyEntry(repo, r) && CatalogAt(repo, r.commit).Some?
    ensures !Registered(g.editions, r.version) && FollowsDefault(repo, g, CatalogAt(repo, r.commit).value)
    ensures Register(repo, g, r, outside).0 == Registry(r.version, [r] + g.editions)
  {
    assert VerifyRef(repo, r, outside) == CatalogAt(repo, r.commit) && LegacyEntry(repo, r);
    NoPosition(g.editions, r.version);
    DefaultPosition(g);
  }

  lemma {:induction false} RegisteredEvolves(repo: Repository, g: Registry, r: Release)
    requires Inv(repo, g) && LegacyEntry(repo, r) && CatalogAt(repo, r.commit).Some?
    requires FollowsDefault(repo, g, CatalogAt(repo, r.commit).value)
    ensures Evolves(g, Registry(r.version, [r] + g.editions))
  {
    AcceptedAfterDefault(repo, g, r, CatalogAt(repo, r.commit).value);
    FrontKept(g.editions, r);
  }

  lemma {:induction false} FrontKept(editions: seq<Release>, r: Release)
    ensures EntriesKept(editions, [r] + editions)
  {
    ShiftKept(editions, [r] + editions, 1);
  }

  /** Every step keeps the invariant and only evolves the registry. */
  lemma {:induction false} RegisterKeeps(repo: Repository, g: Registry, r: Release, outside: bool)
    requires Inv(repo, g) && r.mode == "" && r.umbrella.None?
    ensures Inv(repo, Register(repo, g, r, outside).0) && Evolves(g, Register(repo, g, r, outside).0)
  {
    if Register(repo, g, r, outside).0 == g {
      SameEvolves(g);
    } else {
      RegisterChanged(repo, g, r, outside);
      RegisterAdds(repo, g, r, CatalogAt(repo, r.commit).value);
      RegisteredEvolves(repo, g, r);
    }
  }

  lemma {:induction false} SameEvolves(g: Registry)
    ensures Evolves(g, g)
  {
    ShiftKept(g.editions, g.editions, 0);
  }

  lemma {:induction false} ShiftKept(a: seq<Release>, b: seq<Release>, shift: nat)
    requires |a| + shift <= |b| && forall i :: 0 <= i < |a| ==> a[i] == b[i + shift]
    ensures EntriesKept(a, b)
  {
    forall i | 0 <= i < |a| ensures KeptIn(a[i], b) {
      assert EntryKept(a[i], b[i + shift]);
    }
  }

  lemma {:induction false} ReviseKeeps(repo: Repository, g: Registry, r: Release, outside: bool)
    requires Inv(repo, g)
    ensures Inv(repo, Revise(repo, g, r, outside).0) && Evolves(g, Revise(repo, g, r, outside).0)
  {
    var g' := Revise(repo, g, r, outside).0;
    var at := Position(g.editions, r.version);
    if g' == g {
      SameEvolves(g);
    } else if at == |g.editions| {
      NoPosition(g.editions, r.version);
      AppendedReadable(g, r);
      AppendedEntries(repo, g.editions, r);
      ShiftKept(g.editions, g.editions + [r], 0);
    } else {
      ReviseReplaces(repo, g, r, outside);
    }
  }

  lemma {:induction false} ReviseReplaces(repo: Repository, g: Registry, r: Release, outside: bool)
    requires Inv(repo, g) && Revise(repo, g, r, outside).1 && Position(g.editions, r.version) < |g.editions|
    ensures Inv(repo, Revise(repo, g, r, outside).0) && Evolves(g, Revise(repo, g, r, outside).0)
  {
    var at := Position(g.editions, r.version);
    var e := g.editions[at];
    var n := Revised(e, r);
    assert SoundEntry(repo, g.editions, e) && UmbrellaEntry(repo, e) && UmbrellaEntry(repo, n);
    ReplacedReadable(g, at, n);
    ReplacedEntries(repo, g.editions, at, n);
    ReplacedKept(g.editions, at, n);
  }

  lemma {:induction false} ReplacedKept(a: seq<Release>, at: nat, n: Release)
    requires at < |a| && EntryKept(a[at], n)
    ensures EntriesKept(a, a[at := n])
  {
    var b := a[at := n];
    forall i | 0 <= i < |a| ensures KeptIn(a[i], b) {
      assert EntryKept(a[i], b[i]);
    }
  }

  lemma {:induction false} ExecuteKeeps(repo: Repository, g: Registry, c: Command)
    requires Inv(repo, g)
    ensures Inv(repo, Execute(repo, g, c).0) && Evolves(g, Execute(repo, g, c).0)
  {
    match c
    case RegisterEdition(v, commit, outside) =>
      RegisterKeeps(repo, g, Release(v, "docs/releases/" + v, commit, "", None), outside);
    case ReviseDocs(v, product, digest, commit, outside) =>
      ReviseKeeps(repo, g, Release(v, "docs/versions/" + v, commit, "umbrella", Some(Binding(product, digest, [commit]))), outside);
  }

  // ---- Whole runs ----

  /** A run of commands, whatever their arguments and whatever the remote answers, from the
      state in which no registry file exists. */
  ghost predicate IsRun(repo: Repository, states: seq<Registry>, commands: seq<Command>) {
    && |states| == |commands| + 1 && states[0] == EMPTY
    && forall k :: 0 <= k < |commands| ==> states[k + 1] == Execute(repo, states[k], commands[k]).0
  }

  lemma {:induction false} RunKeepsInv(repo: Repository, states: seq<Registry>, commands: seq<Command>, k: nat)
    requires IsRun(repo, states, commands) && k < |states|
    ensures Inv(repo, states[k])
  {
    if k > 0 {
      RunKeepsInv(repo, states, commands, k - 1);
      ExecuteKeeps(repo, states[k - 1], commands[k - 1]);
      assert states[k - 1 + 1] == Execute(repo, states[k - 1], commands[k - 1]).0;
    }
  }

  lemma {:induction false} EvolvesTransitive(a: Registry, b: Registry, c: Registry)
    requires Evolves(a, b) && Evolves(b, c)
    ensures Evolves(a, c)
  {
    forall i | 0 <= i < |a.editions| ensures KeptIn(a.editions[i], c.editions) {
      assert KeptIn(a.editions[i], b.editions);
      var j :| 0 <= j < |b.editions| && EntryKept(a.editions[i], b.editions[j]);
      assert KeptIn(b.editions[j], c.editions);
      var k :| 0 <= k < |c.editions| && EntryKept(b.editions[j], c.editions[k]);
      assert EntryKept(a.editions[i], c.editions[k]);
    }
    DefaultMovesTransitive(a.defaultVersion, b.defaultVersion, c.defaultVersion);
  }

  lemma {:induction false} DefaultMovesTransitive(a: string, b: string, c: string)
    requires DefaultMoves(a, b) && DefaultMoves(b, c)
    ensures DefaultMoves(a, c)
  {
    if a != "" && a != b { StableIsNotEmpty(b); }
  }

  /** A reflexive and transitive relation that each step keeps holds along the whole run. */
  lemma {:induction false} KeptAlong(states: seq<Registry>, rel: (Registry, Registry) -> bool, i: nat, j: nat)
    requires i <= j < |states|
    requires forall a :: rel(a, a)
    requires forall a, b, c :: rel(a, b) && rel(b, c) ==> rel(a, c)
    requires forall k {:trigger states[k]} :: 0 <= k < |states| - 1 ==> rel(states[k], states[k + 1])
    ensures rel(states[i], states[j])
    decreases j
  {
    if i < j {
      KeptAlong(states, rel, i, j - 1);
      assert rel(states[j - 1], states[j - 1 + 1]);
    }
  }

  lemma {:induction false} RunEvolves(repo: Repository, states: seq<Registry>, commands: seq<Command>, i: nat, j: nat)
    requires IsRun(repo, states, commands) && i <= j < |states|
    ensures Evolves(states[i], states[j])
  {
    var rel := (a: Registry, b: Registry) => Evolves(a, b);
    forall a ensures rel(a, a) { SameEvolves(a); }
    forall a, b, c | rel(a, b) && rel(b, c) ensures rel(a, c) { EvolvesTransitive(a, b, c); }
    forall k | 0 <= k < |states| - 1 ensures rel(states[k], states[k + 1]) { StepEvolves(repo, states, commands, k); }
    KeptAlong(states, rel, i, j);
  }

  lemma {:induction false} StepEvolves(repo: Repository, states: seq<Registry>, commands: seq<Command>, k: nat)
    requires IsRun(repo, states, commands) && k + 1 < |states|
    ensures Evolves(states[k], states[k + 1])
  {
    RunKeepsInv(repo, states, commands, k);
    ExecuteKeeps(repo, states[k], commands[k]);
    assert states[k + 1] == Execute(repo, states[k], commands[k]).0;
  }

  /** Every state of every run: versions are distinct, the default is registered, revision
      lists hold the current commit without duplicates, and the predecessor check passes
      although umbrella revisions have moved commits since the predecessors were accepted. */
  lemma {:induction false} EveryReachableRegistry(repo: Repository, states: seq<Registry>, commands: seq<Command>, k: nat)
    requires IsRun(repo, states, commands) && k < |states|
    ensures Readable(states[k])
    ensures forall i :: 0 <= i < |states[k].editions| && states[k].editions[i].umbrella.Some? ==>
              var e := states[k].editions[i];
              && e.commit in e.umbrella.value.revisions
              && forall x, y :: 0 <= x < y < |e.umbrella.value.revisions| ==> e.umbrella.value.revisions[x] != e.umbrella.value.revisions[y]
    ensures forall i :: 0 <= i < |states[k].editions| && states[k].editions[i].mode == "" ==>
              && LegacyEntry(repo, states[k].editions[i])
              && PredecessorHolds(repo, states[k].editions, CatalogAt(repo, states[k].editions[i].commit).value)
  {
    RunKeepsInv(repo, states, commands, k);
    forall i | 0 <= i < |states[k].editions|
      ensures SoundEntry(repo, states[k].editions, states[k].editions[i]) && ValidIdentity(states[k].editions[i])
    {
    }
  }

  /** Every pair of states of every run: the later registry still holds each earlier entry
      with its mode, ref, product commit and manifest digest (and a legacy entry unchanged),
      and a changed default carries a strictly larger version. */
  lemma {:induction false} EveryReachablePair(repo: Repository, states: seq<Registry>, commands: seq<Command>, i: nat, j: nat, k: nat)
    requires IsRun(repo, states, commands) && i <= j < |states| && k < |states[i].editions|
    ensures var e := states[i].editions[k];
            var at := Position(states[j].editions, e.version);
            at < |states[j].editions| && EntryKept(e, states[j].editions[at])
    ensures DefaultMoves(states[i].defaultVersion, states[j].defaultVersion)
  {
    RunEvolves(repo, states, commands, i, j);
    RunKeepsInv(repo, states, commands, j);
    var e, later := states[i].editions[k], states[j].editions;
    assert KeptIn(e, later);
    var at :| 0 <= at < |later| && EntryKept(e, later[at]);
    PositionIs(later, e.version, at);
  }

  lemma {:induction false} ReleaseRefIsPlain(r: Release)
    requires r.ref == "docs/releases/" + r.version && ValidIdentity(r)
    ensures r.mode == "" && r.umbrella.None?
  {
    assert ("docs/versions/" + r.version)[5] == 'v';
    assert ("docs/releases/" + r.version)[5] == 'r';
  }

  /** Nothing in `registerEdition` itself checks the mode: an entry it adds keeps the file
      readable exactly when the caller passed a plain release, as the command line does. */
  lemma {:induction false} RegisterReadableIff(repo: Repository, g: Registry, r: Release, outside: bool)
    requires Readable(g) && Register(repo, g, r, outside).0 != g
    ensures Readable(Register(repo, g, r, outside).0) <==> (r.mode == "" && r.umbrella.None?)
  {
    var g' := Register(repo, g, r, outside).0;
    assert g' == Registry(r.version, [r] + g.editions) && g'.editions[0] == r;
    if Readable(g') {
      ReleaseRefIsPlain(r);
    } else if r.mode == "" && r.umbrella.None? {
      NoPosition(g.editions, r.version);
      FrontReadable(g, r);
    }
  }

  /** The family that it lets through: whenever a plain release would be added, the same
      release under any other mode but `umbrella` is added too, and from then on no command
      gets past reading the file. */
  lemma {:induction false} OddModeLocksTheFile(repo: Repository, g: Registry, r: Release, outside: bool, mode: string, c: Command)
    requires Readable(g) && Register(repo, g, r, outside).0 != g && r.mode == "" && r.umbrella.None?
    requires mode != "" && mode != "umbrella"
    ensures var (locked, ok) := Register(repo, g, r.(mode := mode), outside);
            ok && locked == Registry(r.version, [r.(mode := mode)] + g.editions) && Execute(repo, locked, c) == (locked, false)
  {
    var odd := r.(mode := mode);
    var locked := Register(repo, g, odd, outside).0;
    assert locked.editions[0] == odd;
    RegisterReadableIff(repo, g, odd, outside);
  }

  // ---- The commands as they run ----

  /** `fern/editions.yml`; a missing file reads as the empty registry. */
  class RegistryFile {
    var contents: Registry

    constructor ()
      ensures contents == EMPTY
    {
      contents := EMPTY;
    }

    /** `readEditionRegistry` */
    method Read() returns (ok: bool)
      ensures ok == Readable(contents)
    {
      var editions := contents.editions;
      var seen: set<string> := {};
      for k := 0 to |editions|
        invariant forall i :: 0 <= i < k ==> ValidIdentity(editions[i])
        invariant forall i, j :: 0 <= i < j < k ==> editions[i].version != editions[j].version
        invariant forall v :: v in seen <==> exists i :: 0 <= i < k && editions[i].version == v
      {
        if !ValidIdentity(editions[k]) || editions[k].version in seen { return false; }
        seen := seen + {editions[k].version};
      }
      return !(|editions| > 0 && contents.defaultVersion !in seen);
    }

    /** `registerEdition` */
    method RegisterEdition(repo: Repository, r: Release, outside: bool) returns (ok: bool)
      modifies this
      ensures (contents, ok) == Register(repo, old(contents), r, outside)
    {
      if !ValidStable(r.version) || r.ref != "docs/releases/" + r.version || !IsCommit(r.commit) { return false; }
      var readable := Read();
      if !readable { return false; }
      var editions := contents.editions;
      for k := 0 to |editions|
        invariant forall i :: 0 <= i < k ==> editions[i].version != r.version
      {
        if editions[k].version == r.version {
          PositionIs(editions, r.version, k);
          if editions[k] != r || r.umbrella.Some? { return false; }
          return VerifyRef(repo, r, outside).Some?;
        }
      }
      assert Position(editions, r.version) == |editions|;
      var catalog := VerifyRef(repo, r, outside);
      if catalog.None? { return false; }
      var previous: Option<Catalog> := None;
      ghost var at := Position(editions, contents.defaultVersion);
      if contents.defaultVersion != "" {
        for k := 0 to |editions|
          invariant previous == if at < k then CatalogAt(repo, editions[at].commit) else None
          invariant at < k ==> previous.Some?
        {
          if editions[k].version == contents.defaultVersion {
            assert at == k;
            previous := CatalogAt(repo, editions[k].commit);
            if previous.None? { return false; }
          }
        }
      } else {
        DefaultPosition(contents);
      }
      if EditionTransition(previous, catalog.value) != Accept { return false; }
      contents := Registry(r.version, [r] + editions);
      return true;
    }

    /** `reviseUmbrellaDocs` */
    method ReviseDocs(repo: Repository, r: Release, outside: bool) returns (ok: bool)
      modifies this
      ensures (contents, ok) == Revise(repo, old(contents), r, outside)
    {
      if !ValidIdentity(r) || r.umbrella.None? { return false; }
      var readable := Read();
      if !readable { return false; }
      var editions, release, index := contents.editions, r, -1;
      ghost var at := Position(editions, r.version);
      for k := 0 to |editions|
        invariant index == if at < k then at else -1
        invariant at < k ==> editions[at].umbrella.Some? && SameProduct(editions[at], r)
        invariant release == if at < k then r.(umbrella := Some(r.umbrella.value.(revisions := editions[at].umbrella.value.revisions))) else r
      {
        if editions[k].version == r.version {
          assert at == k;
          index := k;
          var existing := editions[k];
          if existing.mode != "umbrella" || existing.ref != r.ref
             || existing.umbrella.value.productCommit != r.umbrella.value.productCommit
             || existing.umbrella.value.manifestSHA256 != r.umbrella.value.manifestSHA256 { return false; }
          release := r.(umbrella := Some(r.umbrella.value.(revisions := existing.umbrella.value.revisions)));
        }
      }
      if release.commit !in release.umbrella.value.revisions {
        release := release.(umbrella := Some(release.umbrella.value.(revisions := release.umbrella.value.revisions + [release.commit])));
      }
      if VerifyUmbrellaRef(repo, release, outside).None? { return false; }
      if index < 0 {
        contents := Registry(if contents.defaultVersion == "" then r.version else contents.defaultVersion, editions + [release]);
      } else {
        contents := contents.(editions := editions[index := release]);
      }
      return true;
    }

    /** The catalog checks of `validateEditionRegistry`, with the outside verdict per entry. */
    method ValidatePredecessors(repo: Repository, outside: seq<bool>) returns (ok: bool)
      requires |outside| == |contents.editions|
      ensures ok == PassesCheck(repo, contents, outside)
    {
      var readable := Read();
      if !readable { return false; }
      var verified, catalogs := CollectCatalogs(contents.editions, Verified(repo, contents.editions, outside));
      if !verified {
        ghost var k :| 0 <= k < |outside| && Verified(repo, contents.editions, outside)[k].None?;
        assert !EntryPasses(repo, contents, outside, k);
        return false;
      }
      ghost var bad: Option<string>;
      ok, bad := CheckCatalogs(catalogs);
      if ok {
        AllEntriesPass(repo, contents, outside, catalogs);
      } else {
        SomeEntryFails(repo, contents, outside, catalogs, bad.value);
      }
    }
  }

  /** The first loop: file each verified catalog under its entry's version, stopping at the
      first entry that does not verify. */
  method CollectCatalogs(editions: seq<Release>, verified: seq<Option<Catalog>>)
    returns (ok: bool, catalogs: map<string, Catalog>)
    requires |verified| == |editions| && DistinctVersions(editions)
    ensures ok <==> forall i :: 0 <= i < |verified| ==> verified[i].Some?
    ensures ok ==> CatalogsUpTo(editions, verified, catalogs, |editions|)
  {
    catalogs := map[];
    for k := 0 to |editions|
      invariant forall i :: 0 <= i < k ==> verified[i].Some?
      invariant CatalogsUpTo(editions, verified, catalogs, k)
    {
      if verified[k].None? { return false, catalogs; }
      PositionIs(editions, editions[k].version, k);
      catalogs := catalogs[editions[k].version := verified[k].value];
    }
    return true, catalogs;
  }

  /** `verifyEditionRef` over the whole registry. */
  function Verified(repo: Repository, editions: seq<Release>, outside: seq<bool>): (v: seq<Option<Catalog>>)
    requires |outside| == |editions|
    ensures |v| == |editions| && forall i :: 0 <= i < |v| ==> v[i] == VerifyRef(repo, editions[i], outside[i])
  {
    seq(|editions|, i requires 0 <= i < |editions| => VerifyRef(repo, editions[i], outside[i]))
  }

  /** The second loop, which ranges over a Go map: its order is arbitrary. */
  method CheckCatalogs(catalogs: map<string, Catalog>) returns (ok: bool, ghost bad: Option<string>)
    ensures ok <==> forall v :: v in catalogs ==> CatalogPasses(catalogs, catalogs[v])
    ensures !ok ==> bad.Some? && bad.value in catalogs && !CatalogPasses(catalogs, catalogs[bad.value])
  {
    var todo := catalogs.Keys;
    while todo != {}
      invariant todo <= catalogs.Keys
      invariant forall v :: v in catalogs && v !in todo ==> CatalogPasses(catalogs, catalogs[v])
    {
      var v :| v in todo;
      if !CatalogPasses(catalogs, catalogs[v]) { return false, Some(v); }
      todo := todo - {v};
    }
    return true, None;
  }

  /** The map that `validateEditionRegistry` fills. */
  ghost predicate CatalogsUpTo(editions: seq<Release>, verified: seq<Option<Catalog>>, catalogs: map<string, Catalog>, k: nat)
    requires |verified| == |editions| && k <= |editions|
  {
    && (forall v :: v in catalogs ==> Position(editions, v) < k)
    && (forall i :: 0 <= i < k ==>
          && editions[i].version in catalogs
          && verified[i] == Some(catalogs[editions[i].version]))
  }

  /** One pass of its second loop. */
  predicate CatalogPasses(catalogs: map<string, Catalog>, c: Catalog) {
    || c.umbrellaManifestSHA256 != ""
    || (c.docsEdition.Some? &&
        var prev := c.docsEdition.value.previousVersion;
        if prev == "" then EditionTransition(None, c) == Accept
        else prev in catalogs && EditionTransition(Some(catalogs[prev]), c) == Accept)
  }

  ghost predicate EntryPasses(repo: Repository, g: Registry, outside: seq<bool>, i: nat)
    requires |outside| == |g.editions| && i < |g.editions|
  {
    var c := VerifyRef(repo, g.editions[i], outside[i]);
    c.Some? && (c.value.umbrellaManifestSHA256 != "" || PredecessorHolds(repo, g.editions, c.value))
  }

  /** What `validateEditionRegistry` accepts. */
  ghost predicate PassesCheck(repo: Repository, g: Registry, outside: seq<bool>)
    requires |outside| == |g.editions|
  {
    Readable(g) && forall i :: 0 <= i < |g.editions| ==> EntryPasses(repo, g, outside, i)
  }

  lemma {:induction false} EntryByMap(repo: Repository, g: Registry, outside: seq<bool>, catalogs: map<string, Catalog>, i: nat)
    requires |outside| == |g.editions| && i < |g.editions| && DistinctVersions(g.editions)
    requires CatalogsUpTo(g.editions, Verified(repo, g.editions, outside), catalogs, |g.editions|)
    ensures g.editions[i].version in catalogs
    ensures EntryPasses(repo, g, outside, i) <==> CatalogPasses(catalogs, catalogs[g.editions[i].version])
  {
    var c := catalogs[g.editions[i].version];
    assert Verified(repo, g.editions, outside)[i] == Some(c);
    var prev := c.docsEdition.value.previousVersion;
    var p := Position(g.editions, prev);
    if p < |g.editions| {
      assert Verified(repo, g.editions, outside)[p] == Some(catalogs[g.editions[p].version]);
    } else {
      assert prev !in catalogs;
    }
  }

  lemma {:induction false} SomeEntryFails(repo: Repository, g: Registry, outside: seq<bool>, catalogs: map<string, Catalog>, v: string)
    requires |outside| == |g.editions| && DistinctVersions(g.editions)
    requires CatalogsUpTo(g.editions, Verified(repo, g.editions, outside), catalogs, |g.editions|)
    requires v in catalogs && !CatalogPasses(catalogs, catalogs[v])
    ensures !PassesCheck(repo, g, outside)
  {
    var i := Position(g.editions, v);
    EntryByMap(repo, g, outside, catalogs, i);
    assert !EntryPasses(repo, g, outside, i);
  }

  lemma {:induction false} AllEntriesPass(repo: Repository, g: Registry, outside: seq<bool>, catalogs: map<string, Catalog>)
    requires |outside| == |g.editions| && Readable(g)
    requires CatalogsUpTo(g.editions, Verified(repo, g.editions, outside), catalogs, |g.editions|)
    requires forall v :: v in catalogs ==> CatalogPasses(catalogs, catalogs[v])
    ensures PassesCheck(repo, g, outside)
  {
    forall i | 0 <= i < |g.editions| ensures EntryPasses(repo, g, outside, i) {
      EntryByMap(repo, g, outside, catalogs, i);
    }
  }

  /** A sound entry passes exactly when its outside check does: nothing that depends on the
      repository alone can fail it. */
  lemma {:induction false} SoundEntryPassesIff(repo: Repository, g: Registry, outside: seq<bool>, i: nat)
    requires Inv(repo, g) && |outside| == |g.editions| && i < |g.editions|
    ensures EntryPasses(repo, g, outside, i) <==> outside[i]
  {
    var e := g.editions[i];
    assert SoundEntry(repo, g.editions, e);
    EntryVersion(repo, e);
  }

  /** In every reachable registry the check passes exactly when every outside check does. */
  lemma {:induction false} ReachableRegistryPasses(repo: Repository, states: seq<Registry>, commands: seq<Command>, k: nat, outside: seq<bool>)
    requires IsRun(repo, states, commands) && k < |states| && |outside| == |states[k].editions|
    ensures PassesCheck(repo, states[k], outside) <==> forall i :: 0 <= i < |outside| ==> outside[i]
  {
    RunKeepsInv(repo, states, commands, k);
    forall i | 0 <= i < |outside| ensures EntryPasses(repo, states[k], outside, i) <==> outside[i] {
      SoundEntryPassesIff(repo, states[k], outside, i);
    }
  }

  predicate SameProduct(e: Release, r: Release)
    requires e.umbrella.Some? && r.umbrella.Some?
  {
    && e.mode == "umbrella" && e.ref == r.ref
    && e.umbrella.value.productCommit == r.umbrella.value.productCommit
    && e.umbrella.value.manifestSHA256 == r.umbrella.value.manifestSHA256
  }
}
