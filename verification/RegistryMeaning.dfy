/** What the two registry commands do, stated on the repository and the file alone. */
module RegistryMeaning {
  import opened Text
  import opened Versions
  import opened Editions
  import opened Umbrella
  import opened EditionRegistry

  // ---- What the file must hold ----

  /** Lower-case hexadecimal digits, this many. */
  predicate HexText(s: string, n: nat) {
    |s| == n && forall i :: 0 <= i < |s| ==> '0' <= s[i] <= '9' || 'a' <= s[i] <= 'f'
  }

  ghost predicate DigestText(s: string) { exists hex :: HexText(hex, 64) && s == "sha256:" + hex }

  /** An entry of either kind, by its fields. */
  ghost predicate EntryText(e: Release) {
    && ValidStable(e.version) && HexText(e.commit, 40)
    && (|| e == Release(e.version, "docs/releases/" + e.version, e.commit, "", None)
        || (&& e.mode == "umbrella" && e.ref == "docs/versions/" + e.version && e.umbrella.Some?
            && var b := e.umbrella.value;
               && HexText(b.productCommit, 40) && DigestText(b.manifestSHA256) && e.commit in b.revisions
               && (forall i :: 0 <= i < |b.revisions| ==> HexText(b.revisions[i], 40))
               && forall i, j :: 0 <= i < j < |b.revisions| ==> b.revisions[i] != b.revisions[j]))
  }

  lemma {:induction false} DigestIff(s: string)
    ensures IsDigest(s) <==> DigestText(s)
  {
    if IsDigest(s) {
      assert s == "sha256:" + s[7..] && HexText(s[7..], 64);
    }
    if DigestText(s) {
      var hex :| HexText(hex, 64) && s == "sha256:" + hex;
      assert s[..7] == "sha256:" && s[7..] == hex;
    }
  }

  lemma {:induction false} EntryIff(e: Release)
    ensures ValidIdentity(e) <==> EntryText(e)
  {
    if e.umbrella.Some? { DigestIff(e.umbrella.value.manifestSHA256); }
  }

  /** The file can be read exactly when its entries are such, of different versions, and the
      default is one of them. */
  lemma {:induction false} ReadableIff(g: Registry)
    ensures Readable(g) <==>
            && (forall i :: 0 <= i < |g.editions| ==> EntryText(g.editions[i]))
            && (forall i, j :: 0 <= i < j < |g.editions| ==> g.editions[i].version != g.editions[j].version)
            && (g.editions != [] ==> exists i :: 0 <= i < |g.editions| && g.editions[i].version == g.defaultVersion)
  {
    forall i | 0 <= i < |g.editions| ensures ValidIdentity(g.editions[i]) <==> EntryText(g.editions[i]) { EntryIff(g.editions[i]); }
  }

  // ---- What the repository must hold ----

  /** The catalog at a commit, with an edition whose declared bump is valid. */
  ghost predicate Commits(repo: Repository, commit: string, c: Catalog) {
    && repo.catalogs(commit) == Some(c) && c.docsEdition.Some?
    && var e := c.docsEdition.value; EditionBump(e.previousVersion, e.version, e.change) == Accept
  }

  /** The manifest of a product: of this version and digest, and qualified. */
  ghost predicate Qualifies(repo: Repository, product: string, version: string, digest: string, m: Manifest) {
    repo.manifests(product, version) == Some(ManifestFile(m, digest)) && m.version == version && m.status == "qualified"
  }

  function Locked(s: UmbrellaStack): StackRelease { StackRelease(s.version, s.sourceTag, s.sourceCommit, s.inventoryAsset) }

  /** A catalog that says of its edition and its stacks what the manifest does. */
  ghost predicate Binds(c: Catalog, m: Manifest, digest: string) {
    && c.docsEdition == Some(DocsEdition(m.version, m.status, m.previousVersion, m.change, m.qualification))
    && c.umbrellaManifestSHA256 == digest
    && c.controlPlane == Locked(m.Stack("control-plane")) && c.computePlane == Locked(m.Stack("compute-plane"))
    && c.observability == Locked(m.Stack("observability"))
  }

  /** The docs at a commit can be a revision of the product. */
  ghost predicate Approves(repo: Repository, version: string, product: string, digest: string, commit: string) {
    exists c, m :: Commits(repo, commit, c) && Qualifies(repo, product, version, digest, m) && Binds(c, m, digest)
  }

  lemma {:induction false} CommitsIff(repo: Repository, commit: string, c: Catalog)
    ensures Commits(repo, commit, c) <==> CatalogAt(repo, commit) == Some(c) && c.docsEdition.Some?
  {
  }

  lemma {:induction false} BindsIff(c: Catalog, m: Manifest, digest: string)
    ensures Binds(c, m, digest) <==> BindsManifest(c, ManifestFile(m, digest))
  {
    assert STACK_NAMES[0] == "control-plane" && STACK_NAMES[1] == "compute-plane" && STACK_NAMES[2] == "observability";
    assert |STACK_NAMES| == 3;
  }

  /** The verdict on an umbrella entry, for one that the registry can hold. */
  lemma {:induction false} VerifiesIff(repo: Repository, r: Release, outside: bool)
    requires ValidIdentity(r) && r.umbrella.Some?
    ensures VerifyUmbrellaRef(repo, r, outside).Some? <==>
            outside && Approves(repo, r.version, r.umbrella.value.productCommit, r.umbrella.value.manifestSHA256, r.commit)
  {
    var product, digest := r.umbrella.value.productCommit, r.umbrella.value.manifestSHA256;
    if VerifyUmbrellaRef(repo, r, outside).Some? {
      var c, f := CatalogAt(repo, r.commit).value, Product(repo, r).value;
      assert f == ManifestFile(f.manifest, digest);
      CommitsIff(repo, r.commit, c);
      BindsIff(c, f.manifest, digest);
    }
    if Approves(repo, r.version, product, digest, r.commit) {
      var c, m :| Commits(repo, r.commit, c) && Qualifies(repo, product, r.version, digest, m) && Binds(c, m, digest);
      CommitsIff(repo, r.commit, c);
      BindsIff(c, m, digest);
    }
  }

  // ---- Revising ----

  /** The entry of a version that holds this product. */
  ghost predicate HoldsProduct(e: Release, product: string, digest: string) {
    e.mode == "umbrella" && e.umbrella.Some? && e.umbrella.value.productCommit == product && e.umbrella.value.manifestSHA256 == digest
  }

  function WithCommit(revisions: seq<string>, commit: string): seq<string> {
    if commit in revisions then revisions else revisions + [commit]
  }

  function Entry(version: string, product: string, digest: string, commit: string, revisions: seq<string>): Release {
    Release(version, "docs/versions/" + version, commit, "umbrella", Some(Binding(product, digest, revisions)))
  }

  ghost predicate MayRevise(repo: Repository, g: Registry, version: string, product: string, digest: string, commit: string, outside: bool) {
    && Readable(g) && ValidStable(version) && IsCommit(commit) && IsCommit(product) && IsDigest(digest)
    && outside && Approves(repo, version, product, digest, commit)
    && forall i :: 0 <= i < |g.editions| && g.editions[i].version == version ==> HoldsProduct(g.editions[i], product, digest)
  }

  lemma {:induction false} EntryIsValid(version: string, product: string, digest: string, commit: string, revisions: seq<string>)
    requires Distinct(revisions) && forall i :: 0 <= i < |revisions| ==> IsCommit(revisions[i])
    ensures ValidIdentity(Entry(version, product, digest, commit, WithCommit(revisions, commit))) <==>
            ValidStable(version) && IsCommit(commit) && IsCommit(product) && IsDigest(digest)
  {
    var all := WithCommit(revisions, commit);
    assert forall i :: 0 <= i < |revisions| ==> all[i] == revisions[i];
    assert commit in all && Distinct(all);
  }

  lemma {:induction false} HeldEntry(g: Registry, at: nat, version: string)
    requires Readable(g) && at < |g.editions| && g.editions[at].version == version
    ensures Position(g.editions, version) == at && ValidIdentity(g.editions[at])
    ensures forall i :: 0 <= i < |g.editions| && g.editions[i].version == version ==> i == at
  {
    PositionIs(g.editions, version, at);
  }

  /** A version that is registered: its entry moves to the commit, which joins its revisions,
      and nothing else changes. */
  lemma {:induction false} ReviseHeld(repo: Repository, g: Registry, version: string, product: string, digest: string, commit: string, outside: bool, at: nat)
    requires Readable(g) && at < |g.editions| && g.editions[at].version == version
    ensures var (out, ok) := Execute(repo, g, ReviseDocs(version, product, digest, commit, outside));
            && (ok <==> MayRevise(repo, g, version, product, digest, commit, outside))
            && (!ok ==> out == g)
            && (ok ==> && g.editions[at].umbrella.Some?
                       && out == g.(editions := g.editions[at :=
                                      Entry(version, product, digest, commit, WithCommit(g.editions[at].umbrella.value.revisions, commit))]))
  {
    HeldEntry(g, at, version);
    var e, r := g.editions[at], Entry(version, product, digest, commit, [commit]);
    EntryIsValid(version, product, digest, commit, []);
    assert [] + [commit] == [commit];
    if ValidIdentity(r) && HoldsProduct(e, product, digest) {
      var n := Entry(version, product, digest, commit, WithCommit(e.umbrella.value.revisions, commit));
      EntryIsValid(version, product, digest, commit, e.umbrella.value.revisions);
      VerifiesIff(repo, n, outside);
      assert Revised(e, r) == n;
    }
  }

  /** A version that is not: it is added at the end, and becomes the default of an empty file. */
  lemma {:induction false} ReviseNew(repo: Repository, g: Registry, version: string, product: string, digest: string, commit: string, outside: bool)
    requires !Registered(g.editions, version)
    ensures var (out, ok) := Execute(repo, g, ReviseDocs(version, product, digest, commit, outside));
            && (ok <==> MayRevise(repo, g, version, product, digest, commit, outside))
            && (!ok ==> out == g)
            && (ok ==> out == Registry(if g.defaultVersion == "" then version else g.defaultVersion,
                                       g.editions + [Entry(version, product, digest, commit, [commit])]))
  {
    var r := Entry(version, product, digest, commit, [commit]);
    EntryIsValid(version, product, digest, commit, []);
    assert [] + [commit] == [commit];
    if ValidIdentity(r) { VerifiesIff(repo, r, outside); }
  }

  /** The entry of a version, wherever it stands. */
  ghost predicate HasEntry(g: Registry, e: Release) { exists i :: 0 <= i < |g.editions| && g.editions[i] == e }

  /** A revision succeeds exactly when it may. Then the version is at the commit, with the commit
      among its revisions, and every entry of another version is as it was; otherwise nothing
      has changed. Nothing changes in a success either exactly when the version was at that
      commit already. */
  lemma {:induction false} ReviseMeans(repo: Repository, g: Registry, version: string, product: string, digest: string, commit: string, outside: bool)
    ensures var (out, ok) := Execute(repo, g, ReviseDocs(version, product, digest, commit, outside));
            && (ok <==> MayRevise(repo, g, version, product, digest, commit, outside))
            && (ok ==> exists revisions :: commit in revisions && HasEntry(out, Entry(version, product, digest, commit, revisions)))
            && (forall e: Release :: e.version != version ==> (HasEntry(out, e) <==> HasEntry(g, e)))
            && (out == g <==> !ok || exists e :: HasEntry(g, e) && e.version == version && e.commit == commit)
  {
    var (out, ok) := Execute(repo, g, ReviseDocs(version, product, digest, commit, outside));
    if !Registered(g.editions, version) {
      ReviseNew(repo, g, version, product, digest, commit, outside);
      if ok { Added(g, out, Entry(version, product, digest, commit, [commit])); }
    } else if Readable(g) {
      var at :| 0 <= at < |g.editions| && g.editions[at].version == version;
      ReviseHeld(repo, g, version, product, digest, commit, outside, at);
      HeldEntry(g, at, version);
      if ok { Moved(g, out, at, product, digest, commit); }
    }
  }

  lemma {:induction false} Added(g: Registry, out: Registry, n: Release)
    requires out.editions == g.editions + [n] && !Registered(g.editions, n.version)
    ensures HasEntry(out, n) && out != g
    ensures forall e: Release :: e.version != n.version ==> (HasEntry(out, e) <==> HasEntry(g, e))
    ensures forall e :: HasEntry(g, e) ==> e.version != n.version
  {
    assert out.editions[|g.editions|] == n;
    forall e: Release | e.version != n.version ensures HasEntry(out, e) <==> HasEntry(g, e) {
      if HasEntry(g, e) {
        var i :| 0 <= i < |g.editions| && g.editions[i] == e;
        assert out.editions[i] == e;
      }
      if HasEntry(out, e) {
        var i :| 0 <= i < |out.editions| && out.editions[i] == e;
        assert i < |g.editions| && g.editions[i] == e;
      }
    }
    assert |out.editions| == |g.editions| + 1;
  }

  lemma {:induction false} Moved(g: Registry, out: Registry, at: nat, product: string, digest: string, commit: string)
    requires Readable(g) && at < |g.editions| && HoldsProduct(g.editions[at], product, digest)
    requires out == g.(editions := g.editions[at :=
                         Entry(g.editions[at].version, product, digest, commit, WithCommit(g.editions[at].umbrella.value.revisions, commit))])
    ensures exists revisions :: commit in revisions && HasEntry(out, Entry(g.editions[at].version, product, digest, commit, revisions))
    ensures forall e: Release :: e.version != g.editions[at].version ==> (HasEntry(out, e) <==> HasEntry(g, e))
    ensures out == g <==> exists e :: HasEntry(g, e) && e.version == g.editions[at].version && e.commit == commit
  {
    var was, version := g.editions[at], g.editions[at].version;
    var revisions := WithCommit(was.umbrella.value.revisions, commit);
    var n := Entry(version, product, digest, commit, revisions);
    assert out.editions[at] == n && HasEntry(out, n) && commit in revisions;
    HeldEntry(g, at, version);
    forall e: Release | e.version != version ensures HasEntry(out, e) <==> HasEntry(g, e) { OtherEntry(g, out, at, n, e); }
    if was.commit == commit {
      assert commit in was.umbrella.value.revisions && n == was && HasEntry(g, was);
      assert out.editions == g.editions;
    } else {
      assert out.editions[at] != g.editions[at];
    }
  }

  lemma {:induction false} OtherEntry(g: Registry, out: Registry, at: nat, n: Release, e: Release)
    requires at < |g.editions| && out.editions == g.editions[at := n] && n.version == g.editions[at].version && e.version != n.version
    ensures HasEntry(out, e) <==> HasEntry(g, e)
  {
    if HasEntry(g, e) {
      var i :| 0 <= i < |g.editions| && g.editions[i] == e;
      assert out.editions[i] == e;
    }
    if HasEntry(out, e) {
      var i :| 0 <= i < |out.editions| && out.editions[i] == e;
      assert g.editions[i] == e;
    }
  }

  // ---- Registering ----

  function PlainEntry(version: string, commit: string): Release { Release(version, "docs/releases/" + version, commit, "", None) }

  /** The catalog at the commit is the qualified edition of this version, without a product. */
  ghost predicate Publishes(repo: Repository, version: string, commit: string, c: Catalog) {
    && Commits(repo, commit, c) && c.umbrellaManifestSHA256 == ""
    && c.docsEdition.value.version == version && c.docsEdition.value.status == "qualified"
  }

  /** The catalog may follow the one of the default version; in an empty file, nothing. */
  ghost predicate FollowsNewest(repo: Repository, g: Registry, c: Catalog) {
    if g.editions == [] then EditionTransition(None, c) == Accept
    else exists e, p :: HasEntry(g, e) && e.version == g.defaultVersion && Commits(repo, e.commit, p) && EditionTransition(Some(p), c) == Accept
  }

  ghost predicate MayRegister(repo: Repository, g: Registry, version: string, commit: string, outside: bool) {
    && Readable(g) && ValidStable(version) && IsCommit(commit) && outside
    && (exists c :: Publishes(repo, version, commit, c) && (Registered(g.editions, version) || FollowsNewest(repo, g, c)))
    && (Registered(g.editions, version) ==> HasEntry(g, PlainEntry(version, commit)))
  }

  lemma {:induction false} PublishesIff(repo: Repository, version: string, commit: string, outside: bool, c: Catalog)
    ensures VerifyRef(repo, PlainEntry(version, commit), outside) == Some(c) <==> outside && Publishes(repo, version, commit, c)
  {
    CommitsIff(repo, commit, c);
  }

  lemma {:induction false} FollowsIff(repo: Repository, g: Registry, c: Catalog)
    requires Readable(g)
    ensures FollowsNewest(repo, g, c) <==> FollowsDefault(repo, g, c)
  {
    DefaultPosition(g);
    var p := Position(g.editions, g.defaultVersion);
    if g.editions != [] {
      if FollowsDefault(repo, g, c) {
        var previous := CatalogAt(repo, g.editions[p].commit).value;
        CommitsIff(repo, g.editions[p].commit, previous);
        assert HasEntry(g, g.editions[p]);
      }
      if FollowsNewest(repo, g, c) {
        var e, previous :| HasEntry(g, e) && e.version == g.defaultVersion && Commits(repo, e.commit, previous) && EditionTransition(Some(previous), c) == Accept;
        var i :| 0 <= i < |g.editions| && g.editions[i] == e;
        HeldEntry(g, i, g.defaultVersion);
        CommitsIff(repo, e.commit, previous);
      }
    }
  }

  lemma {:induction false} RegisterHeld(repo: Repository, g: Registry, version: string, commit: string, outside: bool)
    requires Readable(g) && ValidStable(version) && IsCommit(commit) && Registered(g.editions, version)
    ensures var (out, ok) := Execute(repo, g, RegisterEdition(version, commit, outside));
            out == g && (ok <==> MayRegister(repo, g, version, commit, outside))
  {
    var at :| 0 <= at < |g.editions| && g.editions[at].version == version;
    var r := PlainEntry(version, commit);
    HeldEntry(g, at, version);
    assert g.editions[at] == r ==> HasEntry(g, r);
    if HasEntry(g, r) { var i :| 0 <= i < |g.editions| && g.editions[i] == r; }
    VerifiedPlain(repo, version, commit, outside);
  }

  lemma {:induction false} VerifiedPlain(repo: Repository, version: string, commit: string, outside: bool)
    ensures var c := VerifyRef(repo, PlainEntry(version, commit), outside);
            && (c.Some? <==> outside && exists d :: Publishes(repo, version, commit, d))
            && forall d :: outside && Publishes(repo, version, commit, d) ==> c == Some(d)
  {
    var c := VerifyRef(repo, PlainEntry(version, commit), outside);
    if c.Some? { PublishesIff(repo, version, commit, outside, c.value); }
    forall d | outside && Publishes(repo, version, commit, d) ensures c == Some(d) { PublishesIff(repo, version, commit, outside, d); }
  }

  lemma {:induction false} RegisterNew(repo: Repository, g: Registry, version: string, commit: string, outside: bool)
    requires Readable(g) && ValidStable(version) && IsCommit(commit) && !Registered(g.editions, version)
    ensures var (out, ok) := Execute(repo, g, RegisterEdition(version, commit, outside));
            && (ok <==> MayRegister(repo, g, version, commit, outside))
            && out == if ok then Registry(version, [PlainEntry(version, commit)] + g.editions) else g
  {
    var c := VerifyRef(repo, PlainEntry(version, commit), outside);
    VerifiedPlain(repo, version, commit, outside);
    if c.Some? { FollowsIff(repo, g, c.value); }
    assert Position(g.editions, version) == |g.editions|;
  }

  /** A registration succeeds exactly when it may. A new version is then first and the default,
      and all other entries are as they were; a version that is registered stays as it is. */
  lemma {:induction false} RegisterMeans(repo: Repository, g: Registry, version: string, commit: string, outside: bool)
    ensures var (out, ok) := Execute(repo, g, RegisterEdition(version, commit, outside));
            && (ok <==> MayRegister(repo, g, version, commit, outside))
            && out == if ok && !Registered(g.editions, version) then Registry(version, [PlainEntry(version, commit)] + g.editions) else g
  {
    if Readable(g) && ValidStable(version) && IsCommit(commit) {
      if Registered(g.editions, version) {
        RegisterHeld(repo, g, version, commit, outside);
      } else {
        RegisterNew(repo, g, version, commit, outside);
      }
    }
  }

  // ---- Checking the whole file ----

  /** The catalog that an entry stands for. */
  ghost predicate StandsFor(repo: Repository, e: Release, c: Catalog) {
    if e.mode == "" then Publishes(repo, e.version, e.commit, c)
    else
      && e.umbrella.Some? && Commits(repo, e.commit, c)
      && exists m :: Qualifies(repo, e.umbrella.value.productCommit, e.version, e.umbrella.value.manifestSHA256, m) && Binds(c, m, e.umbrella.value.manifestSHA256)
  }

  /** The catalog follows the registered one that it names; the first names none. */
  ghost predicate FollowsNamed(repo: Repository, g: Registry, c: Catalog)
    requires c.docsEdition.Some?
  {
    var version := c.docsEdition.value.previousVersion;
    if version == "" then EditionTransition(None, c) == Accept
    else exists e, p :: HasEntry(g, e) && e.version == version && Commits(repo, e.commit, p) && EditionTransition(Some(p), c) == Accept
  }

  lemma {:induction false} StandsIff(repo: Repository, e: Release, outside: bool, c: Catalog)
    requires ValidIdentity(e)
    ensures VerifyRef(repo, e, outside) == Some(c) <==> outside && StandsFor(repo, e, c)
  {
    if e.mode == "" {
      PublishesIff(repo, e.version, e.commit, outside, c);
      assert e == PlainEntry(e.version, e.commit);
    } else {
      UmbrellaStands(repo, e, outside, c);
    }
  }

  lemma {:induction false} UmbrellaStands(repo: Repository, e: Release, outside: bool, c: Catalog)
    requires ValidIdentity(e) && e.mode != ""
    ensures VerifyRef(repo, e, outside) == Some(c) <==> outside && StandsFor(repo, e, c)
  {
    var product, digest := e.umbrella.value.productCommit, e.umbrella.value.manifestSHA256;
    CommitsIff(repo, e.commit, c);
    if VerifyRef(repo, e, outside) == Some(c) {
      var f := Product(repo, e).value;
      assert f == ManifestFile(f.manifest, digest) && Qualifies(repo, product, e.version, digest, f.manifest);
      BindsIff(c, f.manifest, digest);
    }
    if StandsFor(repo, e, c) {
      var m :| Qualifies(repo, product, e.version, digest, m) && Binds(c, m, digest);
      BindsIff(c, m, digest);
    }
  }

  lemma {:induction false} NamedIff(repo: Repository, g: Registry, c: Catalog)
    requires Readable(g) && c.docsEdition.Some?
    ensures FollowsNamed(repo, g, c) <==> PredecessorHolds(repo, g.editions, c)
  {
    var version := c.docsEdition.value.previousVersion;
    var p := Position(g.editions, version);
    if version != "" {
      if PredecessorHolds(repo, g.editions, c) {
        var before := CatalogAt(repo, g.editions[p].commit).value;
        CommitsIff(repo, g.editions[p].commit, before);
        assert HasEntry(g, g.editions[p]);
      }
      if FollowsNamed(repo, g, c) {
        var e, before :| HasEntry(g, e) && e.version == version && Commits(repo, e.commit, before) && EditionTransition(Some(before), c) == Accept;
        var i :| 0 <= i < |g.editions| && g.editions[i] == e;
        HeldEntry(g, i, version);
        CommitsIff(repo, e.commit, before);
      }
    }
  }

  ghost predicate EntryHolds(repo: Repository, g: Registry, outside: seq<bool>, i: nat)
    requires |outside| == |g.editions| && i < |g.editions|
  {
    outside[i] && exists c :: StandsFor(repo, g.editions[i], c) && c.docsEdition.Some? && (c.umbrellaManifestSHA256 != "" || FollowsNamed(repo, g, c))
  }

  lemma {:induction false} EntryHoldsIff(repo: Repository, g: Registry, outside: seq<bool>, i: nat)
    requires Readable(g) && |outside| == |g.editions| && i < |g.editions|
    ensures EntryPasses(repo, g, outside, i) <==> EntryHolds(repo, g, outside, i)
  {
    var e := g.editions[i];
    if EntryPasses(repo, g, outside, i) {
      var c := VerifyRef(repo, e, outside[i]).value;
      StandsIff(repo, e, outside[i], c);
      NamedIff(repo, g, c);
    }
    if EntryHolds(repo, g, outside, i) {
      var c :| StandsFor(repo, e, c) && c.docsEdition.Some? && (c.umbrellaManifestSHA256 != "" || FollowsNamed(repo, g, c));
      StandsIff(repo, e, outside[i], c);
      NamedIff(repo, g, c);
    }
  }

  /** The check accepts a file exactly when it can be read, every outside check passes, every
      entry stands for a catalog, and each catalog without a product follows the one it names. */
  lemma {:induction false} PassesIff(repo: Repository, g: Registry, outside: seq<bool>)
    requires |outside| == |g.editions|
    ensures PassesCheck(repo, g, outside) <==> Readable(g) && forall i :: 0 <= i < |g.editions| ==> EntryHolds(repo, g, outside, i)
  {
    if Readable(g) {
      forall i | 0 <= i < |g.editions| ensures EntryPasses(repo, g, outside, i) <==> EntryHolds(repo, g, outside, i) {
        EntryHoldsIff(repo, g, outside, i);
      }
    }
  }
}
