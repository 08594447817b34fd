/** `umbrellaPublisher` as it runs: paging loops, the asset loop and `publish` itself, against
    a server that may fail any request. Each run is shown to be a run of the step machine. */
module PublisherRun {
  import opened Text
  import opened ReleaseServer
  import opened PublisherMachine
  import opened PublisherSafety

  // ---- Paging ----

  /** The number of items before a page. */
  function PageStart(n: nat, page: nat): (lo: nat)
    requires page >= 1
    ensures lo <= n
  {
    if 100 * (page - 1) < n then 100 * (page - 1) else n
  }

  /** `?per_page=100&page=N` */
  function Page<T>(items: seq<T>, page: nat): (p: seq<T>)
    requires page >= 1
    ensures |p| <= 100
    ensures |p| < 100 ==> PageStart(|items|, page) + |p| == |items|
    ensures |p| == 100 ==> PageStart(|items|, page + 1) == PageStart(|items|, page) + 100
    ensures PageStart(|items|, page) + |p| <= |items|
    ensures forall i :: 0 <= i < |p| ==> p[i] == items[PageStart(|items|, page) + i]
  {
    var lo := PageStart(|items|, page);
    items[lo..if lo + 100 < |items| then lo + 100 else |items|]
  }

  datatype Found = Duplicate | NotFound | FoundAt(id: nat)

  /** What `findRelease` reports, by the number of releases that carry the tag. */
  ghost function FoundOf(ids: seq<nat>): Found {
    if |ids| == 0 then NotFound else if |ids| == 1 then FoundAt(ids[0]) else Duplicate
  }

  lemma {:induction false} IdsSnoc(releases: seq<Release>, k: nat, tag: string)
    requires k < |releases|
    ensures IdsOfTag(releases[..k + 1], tag) ==
            IdsOfTag(releases[..k], tag) + (if releases[k].tag == tag then [k] else [])
  {
    assert releases[..k + 1][..k] == releases[..k];
  }

  /** What is reported after each number of releases. */
  ghost predicate IsReport(report: seq<Found>, releases: seq<Release>, tag: string) {
    && |report| == |releases| + 1 && report[0] == NotFound
    && forall k :: 0 <= k < |releases| ==> report[k + 1] == Next(report[k], releases[k].tag == tag, k)
  }

  function Next(f: Found, hit: bool, k: nat): Found {
    if !hit then f else if f == NotFound then FoundAt(k) else Duplicate
  }

  lemma {:induction false} ReportIs(report: seq<Found>, releases: seq<Release>, tag: string, k: nat)
    requires k <= |releases| && IsReport(report, releases, tag)
    ensures report[k] == FoundOf(IdsOfTag(releases[..k], tag))
  {
    if k > 0 {
      ReportIs(report, releases, tag, k - 1);
      IdsSnoc(releases, k - 1, tag);
    }
  }

  lemma {:induction false} DuplicateStays(report: seq<Found>, releases: seq<Release>, tag: string, k: nat, n: nat)
    requires k <= n <= |releases| && IsReport(report, releases, tag) && report[k] == Duplicate
    ensures report[n] == Duplicate
  {
    if k < n { DuplicateStays(report, releases, tag, k, n - 1); }
  }

  ghost function ReportTo(releases: seq<Release>, tag: string, n: nat): (report: seq<Found>)
    requires n <= |releases|
    ensures |report| == n + 1 && report[0] == NotFound
    ensures forall k :: 0 <= k < n ==> report[k + 1] == Next(report[k], releases[k].tag == tag, k)
  {
    if n == 0 then [NotFound]
    else
      var before := ReportTo(releases, tag, n - 1);
      before + [Next(before[n - 1], releases[n - 1].tag == tag, n - 1)]
  }

  /** One page of `findRelease`, stopping at a second match. */
  method ScanPage(releases: seq<Release>, tag: string, lo: nat, n: nat, before: Found, ghost report: seq<Found>) returns (found: Found)
    requires lo + n <= |releases| && IsReport(report, releases, tag) && before == report[lo] != Duplicate
    ensures if found == Duplicate then report[|releases|] == Duplicate else found == report[lo + n]
  {
    found := before;
    for i := 0 to n
      invariant found == report[lo + i] && found != Duplicate
    {
      found := Next(found, releases[lo + i].tag == tag, lo + i);
      if found == Duplicate {
        DuplicateStays(report, releases, tag, lo + i + 1, |releases|);
        return;
      }
    }
  }

  /** `findRelease`: pages until a short page. */
  method FindReleaseByTag(releases: seq<Release>, tag: string) returns (found: Found)
    ensures found == FoundOf(IdsOfTag(releases, tag))
  {
    found := NotFound;
    var page := 1;
    ghost var report := ReportTo(releases, tag, |releases|);
    ReportIs(report, releases, tag, |releases|);
    assert releases[..|releases|] == releases;
    while true
      invariant page >= 1 && found == report[PageStart(|releases|, page)] && found != Duplicate
      decreases |releases| + 100 - 100 * page
    {
      var items := Page(releases, page);
      var lo := PageStart(|releases|, page);
      found := ScanPage(releases, tag, lo, |items|, found, report);
      if found == Duplicate || |items| < 100 { return; }
      page := page + 1;
    }
  }

  /** The listing of the first `k` assets. */
  ghost predicate ListsPrefix(assets: seq<Asset>, k: nat, m: map<string, AssetView>)
    requires k <= |assets|
  {
    && UniqueNames(assets[..k])
    && (forall n :: n in m ==> m[n].index < k && ViewsAsset(assets, n, m[n]))
    && (forall i :: 0 <= i < k ==> assets[i].name in m && m[assets[i].name] == AssetView(i, assets[i].uploaded))
  }

  lemma {:induction false} ListsSnoc(assets: seq<Asset>, k: nat, m: map<string, AssetView>)
    requires k < |assets| && ListsPrefix(assets, k, m)
    ensures assets[k].name !in m ==> ListsPrefix(assets, k + 1, m[assets[k].name := AssetView(k, assets[k].uploaded)])
    ensures assets[k].name in m ==> !UniqueNames(assets)
  {
    assert forall i :: 0 <= i < k ==> assets[..k + 1][i] == assets[..k][i];
  }

  lemma {:induction false} ListsAll(assets: seq<Asset>, m: map<string, AssetView>)
    requires ListsPrefix(assets, |assets|, m)
    ensures UniqueNames(assets) && m == Existing(assets)
  {
    assert assets[..|assets|] == assets;
    var e := Existing(assets);
    forall n | n in m ensures n in e && e[n] == m[n] {
      assert assets[m[n].index].name in e;
    }
  }

  /** One page of `assets`. */
  method ListPage(assets: seq<Asset>, lo: nat, n: nat, before: map<string, AssetView>) returns (result: Option<map<string, AssetView>>)
    requires lo + n <= |assets| && ListsPrefix(assets, lo, before)
    ensures result.Some? ==> ListsPrefix(assets, lo + n, result.value)
    ensures result.None? ==> !UniqueNames(assets)
  {
    var m := before;
    for i := 0 to n
      invariant ListsPrefix(assets, lo + i, m)
    {
      ListsSnoc(assets, lo + i, m);
      var a := assets[lo + i];
      if a.name in m { return None; }
      m := m[a.name := AssetView(lo + i, a.uploaded)];
    }
    return Some(m);
  }

  /** `assets`: the paged listing as a map, or nothing when a name repeats. */
  method ListAssets(assets: seq<Asset>) returns (result: Option<map<string, AssetView>>)
    ensures result == if UniqueNames(assets) then Some(Existing(assets)) else None
  {
    var m: map<string, AssetView> := map[];
    var page := 1;
    while true
      invariant page >= 1 && ListsPrefix(assets, PageStart(|assets|, page), m)
      decreases |assets| + 100 - 100 * page
    {
      var items := Page(assets, page);
      var next := ListPage(assets, PageStart(|assets|, page), |items|, m);
      if next.None? { return None; }
      m := next.value;
      if |items| < 100 {
        ListsAll(assets, m);
        return Some(m);
      }
      page := page + 1;
    }
  }

  // ---- One run ----

  /** The server and the publisher's position are those of the step machine after `moves`. */
  ghost predicate Mirrors(inp: Inputs, s0: Server, promote: bool, moves: seq<Move>, s: Server, at: Local) {
    Run(inp, System(s0, [Proc(promote, Start)]), moves) == System(s, [Proc(promote, at)])
  }

  lemma {:induction false} MirrorStep(inp: Inputs, s0: Server, promote: bool, moves: seq<Move>, s: Server, at: Local, reply: Reply)
    requires Mirrors(inp, s0, promote, moves, s, at)
    ensures var (s', at') := Step(inp, s, Proc(promote, at), reply);
            Mirrors(inp, s0, promote, moves + [Move(0, reply)], s', at')
  {
    var longer := moves + [Move(0, reply)];
    assert longer[..|longer| - 1] == moves;
  }

  /** Where `publish` goes after a `verifyTag` call that succeeded. */
  ghost function AfterTag(at: Local): Local
    requires at.CheckTag? || at.CheckTagAgain? || at.CheckTagFinal?
  {
    match at
    case CheckTag => FindRelease
    case CheckTagAgain(r) => List(r, Recheck)
    case CheckTagFinal(r) => List(r, Final)
  }

  /** What a successful `publish` has established. */
  ghost predicate Published(inp: Inputs, promote: bool, s: Server, id: nat) {
    && id < |s.releases| && UniqueNames(s.releases[id].assets)
    && (var r := s.releases[id]; r.tag == inp.tag && r.target == inp.target && r.body == inp.notes && !r.prerelease)
    && AssetMap(s.releases[id].assets) == inp.expected
    && (promote ==> !s.releases[id].draft && TagSelects(s, inp.tag, inp.target))
  }

  /** The loop of `verifyTag` over annotated tags. */
  method PeelTag(objects: map<string, GitObject>, start: GitObject, target: string) returns (ok: bool)
    ensures ok <==> Peel(objects, start, 5) == Selects(target)
    ensures ok <==> LeadsTo(objects, start, target, 5)
  {
    PeelIff(objects, start, 5, target);
    var o, depth := start, 0;
    while o.TagObject? && depth < 5
      invariant depth <= 5 && Peel(objects, o, 5 - depth) == Peel(objects, start, 5)
    {
      if o.sha !in objects { return false; }
      o, depth := objects[o.sha], depth + 1;
    }
    return o == CommitObject(target);
  }

  class Publisher {
    const inp: Inputs
    const promote: bool
    ghost const initial: Server
    var server: Server
    ghost var moves: seq<Move>

    constructor (inp: Inputs, promote: bool, server: Server)
      ensures this.inp == inp && this.promote == promote && this.server == server && initial == server
      ensures At(Start)
    {
      this.inp, this.promote, this.server := inp, promote, server;
      initial, moves := server, [];
    }

    ghost predicate At(at: Local)
      reads this
    {
      Mirrors(inp, initial, promote, moves, server, at)
    }

    /** A request that only reads; its failure fails the run. */
    method Read(ghost at: Local) returns (served: bool)
      requires At(at) && !at.Create? && !at.Upload? && !at.Promote?
      modifies `moves
      ensures served ==> At(Step(inp, server, Proc(promote, at), Served).1)
      ensures !served ==> At(Failed) || at.Done?
    {
      var reply: Reply := *;
      MirrorStep(inp, initial, promote, moves, server, at, reply);
      moves := moves + [Move(0, reply)];
      served := reply == Served;
    }

    /** `verifyPublicSources`: the three component releases, read as one step because no
        publisher can change them. */
    method VerifyPublicSources() returns (ok: bool)
      requires At(Start) && (promote ==> inp.qualified)
      modifies `moves
      ensures At(if ok then CheckTag else Failed)
    {
      var served := Read(Start);
      if !served { return false; }
      for i := 0 to |inp.sources|
        invariant forall k :: 0 <= k < i ==> SourceOk(inp, server, inp.sources[k])
        invariant At(Step(inp, server, Proc(promote, Start), Served).1)
      {
        if !SourceOk(inp, server, inp.sources[i]) { return false; }
      }
      return true;
    }

    /** `verifyTag` */
    method VerifyTag(allowMissing: bool, ghost at: Local) returns (ok: bool)
      requires At(at) && (if allowMissing then at.CheckTag? || at.CheckTagAgain? else at.CheckTagFinal?)
      modifies `moves
      ensures At(if ok then AfterTag(at) else Failed)
      ensures ok ==> TagSelects(server, inp.tag, inp.target) || (allowMissing && inp.tag !in server.tags)
    {
      var served := Read(at);
      if !served { return false; }
      TagLookupIff(server, inp.tag, inp.target);
      if inp.tag !in server.tags { return allowMissing; }
      ok := PeelTag(server.tagObjects, server.tags[inp.tag], inp.target);
    }

    /** `POST` of one missing asset: the entry in the reply, unless the request failed. */
    method PostAsset(r: View, ghost existing: map<string, AssetView>, ghost i: nat, name: string) returns (asset: Option<nat>)
      requires At(Upload(r, existing, i)) && r.id < |server.releases| && i < |inp.names|
      requires name == inp.names[i] && name in inp.expected
      modifies `moves, `server
      ensures |server.releases| == old(|server.releases|)
      ensures At(if asset.Some? then Fetch(r, Fill, existing, i, asset.value) else Failed)
      ensures asset.Some? ==> ViewsAsset(server.releases[r.id].assets, name, AssetView(asset.value, true))
    {
      var reply: Reply := *;
      MirrorStep(inp, initial, promote, moves, server, Upload(r, existing, i), reply);
      moves := moves + [Move(0, reply)];
      var assets := server.releases[r.id].assets;
      if reply == Refused { return None; }
      if reply.Torn? {
        server := AddAsset(server, r.id, Asset(name, false, reply.partial));
        return None;
      }
      server := AddAsset(server, r.id, Asset(name, true, inp.expected[name]));
      if reply == Lost || Find(assets, name) < |assets| { return None; }
      return Some(|assets|);
    }

    /** The loop body of `verifyAssets`: upload a missing asset if allowed, then download and compare. */
    method VerifyAsset(r: View, upload: bool, ghost phase: Phase, existing: map<string, AssetView>, i: nat) returns (ok: bool)
      requires ValidInputs(inp) && r.id < |server.releases| && (upload <==> phase == Fill) && i < |inp.names|
      requires At(Visit(inp, promote, r, phase, existing, i))
      modifies `moves, `server
      ensures |server.releases| == old(|server.releases|)
      ensures At(if ok then Visit(inp, promote, r, phase, existing, i + 1) else Failed)
    {
      var name := inp.names[i];
      var asset: nat;
      if name !in existing {
        if !r.draft || !upload { return false; }
        var posted := PostAsset(r, existing, i, name);
        if posted.None? { return false; }
        asset := posted.value;
      } else {
        if !existing[name].uploaded { return false; }
        asset := existing[name].index;
      }
      var served := Read(Fetch(r, phase, existing, i, asset));
      if !served { return false; }
      var assets := server.releases[r.id].assets;
      ok := asset < |assets| && assets[asset].data == inp.expected[name];
      assert ok == FetchMatches(inp, server, r, i, asset);
    }

    lemma {:induction false} ListedAs(r: View, phase: Phase)
      requires r.id < |server.releases| && UniqueNames(server.releases[r.id].assets)
      ensures var existing := Existing(server.releases[r.id].assets);
              Step(inp, server, Proc(promote, List(r, phase)), Served).1 ==
              if exists n :: n in existing && n !in inp.expected then Failed
              else Visit(inp, promote, r, phase, existing, 0)
    {
      var assets := server.releases[r.id].assets;
      var existing := Existing(assets);
      if NoExtra(inp, server.releases[r.id]) {
        forall n | n in existing ensures n in inp.expected {
          assert ViewsAsset(assets, n, existing[n]);
        }
      } else {
        var k :| 0 <= k < |assets| && assets[k].name !in inp.expected;
        assert assets[k].name in existing;
      }
    }

    /** `verifyAssets` */
    method VerifyAssets(r: View, upload: bool, ghost phase: Phase) returns (ok: bool)
      requires ValidInputs(inp) && At(List(r, phase)) && r.id < |server.releases| && (upload <==> phase == Fill)
      modifies `moves, `server
      ensures |server.releases| == old(|server.releases|)
      ensures At(if ok then AfterAssets(promote, r, phase) else Failed)
    {
      var served := Read(List(r, phase));
      if !served { return false; }
      var listing := ListAssets(server.releases[r.id].assets);
      if listing.None? { return false; }
      var existing := listing.value;
      ListedAs(r, phase);
      if exists n :: n in existing && n !in inp.expected { return false; }
      ok := VerifyListed(r, upload, phase, existing);
    }

    /** Its loop over the expected names. */
    method VerifyListed(r: View, upload: bool, ghost phase: Phase, existing: map<string, AssetView>) returns (ok: bool)
      requires ValidInputs(inp) && r.id < |server.releases| && (upload <==> phase == Fill)
      requires (forall n :: n in existing ==> n in inp.expected) && At(Visit(inp, promote, r, phase, existing, 0))
      modifies `moves, `server
      ensures |server.releases| == old(|server.releases|)
      ensures At(if ok then AfterAssets(promote, r, phase) else Failed)
    {
      for i := 0 to |inp.names|
        invariant |server.releases| == old(|server.releases|)
        invariant At(Visit(inp, promote, r, phase, existing, i))
      {
        ok := VerifyAsset(r, upload, phase, existing, i);
        if !ok { return false; }
      }
      return true;
    }

    /** `publish`: whatever the server answers, the run is one of the step machine's, so all
        that holds of its runs holds here; an error is its failed state. */
    method Publish() returns (ok: bool, ghost end: Local)
      requires ValidInputs(inp) && At(Start) && WellFormed(initial)
      modifies `moves, `server
      ensures Run(inp, System(initial, [Proc(promote, Start)]), moves) == System(server, [Proc(promote, end)])
      ensures (ok <==> end.Done?) && (!ok <==> end.Failed?)
      ensures Extends(initial, server)
      ensures ok ==> Published(inp, promote, server, end.r.id)
    {
      ok, end := PublishSteps();
      var sys := System(initial, [Proc(promote, Start)]);
      RunExtends(inp, sys, moves);
      if ok { SuccessMeansPublished(inp, sys, moves, 0); }
    }

    method PublishSteps() returns (ok: bool, ghost end: Local)
      requires ValidInputs(inp) && At(Start)
      modifies `moves, `server
      ensures At(end) && (ok <==> end.Done?) && (!ok <==> end.Failed?)
    {
      if promote && !inp.qualified {
        MirrorStep(inp, initial, promote, moves, server, Start, Served);
        moves := moves + [Move(0, Served)];
        return false, Failed;
      }
      ok := VerifyPublicSources();
      if !ok { return false, Failed; }
      ok := VerifyTag(true, CheckTag);
      if !ok { return false, Failed; }
      var located := Locate();
      if located.None? { return false, Failed; }
      ok, end := FillAndPromote(located.value);
    }

    /** The rest of `publish`, from the located release on. */
    method FillAndPromote(release: View) returns (ok: bool, ghost end: Local)
      requires ValidInputs(inp) && At(List(release, Fill)) && release.id < |server.releases|
      modifies `moves, `server
      ensures At(end) && (ok <==> end.Done?) && (!ok <==> end.Failed?)
    {
      var r := release;
      ok := VerifyAssets(r, true, Fill);
      if !ok { return false, Failed; }
      if r.draft && promote {
        ok := PromoteDraft(r);
        if !ok { return false, Failed; }
        r := View(r.id, false);
      }
      if !r.draft {
        ok := VerifyTag(false, CheckTagFinal(r));
        if !ok { return false, Failed; }
      }
      ok := VerifyAssets(r, false, Final);
      end := if ok then Done(r) else Failed;
    }

    /** Find or create the release and check its identity. */
    method Locate() returns (located: Option<View>)
      requires At(FindRelease)
      modifies `moves, `server
      ensures At(if located.Some? then List(located.value, Fill) else Failed)
      ensures located.Some? ==> located.value.id < |server.releases|
    {
      var served := Read(FindRelease);
      if !served { return None; }
      var found := FindReleaseByTag(server.releases, inp.tag);
      match found {
        case Duplicate => return None;
        case NotFound => located := PostRelease();
        case FoundAt(id) =>
          if !SameIdentity(inp, server.releases[id]) { return None; }
          return Some(View(id, server.releases[id].draft));
      }
    }

    /** Re-read the tag and every byte, then leave the draft state. */
    method PromoteDraft(r: View) returns (ok: bool)
      requires ValidInputs(inp) && At(CheckTagAgain(r)) && r.id < |server.releases|
      modifies `moves, `server
      ensures |server.releases| == old(|server.releases|)
      ensures At(if ok then CheckTagFinal(View(r.id, false)) else Failed)
    {
      ok := VerifyTag(true, CheckTagAgain(r));
      if !ok { return false; }
      ok := VerifyAssets(r, false, Recheck);
      if !ok { return false; }
      ok := PatchDraft(r);
    }

    method PostRelease() returns (created: Option<View>)
      requires At(Create)
      modifies `moves, `server
      ensures At(if created.Some? then List(created.value, Fill) else Failed)
      ensures created.Some? ==> created.value.id < |server.releases| && SameIdentity(inp, server.releases[created.value.id])
    {
      var reply: Reply := *;
      MirrorStep(inp, initial, promote, moves, server, Create, reply);
      moves := moves + [Move(0, reply)];
      if reply == Refused { return None; }
      server := CreateDraft(server, inp.tag, inp.target, inp.notes);
      if reply != Served { return None; }
      return Some(View(|server.releases| - 1, true));
    }

    method PatchDraft(r: View) returns (ok: bool)
      requires At(Promote(r)) && r.id < |server.releases|
      modifies `moves, `server
      ensures |server.releases| == old(|server.releases|)
      ensures At(if ok then CheckTagFinal(View(r.id, false)) else Failed)
    {
      var reply: Reply := *;
      MirrorStep(inp, initial, promote, moves, server, Promote(r), reply);
      moves := moves + [Move(0, reply)];
      if reply == Refused { return false; }
      server := PromoteRelease(server, r.id);
      return reply == Served;
    }
  }
}
