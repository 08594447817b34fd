/** `umbrellaPublisher.publish` as a step machine: one step is one request and the local
    work up to the next request. Any number of publishers with the same inputs interleave,
    any request may fail before or after it took effect, an upload may be torn, and a
    publisher that never steps again has crashed. */
module PublisherMachine {
  import opened ReleaseServer

  /** One component release that must be public before anything is written. */
  datatype SourceCheck = SourceCheck(tag: string, commit: string, asset: string)

  datatype Inputs = Inputs(
    tag: string, target: string, notes: string, qualified: bool, sources: seq<SourceCheck>,
    names: seq<string>, expected: map<string, Bytes>)

  /** `names` lists the expected assets once each; no component release uses the umbrella tag. */
  ghost predicate ValidInputs(inp: Inputs) {
    && (forall i, j :: 0 <= i < j < |inp.names| ==> inp.names[i] != inp.names[j])
    && (forall n :: n in inp.names <==> n in inp.expected)
    && (forall i :: 0 <= i < |inp.sources| ==> inp.sources[i].tag != inp.tag && inp.sources[i].asset in inp.expected)
  }

  /** The publisher's copy of a release: its id and the last draft flag it was told. */
  datatype View = View(id: nat, draft: bool)

  /** One entry of an asset listing. */
  datatype AssetView = AssetView(index: nat, uploaded: bool)

  /** The three calls of `verifyAssets`. */
  datatype Phase = Fill | Recheck | Final

  datatype Local =
    | Start
    | CheckTag
    | FindRelease
    | Create
    | List(r: View, phase: Phase)
    | Upload(r: View, existing: map<string, AssetView>, i: nat)
    | Fetch(r: View, phase: Phase, existing: map<string, AssetView>, i: nat, asset: nat)
    | CheckTagAgain(r: View)
    | Promote(r: View)
    | CheckTagFinal(r: View)
    | Done(r: View)
    | Failed

  datatype Proc = Proc(promote: bool, at: Local)

  /** What became of a request: served; not performed; performed but the reply was lost; or,
      for an upload, cut off with an incomplete asset left behind. */
  datatype Reply = Served | Refused | Lost | Torn(partial: Bytes)

  predicate SourceOk(inp: Inputs, s: Server, c: SourceCheck) {
    var id := PublishedByTag(s.releases, c.tag);
    && id < |s.releases| && !s.releases[id].prerelease
    && TagLookup(s, c.tag) == Selects(c.commit)
    && (var assets := s.releases[id].assets;
        var k := Find(assets, c.asset);
        && k < |assets| && assets[k].uploaded
        && c.asset in inp.expected && assets[k].data == inp.expected[c.asset])
  }

  /** `verifyPublicSources` */
  predicate SourcesOk(inp: Inputs, s: Server) {
    forall i :: 0 <= i < |inp.sources| ==> SourceOk(inp, s, inp.sources[i])
  }

  /** The identity check after a release was found or created. */
  predicate SameIdentity(inp: Inputs, r: Release) {
    r.tag == inp.tag && r.target == inp.target && r.body == inp.notes && !r.prerelease
  }

  /** The listing by name, as `assets` returns it. */
  function Existing(assets: seq<Asset>): (m: map<string, AssetView>)
    ensures forall n :: n in m ==> ViewsAsset(assets, n, m[n])
    ensures forall i :: 0 <= i < |assets| ==> assets[i].name in m
  {
    map i | 0 <= i < |assets| && Find(assets, assets[i].name) == i :: assets[i].name := AssetView(i, assets[i].uploaded)
  }

  predicate ViewsAsset(assets: seq<Asset>, name: string, v: AssetView) {
    v.index < |assets| && assets[v.index].name == name && assets[v.index].uploaded == v.uploaded
  }

  predicate NoExtra(inp: Inputs, r: Release) {
    forall k :: 0 <= k < |r.assets| ==> r.assets[k].name in inp.expected
  }

  /** Where `publish` goes after a `verifyAssets` call that succeeded. */
  function AfterAssets(promote: bool, r: View, phase: Phase): Local {
    match phase
    case Fill => if r.draft && promote then CheckTagAgain(r) else if !r.draft then CheckTagFinal(r) else List(r, Final)
    case Recheck => Promote(r)
    case Final => Done(r)
  }

  /** The loop of `verifyAssets`, up to its next request. */
  function Visit(inp: Inputs, promote: bool, r: View, phase: Phase, existing: map<string, AssetView>, i: nat): Local {
    if i >= |inp.names| then AfterAssets(promote, r, phase)
    else if inp.names[i] in existing then
      var v := existing[inp.names[i]];
      if v.uploaded then Fetch(r, phase, existing, i, v.index) else Failed
    else if r.draft && phase == Fill then Upload(r, existing, i)
    else Failed
  }

  predicate TagAllows(inp: Inputs, s: Server, allowMissing: bool) {
    TagLookup(s, inp.tag) == Selects(inp.target) || (allowMissing && TagLookup(s, inp.tag) == Missing)
  }

  /** One request of one publisher. */
  function Step(inp: Inputs, s: Server, p: Proc, reply: Reply): (out: (Server, Local)) {
    match p.at
    case Start =>
      (s, if (p.promote && !inp.qualified) || reply != Served || !SourcesOk(inp, s) then Failed else CheckTag)
    case CheckTag => (s, if reply == Served && TagAllows(inp, s, true) then FindRelease else Failed)
    case FindRelease => (s, if reply == Served then Located(inp, s) else Failed)
    case Create =>
      if reply == Refused then (s, Failed)
      else (CreateDraft(s, inp.tag, inp.target, inp.notes),
            if reply == Served then List(View(|s.releases|, true), Fill) else Failed)
    case List(r, phase) => (s, if reply == Served then Listed(inp, s, p.promote, r, phase) else Failed)
    case Upload(r, existing, i) => Uploaded(inp, s, r, existing, i, reply)
    case Fetch(r, phase, existing, i, asset) =>
      (s, if reply == Served && FetchMatches(inp, s, r, i, asset) then Visit(inp, p.promote, r, phase, existing, i + 1) else Failed)
    case CheckTagAgain(r) => (s, if reply == Served && TagAllows(inp, s, true) then List(r, Recheck) else Failed)
    case Promote(r) =>
      if reply == Refused || r.id >= |s.releases| then (s, Failed)
      else (PromoteRelease(s, r.id), if reply == Served then CheckTagFinal(View(r.id, false)) else Failed)
    case CheckTagFinal(r) => (s, if reply == Served && TagAllows(inp, s, false) then List(r, Final) else Failed)
    case Done(_) => (s, p.at)
    case Failed => (s, Failed)
  }

  /** `findRelease` and the identity check. */
  function Located(inp: Inputs, s: Server): Local {
    var ids := IdsOfTag(s.releases, inp.tag);
    if |ids| > 1 then Failed
    else if |ids| == 0 then Create
    else
      var r := s.releases[ids[0]];
      if SameIdentity(inp, r) then List(View(ids[0], r.draft), Fill) else Failed
  }

  function Listed(inp: Inputs, s: Server, promote: bool, r: View, phase: Phase): Local {
    if r.id >= |s.releases| || !UniqueNames(s.releases[r.id].assets) || !NoExtra(inp, s.releases[r.id]) then Failed
    else Visit(inp, promote, r, phase, Existing(s.releases[r.id].assets), 0)
  }

  function Uploaded(inp: Inputs, s: Server, r: View, existing: map<string, AssetView>, i: nat, reply: Reply): (Server, Local) {
    if reply == Refused || r.id >= |s.releases| || i >= |inp.names| || inp.names[i] !in inp.expected then (s, Failed)
    else
      var name := inp.names[i];
      var taken := Find(s.releases[r.id].assets, name) < |s.releases[r.id].assets|;
      if reply.Torn? then (AddAsset(s, r.id, Asset(name, false, reply.partial)), Failed)
      else
        (AddAsset(s, r.id, Asset(name, true, inp.expected[name])),
         if reply == Served && !taken then Fetch(r, Fill, existing, i, |s.releases[r.id].assets|) else Failed)
  }

  predicate FetchMatches(inp: Inputs, s: Server, r: View, i: nat, asset: nat) {
    && r.id < |s.releases| && asset < |s.releases[r.id].assets|
    && i < |inp.names| && inp.names[i] in inp.expected
    && s.releases[r.id].assets[asset].data == inp.expected[inp.names[i]]
  }

  // ---- Interleaved runs ----

  datatype System = System(server: Server, procs: seq<Proc>)

  datatype Move = Move(proc: nat, reply: Reply)

  function Next(inp: Inputs, sys: System, m: Move): System {
    if m.proc >= |sys.procs| then sys
    else
      var p := sys.procs[m.proc];
      var (s, at) := Step(inp, sys.server, p, m.reply);
      System(s, sys.procs[m.proc := Proc(p.promote, at)])
  }

  function Run(inp: Inputs, sys: System, moves: seq<Move>): System {
    if moves == [] then sys else Next(inp, Run(inp, sys, moves[..|moves| - 1]), moves[|moves| - 1])
  }

  // ---- The invariant ----

  /** A name is held: uploaded, with the expected bytes. */
  ghost predicate Holds(inp: Inputs, r: Release, name: string) {
    && name in inp.expected
    && exists k :: 0 <= k < |r.assets| && r.assets[k] == Asset(name, true, inp.expected[name])
  }

  ghost predicate Verified(inp: Inputs, r: Release, n: nat)
    requires n <= |inp.names|
  {
    forall i :: 0 <= i < n ==> Holds(inp, r, inp.names[i])
  }

  /** Exactly the expected names with exactly the expected bytes. */
  ghost predicate Complete(inp: Inputs, r: Release) {
    NoExtra(inp, r) && Verified(inp, r, |inp.names|)
  }

  /** Not stable when the run began: a draft, or a release that did not exist. */
  ghost predicate WasOpen(s0: Server, id: nat) {
    id < |s0.releases| ==> s0.releases[id].draft
  }

  ghost predicate ViewOk(inp: Inputs, s0: Server, s: Server, r: View) {
    && r.id < |s.releases| && SameIdentity(inp, s.releases[r.id])
    && (!r.draft ==> !s.releases[r.id].draft)
    && (r.draft ==> WasOpen(s0, r.id))
  }

  /** What a publisher knows on the way into its last asset check. */
  ghost predicate PhaseOk(inp: Inputs, s: Server, promote: bool, r: View, phase: Phase) {
    && (phase == Recheck ==> r.draft && promote)
    && (phase == Final ==> (promote ==> !r.draft) && (!r.draft ==> TagAllows(inp, s, false)))
  }

  ghost predicate ListingOk(assets: seq<Asset>, existing: map<string, AssetView>) {
    forall n :: n in existing ==> ViewsAsset(assets, n, existing[n])
  }

  ghost predicate LocalOk(inp: Inputs, s0: Server, s: Server, promote: bool, at: Local) {
    match at
    case List(r, phase) => ViewOk(inp, s0, s, r) && PhaseOk(inp, s, promote, r, phase)
    case Upload(r, existing, i) =>
      && ViewOk(inp, s0, s, r) && r.draft && NoExtra(inp, s.releases[r.id])
      && i < |inp.names| && Verified(inp, s.releases[r.id], i) && ListingOk(s.releases[r.id].assets, existing)
    case Fetch(r, phase, existing, i, asset) =>
      && ViewOk(inp, s0, s, r) && PhaseOk(inp, s, promote, r, phase) && NoExtra(inp, s.releases[r.id])
      && i < |inp.names| && Verified(inp, s.releases[r.id], i) && ListingOk(s.releases[r.id].assets, existing)
      && ViewsAsset(s.releases[r.id].assets, inp.names[i], AssetView(asset, true))
    case CheckTagAgain(r) => ViewOk(inp, s0, s, r) && r.draft && promote
    case Promote(r) => ViewOk(inp, s0, s, r) && Complete(inp, s.releases[r.id])
    case CheckTagFinal(r) => ViewOk(inp, s0, s, r) && !r.draft
    case Done(r) => ViewOk(inp, s0, s, r) && PhaseOk(inp, s, promote, r, Final) && Complete(inp, s.releases[r.id])
    case _ => true
  }

  ghost predicate ServerOk(inp: Inputs, s0: Server, s: Server) {
    && WellFormed(s) && Extends(s0, s)
    && forall id :: 0 <= id < |s.releases| && WasOpen(s0, id) && !s.releases[id].draft ==> Complete(inp, s.releases[id])
  }

  ghost predicate Inv(inp: Inputs, s0: Server, sys: System) {
    && ServerOk(inp, s0, sys.server)
    && forall k :: 0 <= k < |sys.procs| ==> LocalOk(inp, s0, sys.server, sys.procs[k].promote, sys.procs[k].at)
  }

  /** What one request can do to the server: extend it, with expected names only. */
  ghost predicate Evolves(inp: Inputs, s: Server, s': Server) {
    && Extends(s, s')
    && forall id :: 0 <= id < |s.releases| ==> GrowsExpected(inp, s.releases[id], s'.releases[id])
  }

  ghost predicate GrowsExpected(inp: Inputs, a: Release, b: Release) {
    forall k :: |a.assets| <= k < |b.assets| ==> b.assets[k].name in inp.expected
  }

  lemma {:induction false} HoldsStable(inp: Inputs, a: Release, b: Release, name: string)
    requires Holds(inp, a, name) && a.assets <= b.assets
    ensures Holds(inp, b, name)
  {
    var k :| 0 <= k < |a.assets| && a.assets[k] == Asset(name, true, inp.expected[name]);
    assert b.assets[k] == a.assets[k];
  }

  lemma {:induction false} ReleaseStable(inp: Inputs, a: Release, b: Release, n: nat)
    requires ReleaseExtends(a, b) && GrowsExpected(inp, a, b) && n <= |inp.names|
    ensures NoExtra(inp, a) ==> NoExtra(inp, b)
    ensures Verified(inp, a, n) ==> Verified(inp, b, n)
    ensures forall existing :: ListingOk(a.assets, existing) ==> ListingOk(b.assets, existing)
    ensures forall name, v :: ViewsAsset(a.assets, name, v) ==> ViewsAsset(b.assets, name, v)
  {
    forall name, v | ViewsAsset(a.assets, name, v) ensures ViewsAsset(b.assets, name, v) {
      assert b.assets[v.index] == a.assets[v.index];
    }
    if Verified(inp, a, n) {
      forall i | 0 <= i < n ensures Holds(inp, b, inp.names[i]) {
        HoldsStable(inp, a, b, inp.names[i]);
      }
    }
    if NoExtra(inp, a) {
      forall k | 0 <= k < |b.assets| ensures b.assets[k].name in inp.expected {
        if k < |a.assets| { assert b.assets[k] == a.assets[k]; }
      }
    }
  }

  lemma {:induction false} TagStable(inp: Inputs, s: Server, s': Server)
    requires Extends(s, s') && TagAllows(inp, s, false)
    ensures TagAllows(inp, s', false)
  {
  }

  /** A publisher's knowledge survives every request of the others. */
  lemma {:induction false} LocalStable(inp: Inputs, s0: Server, s: Server, s': Server, promote: bool, at: Local)
    requires LocalOk(inp, s0, s, promote, at) && Evolves(inp, s, s')
    ensures LocalOk(inp, s0, s', promote, at)
  {
    if TagAllows(inp, s, false) { TagStable(inp, s, s'); }
    match at {
      case Start => case CheckTag => case FindRelease => case Create => case Failed =>
      case List(r, phase) => assert ReleaseExtends(s.releases[r.id], s'.releases[r.id]);
      case Upload(r, existing, i) => ReleaseStable(inp, s.releases[r.id], s'.releases[r.id], i);
      case Fetch(r, phase, existing, i, asset) => ReleaseStable(inp, s.releases[r.id], s'.releases[r.id], i);
      case CheckTagAgain(r) => assert ReleaseExtends(s.releases[r.id], s'.releases[r.id]);
      case Promote(r) => ReleaseStable(inp, s.releases[r.id], s'.releases[r.id], |inp.names|);
      case CheckTagFinal(r) => assert ReleaseExtends(s.releases[r.id], s'.releases[r.id]);
      case Done(r) => ReleaseStable(inp, s.releases[r.id], s'.releases[r.id], |inp.names|);
    }
  }

  // ---- Every step keeps the invariant ----

  lemma {:induction false} AddEvolves(inp: Inputs, s: Server, id: nat, a: Asset)
    requires WellFormed(s) && id < |s.releases| && a.name in inp.expected
    ensures Evolves(inp, s, AddAsset(s, id, a)) && WellFormed(AddAsset(s, id, a))
  {
    AddExtends(s, id, a);
  }

  lemma {:induction false} UploadedEvolves(inp: Inputs, s: Server, r: View, existing: map<string, AssetView>, i: nat, reply: Reply)
    requires WellFormed(s)
    ensures Evolves(inp, s, Uploaded(inp, s, r, existing, i, reply).0)
    ensures WellFormed(Uploaded(inp, s, r, existing, i, reply).0)
  {
    if r.id < |s.releases| && i < |inp.names| && inp.names[i] in inp.expected {
      var name := inp.names[i];
      AddEvolves(inp, s, r.id, if reply.Torn? then Asset(name, false, reply.partial) else Asset(name, true, inp.expected[name]));
    }
  }

  lemma {:induction false} StepEvolves(inp: Inputs, s: Server, p: Proc, reply: Reply)
    requires WellFormed(s)
    ensures Evolves(inp, s, Step(inp, s, p, reply).0) && WellFormed(Step(inp, s, p, reply).0)
  {
    var s' := Step(inp, s, p, reply).0;
    if p.at.Create? {
      CreateExtends(s, inp.tag, inp.target, inp.notes);
    } else if p.at.Upload? {
      UploadedEvolves(inp, s, p.at.r, p.at.existing, p.at.i, reply);
      assert s' == Uploaded(inp, s, p.at.r, p.at.existing, p.at.i, reply).0;
    } else if p.at.Promote? && p.at.r.id < |s.releases| {
      PromoteExtends(s, p.at.r.id);
    } else {
      assert s' == s;
    }
  }

  /** The loop head: either the loop goes on with what it knows, or all names are held. */
  lemma {:induction false} VisitOk(inp: Inputs, s0: Server, s: Server, promote: bool, r: View, phase: Phase, existing: map<string, AssetView>, i: nat)
    requires ValidInputs(inp) && ViewOk(inp, s0, s, r) && PhaseOk(inp, s, promote, r, phase)
    requires NoExtra(inp, s.releases[r.id]) && ListingOk(s.releases[r.id].assets, existing)
    requires i <= |inp.names| && Verified(inp, s.releases[r.id], i)
    ensures LocalOk(inp, s0, s, promote, Visit(inp, promote, r, phase, existing, i))
  {
    if i < |inp.names| && inp.names[i] in existing {
      assert ViewsAsset(s.releases[r.id].assets, inp.names[i], existing[inp.names[i]]);
    }
  }

  lemma {:induction false} LocatedOk(inp: Inputs, s0: Server, s: Server, promote: bool)
    requires Extends(s0, s)
    ensures LocalOk(inp, s0, s, promote, Located(inp, s))
  {
    var at := Located(inp, s);
    if at.List? && at.r.id < |s0.releases| {
      assert ReleaseExtends(s0.releases[at.r.id], s.releases[at.r.id]);
    }
  }

  lemma {:induction false} FetchedOk(inp: Inputs, s0: Server, s: Server, promote: bool, r: View, phase: Phase, existing: map<string, AssetView>, i: nat, asset: nat)
    requires ValidInputs(inp) && LocalOk(inp, s0, s, promote, Fetch(r, phase, existing, i, asset))
    requires FetchMatches(inp, s, r, i, asset)
    ensures LocalOk(inp, s0, s, promote, Visit(inp, promote, r, phase, existing, i + 1))
  {
    var rel := s.releases[r.id];
    assert rel.assets[asset] == Asset(inp.names[i], true, inp.expected[inp.names[i]]);
    assert Holds(inp, rel, inp.names[i]);
    VisitOk(inp, s0, s, promote, r, phase, existing, i + 1);
  }

  lemma {:induction false} CreatedOk(inp: Inputs, s0: Server, s: Server, promote: bool)
    requires ServerOk(inp, s0, s)
    ensures LocalOk(inp, s0, CreateDraft(s, inp.tag, inp.target, inp.notes), promote, List(View(|s.releases|, true), Fill))
    ensures ServerOk(inp, s0, CreateDraft(s, inp.tag, inp.target, inp.notes))
  {
    var s' := CreateDraft(s, inp.tag, inp.target, inp.notes);
    CreateExtends(s, inp.tag, inp.target, inp.notes);
    ExtendsTransitive(s0, s, s');
  }

  /** An upload never touches a release that was promoted meanwhile: every expected name is
      already there, and the server refuses it. */
  lemma {:induction false} UploadedOk(inp: Inputs, s0: Server, s: Server, promote: bool, r: View, existing: map<string, AssetView>, i: nat, reply: Reply)
    requires ValidInputs(inp) && ServerOk(inp, s0, s) && LocalOk(inp, s0, s, promote, Upload(r, existing, i))
    ensures var (s', at) := Uploaded(inp, s, r, existing, i, reply);
            && ServerOk(inp, s0, s') && LocalOk(inp, s0, s', promote, at)
            && (!s.releases[r.id].draft ==> s' == s)
  {
    var (s', at) := Uploaded(inp, s, r, existing, i, reply);
    var name, rel := inp.names[i], s.releases[r.id];
    var k := Find(rel.assets, name);
    if !rel.draft {
      assert Complete(inp, rel) && Holds(inp, rel, name);
    }
    if k == |rel.assets| && reply != Refused {
      StepEvolves(inp, s, Proc(promote, Upload(r, existing, i)), reply);
      ExtendsTransitive(s0, s, s');
      LocalStable(inp, s0, s, s', promote, Upload(r, existing, i));
      assert forall id :: 0 <= id < |s.releases| && id != r.id ==> s'.releases[id] == s.releases[id];
    }
  }

  lemma {:induction false} PromotedOk(inp: Inputs, s0: Server, s: Server, promote: bool, r: View)
    requires ServerOk(inp, s0, s) && LocalOk(inp, s0, s, promote, Promote(r))
    ensures var s' := PromoteRelease(s, r.id);
            ServerOk(inp, s0, s') && LocalOk(inp, s0, s', promote, CheckTagFinal(View(r.id, false)))
  {
    var s' := PromoteRelease(s, r.id);
    PromoteExtends(s, r.id);
    ExtendsTransitive(s0, s, s');
    forall id | 0 <= id < |s'.releases| && WasOpen(s0, id) && !s'.releases[id].draft
      ensures Complete(inp, s'.releases[id])
    {
      assert s'.releases[id].assets == s.releases[id].assets;
      if id == r.id {
        assert GrowsExpected(inp, s.releases[id], s'.releases[id]);
        ReleaseStable(inp, s.releases[id], s'.releases[id], |inp.names|);
      }
    }
  }

  lemma {:induction false} ListedOk(inp: Inputs, s0: Server, s: Server, promote: bool, r: View, phase: Phase)
    requires ValidInputs(inp) && LocalOk(inp, s0, s, promote, List(r, phase))
    ensures LocalOk(inp, s0, s, promote, Listed(inp, s, promote, r, phase))
  {
    if NoExtra(inp, s.releases[r.id]) {
      VisitOk(inp, s0, s, promote, r, phase, Existing(s.releases[r.id].assets), 0);
    }
  }

  /** A step that only reads leaves the publisher with sound knowledge. */
  lemma {:induction false} ReadStepKeeps(inp: Inputs, s0: Server, s: Server, p: Proc, reply: Reply)
    requires ValidInputs(inp) && ServerOk(inp, s0, s) && LocalOk(inp, s0, s, p.promote, p.at)
    requires !p.at.Create? && !p.at.Upload? && !p.at.Promote?
    ensures Step(inp, s, p, reply).0 == s && LocalOk(inp, s0, s, p.promote, Step(inp, s, p, reply).1)
  {
    var at := Step(inp, s, p, reply).1;
    if at.Failed? || p.at.Start? || p.at.CheckTag? || p.at.Done? {
    } else if p.at.FindRelease? {
      LocatedOk(inp, s0, s, p.promote);
    } else if p.at.List? {
      ListedOk(inp, s0, s, p.promote, p.at.r, p.at.phase);
    } else if p.at.Fetch? {
      FetchedOk(inp, s0, s, p.promote, p.at.r, p.at.phase, p.at.existing, p.at.i, p.at.asset);
    }
  }

  lemma {:induction false} StepKeeps(inp: Inputs, s0: Server, s: Server, p: Proc, reply: Reply)
    requires ValidInputs(inp) && ServerOk(inp, s0, s) && LocalOk(inp, s0, s, p.promote, p.at)
    ensures ServerOk(inp, s0, Step(inp, s, p, reply).0)
    ensures LocalOk(inp, s0, Step(inp, s, p, reply).0, p.promote, Step(inp, s, p, reply).1)
  {
    if p.at.Create? {
      CreatedOk(inp, s0, s, p.promote);
    } else if p.at.Upload? {
      UploadedOk(inp, s0, s, p.promote, p.at.r, p.at.existing, p.at.i, reply);
      assert Step(inp, s, p, reply) == Uploaded(inp, s, p.at.r, p.at.existing, p.at.i, reply);
    } else if p.at.Promote? {
      PromotedOk(inp, s0, s, p.promote, p.at.r);
    } else {
      ReadStepKeeps(inp, s0, s, p, reply);
    }
  }

  lemma {:induction false} NextKeeps(inp: Inputs, s0: Server, sys: System, m: Move)
    requires ValidInputs(inp) && Inv(inp, s0, sys)
    ensures Inv(inp, s0, Next(inp, sys, m))
    ensures Evolves(inp, sys.server, Next(inp, sys, m).server)
  {
    if m.proc < |sys.procs| {
      var p := sys.procs[m.proc];
      StepKeeps(inp, s0, sys.server, p, m.reply);
      StepEvolves(inp, sys.server, p, m.reply);
      var sys' := Next(inp, sys, m);
      forall k | 0 <= k < |sys'.procs| ensures LocalOk(inp, s0, sys'.server, sys'.procs[k].promote, sys'.procs[k].at) {
        if k != m.proc {
          LocalStable(inp, s0, sys.server, sys'.server, sys.procs[k].promote, sys.procs[k].at);
        }
      }
    }
  }
}
