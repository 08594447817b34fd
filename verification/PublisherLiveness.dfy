/** When a publisher succeeds, exactly, and why a rerun does. */
module PublisherLiveness {
  import opened ReleaseServer
  import opened PublisherMachine

  // ---- One publisher whose requests are all served ----

  function Stage(at: Local): nat {
    match at
    case Start => 13 case CheckTag => 12 case FindRelease => 11 case Create => 10
    case List(_, phase) => if phase == Fill then 9 else if phase == Recheck then 6 else 2
    case Upload(_, _, _) => 8
    case Fetch(_, phase, _, _, _) => if phase == Fill then 8 else if phase == Recheck then 5 else 1
    case CheckTagAgain(_) => 7 case Promote(_) => 4 case CheckTagFinal(_) => 3
    case Done(_) => 0 case Failed => 0
  }

  function Remaining(inp: Inputs, at: Local): nat {
    var i := if at.Upload? || at.Fetch? then at.i else 0;
    if i < |inp.names| then 2 * (|inp.names| - i) + (if at.Upload? then 1 else 0) else 0
  }

  lemma {:induction false} VisitDescends(inp: Inputs, promote: bool, r: View, phase: Phase, existing: map<string, AssetView>, i: nat)
    ensures var at := Visit(inp, promote, r, phase, existing, i);
            var stage := if phase == Fill then 8 else if phase == Recheck then 5 else 1;
            Stage(at) < stage || (Stage(at) == stage && i < |inp.names| && Remaining(inp, at) <= 2 * (|inp.names| - i) + 1)
  {
  }

  lemma {:induction false} StepDescends(inp: Inputs, s: Server, p: Proc)
    requires !p.at.Done? && !p.at.Failed?
    ensures var at := Step(inp, s, p, Served).1;
            Stage(at) < Stage(p.at) || (Stage(at) == Stage(p.at) && Remaining(inp, at) < Remaining(inp, p.at))
  {
    if p.at.List? { ListDescends(inp, s, p); } else if p.at.Fetch? { FetchDescends(inp, s, p); }
  }

  lemma {:induction false} ListDescends(inp: Inputs, s: Server, p: Proc)
    requires p.at.List?
    ensures Stage(Step(inp, s, p, Served).1) < Stage(p.at)
  {
    var existing := ListedIs(inp, s, p.promote, p.at.r, p.at.phase);
    VisitDescends(inp, p.promote, p.at.r, p.at.phase, existing, 0);
  }

  lemma {:induction false} ListedIs(inp: Inputs, s: Server, promote: bool, r: View, phase: Phase) returns (existing: map<string, AssetView>)
    ensures var at := Listed(inp, s, promote, r, phase); at == Failed || at == Visit(inp, promote, r, phase, existing, 0)
  {
    existing := if r.id < |s.releases| then Existing(s.releases[r.id].assets) else map[];
  }

  lemma {:induction false} FetchDescends(inp: Inputs, s: Server, p: Proc)
    requires p.at.Fetch?
    ensures var at := Step(inp, s, p, Served).1;
            Stage(at) < Stage(p.at) || (Stage(at) == Stage(p.at) && Remaining(inp, at) < Remaining(inp, p.at))
  {
    VisitDescends(inp, p.promote, p.at.r, p.at.phase, p.at.existing, p.at.i + 1);
  }

  /** The whole run of `publish` when no request fails and nobody else writes. */
  function Solo(inp: Inputs, s: Server, p: Proc): (out: (Server, Local))
    ensures out.1.Done? || out.1.Failed?
    decreases Stage(p.at), Remaining(inp, p.at)
  {
    if p.at.Done? || p.at.Failed? then (s, p.at)
    else
      StepDescends(inp, s, p);
      var (s', at) := Step(inp, s, p, Served);
      Solo(inp, s', Proc(p.promote, at))
  }

  // ---- The exact condition ----

  /** Only expected names, all uploaded, all with the expected bytes. */
  ghost predicate Clean(inp: Inputs, r: Release) {
    forall k :: 0 <= k < |r.assets| ==> CleanAsset(inp, r.assets[k])
  }

  ghost predicate CleanAsset(inp: Inputs, a: Asset) {
    a.uploaded && a.name in inp.expected && a.data == inp.expected[a.name]
  }

  /** A release that `publish` can resume or confirm: a draft may lack assets, a stable
      release may not, and its tag must already select the target. */
  ghost predicate Resumable(inp: Inputs, s: Server, r: Release) {
    && SameIdentity(inp, r) && Clean(inp, r)
    && (r.draft || (Verified(inp, r, |inp.names|) && TagAllows(inp, s, false)))
  }

  ghost predicate AtMostOneResumable(inp: Inputs, s: Server) {
    var ids := IdsOfTag(s.releases, inp.tag);
    |ids| == 0 || (|ids| == 1 && Resumable(inp, s, s.releases[ids[0]]))
  }

  /** What a caller can check of the server before the call. */
  ghost predicate Ready(inp: Inputs, s: Server) {
    SourcesOk(inp, s) && TagAllows(inp, s, true) && AtMostOneResumable(inp, s)
  }

  ghost predicate Publishable(inp: Inputs, promote: bool, s: Server) {
    (promote ==> inp.qualified) && Ready(inp, s)
  }

  /** What the rest of a run still needs, at each point. */
  ghost predicate Good(inp: Inputs, s: Server, promote: bool, at: Local) {
    match at
    case Start => Publishable(inp, promote, s)
    case CheckTag => TagAllows(inp, s, true) && AtMostOneResumable(inp, s)
    case FindRelease => AtMostOneResumable(inp, s)
    case List(r, phase) => phase == Fill ==> r.id < |s.releases| && Resumable(inp, s, s.releases[r.id])
    case Upload(r, _, _) => r.id < |s.releases| && Resumable(inp, s, s.releases[r.id])
    case Fetch(r, phase, _, _, _) => phase == Fill ==> r.id < |s.releases| && Resumable(inp, s, s.releases[r.id])
    case CheckTagFinal(_) => TagAllows(inp, s, false)
    case Failed => false
    case _ => true
  }

  // ---- What a lone publisher knows ----

  ghost predicate Owns(inp: Inputs, s: Server, r: View) {
    && r.id < |s.releases| && SameIdentity(inp, s.releases[r.id])
    && r.draft == s.releases[r.id].draft && TagAllows(inp, s, true)
  }

  /** The listing, plus the names handled since, cover every asset of the release. */
  ghost predicate Covered(inp: Inputs, assets: seq<Asset>, existing: map<string, AssetView>, i: nat) {
    && ListingOk(assets, existing)
    && forall k :: 0 <= k < |assets| ==>
         assets[k].name in existing || exists j :: 0 <= j < i && j < |inp.names| && inp.names[j] == assets[k].name
  }

  ghost predicate Knows(inp: Inputs, s: Server, promote: bool, at: Local) {
    match at
    case FindRelease => TagAllows(inp, s, true)
    case Create => TagAllows(inp, s, true) && |IdsOfTag(s.releases, inp.tag)| == 0
    case List(r, phase) => Owns(inp, s, r) && LaterPhase(inp, s, promote, r, phase)
    case Upload(r, existing, i) =>
      && Owns(inp, s, r) && r.draft && NoExtra(inp, s.releases[r.id]) && i < |inp.names|
      && Verified(inp, s.releases[r.id], i) && Covered(inp, s.releases[r.id].assets, existing, i)
      && inp.names[i] !in existing
    case Fetch(r, phase, existing, i, asset) =>
      && Owns(inp, s, r) && LaterPhase(inp, s, promote, r, phase) && NoExtra(inp, s.releases[r.id]) && i < |inp.names|
      && Verified(inp, s.releases[r.id], i) && Covered(inp, s.releases[r.id].assets, existing, i + 1)
      && (phase != Fill ==> Covered(inp, s.releases[r.id].assets, existing, 0))
      && ViewsAsset(s.releases[r.id].assets, inp.names[i], AssetView(asset, true))
    case CheckTagAgain(r) => Owns(inp, s, r) && LaterPhase(inp, s, promote, r, Recheck)
    case Promote(r) => Owns(inp, s, r) && LaterPhase(inp, s, promote, r, Recheck)
    case CheckTagFinal(r) => Owns(inp, s, r) && LaterPhase(inp, s, promote, r, Final)
    case _ => true
  }

  ghost predicate LaterPhase(inp: Inputs, s: Server, promote: bool, r: View, phase: Phase) {
    && (phase != Fill ==> r.id < |s.releases| && Complete(inp, s.releases[r.id]))
    && (phase == Recheck ==> r.draft && promote)
  }

  // ---- Each step keeps the knowledge and the condition ----

  lemma {:induction false} CompleteIsClean(inp: Inputs, r: Release)
    requires ValidInputs(inp) && UniqueNames(r.assets) && Complete(inp, r)
    ensures Clean(inp, r)
  {
    forall k | 0 <= k < |r.assets| ensures CleanAsset(inp, r.assets[k]) {
      assert r.assets[k].name in inp.names;
      var i :| 0 <= i < |inp.names| && inp.names[i] == r.assets[k].name;
      assert Holds(inp, r, inp.names[i]);
    }
  }

  lemma {:induction false} FetchedIsHeld(inp: Inputs, r: Release, i: nat, asset: nat)
    requires i < |inp.names| && Verified(inp, r, i) && inp.names[i] in inp.expected
    requires ViewsAsset(r.assets, inp.names[i], AssetView(asset, true)) && r.assets[asset].data == inp.expected[inp.names[i]]
    ensures Verified(inp, r, i + 1)
  {
    assert r.assets[asset] == Asset(inp.names[i], true, inp.expected[inp.names[i]]);
    assert Holds(inp, r, inp.names[i]);
  }

  lemma {:induction false} MissingIsNotHeld(inp: Inputs, r: Release, existing: map<string, AssetView>, i: nat)
    requires ValidInputs(inp) && i < |inp.names| && inp.names[i] !in existing && Covered(inp, r.assets, existing, i)
    ensures forall k :: 0 <= k < |r.assets| ==> r.assets[k].name != inp.names[i]
    ensures !Verified(inp, r, |inp.names|)
  {
    forall k | 0 <= k < |r.assets| ensures r.assets[k].name != inp.names[i] {
    }
    assert !Holds(inp, r, inp.names[i]);
  }

  lemma {:induction false} CoveredGrows(inp: Inputs, assets: seq<Asset>, existing: map<string, AssetView>, i: nat, j: nat)
    requires Covered(inp, assets, existing, i) && i <= j
    ensures Covered(inp, assets, existing, j)
  {
    forall k | 0 <= k < |assets| && assets[k].name !in existing
      ensures exists m :: 0 <= m < j && m < |inp.names| && inp.names[m] == assets[k].name
    {
      var m :| 0 <= m < i && m < |inp.names| && inp.names[m] == assets[k].name;
    }
  }

  /** The loop head of the filling pass. */
  lemma {:induction false} VisitFill(inp: Inputs, s: Server, promote: bool, r: View, existing: map<string, AssetView>, i: nat)
    requires ValidInputs(inp) && WellFormed(s) && Owns(inp, s, r) && NoExtra(inp, s.releases[r.id])
    requires i <= |inp.names| && Verified(inp, s.releases[r.id], i) && Covered(inp, s.releases[r.id].assets, existing, i)
    ensures var at := Visit(inp, promote, r, Fill, existing, i);
            Knows(inp, s, promote, at) && (Good(inp, s, promote, at) <==> Resumable(inp, s, s.releases[r.id]))
  {
    var rel := s.releases[r.id];
    if i == |inp.names| {
      CompleteIsClean(inp, rel);
    } else if inp.names[i] in existing {
      var v := existing[inp.names[i]];
      assert ViewsAsset(rel.assets, inp.names[i], v);
      CoveredGrows(inp, rel.assets, existing, i, i + 1);
      if !v.uploaded { assert !CleanAsset(inp, rel.assets[v.index]); }
    } else {
      MissingIsNotHeld(inp, rel, existing, i);
    }
  }

  /** The loop head of a pass over a complete release: nothing can be missing. */
  lemma {:induction false} VisitComplete(inp: Inputs, s: Server, promote: bool, r: View, phase: Phase, existing: map<string, AssetView>, i: nat)
    requires ValidInputs(inp) && WellFormed(s) && Owns(inp, s, r) && phase != Fill && LaterPhase(inp, s, promote, r, phase)
    requires i <= |inp.names| && Covered(inp, s.releases[r.id].assets, existing, 0)
    ensures var at := Visit(inp, promote, r, phase, existing, i);
            Knows(inp, s, promote, at) && Good(inp, s, promote, at)
  {
    var rel := s.releases[r.id];
    CompleteIsClean(inp, rel);
    if i < |inp.names| {
      assert Holds(inp, rel, inp.names[i]);
      assert inp.names[i] in existing;
      var v := existing[inp.names[i]];
      assert ViewsAsset(rel.assets, inp.names[i], v) && CleanAsset(inp, rel.assets[v.index]);
      CoveredGrows(inp, rel.assets, existing, 0, i + 1);
    }
  }

  ghost predicate Keeps(inp: Inputs, s: Server, p: Proc) {
    var (s', at) := Step(inp, s, p, Served);
    && WellFormed(s') && Knows(inp, s', p.promote, at)
    && (Good(inp, s, p.promote, p.at) <==> Good(inp, s', p.promote, at))
  }

  lemma {:induction false} UncleanExtra(inp: Inputs, s: Server, r: Release)
    requires !NoExtra(inp, r)
    ensures !Resumable(inp, s, r) && !Complete(inp, r)
  {
    var k :| 0 <= k < |r.assets| && r.assets[k].name !in inp.expected;
    assert !CleanAsset(inp, r.assets[k]);
  }

  lemma {:induction false} ListKeeps(inp: Inputs, s: Server, p: Proc)
    requires ValidInputs(inp) && WellFormed(s) && Knows(inp, s, p.promote, p.at) && p.at.List?
    ensures Keeps(inp, s, p)
  {
    var r, phase := p.at.r, p.at.phase;
    var rel := s.releases[r.id];
    var at := Listed(inp, s, p.promote, r, phase);
    assert Step(inp, s, p, Served) == (s, at);
    if !NoExtra(inp, rel) {
      UncleanExtra(inp, s, rel);
    } else {
      var existing := Existing(rel.assets);
      assert Covered(inp, rel.assets, existing, 0);
      assert at == Visit(inp, p.promote, r, phase, existing, 0);
      if phase == Fill {
        VisitFill(inp, s, p.promote, r, existing, 0);
      } else {
        VisitComplete(inp, s, p.promote, r, phase, existing, 0);
      }
    }
  }

  /** After a download that matches: the loop goes on. */
  lemma {:induction false} FetchGoesOn(inp: Inputs, s: Server, promote: bool, r: View, phase: Phase, existing: map<string, AssetView>, i: nat, asset: nat)
    requires ValidInputs(inp) && WellFormed(s) && Knows(inp, s, promote, Fetch(r, phase, existing, i, asset))
    requires FetchMatches(inp, s, r, i, asset)
    ensures var at := Visit(inp, promote, r, phase, existing, i + 1);
            && Knows(inp, s, promote, at)
            && (Good(inp, s, promote, Fetch(r, phase, existing, i, asset)) <==> Good(inp, s, promote, at))
  {
    FetchedIsHeld(inp, s.releases[r.id], i, asset);
    if phase == Fill {
      VisitFill(inp, s, promote, r, existing, i + 1);
    } else {
      VisitComplete(inp, s, promote, r, phase, existing, i + 1);
    }
  }

  /** A download that differs: the release was not resumable. */
  lemma {:induction false} FetchDiffers(inp: Inputs, s: Server, promote: bool, r: View, phase: Phase, existing: map<string, AssetView>, i: nat, asset: nat)
    requires ValidInputs(inp) && WellFormed(s) && Knows(inp, s, promote, Fetch(r, phase, existing, i, asset))
    requires !FetchMatches(inp, s, r, i, asset)
    ensures !Good(inp, s, promote, Fetch(r, phase, existing, i, asset))
  {
    var rel := s.releases[r.id];
    assert inp.names[i] in inp.expected;
    assert !CleanAsset(inp, rel.assets[asset]);
    assert !Clean(inp, rel);
    if phase != Fill { CompleteIsClean(inp, rel); }
  }

  lemma {:induction false} FetchStep(inp: Inputs, s: Server, p: Proc) returns (at: Local)
    requires ValidInputs(inp) && WellFormed(s) && Knows(inp, s, p.promote, p.at) && p.at.Fetch?
    ensures Step(inp, s, p, Served) == (s, at) && Knows(inp, s, p.promote, at)
    ensures Good(inp, s, p.promote, p.at) == Good(inp, s, p.promote, at)
  {
    var Fetch(r, phase, existing, i, asset) := p.at;
    at := if FetchMatches(inp, s, r, i, asset) then Visit(inp, p.promote, r, phase, existing, i + 1) else Failed;
    FetchedKeeps(inp, s, p.promote, r, phase, existing, i, asset);
  }

  lemma {:induction false} FetchKeeps(inp: Inputs, s: Server, p: Proc)
    requires ValidInputs(inp) && WellFormed(s) && Knows(inp, s, p.promote, p.at) && p.at.Fetch?
    ensures Keeps(inp, s, p)
  {
    var at := FetchStep(inp, s, p);
    KeepsBy(inp, s, p, s, at);
  }

  lemma {:induction false} KeepsBy(inp: Inputs, s: Server, p: Proc, s': Server, at: Local)
    requires Step(inp, s, p, Served) == (s', at) && WellFormed(s') && Knows(inp, s', p.promote, at)
    requires Good(inp, s, p.promote, p.at) == Good(inp, s', p.promote, at)
    ensures Keeps(inp, s, p)
  {
  }

  lemma {:induction false} FetchedKeeps(inp: Inputs, s: Server, promote: bool, r: View, phase: Phase, existing: map<string, AssetView>, i: nat, asset: nat)
    requires ValidInputs(inp) && WellFormed(s) && Knows(inp, s, promote, Fetch(r, phase, existing, i, asset))
    ensures var at := if FetchMatches(inp, s, r, i, asset) then Visit(inp, promote, r, phase, existing, i + 1) else Failed;
            && Knows(inp, s, promote, at)
            && Good(inp, s, promote, Fetch(r, phase, existing, i, asset)) == Good(inp, s, promote, at)
  {
    if FetchMatches(inp, s, r, i, asset) {
      FetchGoesOn(inp, s, promote, r, phase, existing, i, asset);
    } else {
      FetchDiffers(inp, s, promote, r, phase, existing, i, asset);
    }
  }

  lemma {:induction false} FindIsLength(assets: seq<Asset>, name: string)
    requires forall k :: 0 <= k < |assets| ==> assets[k].name != name
    ensures Find(assets, name) == |assets|
  {
  }

  lemma {:induction false} UploadKeeps(inp: Inputs, s: Server, p: Proc)
    requires ValidInputs(inp) && WellFormed(s) && Knows(inp, s, p.promote, p.at) && p.at.Upload?
    ensures Keeps(inp, s, p)
  {
    var s', at := UploadStep(inp, s, p);
    KeepsBy(inp, s, p, s', at);
  }

  lemma {:induction false} UploadStep(inp: Inputs, s: Server, p: Proc) returns (s': Server, at: Local)
    requires ValidInputs(inp) && WellFormed(s) && Knows(inp, s, p.promote, p.at) && p.at.Upload?
    ensures Step(inp, s, p, Served) == (s', at) && WellFormed(s') && Knows(inp, s', p.promote, at)
    ensures Good(inp, s, p.promote, p.at) == Good(inp, s', p.promote, at)
  {
    var Upload(r, existing, i) := p.at;
    var rel, name := s.releases[r.id], inp.names[i];
    assert name in inp.expected;
    MissingIsNotHeld(inp, rel, existing, i);
    FindIsLength(rel.assets, name);
    var a := Asset(name, true, inp.expected[name]);
    AddEvolves(inp, s, r.id, a);
    s', at := AddAsset(s, r.id, a), Fetch(r, Fill, existing, i, |rel.assets|);
    var rel' := s'.releases[r.id];
    assert Step(inp, s, p, Served) == (s', at);
    assert rel'.assets == rel.assets + [a];
    ReleaseStable(inp, rel, rel', i);
    UploadCovers(inp, rel.assets, a, existing, i);
    UploadStaysClean(inp, rel, rel', a);
  }

  lemma {:induction false} UploadCovers(inp: Inputs, assets: seq<Asset>, a: Asset, existing: map<string, AssetView>, i: nat)
    requires Covered(inp, assets, existing, i) && i < |inp.names| && a.name == inp.names[i]
    ensures Covered(inp, assets + [a], existing, i + 1)
  {
    CoveredGrows(inp, assets, existing, i, i + 1);
    var more := assets + [a];
    assert ListingOk(more, existing);
    forall k | 0 <= k < |more| && more[k].name !in existing
      ensures exists m :: 0 <= m < i + 1 && m < |inp.names| && inp.names[m] == more[k].name
    {
      if k < |assets| { assert more[k] == assets[k]; }
    }
  }

  lemma {:induction false} UploadStaysClean(inp: Inputs, rel: Release, rel': Release, a: Asset)
    requires rel'.assets == rel.assets + [a] && CleanAsset(inp, a)
    ensures Clean(inp, rel) <==> Clean(inp, rel')
  {
    assert forall k :: 0 <= k < |rel.assets| ==> rel'.assets[k] == rel.assets[k];
  }

  lemma {:induction false} PromoteKeeps(inp: Inputs, s: Server, p: Proc)
    requires ValidInputs(inp) && WellFormed(s) && Knows(inp, s, p.promote, p.at) && p.at.Promote?
    ensures Keeps(inp, s, p)
  {
    var r := p.at.r;
    PromoteExtends(s, r.id);
    var s' := PromoteRelease(s, r.id);
    assert s'.releases[r.id].assets == s.releases[r.id].assets;
    ReleaseStable(inp, s.releases[r.id], s'.releases[r.id], |inp.names|);
    assert TagAllows(inp, s', false);
  }

  lemma {:induction false} CreateKeeps(inp: Inputs, s: Server, p: Proc)
    requires ValidInputs(inp) && WellFormed(s) && Knows(inp, s, p.promote, p.at) && p.at.Create?
    ensures Keeps(inp, s, p)
  {
    CreateExtends(s, inp.tag, inp.target, inp.notes);
    var s' := CreateDraft(s, inp.tag, inp.target, inp.notes);
    var rel := s'.releases[|s.releases|];
    assert Resumable(inp, s', rel);
    assert TagLookup(s', inp.tag) == TagLookup(s, inp.tag);
  }

  lemma {:induction false} StepKeepsCondition(inp: Inputs, s: Server, p: Proc)
    requires ValidInputs(inp) && WellFormed(s) && Knows(inp, s, p.promote, p.at)
    requires !p.at.Done? && !p.at.Failed?
    ensures Keeps(inp, s, p)
  {
    if p.at.List? { ListKeeps(inp, s, p); }
    else if p.at.Fetch? { FetchKeeps(inp, s, p); }
    else if p.at.Upload? { UploadKeeps(inp, s, p); }
    else if p.at.Promote? { PromoteKeeps(inp, s, p); }
    else if p.at.Create? { CreateKeeps(inp, s, p); }
    else if p.at.FindRelease? { FindKeeps(inp, s, p); }
    else { PlainStepKeeps(inp, s, p); }
  }

  lemma {:induction false} PlainStepKeeps(inp: Inputs, s: Server, p: Proc)
    requires ValidInputs(inp) && WellFormed(s) && Knows(inp, s, p.promote, p.at)
    requires p.at.Start? || p.at.CheckTag? || p.at.CheckTagAgain? || p.at.CheckTagFinal?
    ensures Keeps(inp, s, p)
  {
  }

  lemma {:induction false} FindKeeps(inp: Inputs, s: Server, p: Proc)
    requires ValidInputs(inp) && WellFormed(s) && Knows(inp, s, p.promote, p.at) && p.at.FindRelease?
    ensures Keeps(inp, s, p)
  {
  }

  lemma {:induction false} SoloMeetsCondition(inp: Inputs, s: Server, p: Proc)
    requires ValidInputs(inp) && WellFormed(s) && Knows(inp, s, p.promote, p.at)
    ensures Solo(inp, s, p).1.Done? <==> Good(inp, s, p.promote, p.at)
    decreases Stage(p.at), Remaining(inp, p.at)
  {
    if !p.at.Done? && !p.at.Failed? {
      StepKeepsCondition(inp, s, p);
      StepDescends(inp, s, p);
      var (s', at) := Step(inp, s, p, Served);
      SoloMeetsCondition(inp, s', Proc(p.promote, at));
    }
  }

  // ---- The condition, on the server alone ----

  /** The first published release of a tag. */
  ghost predicate IsPublished(s: Server, tag: string, id: nat) {
    && id < |s.releases| && s.releases[id].tag == tag && !s.releases[id].draft
    && forall k :: 0 <= k < id ==> s.releases[k].tag != tag || s.releases[k].draft
  }

  /** A component release is public and stable, its tag selects its commit, and its inventory is
      there with the bytes that are to be published. */
  ghost predicate SourceIsPublic(inp: Inputs, s: Server, c: SourceCheck) {
    && c.asset in inp.expected && TagSelects(s, c.tag, c.commit)
    && exists id: nat :: IsPublished(s, c.tag, id) && !s.releases[id].prerelease && HasAsset(s.releases[id], Asset(c.asset, true, inp.expected[c.asset]))
  }

  ghost predicate HasAsset(r: Release, a: Asset) { exists k :: 0 <= k < |r.assets| && r.assets[k] == a }

  /** The release of the tag has the identity and holds nothing but expected assets, whole; once
      it is stable it holds all of them, and its tag selects the target. */
  ghost predicate MayBePublished(inp: Inputs, s: Server, r: Release) {
    && r.target == inp.target && r.body == inp.notes && !r.prerelease
    && (forall k :: 0 <= k < |r.assets| ==>
          r.assets[k].name in inp.expected && r.assets[k] == Asset(r.assets[k].name, true, inp.expected[r.assets[k].name]))
    && (r.draft || (TagSelects(s, inp.tag, inp.target) && forall n :: n in inp.expected ==> HasAsset(r, Asset(n, true, inp.expected[n]))))
  }

  /** The servers on which `publish` can succeed. */
  ghost predicate Allows(inp: Inputs, promote: bool, s: Server) {
    && (promote ==> inp.qualified)
    && (forall i :: 0 <= i < |inp.sources| ==> SourceIsPublic(inp, s, inp.sources[i]))
    && (inp.tag !in s.tags || TagSelects(s, inp.tag, inp.target))
    && (forall i, j :: 0 <= i < j < |s.releases| ==> s.releases[i].tag != inp.tag || s.releases[j].tag != inp.tag)
    && (forall i :: 0 <= i < |s.releases| && s.releases[i].tag == inp.tag ==> MayBePublished(inp, s, s.releases[i]))
  }

  lemma {:induction false} SourceOkIff(inp: Inputs, s: Server, c: SourceCheck)
    requires WellFormed(s)
    ensures SourceOk(inp, s, c) <==> SourceIsPublic(inp, s, c)
  {
    TagLookupIff(s, c.tag, c.commit);
    var id := PublishedByTag(s.releases, c.tag);
    if id < |s.releases| {
      assert IsPublished(s, c.tag, id);
      if c.asset in inp.expected { FoundIff(s.releases[id], Asset(c.asset, true, inp.expected[c.asset])); }
    }
    forall k: nat | IsPublished(s, c.tag, k) ensures k == id { }
  }

  lemma {:induction false} FoundIff(r: Release, a: Asset)
    requires UniqueNames(r.assets)
    ensures HasAsset(r, a) <==> var k := Find(r.assets, a.name); k < |r.assets| && r.assets[k] == a
  {
    if HasAsset(r, a) {
      var k :| 0 <= k < |r.assets| && r.assets[k] == a;
      assert Find(r.assets, a.name) == k;
    }
  }

  lemma {:induction false} ResumableIff(inp: Inputs, s: Server, r: Release)
    requires ValidInputs(inp) && r.tag == inp.tag
    ensures Resumable(inp, s, r) <==> MayBePublished(inp, s, r)
  {
    TagLookupIff(s, inp.tag, inp.target);
    assert Clean(inp, r) <==> forall k :: 0 <= k < |r.assets| ==>
      r.assets[k].name in inp.expected && r.assets[k] == Asset(r.assets[k].name, true, inp.expected[r.assets[k].name]);
    if Verified(inp, r, |inp.names|) {
      forall n | n in inp.expected ensures HasAsset(r, Asset(n, true, inp.expected[n])) {
        var i :| 0 <= i < |inp.names| && inp.names[i] == n;
        assert Holds(inp, r, inp.names[i]);
      }
    }
    if forall n :: n in inp.expected ==> HasAsset(r, Asset(n, true, inp.expected[n])) {
      forall i | 0 <= i < |inp.names| ensures Holds(inp, r, inp.names[i]) {
        assert HasAsset(r, Asset(inp.names[i], true, inp.expected[inp.names[i]]));
      }
    }
  }

  lemma {:induction false} OneReleaseIff(inp: Inputs, s: Server)
    requires ValidInputs(inp)
    ensures AtMostOneResumable(inp, s) <==>
            && (forall i, j :: 0 <= i < j < |s.releases| ==> s.releases[i].tag != inp.tag || s.releases[j].tag != inp.tag)
            && (forall i :: 0 <= i < |s.releases| && s.releases[i].tag == inp.tag ==> MayBePublished(inp, s, s.releases[i]))
  {
    var ids := IdsOfTag(s.releases, inp.tag);
    forall i | 0 <= i < |s.releases| && s.releases[i].tag == inp.tag
      ensures i in ids && (Resumable(inp, s, s.releases[i]) <==> MayBePublished(inp, s, s.releases[i]))
    {
      ResumableIff(inp, s, s.releases[i]);
    }
    if |ids| > 1 { assert ids[0] < ids[1]; }
    if |ids| <= 1 {
      forall i, j | 0 <= i < j < |s.releases| ensures s.releases[i].tag != inp.tag || s.releases[j].tag != inp.tag {
        assert s.releases[i].tag == inp.tag ==> ids[0] == i;
        assert s.releases[j].tag == inp.tag ==> ids[0] == j;
      }
    }
  }

  lemma {:induction false} PublishableIff(inp: Inputs, promote: bool, s: Server)
    requires ValidInputs(inp) && WellFormed(s)
    ensures Publishable(inp, promote, s) <==> Allows(inp, promote, s)
  {
    forall i | 0 <= i < |inp.sources| ensures SourceOk(inp, s, inp.sources[i]) <==> SourceIsPublic(inp, s, inp.sources[i]) {
      SourceOkIff(inp, s, inp.sources[i]);
    }
    TagLookupIff(s, inp.tag, inp.target);
    OneReleaseIff(inp, s);
  }

  /** `publish`, with every request served, returns without error exactly on the servers that
      allow it. */
  lemma {:induction false} SucceedsIffPublishable(inp: Inputs, s: Server, promote: bool)
    requires ValidInputs(inp) && WellFormed(s)
    ensures Solo(inp, s, Proc(promote, Start)).1.Done? <==> Allows(inp, promote, s)
  {
    SoloMeetsCondition(inp, s, Proc(promote, Start));
    PublishableIff(inp, promote, s);
  }
}
