/** Which runs leave a server on which the next run succeeds, and which never do. */
module PublisherRerun {
  import opened ReleaseServer
  import opened PublisherMachine
  import opened PublisherSafety
  import opened PublisherLiveness

  // ---- Component releases are out of the publishers' reach ----

  /** Writes of a publisher: only releases and the tag of the umbrella version change. */
  ghost predicate Frames(tag: string, s: Server, s': Server) {
    && |s.releases| <= |s'.releases|
    && (forall id :: 0 <= id < |s.releases| ==> s'.releases[id].tag == s.releases[id].tag)
    && (forall id :: 0 <= id < |s.releases| && s.releases[id].tag != tag ==> s'.releases[id] == s.releases[id])
    && (forall id :: |s.releases| <= id < |s'.releases| ==> s'.releases[id].tag == tag)
    && (forall t :: t != tag ==> (t in s'.tags <==> t in s.tags) && (t in s.tags ==> s'.tags[t] == s.tags[t]))
    && s'.tagObjects == s.tagObjects
  }

  lemma {:induction false} PublishedFramed(tag: string, s: Server, s': Server, other: string)
    requires Frames(tag, s, s') && other != tag && PublishedByTag(s.releases, other) < |s.releases|
    ensures PublishedByTag(s'.releases, other) == PublishedByTag(s.releases, other)
    ensures s'.releases[PublishedByTag(s.releases, other)] == s.releases[PublishedByTag(s.releases, other)]
  {
    var a, b := PublishedByTag(s.releases, other), PublishedByTag(s'.releases, other);
    assert s'.releases[a] == s.releases[a];
    assert forall k :: 0 <= k < a && s.releases[k].tag == other ==> s'.releases[k] == s.releases[k];
  }

  lemma {:induction false} SourcesFramed(inp: Inputs, s: Server, s': Server)
    requires ValidInputs(inp) && Frames(inp.tag, s, s') && SourcesOk(inp, s)
    ensures SourcesOk(inp, s')
  {
    forall i | 0 <= i < |inp.sources| ensures SourceOk(inp, s', inp.sources[i]) {
      assert SourceOk(inp, s, inp.sources[i]);
      PublishedFramed(inp.tag, s, s', inp.sources[i].tag);
    }
  }

  // ---- The releases of the umbrella tag ----

  lemma {:induction false} SameIds(a: seq<Release>, b: seq<Release>, tag: string)
    requires |a| == |b| && forall i :: 0 <= i < |a| ==> a[i].tag == b[i].tag
    ensures IdsOfTag(a, tag) == IdsOfTag(b, tag)
  {
    if a != [] { SameIds(a[..|a| - 1], b[..|b| - 1], tag); }
  }

  lemma {:induction false} IdsAppend(a: seq<Release>, r: Release)
    ensures IdsOfTag(a + [r], r.tag) == IdsOfTag(a, r.tag) + [|a|]
  {
    assert (a + [r])[..|a|] == a;
  }

  lemma {:induction false} IdsGrow(a: seq<Release>, b: seq<Release>, tag: string)
    requires |a| <= |b| && forall i :: 0 <= i < |a| ==> a[i].tag == b[i].tag
    ensures IdsOfTag(a, tag) <= IdsOfTag(b, tag)
    decreases |b|
  {
    if |a| == |b| {
      SameIds(a, b, tag);
    } else {
      IdsGrow(a, b[..|b| - 1], tag);
    }
  }

  lemma {:induction false} OnlyId(releases: seq<Release>, tag: string, id: nat)
    requires |IdsOfTag(releases, tag)| <= 1 && id < |releases| && releases[id].tag == tag
    ensures IdsOfTag(releases, tag) == [id]
  {
  }

  // ---- Readiness is kept ----

  lemma {:induction false} CreateKeepsReady(inp: Inputs, s: Server)
    requires ValidInputs(inp) && Ready(inp, s) && |IdsOfTag(s.releases, inp.tag)| == 0
    ensures Ready(inp, CreateDraft(s, inp.tag, inp.target, inp.notes))
  {
    var s' := CreateDraft(s, inp.tag, inp.target, inp.notes);
    CreateFrames(inp, s);
    SourcesFramed(inp, s, s');
    DraftIsResumable(inp, s, s');
  }

  lemma {:induction false} DraftIsResumable(inp: Inputs, s: Server, s': Server)
    requires s' == CreateDraft(s, inp.tag, inp.target, inp.notes) && |IdsOfTag(s.releases, inp.tag)| == 0
    ensures AtMostOneResumable(inp, s')
  {
    var r := s'.releases[|s.releases|];
    IdsAppend(s.releases, r);
    assert IdsOfTag(s'.releases, inp.tag) == [|s.releases|];
    assert Resumable(inp, s', r);
  }

  lemma {:induction false} CreateFrames(inp: Inputs, s: Server)
    ensures Frames(inp.tag, s, CreateDraft(s, inp.tag, inp.target, inp.notes))
    ensures TagAllows(inp, s, true) ==> TagAllows(inp, CreateDraft(s, inp.tag, inp.target, inp.notes), true)
  {
  }

  lemma {:induction false} AddKeepsReady(inp: Inputs, s: Server, id: nat, a: Asset)
    requires ValidInputs(inp) && Ready(inp, s) && id < |s.releases| && s.releases[id].tag == inp.tag
    requires s.releases[id].draft && CleanAsset(inp, a)
    ensures Ready(inp, AddAsset(s, id, a))
  {
    var s' := AddAsset(s, id, a);
    SourcesFramed(inp, s, s');
    SameIds(s.releases, s'.releases, inp.tag);
    OnlyId(s.releases, inp.tag, id);
    var r, r' := s.releases[id], s'.releases[id];
    assert Resumable(inp, s, r);
    forall k | 0 <= k < |r'.assets| ensures CleanAsset(inp, r'.assets[k]) {
      if k < |r.assets| { assert r'.assets[k] == r.assets[k]; }
    }
  }

  lemma {:induction false} PromoteKeepsReady(inp: Inputs, s: Server, id: nat)
    requires ValidInputs(inp) && WellFormed(s) && Ready(inp, s) && id < |s.releases|
    requires SameIdentity(inp, s.releases[id]) && Complete(inp, s.releases[id])
    ensures Ready(inp, PromoteRelease(s, id))
  {
    var s' := PromoteRelease(s, id);
    SourcesFramed(inp, s, s');
    SameIds(s.releases, s'.releases, inp.tag);
    OnlyId(s.releases, inp.tag, id);
    PromoteExtends(s, id);
    assert GrowsExpected(inp, s.releases[id], s'.releases[id]);
    ReleaseStable(inp, s.releases[id], s'.releases[id], |inp.names|);
    CompleteIsClean(inp, s'.releases[id]);
    assert TagAllows(inp, s', false);
  }

  /** A move that creates a second draft of the tag. */
  ghost predicate CreatesDuplicate(inp: Inputs, sys: System, m: Move) {
    m.proc < |sys.procs| && sys.procs[m.proc].at.Create? && m.reply != Refused
    && |IdsOfTag(sys.server.releases, inp.tag)| > 0
  }

  lemma {:induction false} NextKeepsReady(inp: Inputs, s0: Server, sys: System, m: Move)
    requires ValidInputs(inp) && Inv(inp, s0, sys) && Ready(inp, sys.server)
    requires !m.reply.Torn? && !CreatesDuplicate(inp, sys, m)
    ensures Ready(inp, Next(inp, sys, m).server)
  {
    if m.proc < |sys.procs| {
      var p, s := sys.procs[m.proc], sys.server;
      assert LocalOk(inp, s0, s, p.promote, p.at);
      if p.at.Create? {
        if m.reply != Refused { CreateKeepsReady(inp, s); }
      } else if p.at.Upload? {
        UploadKeepsReady(inp, s0, s, p, m.reply);
      } else if p.at.Promote? {
        PromoteKeepsReady(inp, s, p.at.r.id);
      } else {
        assert Next(inp, sys, m).server == s;
      }
    }
  }

  lemma {:induction false} UploadKeepsReady(inp: Inputs, s0: Server, s: Server, p: Proc, reply: Reply)
    requires ValidInputs(inp) && ServerOk(inp, s0, s) && LocalOk(inp, s0, s, p.promote, p.at) && p.at.Upload?
    requires Ready(inp, s) && !reply.Torn?
    ensures Ready(inp, Step(inp, s, p, reply).0)
  {
    var Upload(r, existing, i) := p.at;
    UploadedOk(inp, s0, s, p.promote, r, existing, i, reply);
    assert Step(inp, s, p, reply) == Uploaded(inp, s, r, existing, i, reply);
    if s.releases[r.id].draft && reply != Refused {
      assert inp.names[i] in inp.expected;
      AddKeepsReady(inp, s, r.id, Asset(inp.names[i], true, inp.expected[inp.names[i]]));
    }
  }

  /** A run without torn uploads in which no second draft of the tag is created. */
  ghost predicate Orderly(inp: Inputs, sys: System, moves: seq<Move>) {
    forall k :: 0 <= k < |moves| ==> !moves[k].reply.Torn? && !CreatesDuplicate(inp, Run(inp, sys, moves[..k]), moves[k])
  }

  lemma {:induction false} RunKeepsReady(inp: Inputs, sys: System, moves: seq<Move>)
    requires ValidInputs(inp) && Fresh(sys) && Ready(inp, sys.server) && Orderly(inp, sys, moves)
    ensures Ready(inp, Run(inp, sys, moves).server)
  {
    if moves != [] {
      var n := |moves| - 1;
      forall k | 0 <= k < n ensures moves[..n][k] == moves[k] && moves[..n][..k] == moves[..k] {
      }
      RunKeepsReady(inp, sys, moves[..n]);
      RunKeeps(inp, sys, moves[..n]);
      NextKeepsReady(inp, sys.server, Run(inp, sys, moves[..n]), moves[n]);
    }
  }

  /** After any orderly run, however its publishers crashed, one more run whose requests are
      served succeeds. */
  lemma {:induction false} RerunSucceeds(inp: Inputs, sys: System, moves: seq<Move>, promote: bool)
    requires ValidInputs(inp) && Fresh(sys) && Orderly(inp, sys, moves)
    requires Allows(inp, promote, sys.server)
    ensures Solo(inp, Run(inp, sys, moves).server, Proc(promote, Start)).1.Done?
  {
    PublishableIff(inp, promote, sys.server);
    RunKeepsReady(inp, sys, moves);
    RunExtends(inp, sys, moves);
    SoloMeetsCondition(inp, Run(inp, sys, moves).server, Proc(promote, Start));
  }

  // ---- One publisher alone is always orderly ----

  lemma {:induction false} LoneCreatorFoundNothing(inp: Inputs, s: Server, promote: bool, moves: seq<Move>)
    ensures var sys := Run(inp, System(s, [Proc(promote, Start)]), moves);
            && |sys.procs| == 1
            && (sys.procs[0].at.Create? ==> |IdsOfTag(sys.server.releases, inp.tag)| == 0)
  {
    if moves != [] {
      var n := |moves| - 1;
      LoneCreatorFoundNothing(inp, s, promote, moves[..n]);
      var mid := Run(inp, System(s, [Proc(promote, Start)]), moves[..n]);
      if moves[n].proc == 0 && Step(inp, mid.server, mid.procs[0], moves[n].reply).1.Create? {
        OnlyFindLeadsToCreate(inp, mid.server, mid.procs[0], moves[n].reply);
      }
    }
  }

  lemma {:induction false} OnlyFindLeadsToCreate(inp: Inputs, s: Server, p: Proc, reply: Reply)
    requires Step(inp, s, p, reply).1.Create?
    ensures Step(inp, s, p, reply).0 == s && |IdsOfTag(s.releases, inp.tag)| == 0
  {
  }

  /** From the state left by any prefix of one publisher's run with whole-asset uploads, a
      rerun succeeds. */
  lemma {:induction false} LoneRerunSucceeds(inp: Inputs, s: Server, first: bool, moves: seq<Move>, promote: bool)
    requires ValidInputs(inp) && WellFormed(s) && Allows(inp, promote, s)
    requires forall k :: 0 <= k < |moves| ==> !moves[k].reply.Torn?
    ensures Solo(inp, Run(inp, System(s, [Proc(first, Start)]), moves).server, Proc(promote, Start)).1.Done?
  {
    var sys := System(s, [Proc(first, Start)]);
    forall k | 0 <= k < |moves| ensures !CreatesDuplicate(inp, Run(inp, sys, moves[..k]), moves[k]) {
      LoneCreatorFoundNothing(inp, s, first, moves[..k]);
    }
    RerunSucceeds(inp, sys, moves, promote);
  }

  // ---- Two publishers together need not be ----

  /** Once two releases carry the tag, no run against the server or any later state of it
      succeeds. */
  lemma {:induction false} DuplicatesBlock(inp: Inputs, s: Server, s': Server, promote: bool)
    requires ValidInputs(inp) && WellFormed(s') && Extends(s, s') && |IdsOfTag(s.releases, inp.tag)| > 1
    ensures !Solo(inp, s', Proc(promote, Start)).1.Done?
  {
    forall id | 0 <= id < |s.releases| ensures s.releases[id].tag == s'.releases[id].tag {
      assert ReleaseExtends(s.releases[id], s'.releases[id]);
    }
    IdsGrow(s.releases, s'.releases, inp.tag);
    SoloMeetsCondition(inp, s', Proc(promote, Start));
  }

  /** Both publishers look before either creates. */
  const RACE: seq<Move> := [
    Move(0, Served), Move(0, Served), Move(0, Served), Move(1, Served), Move(1, Served), Move(1, Served),
    Move(0, Served), Move(1, Served)]

  lemma {:induction false} ReachesCreate(inp: Inputs, sys: System, k: nat)
    requires k < |sys.procs| && sys.procs[k] == Proc(sys.procs[k].promote, Start)
    requires Publishable(inp, sys.procs[k].promote, sys.server) && |IdsOfTag(sys.server.releases, inp.tag)| == 0
    ensures Run(inp, sys, [Move(k, Served), Move(k, Served), Move(k, Served)]) ==
            sys.(procs := sys.procs[k := Proc(sys.procs[k].promote, Create)])
  {
    var m := Move(k, Served);
    var s1 := Next(inp, sys, m);
    var s2 := Next(inp, s1, m);
    var s3 := Next(inp, s2, m);
    assert s1.procs == sys.procs[k := Proc(sys.procs[k].promote, CheckTag)];
    assert s2.procs == sys.procs[k := Proc(sys.procs[k].promote, FindRelease)];
    assert s3.procs == sys.procs[k := Proc(sys.procs[k].promote, Create)];
    assert [m, m, m][..2] == [m, m] && [m, m][..1] == [m] && [m][..0] == [];
    assert Run(inp, sys, [m]) == s1;
    assert Run(inp, sys, [m, m]) == s2;
    assert Run(inp, sys, [m, m, m]) == s3;
  }

  /** The duplicate check is the publishers' only guard, and it is not atomic: on every
      publishable server without a release of the tag, this interleaving of two publishers
      leaves two drafts, and no later run ever succeeds. */
  lemma {:induction false} RacingCreatorsBlock(inp: Inputs, s: Server, p: bool, q: bool, later: seq<Move>, promote: bool)
    requires ValidInputs(inp) && WellFormed(s) && |IdsOfTag(s.releases, inp.tag)| == 0
    requires Allows(inp, p, s) && Allows(inp, q, s)
    ensures var sys := System(s, [Proc(p, Start), Proc(q, Start)]);
            && |IdsOfTag(Run(inp, sys, RACE).server.releases, inp.tag)| == 2
            && !Solo(inp, Run(inp, sys, RACE + later).server, Proc(promote, Start)).1.Done?
  {
    var sys := System(s, [Proc(p, Start), Proc(q, Start)]);
    PublishableIff(inp, p, s);
    PublishableIff(inp, q, s);
    RaceCreatesTwo(inp, s, p, q);
    RunAppend(inp, sys, RACE, later);
    RunExtends(inp, sys, RACE);
    RunExtends(inp, Run(inp, sys, RACE), later);
    DuplicatesBlock(inp, Run(inp, sys, RACE).server, Run(inp, sys, RACE + later).server, promote);
  }

  lemma {:induction false} RaceCreatesTwo(inp: Inputs, s: Server, p: bool, q: bool)
    requires |IdsOfTag(s.releases, inp.tag)| == 0 && Publishable(inp, p, s) && Publishable(inp, q, s)
    ensures |IdsOfTag(Run(inp, System(s, [Proc(p, Start), Proc(q, Start)]), RACE).server.releases, inp.tag)| == 2
  {
    var sys := System(s, [Proc(p, Start), Proc(q, Start)]);
    BothReachCreate(inp, s, p, q);
    BothCreate(inp, System(s, [Proc(p, Create), Proc(q, Create)]));
    RunAppend(inp, sys, RACE[..6], RACE[6..]);
    assert RACE == RACE[..6] + RACE[6..] && RACE[6..] == [Move(0, Served), Move(1, Served)];
  }

  lemma {:induction false} BothReachCreate(inp: Inputs, s: Server, p: bool, q: bool)
    requires |IdsOfTag(s.releases, inp.tag)| == 0 && Publishable(inp, p, s) && Publishable(inp, q, s)
    ensures Run(inp, System(s, [Proc(p, Start), Proc(q, Start)]), RACE[..6]) == System(s, [Proc(p, Create), Proc(q, Create)])
  {
    var sys := System(s, [Proc(p, Start), Proc(q, Start)]);
    var a, b := [RACE[0], RACE[1], RACE[2]], [RACE[3], RACE[4], RACE[5]];
    var mid1 := Run(inp, sys, a);
    ReachesCreate(inp, sys, 0);
    assert mid1 == System(s, [Proc(p, Create), Proc(q, Start)]);
    ReachesCreate(inp, mid1, 1);
    RunAppend(inp, sys, a, b);
    assert a + b == RACE[..6];
  }

  /** A publisher at its create step adds a release with the tag; the other stays where it is. */
  lemma {:induction false} Creates(inp: Inputs, sys: System, who: nat)
    requires who < |sys.procs| && sys.procs[who].at.Create?
    ensures var next := Next(inp, sys, Move(who, Served));
            && |IdsOfTag(next.server.releases, inp.tag)| == |IdsOfTag(sys.server.releases, inp.tag)| + 1
            && |next.procs| == |sys.procs| && forall i :: 0 <= i < |sys.procs| && i != who ==> next.procs[i] == sys.procs[i]
  {
    var next := Next(inp, sys, Move(who, Served));
    IdsAppend(sys.server.releases, next.server.releases[|sys.server.releases|]);
  }

  lemma {:induction false} RunOfTwo(inp: Inputs, sys: System, m0: Move, m1: Move)
    ensures Run(inp, sys, [m0, m1]) == Next(inp, Next(inp, sys, m0), m1)
  {
    assert [m0, m1][..1] == [m0] && [m0][..0] == [];
    assert Run(inp, sys, [m0]) == Next(inp, sys, m0);
  }

  lemma {:induction false} BothCreate(inp: Inputs, sys: System)
    requires |sys.procs| == 2 && sys.procs[0].at.Create? && sys.procs[1].at.Create?
    requires |IdsOfTag(sys.server.releases, inp.tag)| == 0
    ensures |IdsOfTag(Run(inp, sys, [Move(0, Served), Move(1, Served)]).server.releases, inp.tag)| == 2
  {
    Creates(inp, sys, 0);
    Creates(inp, Next(inp, sys, Move(0, Served)), 1);
    RunOfTwo(inp, sys, Move(0, Served), Move(1, Served));
  }
}
