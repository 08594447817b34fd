/** Safety of every interleaving of publishers, at every crash point. */
module PublisherSafety {
  import opened ReleaseServer
  import opened PublisherMachine

  /** Publishers about to start against any server, whatever it already holds. */
  ghost predicate Fresh(sys: System) {
    WellFormed(sys.server) && forall k :: 0 <= k < |sys.procs| ==> sys.procs[k].at == Start
  }

  lemma {:induction false} SameExtends(s: Server)
    ensures Extends(s, s)
  {
  }

  lemma {:induction false} RunKeeps(inp: Inputs, sys: System, moves: seq<Move>)
    requires ValidInputs(inp) && Fresh(sys)
    ensures Inv(inp, sys.server, Run(inp, sys, moves))
  {
    if moves == [] {
      SameExtends(sys.server);
    } else {
      var before := moves[..|moves| - 1];
      RunKeeps(inp, sys, before);
      NextKeeps(inp, sys.server, Run(inp, sys, before), moves[|moves| - 1]);
    }
  }

  lemma {:induction false} RunAppend(inp: Inputs, sys: System, a: seq<Move>, b: seq<Move>)
    ensures Run(inp, sys, a + b) == Run(inp, Run(inp, sys, a), b)
  {
    if b == [] {
      assert a + b == a;
    } else {
      var n := |b| - 1;
      RunAppend(inp, sys, a, b[..n]);
      assert (a + b)[..|a + b| - 1] == a + b[..n];
    }
  }

  lemma {:induction false} RunExtends(inp: Inputs, sys: System, moves: seq<Move>)
    requires WellFormed(sys.server)
    ensures Extends(sys.server, Run(inp, sys, moves).server) && WellFormed(Run(inp, sys, moves).server)
  {
    if moves == [] {
      SameExtends(sys.server);
    } else {
      var n := |moves| - 1;
      RunExtends(inp, sys, moves[..n]);
      var mid, m := Run(inp, sys, moves[..n]), moves[n];
      if m.proc < |mid.procs| {
        StepEvolves(inp, mid.server, mid.procs[m.proc], m.reply);
        ExtendsTransitive(sys.server, mid.server, Next(inp, mid, m).server);
      }
    }
  }

  /** Asset bytes by name. */
  ghost function AssetMap(assets: seq<Asset>): (m: map<string, Bytes>)
    requires UniqueNames(assets)
    ensures forall i :: 0 <= i < |assets| ==> assets[i].name in m && m[assets[i].name] == assets[i].data
    ensures forall n :: n in m ==> exists i :: 0 <= i < |assets| && assets[i].name == n
  {
    map i | 0 <= i < |assets| :: assets[i].name := assets[i].data
  }

  /** A complete release is exactly the expected map, with nothing half-uploaded. */
  lemma {:induction false} CompleteIsExact(inp: Inputs, r: Release)
    requires ValidInputs(inp) && UniqueNames(r.assets) && Complete(inp, r)
    ensures AssetMap(r.assets) == inp.expected
    ensures forall k :: 0 <= k < |r.assets| ==> r.assets[k].uploaded
  {
    forall k | 0 <= k < |r.assets|
      ensures r.assets[k] == Asset(r.assets[k].name, true, inp.expected[r.assets[k].name])
    {
      var name := r.assets[k].name;
      var i :| 0 <= i < |inp.names| && inp.names[i] == name;
      assert Holds(inp, r, inp.names[i]);
      var j :| 0 <= j < |r.assets| && r.assets[j] == Asset(name, true, inp.expected[name]);
    }
    forall n | n in inp.expected ensures n in AssetMap(r.assets) {
      var i :| 0 <= i < |inp.names| && inp.names[i] == n;
      assert Holds(inp, r, inp.names[i]);
    }
  }

  /** No existing asset ever changes, and every release that leaves the draft state during a
      run holds exactly the expected assets, in every later state too. */
  lemma {:induction false} EveryRunIsSafe(inp: Inputs, sys: System, moves: seq<Move>, id: nat)
    requires ValidInputs(inp) && Fresh(sys)
    requires id < |Run(inp, sys, moves).server.releases|
    ensures Extends(sys.server, Run(inp, sys, moves).server)
    ensures var r := Run(inp, sys, moves).server.releases[id];
            UniqueNames(r.assets) && (WasOpen(sys.server, id) && !r.draft ==> AssetMap(r.assets) == inp.expected)
  {
    RunKeeps(inp, sys, moves);
    var r := Run(inp, sys, moves).server.releases[id];
    if WasOpen(sys.server, id) && !r.draft {
      assert Complete(inp, r);
      CompleteIsExact(inp, r);
    }
  }

  /** No request of any publisher adds to a release that is stable at that moment, even when
      the publisher still believes it is a draft. */
  lemma {:induction false} StableReleasesAreNotWritten(inp: Inputs, sys: System, moves: seq<Move>, m: Move, id: nat)
    requires ValidInputs(inp) && Fresh(sys)
    requires var mid := Run(inp, sys, moves); id < |mid.server.releases| && !mid.server.releases[id].draft
    ensures var mid := Run(inp, sys, moves);
            && id < |Next(inp, mid, m).server.releases|
            && Next(inp, mid, m).server.releases[id].assets == mid.server.releases[id].assets
  {
    RunKeeps(inp, sys, moves);
    var mid := Run(inp, sys, moves);
    if m.proc < |mid.procs| {
      var p := mid.procs[m.proc];
      assert LocalOk(inp, sys.server, mid.server, p.promote, p.at);
      if p.at.Upload? {
        UploadedOk(inp, sys.server, mid.server, p.promote, p.at.r, p.at.existing, p.at.i, m.reply);
        assert Step(inp, mid.server, p, m.reply) == Uploaded(inp, mid.server, p.at.r, p.at.existing, p.at.i, m.reply);
      }
    }
  }

  /** A publisher that returns without error leaves exactly the expected assets, and, when it
      was asked to promote, a stable release whose tag selects the target; both stay true. */
  lemma {:induction false} SuccessMeansPublished(inp: Inputs, sys: System, moves: seq<Move>, k: nat)
    requires ValidInputs(inp) && Fresh(sys)
    requires var mid := Run(inp, sys, moves); k < |mid.procs| && mid.procs[k].at.Done?
    ensures var mid := Run(inp, sys, moves);
            var id := mid.procs[k].at.r.id;
            && id < |mid.server.releases| && UniqueNames(mid.server.releases[id].assets)
            && (var r := mid.server.releases[id]; r.tag == inp.tag && r.target == inp.target && r.body == inp.notes && !r.prerelease)
            && AssetMap(mid.server.releases[id].assets) == inp.expected
            && (mid.procs[k].promote ==>
                  !mid.server.releases[id].draft && TagSelects(mid.server, inp.tag, inp.target))
  {
    RunKeeps(inp, sys, moves);
    var mid := Run(inp, sys, moves);
    var p := mid.procs[k];
    assert LocalOk(inp, sys.server, mid.server, p.promote, p.at);
    CompleteIsExact(inp, mid.server.releases[p.at.r.id]);
    TagLookupIff(mid.server, inp.tag, inp.target);
  }

  /** An asset that was left incomplete keeps its release a draft for ever. */
  lemma {:induction false} TornUploadBlocksPromotion(inp: Inputs, sys: System, before: seq<Move>, after: seq<Move>, id: nat, k: nat)
    requires ValidInputs(inp) && Fresh(sys)
    requires var mid := Run(inp, sys, before);
             && id < |mid.server.releases| && mid.server.releases[id].draft
             && k < |mid.server.releases[id].assets| && !mid.server.releases[id].assets[k].uploaded
    ensures var end := Run(inp, sys, before + after);
            id < |end.server.releases| && end.server.releases[id].draft
  {
    var mid, end := Run(inp, sys, before), Run(inp, sys, before + after);
    RunKeeps(inp, sys, before);
    RunKeeps(inp, sys, before + after);
    RunAppend(inp, sys, before, after);
    RunExtends(inp, mid, after);
    assert ReleaseExtends(mid.server.releases[id], end.server.releases[id]);
    if id < |sys.server.releases| {
      assert ReleaseExtends(sys.server.releases[id], mid.server.releases[id]);
    }
    var r := end.server.releases[id];
    if !r.draft {
      assert r.assets[k] == mid.server.releases[id].assets[k];
      assert Complete(inp, r);
      CompleteIsExact(inp, r);
    }
  }
}
