/** The per-chart decision of a bumper run (`Run`) and what whole sequences of runs do to a pin. */
module PinLoop {
  import opened Text
  import opened ChartText
  import opened FileCommit
  import opened Charts
  import opened SingleImage
  import opened SemVer
  import AV = ArtifactVersion
  import App = AppVersion

  /** A release of a service: its version, the artifact version that charts pin, and the format
      that joins them, if the service has one. */
  datatype Release = Release(version: string, artifact: string, format: Option<AV.Format>)

  /** A release version as it stands in a tag. */
  predicate IsRelease(v: string) { Parse(v).Some? }

  predicate IsDeclared(t: Target) { t.specs != [] }

  function PlanOf(files: Files, t: Target): Plan { if IsDeclared(t) then PlanDeclared(files, t) else PlanSingle(files, t) }

  /** `currentReleaseVersion` */
  function CurrentRelease(format: Option<AV.Format>, pin: string): Option<string> {
    if format.None? then Some(pin) else AV.Recover(format.value, pin)
  }

  datatype Decision = Stay | Unrecovered | Bump(from: string)

  /** What a run decides for a chart that is pinned: never down, and never sideways; a version
      that does not parse is replaced; a pin that does not match the format is refused. */
  function Decide(pin: string, r: Release): Decision {
    if pin == r.artifact then Stay
    else
      var current := CurrentRelease(r.format, pin);
      if current.None? then Unrecovered
      else
        var order := CompareVersions(r.version, current.value);
        if order.Some? && order.value <= 0 then Stay else Bump(current.value)
  }

  /** The files after one run with writing on, when every write is done. */
  function Process(files: Files, t: Target, r: Release): (out: Files) {
    var p := PlanOf(files, t);
    if !p.Move? || !Decide(p.current, r).Bump? then files else Write(files, t, p, r.artifact)
  }

  function Write(files: Files, t: Target, p: Plan, artifact: string): (out: Files)
    requires p.Move?
  {
    if IsDeclared(t) then (if CanApply(files, t, artifact) then Edited(files, t, artifact) else files)
    else if t.chart.Some? && t.chart.value in files && (p.action.Both? ==> t.values in files)
    then ApplySingle(files, t, p.action, p.current, artifact)
    else files
  }

  /** A run for each release, in order, for any kind of run. */
  function RunsBy(files: Files, step: (Files, Release) -> Files, releases: seq<Release>): (out: Files) {
    if releases == [] then files
    else step(RunsBy(files, step, releases[..|releases| - 1]), releases[|releases| - 1])
  }

  function Runs(t: Target): (Files, Release) -> Files { (files: Files, r: Release) => Process(files, t, r) }

  function ProcessAll(files: Files, t: Target, releases: seq<Release>): (out: Files) { RunsBy(files, Runs(t), releases) }

  /** Chart.yaml is not values.yaml. */
  predicate TwoFiles(t: Target) { IsDeclared(t) || t.chart != Some(t.values) }

  /** The target can be moved this often, and is read back each time. */
  predicate Lasting(files: Files, t: Target, a: Action, n: nat) {
    if IsDeclared(t) then LastingDeclared(files, t, n) else LastingSingle(files, t, a, n)
  }

  /** The lines of the target are tidy, and the owned appVersion can follow. */
  predicate TidyLines(files: Files, t: Target) {
    if IsDeclared(t) then TidyTarget(files, t) && AppFollows(files, t) else TidySingle(files, t)
  }

  lemma {:induction false} TidyLinesLast(files: Files, t: Target, a: Action, n: nat)
    requires TidyLines(files, t)
    ensures Lasting(files, t, a, n)
  {
    if IsDeclared(t) { TidyTargetLasts(files, t, n); } else { TidySingleLasts(files, t, a, n); }
  }

  // ---- Releases are clean ----

  /** An artifact version that charts can pin: no quotes, blanks, `#`, backslashes or colons,
      and not a floating tag. */
  predicate Usable(v: string) { CleanVersion(v) && Free(v, ':') && v !in FLOATING }

  lemma {:induction false} AtomHasNoCore(v: string)
    requires '.' !in v
    ensures Parse(v).None?
  {
    var body := if v != [] && v[0] == 'v' then v[1..] else v;
    var (left, build) := Cut(body, '+');
    assert '.' !in left;
    var (core, pre) := Cut(left, '-');
    assert '.' !in core;
    SplitAtom(core, '.');
  }

  lemma {:induction false} FloatingHasNoDot(v: string)
    requires v in FLOATING
    ensures '.' !in v
  {
  }

  lemma {:induction false} ReleaseIsClean(v: string)
    requires IsRelease(v)
    ensures Usable(v) && IsVersion(v)
  {
    ParsedChars(v);
    ParsedIsTrimmed(v);
    if v == "" || v in FLOATING {
      if v in FLOATING { FloatingHasNoDot(v); }
      AtomHasNoCore(v);
    }
  }

  // ---- One run ----

  function Winner(pin: string, r: Release): string { if Decide(pin, r).Bump? then r.artifact else pin }

  /** A write: planning again reports the artifact exactly when the target lasts a move, and it
      lasts one move less then. */
  lemma {:induction false} WriteMovesIff(files: Files, t: Target, artifact: string, a: Action, c: string, n: nat, more: nat)
    requires PlanOf(files, t) == Move(a, c) && TwoFiles(t) && Usable(artifact) && artifact != c && more == n + 1
    ensures var out := Write(files, t, Move(a, c), artifact);
            Lasting(files, t, a, more) <==> PlanOf(out, t) == Move(a, artifact) && Lasting(out, t, a, n)
  {
    if IsDeclared(t) {
      DeclaredAction(files, t);
      DeclaredMovesIff(files, t, artifact, c, n);
    } else {
      SingleMovesIff(files, t, artifact, a, c, n);
    }
  }

  lemma {:induction false} WriteMovesOnce(files: Files, t: Target, artifact: string, a: Action, c: string)
    requires PlanOf(files, t) == Move(a, c) && TwoFiles(t) && Usable(artifact) && artifact != c
    ensures PlanOf(Write(files, t, Move(a, c), artifact), t) == Move(a, artifact) <==> Lasting(files, t, a, 1)
  {
    WriteMovesIff(files, t, artifact, a, c, 0, 1);
    LastingNone(Write(files, t, Move(a, c), artifact), t, a);
  }

  /** A write changes a file of the target. */
  lemma {:induction false} WriteChanges(files: Files, t: Target, artifact: string, a: Action, c: string)
    returns (file: string)
    requires PlanOf(files, t) == Move(a, c) && TwoFiles(t) && CleanVersion(artifact) && artifact != c
    ensures var out := Write(files, t, Move(a, c), artifact);
            file in files && file in out && out[file] != files[file] && Names(t, file)
  {
    if IsDeclared(t) {
      DeclaredAction(files, t);
      DeclaredChanges(files, t, artifact, c);
      file := t.specs[0].file;
    } else {
      PlannedParts(files, t, a, c);
      file := t.chart.value;
      App.ReplaceChanges(files[file], artifact);
    }
  }

  /** The files that a run may read or write for a target. */
  predicate Names(t: Target, file: string) {
    if IsDeclared(t) then Declares(t.specs, file) || (t.owns && t.chart == Some(file))
    else t.chart == Some(file) || file == t.values
  }

  /** A write stays within them. */
  lemma {:induction false} WriteNames(files: Files, t: Target, p: Plan, artifact: string, file: string)
    requires p.Move? && !Names(t, file)
    ensures SameAt(Write(files, t, p, artifact), files, file)
  {
  }

  lemma {:induction false} DeclaredAction(files: Files, t: Target)
    requires PlanDeclared(files, t).Move?
    ensures PlanDeclared(files, t).action == ValuesPaths
  {
  }

  function Moves(pin: string, r: Release): nat { if Decide(pin, r).Bump? then 1 else 0 }

  lemma {:induction false} ProcessIs(files: Files, t: Target, r: Release, a: Action, c: string)
    requires PlanOf(files, t) == Move(a, c)
    ensures Process(files, t, r) == if Decide(c, r).Bump? then Write(files, t, Move(a, c), r.artifact) else files
  {
  }

  /** A run reports the winner as the pin, with the same action, exactly when the target lasts
      its move, if there is one. */
  lemma {:induction false} ProcessMovesIff(files: Files, t: Target, r: Release, a: Action, c: string, n: nat, more: nat)
    requires PlanOf(files, t) == Move(a, c) && TwoFiles(t) && Usable(r.artifact) && more == Moves(c, r) + n
    ensures var out := Process(files, t, r);
            Lasting(files, t, a, more) <==> PlanOf(out, t) == Move(a, Winner(c, r)) && Lasting(out, t, a, n)
  {
    ProcessIs(files, t, r, a, c);
    if Decide(c, r).Bump? {
      WriteMovesIff(files, t, r.artifact, a, c, n, more);
    } else {
      assert more == n;
    }
  }

  // ---- Whole sequences of runs ----

  /** The pin that the releases leave, and how many move it, for any way to decide. */
  function PinBy(c: string, win: (string, Release) -> string, releases: seq<Release>): string {
    if releases == [] then c else win(PinBy(c, win, releases[..|releases| - 1]), releases[|releases| - 1])
  }

  function WinsBy(c: string, win: (string, Release) -> string, moves: (string, Release) -> nat, releases: seq<Release>): nat {
    if releases == [] then 0
    else
      var init := releases[..|releases| - 1];
      WinsBy(c, win, moves, init) + moves(PinBy(c, win, init), releases[|releases| - 1])
  }

  function Winners(): (string, Release) -> string { (pin: string, r: Release) => Winner(pin, r) }

  function FinalPin(c: string, releases: seq<Release>): string { PinBy(c, Winners(), releases) }

  /** How many of the releases move the pin. */
  function Wins(c: string, releases: seq<Release>): nat { WinsBy(c, Winners(), AllMoves(), releases) }

  function AllMoves(): (string, Release) -> nat { (pin: string, r: Release) => Moves(pin, r) }

  predicate ReportedAt(files: Files, step: (Files, Release) -> Files, plan: Files -> Plan, win: (string, Release) -> string,
                       releases: seq<Release>, a: Action, c: string)
  {
    plan(RunsBy(files, step, releases)) == Move(a, PinBy(c, win, releases))
  }

  /** After every run, planning reports the pin that the releases so far leave. */
  predicate ReportedBy(files: Files, step: (Files, Release) -> Files, plan: Files -> Plan, win: (string, Release) -> string,
                       releases: seq<Release>, a: Action, c: string)
  {
    forall m :: 0 <= m <= |releases| ==> ReportedAt(files, step, plan, win, releases[..m], a, c)
  }

  lemma {:induction false} ReportedSnoc(files: Files, step: (Files, Release) -> Files, plan: Files -> Plan, win: (string, Release) -> string,
                                        releases: seq<Release>, a: Action, c: string)
    ensures ReportedBy(files, step, plan, win, releases, a, c) <==>
            && ReportedAt(files, step, plan, win, releases, a, c)
            && (releases != [] ==> ReportedBy(files, step, plan, win, releases[..|releases| - 1], a, c))
  {
    assert releases[..|releases|] == releases;
    if releases != [] {
      var init := releases[..|releases| - 1];
      assert init[..|init|] == init;
      forall m | 0 <= m <= |init| ensures init[..m] == releases[..m] { }
    }
  }

  function Plans(t: Target): Files -> Plan { (files: Files) => PlanOf(files, t) }

  predicate Reported(files: Files, t: Target, releases: seq<Release>, a: Action, c: string) {
    ReportedBy(files, Runs(t), Plans(t), Winners(), releases, a, c)
  }

  predicate AllUsable(releases: seq<Release>) { forall k :: 0 <= k < |releases| ==> Usable(releases[k].artifact) }

  predicate AllGood(releases: seq<Release>, good: Release -> bool) { forall k :: 0 <= k < |releases| ==> good(releases[k]) }

  /** One run, by what it does to the plan and to the moves that are left. */
  ghost predicate StepsAt(step: (Files, Release) -> Files, plan: Files -> Plan, win: (string, Release) -> string, moves: (string, Release) -> nat,
                          good: Release -> bool, lasts: (Files, nat) -> bool, files: Files, r: Release, a: Action, c: string, n: nat)
  {
    plan(files) == Move(a, c) && good(r) ==>
      (lasts(files, moves(c, r) + n) <==> plan(step(files, r)) == Move(a, win(c, r)) && lasts(step(files, r), n))
  }

  lemma {:induction false} ReportedAndMore(files: Files, step: (Files, Release) -> Files, plan: Files -> Plan, win: (string, Release) -> string,
                                           moves: (string, Release) -> nat, good: Release -> bool, lasts: (Files, nat) -> bool,
                                           releases: seq<Release>, a: Action, c: string, n: nat)
    requires AllGood(releases, good) && plan(files) == Move(a, c)
    requires forall f, r, d: string, m: nat :: StepsAt(step, plan, win, moves, good, lasts, f, r, a, d, m)
    ensures lasts(files, WinsBy(c, win, moves, releases) + n) <==>
            ReportedBy(files, step, plan, win, releases, a, c) && lasts(RunsBy(files, step, releases), n)
    decreases |releases|
  {
    ReportedSnoc(files, step, plan, win, releases, a, c);
    if releases != [] {
      var init, last := releases[..|releases| - 1], releases[|releases| - 1];
      var before, pin := RunsBy(files, step, init), PinBy(c, win, init);
      ReportedSnoc(files, step, plan, win, init, a, c);
      ReportedAndMore(files, step, plan, win, moves, good, lasts, init, a, c, moves(pin, last) + n);
      assert StepsAt(step, plan, win, moves, good, lasts, before, last, a, pin, n);
    }
  }

  lemma {:induction false} ReportedIff(files: Files, step: (Files, Release) -> Files, plan: Files -> Plan, win: (string, Release) -> string,
                                       moves: (string, Release) -> nat, good: Release -> bool, lasts: (Files, nat) -> bool,
                                       releases: seq<Release>, a: Action, c: string)
    requires AllGood(releases, good) && plan(files) == Move(a, c) && forall f :: lasts(f, 0)
    requires forall f, r, d: string, m: nat :: StepsAt(step, plan, win, moves, good, lasts, f, r, a, d, m)
    ensures ReportedBy(files, step, plan, win, releases, a, c) == lasts(files, WinsBy(c, win, moves, releases))
  {
    ReportedAndMore(files, step, plan, win, moves, good, lasts, releases, a, c, 0);
    var n := WinsBy(c, win, moves, releases);
    assert n + 0 == n;
  }

  function Usables(): Release -> bool { (r: Release) => Usable(r.artifact) }

  function Lastings(t: Target, a: Action): (Files, nat) -> bool { (f: Files, m: nat) => Lasting(f, t, a, m) }

  lemma {:induction false} OneStep(t: Target, f: Files, r: Release, a: Action, d: string, m: nat) returns (next: Files, pin: string, more: nat)
    requires TwoFiles(t)
    ensures next == Process(f, t, r) && pin == Winner(d, r) && more == Moves(d, r) + m
    ensures PlanOf(f, t) == Move(a, d) && Usable(r.artifact) ==>
              (Lasting(f, t, a, more) <==> PlanOf(next, t) == Move(a, pin) && Lasting(next, t, a, m))
  {
    next, pin, more := Process(f, t, r), Winner(d, r), Moves(d, r) + m;
    if PlanOf(f, t) == Move(a, d) && Usable(r.artifact) { ProcessMovesIff(f, t, r, a, d, m, more); }
  }

  lemma {:induction false} RunStepAt(t: Target, f: Files, r: Release, a: Action, d: string, m: nat)
    requires TwoFiles(t)
    ensures StepsAt(Runs(t), Plans(t), Winners(), AllMoves(), Usables(), Lastings(t, a), f, r, a, d, m)
  {
    var next, pin, more := OneStep(t, f, r, a, d, m);
    StepsBy(Runs(t), Plans(t), Winners(), AllMoves(), Usables(), Lastings(t, a), f, r, a, d, m, next, pin, more);
  }

  lemma {:induction false} StepsBy(step: (Files, Release) -> Files, plan: Files -> Plan, win: (string, Release) -> string, moves: (string, Release) -> nat,
                                   good: Release -> bool, lasts: (Files, nat) -> bool, files: Files, r: Release, a: Action, c: string, n: nat,
                                   next: Files, pin: string, more: nat)
    requires step(files, r) == next && win(c, r) == pin && moves(c, r) + n == more
    requires plan(files) == Move(a, c) && good(r) ==> (lasts(files, more) <==> plan(next) == Move(a, pin) && lasts(next, n))
    ensures StepsAt(step, plan, win, moves, good, lasts, files, r, a, c, n)
  {
  }

  /** The runs of a target, with everything they are made of. */
  lemma {:induction false} RunSteps(files: Files, t: Target, releases: seq<Release>, a: Action, c: string)
    returns (step: (Files, Release) -> Files, plan: Files -> Plan, win: (string, Release) -> string, moves: (string, Release) -> nat,
             good: Release -> bool, lasts: (Files, nat) -> bool)
    requires TwoFiles(t) && AllUsable(releases) && PlanOf(files, t) == Move(a, c)
    ensures AllGood(releases, good) && plan(files) == Move(a, c) && forall f :: lasts(f, 0)
    ensures forall f, r, d: string, m: nat :: StepsAt(step, plan, win, moves, good, lasts, f, r, a, d, m)
    ensures Reported(files, t, releases, a, c) == ReportedBy(files, step, plan, win, releases, a, c)
    ensures Lasting(files, t, a, Wins(c, releases)) == lasts(files, WinsBy(c, win, moves, releases))
  {
    step, plan, win, moves, good, lasts := Runs(t), Plans(t), Winners(), AllMoves(), Usables(), Lastings(t, a);
    forall f, r, d: string, m: nat ensures StepsAt(step, plan, win, moves, good, lasts, f, r, a, d, m) {
      RunStepAt(t, f, r, a, d, m);
    }
    forall f ensures lasts(f, 0) { LastingNone(f, t, a); }
  }

  lemma {:induction false} LastingNone(files: Files, t: Target, a: Action)
    ensures Lasting(files, t, a, 0)
  {
  }

  /** Every run of a sequence reports the expected pin exactly when the target lasts as many
      moves as releases win. */
  lemma {:induction false} PinReportedIff(files: Files, t: Target, releases: seq<Release>, a: Action, c: string)
    requires AllUsable(releases) && PlanOf(files, t) == Move(a, c) && TwoFiles(t)
    ensures Reported(files, t, releases, a, c) == Lasting(files, t, a, Wins(c, releases))
  {
    var step, plan, win, moves, good, lasts := RunSteps(files, t, releases, a, c);
    ReportedIff(files, step, plan, win, moves, good, lasts, releases, a, c);
  }

  /** In particular the last one does. */
  lemma {:induction false} ReportedLast(files: Files, t: Target, releases: seq<Release>, a: Action, c: string)
    requires Reported(files, t, releases, a, c)
    ensures PlanOf(ProcessAll(files, t, releases), t) == Move(a, FinalPin(c, releases))
  {
    ReportedSnoc(files, Runs(t), Plans(t), Winners(), releases, a, c);
  }

  // ---- The pin is the maximum ----

  /** A release of a service with this format, or none, whose artifact gives its version back. */
  predicate Issued(format: Option<AV.Format>, r: Release) {
    r.format == format && IsRelease(r.version) && Usable(r.artifact) && CurrentRelease(format, r.artifact) == Some(r.version)
  }

  predicate AllIssued(format: Option<AV.Format>, releases: seq<Release>) { forall k :: 0 <= k < |releases| ==> Issued(format, releases[k]) }

  /** Without a format every release does. */
  lemma {:induction false} PlainReleaseIsIssued(v: string)
    requires IsRelease(v)
    ensures Issued(None, Release(v, v, None))
  {
    ReleaseIsClean(v);
  }

  /** With one, exactly those whose separator does not occur too early. */
  lemma {:induction false} RenderedIsIssuedIff(f: AV.Format, v: string, upstream: string)
    requires AV.IsProper(f) && IsRelease(v) && Usable(AV.Render(f, v, upstream))
    ensures Issued(Some(f), Release(v, AV.Render(f, v, upstream), Some(f))) <==> AV.Separates(f, v, upstream)
  {
    AV.RenderedRoundTripIff(f, v, upstream);
  }

  lemma {:induction false} BumpIff(format: Option<AV.Format>, pin: string, current: string, r: Release)
    requires Issued(format, r) && CurrentRelease(format, pin) == Some(current)
    ensures IsVersion(r.version)
    ensures Decide(pin, r).Bump? <==> !IsVersion(current) || Order(r.version, current) > 0
  {
    ParsedIsTrimmed(r.version);
    if IsVersion(current) {
      CompareByKey(r.version, current);
      VersionsTotallyPreordered(r.version, r.version, current);
    }
  }

  /** The versions a pin is the maximum of: those of the releases and, if it is a version, that
      of the initial pin. */
  predicate Candidate(current: string, releases: seq<Release>, v: string) {
    (exists k :: 0 <= k < |releases| && releases[k].version == v) || (v == current && IsVersion(current))
  }

  predicate AtMost(v: string, w: string) { IsVersion(v) && IsVersion(w) && Order(v, w) <= 0 }

  /** A candidate that none exceeds. */
  ghost predicate IsMaximum(current: string, releases: seq<Release>, w: string) {
    Candidate(current, releases, w) && forall v :: Candidate(current, releases, v) ==> AtMost(v, w)
  }

  lemma {:induction false} AtMostTransitive(x: string, y: string, z: string)
    requires AtMost(x, y) && AtMost(y, z)
    ensures AtMost(x, z)
  {
    VersionsTotallyPreordered(x, y, z);
  }

  lemma {:induction false} WinnerIsAbove(format: Option<AV.Format>, pin: string, current: string, r: Release)
    requires Issued(format, r) && CurrentRelease(format, pin) == Some(current)
    ensures var w := CurrentRelease(format, Winner(pin, r));
            && w.Some? && w.value == (if Decide(pin, r).Bump? then r.version else current)
            && AtMost(r.version, w.value) && (IsVersion(current) ==> AtMost(current, w.value))
  {
    BumpIff(format, pin, current, r);
    VersionsTotallyPreordered(r.version, r.version, r.version);
    if IsVersion(current) { VersionsTotallyPreordered(current, r.version, current); }
  }

  lemma {:induction false} CandidateSnoc(current: string, init: seq<Release>, r: Release, v: string)
    ensures Candidate(current, init + [r], v) <==> Candidate(current, init, v) || v == r.version
  {
    var releases := init + [r];
    if k :| 0 <= k < |releases| && releases[k].version == v { assert k < |init| ==> init[k].version == v; }
    if k :| 0 <= k < |init| && init[k].version == v { assert releases[k].version == v; }
    assert releases[|init|] == r;
  }

  lemma {:induction false} MaximumSnoc(current: string, init: seq<Release>, r: Release, before: string, w: string)
    requires if IsVersion(current) || init != [] then IsMaximum(current, init, before) else before == current
    requires w == before || w == r.version
    requires AtMost(r.version, w) && (IsVersion(before) ==> AtMost(before, w))
    ensures IsMaximum(current, init + [r], w)
  {
    var releases := init + [r];
    forall v ensures Candidate(current, releases, v) ==> AtMost(v, w) {
      CandidateSnoc(current, init, r, v);
      if Candidate(current, init, v) { AtMostTransitive(v, before, w); }
    }
    CandidateSnoc(current, init, r, w);
  }

  /** The release that a pin stands for is the maximum. */
  ghost predicate StandsForMaximum(format: Option<AV.Format>, current: string, releases: seq<Release>, pin: string) {
    var w := CurrentRelease(format, pin);
    w.Some? && if IsVersion(current) || releases != [] then IsMaximum(current, releases, w.value) else w.value == current
  }

  lemma {:induction false} MaximumStep(format: Option<AV.Format>, current: string, init: seq<Release>, r: Release, pin: string)
    requires StandsForMaximum(format, current, init, pin) && Issued(format, r)
    ensures StandsForMaximum(format, current, init + [r], Winner(pin, r))
  {
    var before := CurrentRelease(format, pin).value;
    WinnerIsAbove(format, pin, before, r);
    MaximumSnoc(current, init, r, before, CurrentRelease(format, Winner(pin, r)).value);
  }

  ghost predicate KeptAt(stands: (seq<Release>, string) -> bool, win: (string, Release) -> string, good: Release -> bool,
                         init: seq<Release>, r: Release, pin: string)
  {
    stands(init, pin) && good(r) ==> stands(init + [r], win(pin, r))
  }

  /** What every release keeps of the pin holds of the final one. */
  lemma {:induction false} PinInduction(c: string, releases: seq<Release>, stands: (seq<Release>, string) -> bool,
                                        win: (string, Release) -> string, good: Release -> bool)
    requires stands([], c) && AllGood(releases, good)
    requires forall init, r, pin: string :: KeptAt(stands, win, good, init, r, pin)
    ensures stands(releases, PinBy(c, win, releases))
  {
    if releases != [] {
      var init, last := releases[..|releases| - 1], releases[|releases| - 1];
      assert releases == init + [last];
      PinInduction(c, init, stands, win, good);
      assert KeptAt(stands, win, good, init, last, PinBy(c, win, init));
    }
  }

  lemma {:induction false} StandsKept(format: Option<AV.Format>, c: string, current: string, releases: seq<Release>)
    returns (stands: (seq<Release>, string) -> bool, win: (string, Release) -> string, good: Release -> bool)
    requires AllIssued(format, releases) && StandsForMaximum(format, current, [], c)
    ensures stands([], c) && AllGood(releases, good) && forall init, r, pin: string :: KeptAt(stands, win, good, init, r, pin)
    ensures stands(releases, PinBy(c, win, releases)) == StandsForMaximum(format, current, releases, FinalPin(c, releases))
  {
    stands, win := (rs: seq<Release>, pin: string) => StandsForMaximum(format, current, rs, pin), Winners();
    good := (r: Release) => Issued(format, r);
    forall init, r, pin: string ensures KeptAt(stands, win, good, init, r, pin) {
      if StandsForMaximum(format, current, init, pin) && Issued(format, r) { MaximumStep(format, current, init, r, pin); }
    }
  }

  lemma {:induction false} InitialStands(format: Option<AV.Format>, c: string, current: string)
    requires CurrentRelease(format, c) == Some(current)
    ensures StandsForMaximum(format, current, [], c)
  {
    if IsVersion(current) { VersionsTotallyPreordered(current, current, current); }
  }

  lemma {:induction false} FinalPinIsMaximum(format: Option<AV.Format>, c: string, current: string, releases: seq<Release>)
    requires AllIssued(format, releases) && CurrentRelease(format, c) == Some(current)
    ensures StandsForMaximum(format, current, releases, FinalPin(c, releases))
  {
    InitialStands(format, c, current);
    var stands, win, good := StandsKept(format, c, current, releases);
    PinInduction(c, releases, stands, win, good);
  }

  /** A pin that does not match the format is refused by every run, and stays. */
  lemma {:induction false} UnrecoveredStays(format: Option<AV.Format>, c: string, releases: seq<Release>)
    requires AllIssued(format, releases) && CurrentRelease(format, c).None?
    ensures FinalPin(c, releases) == c && Wins(c, releases) == 0
    ensures forall k :: 0 <= k < |releases| ==> Decide(c, releases[k]).Unrecovered?
  {
    forall k | 0 <= k < |releases| ensures Decide(c, releases[k]).Unrecovered? { assert Issued(format, releases[k]); }
    if releases != [] { UnrecoveredStays(format, c, releases[..|releases| - 1]); }
  }

  /** For any releases in any order, of a service with or without a format: on a target that
      lasts as many moves as releases win, planning never refuses on the way, and the release
      that its pin then stands for is the maximum of the initial one and all releases. */
  lemma {:induction false} PinIsMaximum(files: Files, t: Target, format: Option<AV.Format>, releases: seq<Release>, a: Action, c: string)
    requires AllIssued(format, releases) && PlanOf(files, t) == Move(a, c) && TwoFiles(t)
    requires Lasting(files, t, a, Wins(c, releases))
    ensures PlanOf(ProcessAll(files, t, releases), t) == Move(a, FinalPin(c, releases))
    ensures var current, w := CurrentRelease(format, c), CurrentRelease(format, FinalPin(c, releases));
            if current.None? then FinalPin(c, releases) == c
            else w.Some? && (IsVersion(current.value) || releases != [] ==> IsMaximum(current.value, releases, w.value))
  {
    assert AllUsable(releases) by {
      forall k | 0 <= k < |releases| ensures Usable(releases[k].artifact) { assert Issued(format, releases[k]); }
    }
    PinReportedIff(files, t, releases, a, c);
    ReportedLast(files, t, releases, a, c);
    var current := CurrentRelease(format, c);
    if current.None? { UnrecoveredStays(format, c, releases); } else { FinalPinIsMaximum(format, c, current.value, releases); }
  }

  predicate SameReleases(releases: seq<Release>, others: seq<Release>) {
    && (forall k :: 0 <= k < |releases| ==> releases[k] in others)
    && forall k :: 0 <= k < |others| ==> others[k] in releases
  }

  lemma {:induction false} SameCandidates(current: string, releases: seq<Release>, others: seq<Release>, v: string)
    requires SameReleases(releases, others) && Candidate(current, releases, v)
    ensures Candidate(current, others, v)
  {
    if k :| 0 <= k < |releases| && releases[k].version == v {
      assert releases[k] in others;
    }
  }

  /** The order of the releases does not matter: the pins stand for releases of the same
      precedence. */
  lemma {:induction false} OrderOfReleasesDoesNotMatter(format: Option<AV.Format>, c: string, current: string, releases: seq<Release>, others: seq<Release>)
    requires AllIssued(format, releases) && AllIssued(format, others) && SameReleases(releases, others)
    requires CurrentRelease(format, c) == Some(current) && (IsVersion(current) || releases != [])
    ensures var x, y := CurrentRelease(format, FinalPin(c, releases)), CurrentRelease(format, FinalPin(c, others));
            x.Some? && y.Some? && IsVersion(x.value) && IsVersion(y.value) && Order(x.value, y.value) == 0
  {
    if releases != [] { assert releases[0] in others; }
    FinalPinIsMaximum(format, c, current, releases);
    FinalPinIsMaximum(format, c, current, others);
    var x, y := CurrentRelease(format, FinalPin(c, releases)).value, CurrentRelease(format, FinalPin(c, others)).value;
    SameCandidates(current, releases, others, x);
    SameCandidates(current, others, releases, y);
    assert AtMost(x, y) && AtMost(y, x);
    VersionsTotallyPreordered(x, y, x);
  }
}
