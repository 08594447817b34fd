/** In-place rewriting of declared values paths, file by file. */
module ValuesEdit {
  import opened Text
  import opened ChartText
  import opened ValuesPath

  function RewriteLine(l: string, version: string): string {
    var s := ParseScalar(l);
    if s.Some? then Rewritten(s.value, version) else l
  }

  predicate TidyLine(l: string) { var s := ParseScalar(l); s.Some? ==> Tidy(s.value.scalar) }

  predicate FusesLine(l: string) { var s := ParseScalar(l); s.Some? && Fuses(s.value.scalar) }

  predicate SpoilsLine(l: string, n: nat) { var s := ParseScalar(l); s.Some? && SpoiledBy(s.value.scalar, n) }

  /** Rewriting one scalar line keeps its frame; what it then reads as. */
  lemma {:induction false} RewriteLineReads(l: string, version: string)
    requires FrameOf(l).Some? && CleanVersion(version)
    ensures var n := RewriteLine(l, version);
            && FrameOf(n) == FrameOf(l) && ValueOf(n) != ""
            && (ValueOf(n) == version <==> !FusesLine(l))
            && (TidyLine(l) ==> !FusesLine(l) && TidyLine(n))
            && ('\n' !in l ==> '\n' !in n)
  {
    PrintParsed(l);
    RewrittenLine(l, version);
    RewriteReadsBack(ParseScalar(l).value.scalar, version);
  }

  lemma {:induction false} SpoilsNext(l: string, version: string, n: nat)
    requires FrameOf(l).Some? && CleanVersion(version)
    ensures FusesLine(l) <==> SpoilsLine(l, 1)
    ensures n > 0 ==> (SpoilsLine(RewriteLine(l, version), n) <==> SpoilsLine(l, n + 1))
  {
    PrintParsed(l);
    RewrittenLine(l, version);
    FusesFirst(ParseScalar(l).value.scalar);
    if n > 0 { SpoiledNext(ParseScalar(l).value.scalar, version, n); }
  }

  predicate Link(chain: seq<string>, i: nat, f: string -> string) { i + 1 < |chain| && chain[i + 1] == f(chain[i]) }

  ghost predicate IsChain(chain: seq<string>, f: string -> string) {
    chain != [] && forall i: nat :: i + 1 < |chain| ==> Link(chain, i, f)
  }

  /** The last text comes from the first by `u` steps. */
  ghost predicate Comes(l: string, m: string, f: string -> string, u: nat) {
    exists chain :: IsChain(chain, f) && |chain| == u + 1 && chain[0] == l && chain[u] == m
  }

  lemma {:induction false} ComesNone(l: string, f: string -> string)
    ensures Comes(l, l, f, 0)
  {
    assert IsChain([l], f);
  }

  lemma {:induction false} ComesFew(l: string, m: string, f: string -> string, u: nat)
    requires Comes(l, m, f, u) && u <= 1
    ensures m == if u == 0 then l else f(l)
  {
    var chain :| IsChain(chain, f) && |chain| == u + 1 && chain[0] == l && chain[u] == m;
    if u == 1 { assert Link(chain, 0, f); }
  }

  lemma {:induction false} ComesMore(l: string, m: string, f: string -> string, u: nat)
    requires Comes(f(l), m, f, u)
    ensures Comes(l, m, f, u + 1)
  {
    var chain :| IsChain(chain, f) && |chain| == u + 1 && chain[0] == f(l) && chain[u] == m;
    var more := [l] + chain;
    forall i: nat | i + 1 < |more| ensures Link(more, i, f) {
      if i > 0 { assert Link(chain, i - 1, f); }
    }
    assert IsChain(more, f) && more[u + 1] == m;
  }

  function Rewriter(version: string): string -> string { (l: string) => RewriteLine(l, version) }

  /** One line is the other rewritten this often. */
  ghost predicate Rewrites(l: string, m: string, version: string, u: nat) { Comes(l, m, Rewriter(version), u) }

  /** What a step keeps, and what it counts down. */
  ghost predicate StepsAt(chain: seq<string>, good: string -> bool, spoils: (string, nat) -> bool, i: nat, n: nat)
    requires i + 1 < |chain|
  {
    good(chain[i]) ==> good(chain[i + 1]) && (n > 0 ==> (spoils(chain[i + 1], n) <==> spoils(chain[i], n + 1)))
  }

  lemma {:induction false} ChainKeeps(chain: seq<string>, u: nat, n: nat, good: string -> bool, spoils: (string, nat) -> bool)
    requires u < |chain| && good(chain[0]) && n > 0
    requires forall i: nat, k: nat :: i + 1 < |chain| ==> StepsAt(chain, good, spoils, i, k)
    ensures good(chain[u]) && (spoils(chain[u], n) <==> spoils(chain[0], u + n))
  {
    if u > 0 {
      ChainKeeps(chain, u - 1, n + 1, good, spoils);
      assert StepsAt(chain, good, spoils, u - 1, n);
    }
  }

  /** A line with this frame, tidy and free of line breaks if asked for. */
  predicate Framed(l: string, f: Frame, tidy: bool, plain: bool) {
    FrameOf(l) == Some(f) && (tidy ==> TidyLine(l)) && (plain ==> '\n' !in l)
  }

  lemma {:induction false} StepKeeps(l: string, m: string, f: Frame, tidy: bool, plain: bool, version: string, k: nat)
    requires CleanVersion(version) && Framed(l, f, tidy, plain) && m == RewriteLine(l, version)
    ensures Framed(m, f, tidy, plain) && (k > 0 ==> SpoilsLine(m, k) == SpoilsLine(l, k + 1))
    ensures ValueOf(m) != "" && (ValueOf(m) == version) == !SpoilsLine(l, 1)
  {
    RewriteLineReads(l, version);
    SpoilsNext(l, version, k);
  }

  lemma {:induction false} LinkIs(chain: seq<string>, version: string, i: nat, j: nat)
    requires IsChain(chain, Rewriter(version)) && j == i + 1 < |chain|
    ensures chain[j] == RewriteLine(chain[i], version)
  {
    assert Link(chain, i, Rewriter(version));
  }

  lemma {:induction false} ChainSteps(chain: seq<string>, f: Frame, tidy: bool, plain: bool, version: string, u: nat, n: nat)
    returns (good: string -> bool, spoils: (string, nat) -> bool)
    requires CleanVersion(version) && IsChain(chain, Rewriter(version)) && u < |chain|
    ensures forall i: nat, k: nat :: i + 1 < |chain| ==> StepsAt(chain, good, spoils, i, k)
    ensures good(chain[0]) == Framed(chain[0], f, tidy, plain) && good(chain[u]) == Framed(chain[u], f, tidy, plain)
    ensures spoils(chain[0], u + n) == SpoilsLine(chain[0], u + n) && spoils(chain[u], n) == SpoilsLine(chain[u], n)
  {
    good, spoils := (l: string) => Framed(l, f, tidy, plain), (l: string, k: nat) => SpoilsLine(l, k);
    forall i: nat, k: nat | i + 1 < |chain| ensures StepsAt(chain, good, spoils, i, k) {
      LinkIs(chain, version, i, i + 1);
      if Framed(chain[i], f, tidy, plain) { StepKeeps(chain[i], chain[i + 1], f, tidy, plain, version, k); }
    }
  }

  lemma {:induction false} ChainReads(chain: seq<string>, f: Frame, tidy: bool, plain: bool, version: string, u: nat, n: nat, k: nat, spoilt: bool)
    requires k == u + n && CleanVersion(version) && IsChain(chain, Rewriter(version)) && u < |chain| && n > 0
    requires Framed(chain[0], f, tidy, plain) && spoilt == SpoilsLine(chain[0], k)
    ensures Framed(chain[u], f, tidy, plain) && SpoilsLine(chain[u], n) == spoilt
  {
    var good, spoils := ChainSteps(chain, f, tidy, plain, version, u, n);
    ChainKeeps(chain, u, n, good, spoils);
  }

  lemma {:induction false} RewritesKeeps(l: string, m: string, version: string, u: nat)
    requires FrameOf(l).Some? && CleanVersion(version) && Rewrites(l, m, version, u)
    ensures Framed(m, FrameOf(l).value, TidyLine(l), '\n' !in l)
  {
    var chain :| IsChain(chain, Rewriter(version)) && |chain| == u + 1 && chain[0] == l && chain[u] == m;
    ChainReads(chain, FrameOf(l).value, TidyLine(l), '\n' !in l, version, u, 1, u + 1, SpoilsLine(l, u + 1));
  }

  lemma {:induction false} RewritesCount(l: string, m: string, version: string, u: nat, n: nat, spoilt: bool)
    requires FrameOf(l).Some? && CleanVersion(version) && n > 0 && Rewrites(l, m, version, u) && spoilt == SpoilsLine(l, u + n)
    ensures SpoilsLine(m, n) == spoilt
  {
    var chain :| IsChain(chain, Rewriter(version)) && |chain| == u + 1 && chain[0] == l && chain[u] == m;
    ChainReads(chain, FrameOf(l).value, false, false, version, u, n, u + n, spoilt);
  }

  lemma {:induction false} LastLink(last: string, m: string, version: string, f: Frame, tidy: bool, plain: bool, spoilt: bool)
    requires CleanVersion(version) && Framed(last, f, tidy, plain) && SpoilsLine(last, 1) == spoilt && m == RewriteLine(last, version)
    ensures ValueOf(m) != "" && (ValueOf(m) == version) == !spoilt
  {
    StepKeeps(last, m, f, tidy, plain, version, 0);
  }

  lemma {:induction false} ChainEnds(chain: seq<string>, f: Frame, tidy: bool, plain: bool, version: string, u: nat, spoilt: bool, m: string)
    requires CleanVersion(version) && IsChain(chain, Rewriter(version)) && 0 < u < |chain| && chain[u] == m
    requires Framed(chain[0], f, tidy, plain) && spoilt == SpoilsLine(chain[0], u)
    ensures ValueOf(m) != "" && (ValueOf(m) == version) == !spoilt
  {
    ChainReads(chain, f, tidy, plain, version, u - 1, 1, u, spoilt);
    LinkIs(chain, version, u - 1, u);
    LastLink(chain[u - 1], m, version, f, tidy, plain, spoilt);
  }

  /** A line rewritten several times keeps its frame and reads the version back exactly unless
      that number of rewrites spoils it. */
  lemma {:induction false} RewritesRead(l: string, m: string, version: string, u: nat)
    requires FrameOf(l).Some? && CleanVersion(version) && u > 0 && Rewrites(l, m, version, u)
    ensures FrameOf(m) == FrameOf(l) && ValueOf(m) != "" && (ValueOf(m) == version <==> !SpoilsLine(l, u))
    ensures (TidyLine(l) ==> TidyLine(m)) && ('\n' !in l ==> '\n' !in m)
  {
    RewritesKeeps(l, m, version, u);
    var chain :| IsChain(chain, Rewriter(version)) && |chain| == u + 1 && chain[0] == l && chain[u] == m;
    ChainEnds(chain, FrameOf(l).value, TidyLine(l), '\n' !in l, version, u, SpoilsLine(l, u), m);
  }

  // ---- A rewritten line is another ----

  /** A line with no more after its value than this. */
  predicate Short(l: string, quoted: bool, bound: nat) {
    var s := ParseScalar(l);
    FrameOf(l).Some? && s.Some? && s.value.scalar.quoted == quoted && (!quoted ==> |After(s.value.scalar)| <= bound)
  }

  /** What it reads once it is rewritten. */
  predicate Taken(l: string, quoted: bool, bound: nat, version: string) {
    var s := ParseScalar(l);
    && s.Some? && (quoted ==> ValueOf(l) == version)
    && (!quoted ==> version <= ValueOf(l) && |ValueOf(l)| + |After(s.value.scalar)| <= |version| + bound)
  }

  lemma {:induction false} StepShort(l: string, m: string, quoted: bool, bound: nat, version: string)
    requires CleanVersion(version) && Short(l, quoted, bound) && m == RewriteLine(l, version)
    ensures Short(m, quoted, bound) && Taken(m, quoted, bound, version)
  {
    PrintParsed(l);
    RewriteLineReads(l, version);
    RewrittenLine(l, version);
    ReplacedShort(ParseScalar(l).value.scalar, version);
  }

  lemma {:induction false} ChainShort(chain: seq<string>, version: string, quoted: bool, bound: nat, u: nat)
    requires CleanVersion(version) && IsChain(chain, Rewriter(version)) && u < |chain| && Short(chain[0], quoted, bound)
    ensures Short(chain[u], quoted, bound) && (u > 0 ==> Taken(chain[u], quoted, bound, version))
  {
    if u > 0 {
      ChainShort(chain, version, quoted, bound, u - 1);
      LinkIs(chain, version, u - 1, u);
      StepShort(chain[u - 1], chain[u], quoted, bound, version);
    }
  }

  /** Rewriting to another version, however often, changes the line. */
  lemma {:induction false} RewritesChange(l: string, m: string, version: string, u: nat)
    requires FrameOf(l).Some? && CleanVersion(version) && u > 0 && Rewrites(l, m, version, u) && ValueOf(l) != version
    ensures m != l
  {
    var chain :| IsChain(chain, Rewriter(version)) && |chain| == u + 1 && chain[0] == l && chain[u] == m;
    var s := ParseScalar(l).value.scalar;
    ChainShort(chain, version, s.quoted, |After(s)|, u);
  }

  /** The line a path lands on. */
  function LineOf(o: Outline, path: string): (i: Option<nat>)
    ensures i.Some? ==> i.value < |o| && o[i.value].Some?
  {
    FirstOwner(o, Split(path, '.'), 0)
  }

  predicate Targeted(o: Outline, paths: seq<string>, i: nat) {
    exists k :: 0 <= k < |paths| && LineOf(o, paths[k]) == Some(i)
  }

  predicate AllFound(lines: seq<string>, paths: seq<string>) {
    forall k :: 0 <= k < |paths| ==> Resolve(lines, paths[k]).Found?
  }

  /** The buffer once every path is rewritten, in order; each resolves in the buffer that the
      ones before it left. */
  function ApplyPaths(lines: seq<string>, paths: seq<string>, version: string): (out: Option<seq<string>>)
    decreases |paths|
  {
    if paths == [] then Some(lines)
    else
      var r := Resolve(lines, paths[0]);
      if r.Found? then ApplyPaths(lines[r.line := RewriteLine(lines[r.line], version)], paths[1..], version)
      else None
  }

  /** One line rewritten: every path still lands where it did. */
  lemma {:induction false} OneRewrite(lines: seq<string>, i: nat, version: string)
    requires i < |lines| && FrameOf(lines[i]).Some? && CleanVersion(version)
    ensures OutlineOf(lines[i := RewriteLine(lines[i], version)]) == OutlineOf(lines)
  {
    RewriteLineReads(lines[i], version);
  }

  lemma {:induction false} FoundAt(lines: seq<string>, path: string)
    ensures Resolve(lines, path).Found? <==>
            var i := LineOf(OutlineOf(lines), path); i.Some? && ValueOf(lines[i.value]) != ""
    ensures Resolve(lines, path).Found? ==>
            Some(Resolve(lines, path).line) == LineOf(OutlineOf(lines), path)
  {
  }

  /** The first step of `ApplyPaths`. */
  lemma {:induction false} FirstStep(lines: seq<string>, paths: seq<string>, version: string) returns (i: nat, next: seq<string>)
    requires paths != [] && AllFound(lines, paths) && CleanVersion(version)
    ensures LineOf(OutlineOf(lines), paths[0]) == Some(i) && i < |lines| && FrameOf(lines[i]).Some?
    ensures next == lines[i := RewriteLine(lines[i], version)]
    ensures ApplyPaths(lines, paths, version) == ApplyPaths(next, paths[1..], version)
    ensures OutlineOf(next) == OutlineOf(lines) && AllFound(next, paths[1..])
  {
    i := Resolve(lines, paths[0]).line;
    next := lines[i := RewriteLine(lines[i], version)];
    FoundAt(lines, paths[0]);
    RewriteLineReads(lines[i], version);
    OneRewrite(lines, i, version);
    forall k | 0 <= k < |paths[1..]| ensures Resolve(next, paths[1..][k]).Found? {
      assert paths[1..][k] == paths[k + 1];
      FoundAt(lines, paths[k + 1]);
      FoundAt(next, paths[k + 1]);
    }
  }

  lemma {:induction false} TargetedSplit(o: Outline, paths: seq<string>, i: nat)
    requires paths != []
    ensures Targeted(o, paths, i) <==> LineOf(o, paths[0]) == Some(i) || Targeted(o, paths[1..], i)
  {
    assert forall k :: 0 <= k < |paths| - 1 ==> paths[1..][k] == paths[k + 1];
    if Targeted(o, paths, i) && LineOf(o, paths[0]) != Some(i) {
      var k :| 0 <= k < |paths| && LineOf(o, paths[k]) == Some(i);
      assert LineOf(o, paths[1..][k - 1]) == Some(i);
    }
    if Targeted(o, paths[1..], i) {
      var k :| 0 <= k < |paths| - 1 && LineOf(o, paths[1..][k]) == Some(i);
      assert LineOf(o, paths[k + 1]) == Some(i);
    }
  }

  /** How many paths land on a line. */
  function Uses(o: Outline, paths: seq<string>, i: nat): nat {
    if paths == [] then 0 else (if LineOf(o, paths[0]) == Some(i) then 1 else 0) + Uses(o, paths[1..], i)
  }

  lemma {:induction false} UsesTargeted(o: Outline, paths: seq<string>, i: nat)
    ensures Uses(o, paths, i) > 0 <==> Targeted(o, paths, i)
  {
    if paths != [] {
      TargetedSplit(o, paths, i);
      UsesTargeted(o, paths[1..], i);
    }
  }

  /** Each line rewritten as often as a path lands on it. */
  ghost predicate EachRewritten(lines: seq<string>, out: seq<string>, paths: seq<string>, version: string) {
    && |out| == |lines| && OutlineOf(out) == OutlineOf(lines)
    && forall i :: 0 <= i < |lines| ==> Rewrites(lines[i], out[i], version, Uses(OutlineOf(lines), paths, i))
  }

  lemma {:induction false} OneMoreUse(l: string, m: string, version: string, o: Outline, paths: seq<string>, i: nat)
    requires paths != []
    requires Rewrites(if LineOf(o, paths[0]) == Some(i) then RewriteLine(l, version) else l, m, version, Uses(o, paths[1..], i))
    ensures Rewrites(l, m, version, Uses(o, paths, i))
  {
    if LineOf(o, paths[0]) == Some(i) { ComesMore(l, m, Rewriter(version), Uses(o, paths[1..], i)); }
  }

  lemma {:induction false} EachRewrittenStep(lines: seq<string>, j: nat, paths: seq<string>, version: string, out: seq<string>)
    requires paths != [] && LineOf(OutlineOf(lines), paths[0]) == Some(j) && j < |lines|
    requires EachRewritten(lines[j := RewriteLine(lines[j], version)], out, paths[1..], version)
    requires OutlineOf(lines[j := RewriteLine(lines[j], version)]) == OutlineOf(lines)
    ensures EachRewritten(lines, out, paths, version)
  {
    var o := OutlineOf(lines);
    var next := lines[j := RewriteLine(lines[j], version)];
    forall i | 0 <= i < |lines| ensures Rewrites(lines[i], out[i], version, Uses(o, paths, i)) {
      assert Rewrites(next[i], out[i], version, Uses(o, paths[1..], i));
      OneMoreUse(lines[i], out[i], version, o, paths, i);
    }
  }

  /** For any list of paths, repeated or not, once all resolve the edit is done: each line is
      rewritten as often as a path lands on it. */
  lemma {:induction false} PathsMove(lines: seq<string>, paths: seq<string>, version: string)
    requires AllFound(lines, paths) && CleanVersion(version)
    ensures var out := ApplyPaths(lines, paths, version); out.Some? && EachRewritten(lines, out.value, paths, version)
    decreases |paths|
  {
    if paths != [] {
      var j, next := FirstStep(lines, paths, version);
      PathsMove(next, paths[1..], version);
      EachRewrittenStep(lines, j, paths, version, ApplyPaths(next, paths[1..], version).value);
    } else {
      forall i | 0 <= i < |lines| ensures Rewrites(lines[i], lines[i], version, 0) { ComesNone(lines[i], Rewriter(version)); }
    }
  }

  lemma {:induction false} UsedLine(lines: seq<string>, paths: seq<string>, i: nat)
    requires i < |lines| && Uses(OutlineOf(lines), paths, i) > 0
    ensures FrameOf(lines[i]).Some?
  {
    UsesTargeted(OutlineOf(lines), paths, i);
  }

  /** What a targeted line is after the edit; any other line is the same. */
  predicate Moved(before: string, after: string, targeted: bool, version: string) {
    if targeted then
      ValueOf(after) == version && TidyLine(after) && FrameOf(after) == FrameOf(before) && ('\n' in after ==> '\n' in before)
    else after == before
  }

  ghost predicate MovedAll(lines: seq<string>, out: seq<string>, paths: seq<string>, version: string) {
    && |out| == |lines| && OutlineOf(out) == OutlineOf(lines)
    && forall i :: 0 <= i < |lines| ==> Moved(lines[i], out[i], Targeted(OutlineOf(lines), paths, i), version)
  }

  predicate TidyTargets(lines: seq<string>, paths: seq<string>) {
    forall i :: 0 <= i < |lines| && Targeted(OutlineOf(lines), paths, i) ==> TidyLine(lines[i])
  }

  lemma {:induction false} TidyNotSpoilt(l: string, u: nat)
    requires TidyLine(l) && FrameOf(l).Some? && u > 0
    ensures !SpoilsLine(l, u)
  {
    PrintParsed(l);
    TidyIff(ParseScalar(l).value.scalar);
  }

  lemma {:induction false} LineMoved(lines: seq<string>, out: seq<string>, paths: seq<string>, version: string, i: nat)
    requires EachRewritten(lines, out, paths, version) && CleanVersion(version) && TidyTargets(lines, paths) && i < |lines|
    ensures Moved(lines[i], out[i], Targeted(OutlineOf(lines), paths, i), version)
  {
    var u := Uses(OutlineOf(lines), paths, i);
    UsesTargeted(OutlineOf(lines), paths, i);
    if u > 0 {
      TidyNotSpoilt(lines[i], u);
      RewritesRead(lines[i], out[i], version, u);
    } else {
      ComesFew(lines[i], out[i], Rewriter(version), 0);
    }
  }

  /** On tidy lines every line a path lands on reads the new version, and every other line is
      the same. */
  lemma {:induction false} TidyPathsMove(lines: seq<string>, paths: seq<string>, version: string)
    requires AllFound(lines, paths) && CleanVersion(version) && TidyTargets(lines, paths)
    ensures var out := ApplyPaths(lines, paths, version); out.Some? && MovedAll(lines, out.value, paths, version)
  {
    PathsMove(lines, paths, version);
    var out := ApplyPaths(lines, paths, version).value;
    forall i | 0 <= i < |lines| ensures Moved(lines[i], out[i], Targeted(OutlineOf(lines), paths, i), version) {
      LineMoved(lines, out, paths, version, i);
    }
  }

  ghost predicate Distinct(paths: seq<string>) { forall j, k :: 0 <= j < k < |paths| ==> paths[j] != paths[k] }

  /** Each targeted line rewritten once. */
  ghost predicate MovedOnce(lines: seq<string>, out: seq<string>, paths: seq<string>, version: string) {
    && |out| == |lines| && OutlineOf(out) == OutlineOf(lines)
    && forall i :: 0 <= i < |lines| ==> out[i] == if Targeted(OutlineOf(lines), paths, i) then RewriteLine(lines[i], version) else lines[i]
  }

  lemma {:induction false} NotTargetedAgain(o: Outline, paths: seq<string>, j: nat)
    requires paths != [] && Distinct(paths) && LineOf(o, paths[0]) == Some(j)
    ensures !Targeted(o, paths[1..], j)
  {
    forall k | 0 <= k < |paths| - 1 ensures LineOf(o, paths[1..][k]) != Some(j) {
      assert paths[1..][k] == paths[k + 1];
      JoinSplit(paths[0], '.');
      JoinSplit(paths[k + 1], '.');
      FirstOwnerIsFirst(o, Split(paths[0], '.'), 0);
      FirstOwnerIsFirst(o, Split(paths[k + 1], '.'), 0);
    }
  }

  lemma {:induction false} UsedOnce(o: Outline, paths: seq<string>, i: nat)
    requires Distinct(paths)
    ensures Uses(o, paths, i) <= 1
  {
    if paths != [] {
      UsedOnce(o, paths[1..], i);
      if LineOf(o, paths[0]) == Some(i) {
        NotTargetedAgain(o, paths, i);
        UsesTargeted(o, paths[1..], i);
      }
    }
  }

  lemma {:induction false} LineOnce(lines: seq<string>, out: seq<string>, paths: seq<string>, version: string, i: nat)
    requires EachRewritten(lines, out, paths, version) && Distinct(paths) && i < |lines|
    ensures out[i] == if Targeted(OutlineOf(lines), paths, i) then RewriteLine(lines[i], version) else lines[i]
  {
    UsesTargeted(OutlineOf(lines), paths, i);
    UsedOnce(OutlineOf(lines), paths, i);
    ComesFew(lines[i], out[i], Rewriter(version), Uses(OutlineOf(lines), paths, i));
  }

  /** With no path declared twice, each line a path lands on is rewritten once. */
  lemma {:induction false} DistinctPathsMove(lines: seq<string>, paths: seq<string>, version: string)
    requires AllFound(lines, paths) && CleanVersion(version) && Distinct(paths)
    ensures var out := ApplyPaths(lines, paths, version); out.Some? && MovedOnce(lines, out.value, paths, version)
  {
    PathsMove(lines, paths, version);
    var out := ApplyPaths(lines, paths, version).value;
    forall i | 0 <= i < |lines|
      ensures out[i] == if Targeted(OutlineOf(lines), paths, i) then RewriteLine(lines[i], version) else lines[i]
    {
      LineOnce(lines, out, paths, version, i);
    }
  }

  predicate ReadsAt(lines: seq<string>, path: string, version: string) {
    var r := Resolve(lines, path); r.Found? && r.value == version
  }

  predicate ReadsAll(lines: seq<string>, paths: seq<string>, version: string) {
    forall k :: 0 <= k < |paths| ==> ReadsAt(lines, paths[k], version)
  }

  /** No line that a path lands on is spoilt in any of the first `n` edits. */
  predicate LinesLast(lines: seq<string>, paths: seq<string>, n: nat) {
    forall i :: 0 <= i < |lines| && Targeted(OutlineOf(lines), paths, i) ==> LineLasts(lines[i], Uses(OutlineOf(lines), paths, i), n)
  }

  function SpoilingLine(l: string): nat -> bool { (n: nat) => SpoilsLine(l, n) }

  predicate LineLasts(l: string, u: nat, n: nat) { LastsBy(SpoilingLine(l), u, n) }

  lemma {:induction false} LineCountsAt(l: string, m: string, version: string, u: nat, k: nat)
    requires FrameOf(l).Some? && CleanVersion(version) && Rewrites(l, m, version, u) && k > 0
    ensures SpoilingLine(m)(k) == SpoilingLine(l)(u + k)
  {
    RewritesCount(l, m, version, u, k, SpoilsLine(l, u + k));
  }

  lemma {:induction false} LineCounts(l: string, m: string, version: string, u: nat, n: nat) returns (spoils: nat -> bool, later: nat -> bool)
    requires FrameOf(l).Some? && CleanVersion(version) && Rewrites(l, m, version, u)
    ensures forall k: nat :: k > 0 ==> later(k) == spoils(u + k)
    ensures LineLasts(l, u, n + 1) == LastsBy(spoils, u, n + 1) && LineLasts(m, u, n) == LastsBy(later, u, n)
    ensures spoils(u) == SpoilsLine(l, u)
  {
    spoils, later := SpoilingLine(l), SpoilingLine(m);
    forall k: nat | k > 0 ensures later(k) == spoils(u + k) { LineCountsAt(l, m, version, u, k); }
  }

  /** An edit is read back exactly if the line lasts one, and it lasts one less then. */
  lemma {:induction false} LastsNext(l: string, m: string, version: string, u: nat, n: nat)
    requires FrameOf(l).Some? && CleanVersion(version) && u > 0 && Rewrites(l, m, version, u)
    ensures LineLasts(l, u, n + 1) == (!SpoilsLine(l, u) && LineLasts(m, u, n))
  {
    var spoils, later := LineCounts(l, m, version, u, n);
    LastsByNext(spoils, later, u, n);
  }

  lemma {:induction false} LastsOnce(l: string, u: nat)
    ensures LineLasts(l, u, 1) <==> !SpoilsLine(l, u)
  {
    Multiples(u, 0);
    assert LastsBy(SpoilingLine(l), u, 0);
  }

  lemma {:induction false} PathReads(lines: seq<string>, out: seq<string>, paths: seq<string>, version: string, path: string)
    requires EachRewritten(lines, out, paths, version) && CleanVersion(version) && path in paths && Resolve(lines, path).Found?
    ensures var i := Resolve(lines, path).line;
            && Targeted(OutlineOf(lines), paths, i) && LineOf(OutlineOf(lines), path) == Some(i)
            && (ReadsAt(out, path, version) <==> !SpoilsLine(lines[i], Uses(OutlineOf(lines), paths, i)))
  {
    FoundAt(lines, path);
    FoundAt(out, path);
    var k :| 0 <= k < |paths| && paths[k] == path;
    var o, i := OutlineOf(lines), Resolve(lines, path).line;
    assert LineOf(o, paths[k]) == Some(i);
    UsesTargeted(o, paths, i);
    RewritesRead(lines[i], out[i], version, Uses(o, paths, i));
  }

  /** Every declared path reads the new version afterwards exactly when no line that one lands
      on is spoilt by as many rewrites as there are paths on it. */
  lemma {:induction false} PathsReadBackIff(lines: seq<string>, paths: seq<string>, version: string)
    requires AllFound(lines, paths) && CleanVersion(version)
    ensures var out := ApplyPaths(lines, paths, version);
            out.Some? && (ReadsAll(out.value, paths, version) <==> LinesLast(lines, paths, 1))
  {
    PathsMove(lines, paths, version);
    var o := OutlineOf(lines);
    var out := ApplyPaths(lines, paths, version).value;
    forall k | 0 <= k < |paths|
      ensures var i := LineOf(o, paths[k]).value;
              Targeted(o, paths, i) && (ReadsAt(out, paths[k], version) <==> LineLasts(lines[i], Uses(o, paths, i), 1))
    {
      PathReads(lines, out, paths, version, paths[k]);
      LastsOnce(lines[Resolve(lines, paths[k]).line], Uses(o, paths, Resolve(lines, paths[k]).line));
    }
  }

  /** The lines last one edit more than the edited lines, if this one reads back. */
  lemma {:induction false} LinesLastNext(lines: seq<string>, out: seq<string>, paths: seq<string>, version: string, n: nat)
    requires EachRewritten(lines, out, paths, version) && CleanVersion(version)
    ensures LinesLast(lines, paths, n + 1) <==> LinesLast(lines, paths, 1) && LinesLast(out, paths, n)
  {
    var o := OutlineOf(lines);
    forall i | 0 <= i < |lines| && Targeted(o, paths, i)
      ensures var u := Uses(o, paths, i); LineLasts(lines[i], u, n + 1) == (LineLasts(lines[i], u, 1) && LineLasts(out[i], u, n))
    {
      UsesTargeted(o, paths, i);
      LastsOnce(lines[i], Uses(o, paths, i));
      LastsNext(lines[i], out[i], version, Uses(o, paths, i), n);
    }
  }

  lemma {:induction false} TidyLinesLast(lines: seq<string>, paths: seq<string>, n: nat)
    requires TidyTargets(lines, paths)
    ensures LinesLast(lines, paths, n)
  {
    forall i | 0 <= i < |lines| && Targeted(OutlineOf(lines), paths, i) ensures LineLasts(lines[i], Uses(OutlineOf(lines), paths, i), n) {
      UsesTargeted(OutlineOf(lines), paths, i);
      forall k: nat | k > 0 ensures !SpoilingLine(lines[i])(k) { TidyNotSpoilt(lines[i], k); }
      LastsIfNever(SpoilingLine(lines[i]), Uses(OutlineOf(lines), paths, i), n);
    }
  }

  // ---- A whole file ----

  function Lines(text: string): (lines: seq<string>)
    ensures lines != []
  {
    Split(text, '\n')
  }

  /** One file's buffer rewritten and joined again. */
  function EditFile(text: string, paths: seq<string>, version: string): (out: Option<string>) {
    var lines := ApplyPaths(Lines(text), paths, version);
    if lines.None? then None else Some(Join(lines.value, '\n'))
  }

  method EditBuffer(text: string, paths: seq<string>, version: string) returns (out: Option<string>)
    ensures out == EditFile(text, paths, version)
  {
    var lines := Lines(text);
    for k := 0 to |paths|
      invariant ApplyPaths(lines, paths[k..], version) == ApplyPaths(Lines(text), paths, version)
    {
      var r := ResolveValuesPath(lines, paths[k]);
      assert paths[k..][0] == paths[k] && paths[k..][1..] == paths[k + 1..];
      if !r.Found? { return None; }
      lines := lines[r.line := RewriteLine(lines[r.line], version)];
    }
    return Some(Join(lines, '\n'));
  }

  /** The written file, split again, is its lines as they were edited. */
  lemma {:induction false} EditedLines(text: string, paths: seq<string>, version: string)
    requires AllFound(Lines(text), paths) && CleanVersion(version)
    ensures var out := EditFile(text, paths, version);
            && out.Some? && ApplyPaths(Lines(text), paths, version) == Some(Lines(out.value))
            && EachRewritten(Lines(text), Lines(out.value), paths, version)
  {
    var lines := Lines(text);
    PathsMove(lines, paths, version);
    var done := ApplyPaths(lines, paths, version).value;
    SplitPartsFree(text, '\n');
    forall i | 0 <= i < |done| ensures '\n' !in done[i] {
      if Uses(OutlineOf(lines), paths, i) > 0 {
        UsedLine(lines, paths, i);
        RewritesRead(lines[i], done[i], version, Uses(OutlineOf(lines), paths, i));
      } else {
        ComesFew(lines[i], done[i], Rewriter(version), 0);
      }
    }
    SplitJoin(done, '\n');
  }

  /** Planned on tidy lines, the written file reads the new version at every path, line by line
      the same elsewhere, and is tidy for the next edit. */
  lemma {:induction false} FileMoves(text: string, paths: seq<string>, version: string)
    requires AllFound(Lines(text), paths) && TidyTargets(Lines(text), paths) && CleanVersion(version)
    ensures var out := EditFile(text, paths, version);
            && out.Some? && MovedAll(Lines(text), Lines(out.value), paths, version)
            && ReadsAll(Lines(out.value), paths, version) && TidyTargets(Lines(out.value), paths)
  {
    EditedLines(text, paths, version);
    TidyPathsMove(Lines(text), paths, version);
    MovedReads(Lines(text), ApplyPaths(Lines(text), paths, version).value, paths, version);
  }

  lemma {:induction false} MovedReads(lines: seq<string>, out: seq<string>, paths: seq<string>, version: string)
    requires AllFound(lines, paths) && MovedAll(lines, out, paths, version) && version != ""
    ensures ReadsAll(out, paths, version) && TidyTargets(out, paths)
  {
    var o := OutlineOf(lines);
    forall k | 0 <= k < |paths| ensures ReadsAt(out, paths[k], version) {
      FoundAt(lines, paths[k]);
      var i := LineOf(o, paths[k]).value;
      assert Targeted(o, paths, i);
      assert Moved(lines[i], out[i], true, version);
      FoundAt(out, paths[k]);
    }
    forall i | 0 <= i < |out| && Targeted(o, paths, i) ensures TidyLine(out[i]) {
      assert Moved(lines[i], out[i], true, version);
    }
  }

  /** The reading of a top-level line. */
  lemma {:induction false} TopLine(key: string, value: string, after: string)
    requires IsKey("", key) && value != "" && All(value, Value) && Stops(after, Value)
    ensures var l := "" + key + ":" + "" + (value + after);
            && FrameOf(l) == Some(Frame(0, key)) && ValueOf(l) == value
            && var s := ParseScalar(l).value.scalar; !s.quoted && Scanned(s) && After(s) == after
  {
    ParseValueOf(false, value, after);
    ParsePrinted("", key, "", value + after);
  }

  /** The lines for which the edit goes wrong: the value ends at a stray quote that more value
      text follows. The rewritten line then reads something else than the version. */
  lemma {:induction false} FusedLines(key: string, value: string, more: string, version: string)
    requires IsKey("", key) && value != "" && All(value, Value) && more != "" && IsValueChar(more[0])
    requires CleanVersion(version)
    ensures var l := "" + key + ":" + "" + (value + ("\"" + more));
            ValueOf(l) == value && FusesLine(l) && ValueOf(RewriteLine(l, version)) != version
  {
    TopLine(key, value, "\"" + more);
    var l := "" + key + ":" + "" + (value + ("\"" + more));
    FusedParts(ParseScalar(l).value.scalar, more);
    RewriteLineReads(l, version);
  }

  lemma {:induction false} FusedParts(s: Scalar, more: string)
    requires !s.quoted && Scanned(s) && After(s) == "\"" + more && more != "" && IsValueChar(more[0])
    ensures Fuses(s)
  {
    assert After(s)[0] == '"' && After(s)[1..] == more;
    if s.closed { assert ("\"" + s.rest)[1..] == s.rest; }
  }
}
