/** Artifact versions that embed a release version and, possibly, an upstream version
    (`artifact.go`): rendering one and recovering the release from it. */
module ArtifactVersion {
  import opened Text
  import SemVer

  const RELEASE := "${release}"
  const UPSTREAM := "${upstream}"

  /** A format by the text around its placeholders. */
  datatype Format =
    | ReleaseOnly(a: string, b: string)
    | ReleaseFirst(a: string, m: string, b: string)
    | UpstreamFirst(a: string, m: string, b: string)

  function TextOf(f: Format): string {
    match f
    case ReleaseOnly(a, b) => a + (RELEASE + b)
    case ReleaseFirst(a, m, b) => a + (RELEASE + (m + (UPSTREAM + b)))
    case UpstreamFirst(a, m, b) => a + (UPSTREAM + (m + (RELEASE + b)))
  }

  /** The format with both placeholders filled in. */
  function Fill(f: Format, release: string, upstream: string): string {
    match f
    case ReleaseOnly(a, b) => a + (release + b)
    case ReleaseFirst(a, m, b) => a + (release + (m + (upstream + b)))
    case UpstreamFirst(a, m, b) => a + (upstream + (m + (release + b)))
  }

  // ---- Rendering ----

  /** `strings.Replace(s, from, to, 1)` */
  function ReplaceFirst(s: string, from: string, to: string): string {
    var i := IndexFrom(s, from, 0);
    if i.None? then s else s[..i.value] + (to + s[i.value + |from|..])
  }

  /** The substitution part of `render`. */
  function Render(f: Format, release: string, upstream: string): string {
    ReplaceFirst(ReplaceFirst(TextOf(f), RELEASE, release), UPSTREAM, if f.ReleaseOnly? then "" else upstream)
  }

  predicate IsPlaceholder(p: string) { p == RELEASE || p == UPSTREAM }

  function ReleasePlace(f: Format): nat { if f.UpstreamFirst? then |f.a| + |UPSTREAM| + |f.m| else |f.a| }

  function UpstreamPlace(f: Format): nat
    requires !f.ReleaseOnly?
  {
    if f.UpstreamFirst? then |f.a| else |f.a| + |RELEASE| + |f.m|
  }

  ghost predicate OnlyAt(s: string, p: string, i: nat) { At(s, p, i) && forall j :: 0 <= j && At(s, p, j) ==> j == i }

  /** The text holds each placeholder where the format has it and nowhere else. */
  ghost predicate IsProper(f: Format) {
    && OnlyAt(TextOf(f), RELEASE, ReleasePlace(f))
    && (if f.ReleaseOnly? then !Occurs(TextOf(f), UPSTREAM) else OnlyAt(TextOf(f), UPSTREAM, UpstreamPlace(f)))
  }

  lemma {:induction false} Regroup(a: string, r: string, m: string, rest: string)
    ensures a + (r + (m + rest)) == (a + (r + m)) + rest
  {
  }

  /** A placeholder starts with `$`, holds no other, and ends with `}`. */
  lemma {:induction false} PlaceholderShape(s: string, p: string, i: nat)
    requires IsPlaceholder(p) && At(s, p, i)
    ensures s[i] == '$' && s[i + 1] == '{' && s[i + |p| - 1] == '}'
    ensures forall k :: i < k < i + |p| ==> s[k] != '$'
    ensures forall k :: i <= k < i + |p| ==> s[k] == p[k - i]
  {
    var t := s[i..i + |p|];
    forall k | i <= k < i + |p| ensures s[k] == t[k - i] { }
  }

  /** A placeholder that starts before another ends before it. */
  lemma {:induction false} NoOverlap(x: string, p: string, rest: string, q: string, j: nat)
    requires IsPlaceholder(p) && IsPlaceholder(q) && j < |x| && At(x + (p + rest), q, j)
    ensures At(x, q, j)
  {
    var s := x + (p + rest);
    PlaceholderShape(s, q, j);
    assert s[|x|] == p[0] == '$';
    assert s[j..j + |q|] == x[j..j + |q|];
  }

  lemma {:induction false} AtExtends(x: string, p: string, rest: string, j: nat)
    requires At(x, p, j)
    ensures At(x + rest, p, j)
  {
    assert (x + rest)[j..j + |p|] == x[j..j + |p|];
  }

  /** The first placeholder of a text after which one stands. */
  lemma {:induction false} FirstBefore(x: string, p: string, rest: string)
    requires IsPlaceholder(p)
    ensures IndexFrom(x + (p + rest), p, 0) == if Occurs(x, p) then IndexFrom(x, p, 0) else Some(|x|)
  {
    var s := x + (p + rest);
    assert s[|x|..|x| + |p|] == p;
    assert At(s, p, |x|);
    var i := IndexFrom(s, p, 0);
    assert i.Some? && i.value <= |x|;
    if i.value < |x| {
      NoOverlap(x, p, rest, p, i.value);
    }
    if Occurs(x, p) {
      var j := IndexFrom(x, p, 0);
      AtExtends(x, p, p + rest, j.value);
    }
  }

  lemma {:induction false} ReplaceAfter(x: string, p: string, rest: string, to: string)
    requires IsPlaceholder(p) && !Occurs(x, p)
    ensures ReplaceFirst(x + (p + rest), p, to) == x + (to + rest)
  {
    FirstBefore(x, p, rest);
    var s := x + (p + rest);
    assert s[..|x|] == x && s[|x| + |p|..] == rest;
  }

  lemma {:induction false} ReplaceInside(x: string, p: string, rest: string, to: string)
    requires IsPlaceholder(p) && Occurs(x, p)
    ensures var j := IndexFrom(x, p, 0).value;
            ReplaceFirst(x + (p + rest), p, to) == x[..j] + (to + (x[j + |p|..] + (p + rest)))
  {
    FirstBefore(x, p, rest);
    CutInside(x, p + rest, IndexFrom(x, p, 0).value, |p|);
  }

  lemma {:induction false} CutInside(x: string, y: string, j: nat, n: nat)
    requires j + n <= |x|
    ensures (x + y)[..j] == x[..j] && (x + y)[j + n..] == x[j + n..] + y
  {
  }

  lemma {:induction false} BeforeIsFree(x: string, p: string, rest: string)
    requires IsPlaceholder(p) && OnlyAt(x + (p + rest), p, |x|)
    ensures !Occurs(x, p)
  {
    if j: nat :| At(x, p, j) {
      assert (x + (p + rest))[j..j + |p|] == x[j..j + |p|];
      assert At(x + (p + rest), p, j);
    }
  }

  /** The first substitution puts the release in its place. */
  lemma {:induction false} ReleaseFilled(f: Format, release: string)
    requires IsProper(f)
    ensures ReplaceFirst(TextOf(f), RELEASE, release) == Fill(f, release, UPSTREAM)
  {
    match f
    case ReleaseOnly(a, b) =>
      BeforeIsFree(a, RELEASE, b);
      ReplaceAfter(a, RELEASE, b, release);
    case ReleaseFirst(a, m, b) =>
      BeforeIsFree(a, RELEASE, m + (UPSTREAM + b));
      ReplaceAfter(a, RELEASE, m + (UPSTREAM + b), release);
    case UpstreamFirst(a, m, b) =>
      Regroup(a, UPSTREAM, m, RELEASE + b);
      Regroup(a, UPSTREAM, m, release + b);
      BeforeIsFree(a + (UPSTREAM + m), RELEASE, b);
      ReplaceAfter(a + (UPSTREAM + m), RELEASE, b, release);
  }

  /** The text in front of the upstream placeholder when the second substitution looks for it. */
  function Front(f: Format, release: string): string {
    match f
    case ReleaseOnly(a, b) => a + (release + b)
    case ReleaseFirst(a, m, b) => a + (release + m)
    case UpstreamFirst(a, m, b) => a
  }

  /** That text already holds `${upstream}`: the second substitution hits the wrong place. */
  ghost predicate Misses(f: Format, release: string) { Occurs(Front(f, release), UPSTREAM) }

  /** With the upstream value first, whatever the release, it never does. */
  lemma {:induction false} UpstreamFirstHits(f: Format, release: string)
    requires IsProper(f) && f.UpstreamFirst?
    ensures !Misses(f, release)
  {
    BeforeIsFree(f.a, UPSTREAM, f.m + (RELEASE + f.b));
  }

  /** Substitution fills in the placeholders unless it misses. */
  lemma {:induction false} RenderFills(f: Format, release: string, upstream: string)
    requires IsProper(f) && !Misses(f, release)
    ensures Render(f, release, upstream) == Fill(f, release, upstream)
  {
    ReleaseFilled(f, release);
    match f
    case ReleaseOnly(a, b) =>
    case ReleaseFirst(a, m, b) =>
      Regroup(a, release, m, UPSTREAM + b);
      Regroup(a, release, m, upstream + b);
      ReplaceAfter(a + (release + m), UPSTREAM, b, upstream);
    case UpstreamFirst(a, m, b) =>
      ReplaceAfter(a, UPSTREAM, m + (release + b), upstream);
  }

  /** A version: nothing in it opens or closes a placeholder, and it cannot stand inside one. */
  predicate IsVersionText(v: string) { '$' !in v && '}' !in v && '.' in v }

  /** Such text between two others makes no placeholder. */
  lemma {:induction false} VersionMakesNone(x: string, v: string, y: string)
    requires IsVersionText(v) && !Occurs(x, UPSTREAM) && !Occurs(y, UPSTREAM)
    ensures !Occurs(x + (v + y), UPSTREAM)
  {
    var s := x + (v + y);
    if i: nat :| At(s, UPSTREAM, i) {
      PlaceholderShape(s, UPSTREAM, i);
      var end := i + |UPSTREAM|;
      forall k | |x| <= k < |x| + |v| ensures s[k] in v { assert s[k] == v[k - |x|]; }
      assert !(|x| <= i < |x| + |v|) && !(|x| <= end - 1 < |x| + |v|);
      if end <= |x| {
        assert s[i..end] == x[i..end];
        assert At(x, UPSTREAM, i);
      } else if i >= |x| + |v| {
        var j := i - |x| - |v|;
        assert s[i..end] == y[j..j + |UPSTREAM|];
        assert At(y, UPSTREAM, j);
      } else {
        DotInside(s, v, |x|, i);
      }
    }
  }

  lemma {:induction false} DotInside(s: string, v: string, at: nat, i: nat)
    requires '.' in v && at + |v| <= |s| && s[at..at + |v|] == v && At(s, UPSTREAM, i)
    ensures !(i <= at && at + |v| <= i + |UPSTREAM|)
  {
    var k :| 0 <= k < |v| && v[k] == '.';
    assert s[at..at + |v|][k] == s[at + k] == '.';
    PlaceholderShape(s, UPSTREAM, i);
    assert forall c :: c in UPSTREAM ==> c != '.';
  }

  lemma {:induction false} PartsAreFree(f: Format)
    requires IsProper(f)
    ensures !Occurs(f.a, UPSTREAM) && !Occurs(f.b, UPSTREAM) && (!f.ReleaseOnly? ==> !Occurs(f.m, UPSTREAM))
  {
    var s := TextOf(f);
    var place := if f.ReleaseOnly? then 0 else UpstreamPlace(f);
    match f
    case ReleaseOnly(a, b) => TwoParts(a, RELEASE, b, s, place);
    case ReleaseFirst(a, m, b) => ThreeParts(a, RELEASE, m, UPSTREAM, b, s, place);
    case UpstreamFirst(a, m, b) => ThreeParts(a, UPSTREAM, m, RELEASE, b, s, place);
  }

  lemma {:induction false} TwoParts(a: string, p: string, b: string, s: string, place: nat)
    requires s == a + (p + b) && !Occurs(s, UPSTREAM)
    ensures !Occurs(a, UPSTREAM) && !Occurs(b, UPSTREAM)
  {
    PartIsFree("", a, p + b, s, place);
    assert s == (a + p) + (b + "");
    PartIsFree(a + p, b, "", s, place);
  }

  lemma {:induction false} ThreeParts(a: string, p: string, m: string, q: string, b: string, s: string, place: nat)
    requires s == a + (p + (m + (q + b))) && (forall j :: 0 <= j && At(s, UPSTREAM, j) ==> j == place)
    requires p != "" && q != "" && (place == |a| || place == |a| + |p| + |m|)
    ensures !Occurs(a, UPSTREAM) && !Occurs(m, UPSTREAM) && !Occurs(b, UPSTREAM)
  {
    PartIsFree("", a, p + (m + (q + b)), s, place);
    assert s == (a + p) + (m + (q + b));
    PartIsFree(a + p, m, q + b, s, place);
    var x := a + (p + (m + q));
    assert s == x + (b + "");
    PartIsFree(x, b, "", s, place);
  }

  lemma {:induction false} PartIsFree(x: string, part: string, y: string, s: string, place: nat)
    requires s == x + (part + y) && (forall j :: 0 <= j && At(s, UPSTREAM, j) ==> j == place)
    requires !Occurs(s, UPSTREAM) || place < |x| || |x| + |part| <= place
    ensures !Occurs(part, UPSTREAM)
  {
    if j: nat :| At(part, UPSTREAM, j) {
      assert s[|x| + j..|x| + j + |UPSTREAM|] == part[j..j + |UPSTREAM|];
      assert At(s, UPSTREAM, |x| + j);
    }
  }

  /** No version makes the substitution miss. */
  lemma {:induction false} VersionsHit(f: Format, release: string)
    requires IsProper(f) && IsVersionText(release)
    ensures !Misses(f, release)
  {
    PartsAreFree(f);
    match f
    case ReleaseOnly(a, b) => VersionMakesNone(a, release, b);
    case ReleaseFirst(a, m, b) => VersionMakesNone(a, release, m);
    case UpstreamFirst(a, m, b) =>
  }

  // ---- Recovering ----

  /** What `.+?` can stand for. */
  predicate IsGroup(s: string) { s != "" && '\n' !in s }

  /** A cut of `t` into a group of length `n`, the separator, a group and the suffix. */
  predicate Cuts(t: string, m: string, b: string, n: nat) {
    && At(t, m, n) && n + |m| + |b| <= |t| && t[|t| - |b|..] == b
    && IsGroup(t[..n]) && IsGroup(t[n + |m|..|t| - |b|])
  }

  function CutsOf(t: string, m: string, b: string): nat -> bool { (n: nat) => Cuts(t, m, b, n) }

  /** The two groups around the separator. */
  datatype Groups = Groups(first: string, second: string)

  function GroupsAt(t: string, m: string, b: string, n: nat): Groups
    requires n + |m| + |b| <= |t|
  {
    Groups(t[..n], t[n + |m|..|t| - |b|])
  }

  /** The lazy match: the shortest first group. */
  function MatchGroups(t: string, m: string, b: string): (g: Option<Groups>) {
    var n := FirstFrom(CutsOf(t, m, b), 0, |t|);
    if n.None? then None else assert Cuts(t, m, b, n.value); Some(GroupsAt(t, m, b, n.value))
  }

  /** The group of a format without an upstream part. */
  function MatchAlone(t: string, b: string): Option<string> {
    if |b| <= |t| && t[|t| - |b|..] == b && IsGroup(t[..|t| - |b|]) then Some(t[..|t| - |b|]) else None
  }

  function RecoverPast(f: Format, t: string): Option<string> {
    match f
    case ReleaseOnly(_, b) => MatchAlone(t, b)
    case ReleaseFirst(_, m, b) => (var g := MatchGroups(t, m, b); if g.None? then None else Some(g.value.first))
    case UpstreamFirst(_, m, b) => (var g := MatchGroups(t, m, b); if g.None? then None else Some(g.value.second))
  }

  predicate HasPrefix(s: string, p: string) { |p| <= |s| && s[..|p|] == p }

  /** `releaseVersionFromArtifact` */
  function Recover(f: Format, artifact: string): (r: Option<string>) {
    if HasPrefix(artifact, f.a) then RecoverPast(f, artifact[|f.a|..]) else None
  }

  /** The separator occurs inside or across the end of the first group. One with a line break
      does not count: its own place would lie in the second group, which holds none. */
  predicate SeparatorEarlier(first: string, m: string, second: string, b: string) {
    '\n' !in m && exists n :: 1 <= n < |first| && At(first + (m + (second + b)), m, n)
  }

  lemma {:induction false} CutIsThere(first: string, m: string, second: string, b: string)
    requires IsGroup(first) && IsGroup(second)
    ensures Cuts(first + (m + (second + b)), m, b, |first|)
  {
    var t := first + (m + (second + b));
    assert t[|first|..|first| + |m|] == m;
    assert t[|t| - |b|..] == b && t[..|first|] == first && t[|first| + |m|..|t| - |b|] == second;
  }

  function LastBreak(m: string): (k: nat)
    requires '\n' in m
    ensures k < |m| && m[k] == '\n' && forall i :: k < i < |m| ==> m[i] != '\n'
  {
    if m[|m| - 1] == '\n' then |m| - 1 else LastBreak(m[..|m| - 1])
  }

  /** A separator with a line break that is found early leaves its own break in the second group. */
  lemma {:induction false} BreakIsLater(first: string, m: string, second: string, b: string, n: nat)
    requires '\n' in m && 1 <= n < |first| && At(first + (m + (second + b)), m, n) && second != ""
    ensures !Cuts(first + (m + (second + b)), m, b, n)
  {
    var t := first + (m + (second + b));
    var k := LastBreak(m);
    var at := |first| + k;
    assert t[at] == '\n';
    assert forall i :: n <= i < n + |m| ==> t[i] == t[n..n + |m|][i - n];
    assert at >= n + |m|;
    if n + |m| + |b| <= |t| {
      assert t[n + |m|..|t| - |b|][at - n - |m|] == t[at];
    }
  }

  /** Short of the first group, a cut is an occurrence of the separator. */
  lemma {:induction false} EarlierCut(first: string, m: string, second: string, b: string, n: nat)
    requires IsGroup(first) && IsGroup(second) && 1 <= n < |first|
    ensures Cuts(first + (m + (second + b)), m, b, n) <==> '\n' !in m && At(first + (m + (second + b)), m, n)
  {
    var t := first + (m + (second + b));
    if '\n' in m && Cuts(t, m, b, n) {
      BreakIsLater(first, m, second, b, n);
    }
    if '\n' !in m && At(t, m, n) {
      var x := first + (m + second);
      assert t == x + b;
      assert t[|t| - |b|..] == b;
      assert t[..n] == first[..n];
      assert t[n + |m|..|t| - |b|] == x[n + |m|..];
      assert '\n' !in x;
      assert |x[n + |m|..]| > 0;
    }
  }

  lemma {:induction false} FirstCut(first: string, m: string, second: string, b: string)
    requires IsGroup(first) && IsGroup(second)
    ensures var t := first + (m + (second + b)); var n := FirstFrom(CutsOf(t, m, b), 0, |t|);
            n.Some? && Cuts(t, m, b, n.value) && n.value <= |first| && (n.value == |first| <==> !SeparatorEarlier(first, m, second, b))
  {
    var t := first + (m + (second + b));
    var hit := CutsOf(t, m, b);
    CutIsThere(first, m, second, b);
    assert hit(|first|) && !hit(0);
    forall n | 1 <= n < |first| ensures hit(n) <==> '\n' !in m && At(t, m, n) { EarlierCut(first, m, second, b, n); }
  }

  lemma {:induction false} GroupsOf(first: string, m: string, second: string, b: string)
    ensures var t := first + (m + (second + b)); GroupsAt(t, m, b, |first|) == Groups(first, second)
  {
    var t := first + (m + (second + b));
    assert t[..|first|] == first && t[|first| + |m|..|t| - |b|] == second;
  }

  lemma {:induction false} GroupLengths(t: string, m: string, b: string, n: nat)
    requires n + |m| + |b| <= |t|
    ensures var g := GroupsAt(t, m, b, n); |g.first| == n && |g.second| == |t| - |m| - |b| - n
  {
  }

  /** Either both groups come back or neither does. */
  lemma {:induction false} GroupsComeBackIff(first: string, m: string, second: string, b: string)
    ensures var g := MatchGroups(first + (m + (second + b)), m, b);
            var back := IsGroup(first) && IsGroup(second) && !SeparatorEarlier(first, m, second, b);
            && (g.Some? && g.value.first == first <==> back)
            && (g.Some? && g.value.second == second <==> back)
  {
    var t := first + (m + (second + b));
    var n := FirstFrom(CutsOf(t, m, b), 0, |t|);
    GroupsOf(first, m, second, b);
    if IsGroup(first) && IsGroup(second) { FirstCut(first, m, second, b); }
    if n.Some? {
      assert CutsOf(t, m, b)(n.value);
      GroupLengths(t, m, b, n.value);
    }
  }

  lemma {:induction false} AloneComesBack(release: string, b: string)
    ensures MatchAlone(release + b, b) == Some(release) <==> IsGroup(release)
  {
    var t := release + b;
    assert t[|t| - |b|..] == b && t[..|t| - |b|] == release;
  }

  lemma {:induction false} RecoverPrefixed(f: Format, t: string)
    ensures Recover(f, f.a + t) == RecoverPast(f, t)
  {
    var artifact := f.a + t;
    assert artifact[..|f.a|] == f.a && artifact[|f.a|..] == t;
  }

  /** The release can come back: no group is empty or breaks the line, and the separator does
      not occur before its place. */
  predicate Separates(f: Format, release: string, upstream: string) {
    && IsGroup(release)
    && (f.ReleaseFirst? ==> IsGroup(upstream) && !SeparatorEarlier(release, f.m, upstream, f.b))
    && (f.UpstreamFirst? ==> IsGroup(upstream) && !SeparatorEarlier(upstream, f.m, release, f.b))
  }

  /** The release comes back from its artifact exactly then, whatever the texts. */
  lemma {:induction false} RoundTripIff(f: Format, release: string, upstream: string)
    ensures Recover(f, Fill(f, release, upstream)) == Some(release) <==> Separates(f, release, upstream)
  {
    match f
    case ReleaseOnly(a, b) =>
      RecoverPrefixed(f, release + b);
      AloneComesBack(release, b);
    case ReleaseFirst(a, m, b) =>
      RecoverPrefixed(f, release + (m + (upstream + b)));
      GroupsComeBackIff(release, m, upstream, b);
    case UpstreamFirst(a, m, b) =>
      RecoverPrefixed(f, upstream + (m + (release + b)));
      GroupsComeBackIff(upstream, m, release, b);
  }

  lemma {:induction false} VersionsArePlain(v: string)
    requires SemVer.Parse(v).Some?
    ensures IsVersionText(v) && IsGroup(v)
  {
    SemVer.ParsedChars(v);
    CoreHasDot(v);
    forall i | 0 <= i < |v| ensures v[i] != '$' && v[i] != '}' && v[i] != '\n' { assert SemVer.IsVersionChar(v[i]); }
  }

  lemma {:induction false} CoreHasDot(v: string)
    requires SemVer.Parse(v).Some?
    ensures '.' in v
  {
    var body := if v != [] && v[0] == 'v' then v[1..] else v;
    var left := Cut(body, '+').0;
    var core := Cut(left, '-').0;
    if '.' !in core { SplitAtom(core, '.'); }
    assert '.' in core && '.' in left && '.' in body;
  }

  /** The same for a parsed release and the artifact as it is rendered. */
  lemma {:induction false} RenderedRoundTripIff(f: Format, release: string, upstream: string)
    requires IsProper(f) && SemVer.Parse(release).Some?
    ensures Recover(f, Render(f, release, upstream)) == Some(release) <==> Separates(f, release, upstream)
  {
    VersionsArePlain(release);
    VersionsHit(f, release);
    RenderFills(f, release, upstream);
    RoundTripIff(f, release, upstream);
  }

  /** An empty separator gives back the release only if the first part is one character. */
  lemma {:induction false} EmptySeparator(first: string, second: string, b: string)
    requires first != ""
    ensures SeparatorEarlier(first, "", second, b) <==> |first| > 1
  {
    var t := first + ("" + (second + b));
    if |first| > 1 {
      assert t[1..1] == "";
      assert At(t, "", 1);
    }
  }

  lemma {:induction false} CutParts(t: string, m: string, b: string, n: nat)
    requires Cuts(t, m, b, n)
    ensures var g := GroupsAt(t, m, b, n); t == g.first + (m + (g.second + b)) && g.first != "" && g.second != ""
  {
    FourSlices(t, n, n + |m|, |t| - |b|);
  }

  lemma {:induction false} FourSlices(t: string, n: nat, k: nat, l: nat)
    requires n <= k <= l <= |t|
    ensures t == t[..n] + (t[n..k] + (t[k..l] + t[l..]))
  {
  }

  lemma {:induction false} MatchParts(t: string, m: string, b: string)
    requires MatchGroups(t, m, b).Some?
    ensures var g := MatchGroups(t, m, b).value; t == g.first + (m + (g.second + b)) && g.first != "" && g.second != ""
  {
    var n := FirstFrom(CutsOf(t, m, b), 0, |t|).value;
    assert CutsOf(t, m, b)(n);
    CutParts(t, m, b, n);
  }

  lemma {:induction false} AloneParts(t: string, b: string)
    requires MatchAlone(t, b).Some?
    ensures t == MatchAlone(t, b).value + b
  {
    assert t == t[..|t| - |b|] + t[|t| - |b|..];
  }

  /** Whatever is recovered from an artifact fills the format to that artifact, with some
      upstream value. */
  lemma {:induction false} RecoveredFills(f: Format, artifact: string) returns (upstream: string)
    requires Recover(f, artifact).Some?
    ensures Fill(f, Recover(f, artifact).value, upstream) == artifact && (!f.ReleaseOnly? ==> upstream != "")
  {
    var t := artifact[|f.a|..];
    assert artifact == f.a + t;
    upstream := "";
    match f
    case ReleaseOnly(a, b) =>
      AloneParts(t, b);
    case ReleaseFirst(a, m, b) =>
      MatchParts(t, m, b);
      upstream := MatchGroups(t, m, b).value.second;
    case UpstreamFirst(a, m, b) =>
      MatchParts(t, m, b);
      upstream := MatchGroups(t, m, b).value.first;
  }

  // ---- Rendering what was recovered ----

  /** Some upstream value, which `render` takes to be non-empty where it is used, renders to the
      artifact. */
  ghost predicate RendersTo(f: Format, release: string, artifact: string) {
    exists upstream :: RendersWith(f, release, upstream, artifact)
  }

  predicate RendersWith(f: Format, release: string, upstream: string, artifact: string) {
    (f.ReleaseOnly? || upstream != "") && Render(f, release, upstream) == artifact
  }

  predicate HasSuffix(s: string, t: string) { |t| <= |s| && s[|s| - |t|..] == t }

  /** What follows the place that a missing substitution hits. */
  ghost function AfterMiss(f: Format, release: string): string
    requires f.ReleaseFirst? && Misses(f, release)
  {
    var x := Front(f, release);
    x[IndexFrom(x, UPSTREAM, 0).value + |UPSTREAM|..] + (UPSTREAM + f.b)
  }

  /** What is recovered renders to its artifact again exactly when the substitution does not
      miss, or when it misses onto a text that happens to end as the artifact does. */
  ghost predicate CanRender(f: Format, release: string, artifact: string) {
    Misses(f, release) ==> f.ReleaseFirst? && HasSuffix(artifact, AfterMiss(f, release))
  }

  lemma {:induction false} MissedRenders(f: Format, release: string, upstream: string)
    requires IsProper(f) && f.ReleaseFirst? && Misses(f, release)
    ensures var x := Front(f, release); var j := IndexFrom(x, UPSTREAM, 0).value;
            Render(f, release, upstream) == x[..j] + (upstream + AfterMiss(f, release))
  {
    ReleaseFilled(f, release);
    Regroup(f.a, release, f.m, UPSTREAM + f.b);
    ReplaceInside(Front(f, release), UPSTREAM, f.b, upstream);
  }

  /** A text with a given beginning and end is one filled in between. */
  lemma {:induction false} Between(s: string, x: string, y: string)
    requires HasPrefix(s, x) && HasSuffix(s, y) && |x| + |y| <= |s|
    ensures s == x + (s[|x|..|s| - |y|] + y)
  {
    assert s == s[..|x|] + (s[|x|..|s| - |y|] + s[|s| - |y|..]);
  }

  lemma {:induction false} MissLengths(f: Format, release: string, second: string)
    requires f.ReleaseFirst? && Misses(f, release) && second != ""
    ensures var x := Front(f, release); var begin := x[..IndexFrom(x, UPSTREAM, 0).value];
            var artifact := Fill(f, release, second);
            HasPrefix(artifact, begin) && |begin| + |AfterMiss(f, release)| < |artifact|
  {
    var x := Front(f, release);
    var j := IndexFrom(x, UPSTREAM, 0).value;
    Regroup(f.a, release, f.m, second + f.b);
    assert (x + (second + f.b))[..j] == x[..j];
  }

  lemma {:induction false} MissedEnds(f: Format, release: string, upstream: string, artifact: string)
    requires IsProper(f) && f.ReleaseFirst? && Misses(f, release) && Render(f, release, upstream) == artifact
    ensures HasSuffix(artifact, AfterMiss(f, release))
  {
    MissedRenders(f, release, upstream);
    var x, after := Front(f, release), AfterMiss(f, release);
    EndsWith(x[..IndexFrom(x, UPSTREAM, 0).value], upstream, after);
  }

  lemma {:induction false} EndsWith(begin: string, u: string, after: string)
    ensures HasSuffix(begin + (u + after), after)
  {
    var s := begin + (u + after);
    assert s[|s| - |after|..] == after;
  }

  lemma {:induction false} MissedFits(f: Format, release: string, second: string) returns (upstream: string)
    requires IsProper(f) && f.ReleaseFirst? && Misses(f, release) && second != ""
    requires HasSuffix(Fill(f, release, second), AfterMiss(f, release))
    ensures upstream != "" && Render(f, release, upstream) == Fill(f, release, second)
  {
    var artifact, x, after := Fill(f, release, second), Front(f, release), AfterMiss(f, release);
    var begin := x[..IndexFrom(x, UPSTREAM, 0).value];
    MissLengths(f, release, second);
    Between(artifact, begin, after);
    upstream := artifact[|begin|..|artifact| - |after|];
    MissedRenders(f, release, upstream);
  }

  lemma {:induction false} AloneMissed(a: string, b: string, release: string)
    requires IsProper(ReleaseOnly(a, b)) && Misses(ReleaseOnly(a, b), release)
    ensures forall upstream :: Render(ReleaseOnly(a, b), release, upstream) != a + (release + b)
  {
    ReleaseFilled(ReleaseOnly(a, b), release);
    var s := a + (release + b);
    var i := IndexFrom(s, UPSTREAM, 0).value;
    forall upstream ensures |Render(ReleaseOnly(a, b), release, upstream)| == |s| - |UPSTREAM| {
      assert Render(ReleaseOnly(a, b), release, upstream) == s[..i] + ("" + s[i + |UPSTREAM|..]);
    }
  }

  /** Whatever is recovered from any artifact renders, with some upstream value, to that artifact
      exactly when the second substitution finds its place: always with the upstream value first,
      and without one exactly when the artifact holds no `${upstream}`. */
  lemma {:induction false} RecoveredRendersIff(f: Format, artifact: string)
    requires IsProper(f) && Recover(f, artifact).Some?
    ensures var release := Recover(f, artifact).value;
            && (RendersTo(f, release, artifact) <==> CanRender(f, release, artifact))
            && (f.UpstreamFirst? ==> RendersTo(f, release, artifact))
            && (f.ReleaseOnly? ==> (RendersTo(f, release, artifact) <==> !Occurs(artifact, UPSTREAM)))
  {
    var release := Recover(f, artifact).value;
    var upstream := RecoveredFills(f, artifact);
    if f.UpstreamFirst? { UpstreamFirstHits(f, release); }
    if !Misses(f, release) {
      RenderFills(f, release, upstream);
      assert RendersWith(f, release, upstream, artifact);
    } else if f.ReleaseFirst? {
      ReleaseFirstMissed(f, release, upstream, artifact);
    } else {
      AloneMissed(f.a, f.b, release);
    }
  }

  lemma {:induction false} ReleaseFirstMissed(f: Format, release: string, second: string, artifact: string)
    requires IsProper(f) && f.ReleaseFirst? && Misses(f, release) && second != "" && artifact == Fill(f, release, second)
    ensures RendersTo(f, release, artifact) <==> HasSuffix(artifact, AfterMiss(f, release))
  {
    if u :| RendersWith(f, release, u, artifact) {
      MissedEnds(f, release, u, artifact);
    }
    if HasSuffix(artifact, AfterMiss(f, release)) {
      var u := MissedFits(f, release, second);
      assert RendersWith(f, release, u, artifact);
    }
  }

  /** So does every version that is recovered. */
  lemma {:induction false} RecoveredVersionRenders(f: Format, artifact: string)
    requires IsProper(f) && Recover(f, artifact).Some? && SemVer.Parse(Recover(f, artifact).value).Some?
    ensures RendersTo(f, Recover(f, artifact).value, artifact)
  {
    VersionsArePlain(Recover(f, artifact).value);
    VersionsHit(f, Recover(f, artifact).value);
    RecoveredRendersIff(f, artifact);
  }

  /** A tag that is the upstream placeholder itself: under the plainest format it is recovered as
      the release, and renders to nothing. */
  lemma {:induction false} PlaceholderTagIsLost(upstream: string)
    ensures var f := ReleaseOnly("", ""); IsProper(f) && Recover(f, UPSTREAM) == Some(UPSTREAM) && Render(f, UPSTREAM, upstream) == ""
  {
    var f := ReleaseOnly("", "");
    assert TextOf(f) == RELEASE;
    assert At(RELEASE, RELEASE, 0);
    assert !Occurs(RELEASE, UPSTREAM) by {
      assert |RELEASE| < |UPSTREAM|;
    }
    ReleaseFilled(f, UPSTREAM);
    assert Fill(f, UPSTREAM, UPSTREAM) == UPSTREAM && At(UPSTREAM, UPSTREAM, 0);
    assert UPSTREAM[..0] + ("" + UPSTREAM[|UPSTREAM|..]) == "";
    AloneComesBack(UPSTREAM, "");
    assert UPSTREAM + "" == UPSTREAM;
    RecoverPrefixed(f, UPSTREAM);
    assert f.a + UPSTREAM == UPSTREAM;
  }

  // ---- The declared format ----

  /** `strings.Count` */
  function Count(s: string, p: string): nat
    requires p != ""
  {
    var i := IndexFrom(s, p, 0);
    if i.None? then 0 else 1 + Count(s[i.value + |p|..], p)
  }

  /** `strings.ReplaceAll(s, p, "")` */
  function RemoveAll(s: string, p: string): string
    requires p != ""
  {
    var i := IndexFrom(s, p, 0);
    if i.None? then s else s[..i.value] + RemoveAll(s[i.value + |p|..], p)
  }

  /** `validate`. `sourced` says whether file and pattern of the upstream value are both given,
      `compiles` whether a given pattern compiles and names its capture. */
  predicate Validated(text: string, sourced: bool, compiles: bool) {
    && Count(text, RELEASE) == 1 && Count(text, UPSTREAM) <= 1
    && IndexFrom(text, UPSTREAM, 0).Some? == sourced
    && IndexFrom(RemoveAll(RemoveAll(text, RELEASE), UPSTREAM), "${", 0).None?
    && compiles
  }

  /** Placeholders do not overlap, so that past the first one lie all others. */
  lemma {:induction false} PastFirst(s: string, p: string, i: nat, j: nat)
    requires IsPlaceholder(p) && At(s, p, i) && i < j
    ensures At(s, p, j) <==> j >= i + |p| && At(s[i + |p|..], p, j - i - |p|)
  {
    PlaceholderShape(s, p, i);
    if At(s, p, j) { PlaceholderShape(s, p, j); }
    if j >= i + |p| && j + |p| <= |s| { assert s[j..j + |p|] == s[i + |p|..][j - i - |p|..j - i]; }
  }

  lemma {:induction false} CountNone(s: string, p: string)
    requires IsPlaceholder(p)
    ensures Count(s, p) == 0 <==> !Occurs(s, p)
  {
  }

  lemma {:induction false} CountOne(s: string, p: string)
    requires IsPlaceholder(p)
    ensures Count(s, p) == 1 <==> exists i: nat :: OnlyAt(s, p, i)
  {
    var first := IndexFrom(s, p, 0);
    if first.Some? {
      var i := first.value;
      var rest := s[i + |p|..];
      CountNone(rest, p);
      if Count(s, p) == 1 { FirstIsOnly(s, p, i); }
      if k: nat :| OnlyAt(s, p, k) { OnlyIsFirst(s, p, i, k); }
    }
  }

  lemma {:induction false} FirstIsOnly(s: string, p: string, i: nat)
    requires IsPlaceholder(p) && IndexFrom(s, p, 0) == Some(i) && !Occurs(s[i + |p|..], p)
    ensures OnlyAt(s, p, i)
  {
    forall j | 0 <= j && At(s, p, j) ensures j == i {
      if j > i { PastFirst(s, p, i, j); }
    }
  }

  lemma {:induction false} OnlyIsFirst(s: string, p: string, i: nat, k: nat)
    requires IsPlaceholder(p) && IndexFrom(s, p, 0) == Some(i) && OnlyAt(s, p, k)
    ensures !Occurs(s[i + |p|..], p)
  {
    var rest := s[i + |p|..];
    if j: nat :| At(rest, p, j) { PastFirst(s, p, i, j + i + |p|); }
  }

  lemma {:induction false} AloneOf(text: string, i: nat) returns (f: Format)
    requires OnlyAt(text, RELEASE, i) && !Occurs(text, UPSTREAM)
    ensures f.ReleaseOnly? && TextOf(f) == text && IsProper(f)
  {
    f := ReleaseOnly(text[..i], text[i + |RELEASE|..]);
    CutAtOne(text, RELEASE, i);
  }

  lemma {:induction false} ReleaseFirstOf(text: string, i: nat, k: nat) returns (f: Format)
    requires OnlyAt(text, RELEASE, i) && OnlyAt(text, UPSTREAM, k) && i + |RELEASE| <= k
    ensures f.ReleaseFirst? && TextOf(f) == text && IsProper(f)
  {
    f := ReleaseFirst(text[..i], text[i + |RELEASE|..k], text[k + |UPSTREAM|..]);
    CutAtTwo(text, RELEASE, i, UPSTREAM, k);
  }

  lemma {:induction false} UpstreamFirstOf(text: string, i: nat, k: nat) returns (f: Format)
    requires OnlyAt(text, RELEASE, i) && OnlyAt(text, UPSTREAM, k) && k + |UPSTREAM| <= i
    ensures f.UpstreamFirst? && TextOf(f) == text && IsProper(f)
  {
    f := UpstreamFirst(text[..k], text[k + |UPSTREAM|..i], text[i + |RELEASE|..]);
    CutAtTwo(text, UPSTREAM, k, RELEASE, i);
  }

  /** A text with one release placeholder and at most one for the upstream value is that of a
      proper format. */
  lemma {:induction false} FormatOf(text: string) returns (f: Format)
    requires Count(text, RELEASE) == 1 && Count(text, UPSTREAM) <= 1
    ensures TextOf(f) == text && IsProper(f) && (f.ReleaseOnly? <==> !Occurs(text, UPSTREAM))
  {
    CountOne(text, RELEASE);
    CountOne(text, UPSTREAM);
    CountNone(text, UPSTREAM);
    var i: nat :| OnlyAt(text, RELEASE, i);
    if !Occurs(text, UPSTREAM) {
      f := AloneOf(text, i);
    } else {
      var k: nat :| OnlyAt(text, UPSTREAM, k);
      PlacesApart(text, i, k);
      if i < k {
        f := ReleaseFirstOf(text, i, k);
      } else {
        f := UpstreamFirstOf(text, i, k);
      }
    }
  }

  lemma {:induction false} CutAtOne(s: string, p: string, i: nat)
    requires At(s, p, i)
    ensures s[..i] + (p + s[i + |p|..]) == s
  {
    assert s == s[..i] + (s[i..i + |p|] + s[i + |p|..]);
  }

  lemma {:induction false} CutAtTwo(s: string, p: string, i: nat, q: string, k: nat)
    requires At(s, p, i) && At(s, q, k) && i + |p| <= k
    ensures s[..i] + (p + (s[i + |p|..k] + (q + s[k + |q|..]))) == s
  {
    var t := s[i + |p|..];
    assert t[k - i - |p|..k - i - |p| + |q|] == s[k..k + |q|];
    CutAtOne(t, q, k - i - |p|);
    assert t[..k - i - |p|] == s[i + |p|..k] && t[k - i - |p| + |q|..] == s[k + |q|..];
    CutAtOne(s, p, i);
  }

  lemma {:induction false} PlacesApart(s: string, i: nat, k: nat)
    requires At(s, RELEASE, i) && At(s, UPSTREAM, k)
    ensures i + |RELEASE| <= k || k + |UPSTREAM| <= i
  {
    PlaceholderShape(s, RELEASE, i);
    PlaceholderShape(s, UPSTREAM, k);
    assert RELEASE[2] == 'r' && UPSTREAM[2] == 'u';
  }

  /** The text on both sides of the release placeholder, up to the other one. */
  function Beside(f: Format): string {
    match f
    case ReleaseOnly(a, b) => a + b
    case ReleaseFirst(a, m, b) => a + m
    case UpstreamFirst(a, m, b) => m + b
  }

  /** Taking the release placeholder out joins another one, as in `${up${release}stream}`. */
  ghost predicate IsNested(f: Format) { Occurs(Beside(f), UPSTREAM) }

  /** All text around the placeholders. */
  function Around(f: Format): string {
    match f
    case ReleaseOnly(a, b) => a + b
    case ReleaseFirst(a, m, b) => (a + m) + b
    case UpstreamFirst(a, m, b) => a + (m + b)
  }

  /** Nothing in it opens a placeholder. */
  ghost predicate IsClean(f: Format) { !Occurs(Around(f), "${") }

  lemma {:induction false} RemoveNone(s: string, p: string)
    requires IsPlaceholder(p) && !Occurs(s, p)
    ensures RemoveAll(s, p) == s
  {
  }

  lemma {:induction false} RemoveOne(x: string, p: string, rest: string)
    requires IsPlaceholder(p) && !Occurs(x, p)
    ensures RemoveAll(x + (p + rest), p) == x + RemoveAll(rest, p)
  {
    FirstBefore(x, p, rest);
    var s := x + (p + rest);
    assert s[..|x|] == x && s[|x| + |p|..] == rest;
  }

  /** After the one release placeholder there is no other. */
  lemma {:induction false} AfterIsFree(x: string, p: string, rest: string)
    requires IsPlaceholder(p) && OnlyAt(x + (p + rest), p, |x|)
    ensures !Occurs(rest, p)
  {
    var s := x + (p + rest);
    if j: nat :| At(rest, p, j) {
      var k := |x| + |p| + j;
      assert s[k..k + |p|] == rest[j..j + |p|];
      assert At(s, p, k);
    }
  }

  lemma {:induction false} RemoveOnly(x: string, p: string, rest: string)
    requires IsPlaceholder(p) && OnlyAt(x + (p + rest), p, |x|)
    ensures RemoveAll(x + (p + rest), p) == x + rest
  {
    BeforeIsFree(x, p, rest);
    AfterIsFree(x, p, rest);
    RemoveOne(x, p, rest);
    RemoveNone(rest, p);
  }

  lemma {:induction false} RemovedFirst(a: string, m: string, b: string)
    requires IsProper(ReleaseFirst(a, m, b)) && !Occurs(a + m, UPSTREAM) && !Occurs(b, UPSTREAM)
    ensures RemoveAll(RemoveAll(a + (RELEASE + (m + (UPSTREAM + b))), RELEASE), UPSTREAM) == (a + m) + b
  {
    RemoveOnly(a, RELEASE, m + (UPSTREAM + b));
    assert a + (m + (UPSTREAM + b)) == (a + m) + (UPSTREAM + b);
    RemoveOne(a + m, UPSTREAM, b);
    RemoveNone(b, UPSTREAM);
  }

  lemma {:induction false} RemovedSecond(a: string, m: string, b: string)
    requires IsProper(UpstreamFirst(a, m, b)) && !Occurs(a, UPSTREAM) && !Occurs(m + b, UPSTREAM)
    ensures RemoveAll(RemoveAll(a + (UPSTREAM + (m + (RELEASE + b))), RELEASE), UPSTREAM) == a + (m + b)
  {
    Regroup(a, UPSTREAM, m, RELEASE + b);
    RemoveOnly(a + (UPSTREAM + m), RELEASE, b);
    Regroup(a, UPSTREAM, m, b);
    RemoveOne(a, UPSTREAM, m + b);
    RemoveNone(m + b, UPSTREAM);
  }

  /** What is left when both placeholders are taken out of a format that is not nested. */
  lemma {:induction false} RemovedIsAround(f: Format)
    requires IsProper(f) && !IsNested(f)
    ensures RemoveAll(RemoveAll(TextOf(f), RELEASE), UPSTREAM) == Around(f)
  {
    PartsAreFree(f);
    match f
    case ReleaseOnly(a, b) =>
      RemoveOnly(a, RELEASE, b);
      RemoveNone(a + b, UPSTREAM);
    case ReleaseFirst(a, m, b) => RemovedFirst(a, m, b);
    case UpstreamFirst(a, m, b) => RemovedSecond(a, m, b);
  }

  /** A declaration that validates is a proper format, and clean unless it is nested; a proper
      format that is not nested validates exactly when it is clean and its source is given
      exactly when it uses the upstream value. */
  lemma {:induction false} ValidatedFormat(text: string, sourced: bool, compiles: bool) returns (f: Format)
    requires Validated(text, sourced, compiles)
    ensures TextOf(f) == text && IsProper(f) && (f.ReleaseOnly? <==> !sourced) && (IsNested(f) || IsClean(f))
  {
    f := FormatOf(text);
    if !IsNested(f) { RemovedIsAround(f); }
  }

  lemma {:induction false} ValidatesIff(f: Format, sourced: bool)
    requires IsProper(f) && !IsNested(f)
    ensures Validated(TextOf(f), sourced, true) <==> IsClean(f) && (f.ReleaseOnly? <==> !sourced)
  {
    var text := TextOf(f);
    RemovedIsAround(f);
    CountOne(text, RELEASE);
    CountOne(text, UPSTREAM);
    CountNone(text, UPSTREAM);
    assert f.ReleaseOnly? <==> !Occurs(text, UPSTREAM);
  }

  /** The nested declaration validates without a source, and behaves as a format without an
      upstream value. */
  lemma {:induction false} NestedIsAccepted()
    ensures var f := ReleaseOnly("${up", "stream}"); IsProper(f) && IsNested(f) && Validated(TextOf(f), false, true)
  {
    var f := ReleaseOnly("${up", "stream}");
    NestedIsProper(f, TextOf(f));
    assert "${up" + "stream}" == UPSTREAM;
    NestedValidates(f);
  }

  /** So does any format without an upstream value whose two sides join to its placeholder. */
  lemma {:induction false} NestedValidates(f: Format)
    requires f.ReleaseOnly? && IsProper(f) && f.a + f.b == UPSTREAM
    ensures IsNested(f) && Validated(TextOf(f), false, true)
  {
    var text := TextOf(f);
    assert At(UPSTREAM, UPSTREAM, 0) by { assert UPSTREAM[0..|UPSTREAM|] == UPSTREAM; }
    RemoveOnly(f.a, RELEASE, f.b);
    assert RemoveAll(UPSTREAM, UPSTREAM) == "";
    CountOne(text, RELEASE);
    CountNone(text, UPSTREAM);
  }

  lemma {:induction false} NestedIsProper(f: Format, text: string)
    requires f == ReleaseOnly("${up", "stream}") && text == TextOf(f) == "${up${release}stream}"
    ensures IsProper(f)
  {
    assert text[4..14] == RELEASE;
    forall j | 0 <= j && At(text, RELEASE, j) ensures j == 4 { PlaceholderShape(text, RELEASE, j); }
    forall j | 0 <= j && At(text, UPSTREAM, j) ensures false { PlaceholderShape(text, UPSTREAM, j); }
  }
}
