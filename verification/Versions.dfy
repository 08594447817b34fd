/** Stable stack and release versions: `X.Y.Z` over unbounded decimal strings, with the
    optional build suffix that `validStableStackVersion` admits. */
module Versions {
  import opened Text
  import opened Decimal

  /** What a check does: accept, return an error, or panic (a nil regexp match that is
      indexed, or a nil `*big.Int` that is added to). */
  datatype Outcome = Accept | Reject | Panic

  datatype Core = Core(major: nat, minor: nat, patch: nat)

  ghost predicate CoreLess(a: Core, b: Core) {
    || a.major < b.major
    || (a.major == b.major && a.minor < b.minor)
    || (a.major == b.major && a.minor == b.minor && a.patch < b.patch)
  }

  /** `stableStackVersionRE`: three canonical numerals, nothing else. */
  predicate ValidBare(v: string) {
    var parts := Split(v, '.');
    |parts| == 3 && IsCanonical(parts[0]) && IsCanonical(parts[1]) && IsCanonical(parts[2])
  }

  predicate IsIdentChar(c: char) { IsDigit(c) || 'A' <= c <= 'Z' || 'a' <= c <= 'z' || c == '-' }

  predicate IsIdent(s: string) { s != [] && forall i :: 0 <= i < |s| ==> IsIdentChar(s[i]) }

  /** Dot-separated non-empty identifiers. */
  predicate IsIdents(s: string) {
    var parts := Split(s, '.');
    forall i :: 0 <= i < |parts| ==> IsIdent(parts[i])
  }

  /** `validStableStackVersion`: `stackVersionRE` without a pre-release. Only the build
      suffix may hold a `+`, so the version is cut at the first one. */
  predicate ValidStable(v: string) {
    var cut := Split(v, '+');
    ValidBare(cut[0]) && (|cut| == 1 || (|cut| == 2 && IsIdents(cut[1])))
  }

  lemma {:induction false} StableIsNotEmpty(v: string)
    requires ValidStable(v)
    ensures v != ""
  {
  }

  /** `validReleaseLocalVersion` */
  predicate ValidReleaseLocal(v: string) { ValidStable(v) && '+' !in v }

  function BareCore(v: string): (c: Core)
    requires ValidBare(v)
  {
    var parts := Split(v, '.');
    Core(Value(parts[0]), Value(parts[1]), Value(parts[2]))
  }

  function StableCore(v: string): (c: Core)
    requires ValidStable(v)
  {
    BareCore(Split(v, '+')[0])
  }

  function Print(c: Core): (v: string) {
    Join([Numeral(c.major), Numeral(c.minor), Numeral(c.patch)], '.')
  }

  lemma {:induction false} NumeralFree(n: nat, c: char)
    requires !IsDigit(c)
    ensures c !in Numeral(n)
  {
  }

  lemma {:induction false} PrintIsBare(c: Core)
    ensures ValidBare(Print(c)) && BareCore(Print(c)) == c
    ensures Split(Print(c), '.') == [Numeral(c.major), Numeral(c.minor), Numeral(c.patch)]
  {
    var parts := [Numeral(c.major), Numeral(c.minor), Numeral(c.patch)];
    NumeralFree(c.major, '.');
    NumeralFree(c.minor, '.');
    NumeralFree(c.patch, '.');
    SplitJoin(parts, '.');
    ValueOfNumeral(c.major);
    ValueOfNumeral(c.minor);
    ValueOfNumeral(c.patch);
  }

  lemma {:induction false} BareIsPrinted(v: string)
    requires ValidBare(v)
    ensures v == Print(BareCore(v))
    ensures Split(v, '.') == [Numeral(BareCore(v).major), Numeral(BareCore(v).minor), Numeral(BareCore(v).patch)]
  {
    var parts := Split(v, '.');
    JoinSplit(v, '.');
    NumeralOfValue(parts[0]);
    NumeralOfValue(parts[1]);
    NumeralOfValue(parts[2]);
    assert parts == [parts[0], parts[1], parts[2]];
  }

  lemma {:induction false} BareHasNoPlus(v: string)
    requires ValidBare(v)
    ensures '+' !in v
  {
    JoinSplit(v, '.');
    JoinMember(Split(v, '.'), '.', '+');
  }

  /** Exactly the bare versions pass the release-local check. */
  lemma {:induction false} ReleaseLocalIsBare(v: string)
    ensures ValidReleaseLocal(v) <==> ValidBare(v)
  {
    if '+' !in v { SplitAtom(v, '+'); }
    if ValidBare(v) { BareHasNoPlus(v); }
  }

  lemma {:induction false} BareIsStable(v: string)
    requires ValidBare(v)
    ensures ValidStable(v) && StableCore(v) == BareCore(v)
  {
    BareHasNoPlus(v);
    SplitAtom(v, '+');
  }

  /** `compareNumericIdentifier` */
  function CompareNumericIdentifier(left: string, right: string): (c: int)
  {
    if |left| < |right| then -1 else if |left| > |right| then 1 else Compare(left, right)
  }

  /** On canonical numerals of any length the comparison is the one on values, and a tie
      means equal strings. */
  lemma {:induction false} NumericIdentifierByValue(left: string, right: string)
    requires IsCanonical(left) && IsCanonical(right)
    ensures CompareNumericIdentifier(left, right) < 0 <==> Value(left) < Value(right)
    ensures CompareNumericIdentifier(left, right) == 0 <==> Value(left) == Value(right)
    ensures CompareNumericIdentifier(left, right) == 0 <==> left == right
  {
    CompareZero(left, right);
    if |left| < |right| {
      LongerIsLarger(left, right);
    } else if |left| > |right| {
      LongerIsLarger(right, left);
    } else {
      SameLengthOrder(left, right);
    }
  }

  /** `compareVersions`, for the versions on which it does not panic. */
  function CompareVersions(a: string, b: string): (c: int)
    requires ValidBare(a) && ValidBare(b)
  {
    var x, y := Split(a, '.'), Split(b, '.');
    if CompareNumericIdentifier(x[0], y[0]) != 0 then CompareNumericIdentifier(x[0], y[0])
    else if CompareNumericIdentifier(x[1], y[1]) != 0 then CompareNumericIdentifier(x[1], y[1])
    else CompareNumericIdentifier(x[2], y[2])
  }

  lemma {:induction false} CompareVersionsByCore(a: string, b: string)
    requires ValidBare(a) && ValidBare(b)
    ensures CompareVersions(a, b) < 0 <==> CoreLess(BareCore(a), BareCore(b))
    ensures CompareVersions(a, b) == 0 <==> a == b
  {
    var x, y := Split(a, '.'), Split(b, '.');
    NumericIdentifierByValue(x[0], y[0]);
    NumericIdentifierByValue(x[1], y[1]);
    NumericIdentifierByValue(x[2], y[2]);
    BareIsPrinted(a);
    BareIsPrinted(b);
  }

  /** The position that a declared change moves; `None` for an unknown change. */
  function ChangeIndex(change: string): (i: Option<nat>)
    ensures i.Some? ==> i.value < 3
  {
    if change == "major" then Some(0)
    else if change == "minor" then Some(1)
    else if change == "patch" then Some(2)
    else None
  }

  /** The one successor of a core under a change. */
  function Successor(c: Core, change: string): (s: Core)
    requires ChangeIndex(change).Some?
    ensures CoreLess(c, s)
  {
    if change == "major" then Core(c.major + 1, 0, 0)
    else if change == "minor" then Core(c.major, c.minor + 1, 0)
    else Core(c.major, c.minor, c.patch + 1)
  }

  /** What `validateEditionBump` decides, stated on values: the first release declares
      `initial`; every later one must be the printed successor of its predecessor. A build
      suffix on the predecessor is dropped by a major or minor change when it holds no dot,
      rejects the release when it holds one, and panics under a patch change. */
  function EditionBump(previous: string, version: string, change: string): (r: Outcome)
  {
    if !ValidStable(version) then Reject
    else if previous == "" then (if change == "initial" then Accept else Reject)
    else if !ValidStable(previous) || ChangeIndex(change).None? then Reject
    else if change == "patch" && !ValidBare(previous) then Panic
    else if |Split(previous, '.')| != 3 then Reject
    else if version == Print(Successor(StableCore(previous), change)) then Accept
    else Reject
  }

  /** The core moves the declared part up and keeps the parts before it. */
  ghost predicate Raises(c: Core, d: Core, change: string) {
    match change
    case "major" => d.major > c.major
    case "minor" => d.major == c.major && d.minor > c.minor
    case _ => d.major == c.major && d.minor == c.minor && d.patch > c.patch
  }

  /** The successor is the least core that does. */
  lemma {:induction false} SuccessorIsLeast(c: Core, change: string, d: Core)
    requires ChangeIndex(change).Some?
    ensures Raises(c, Successor(c, change), change)
    ensures Raises(c, d, change) ==> d == Successor(c, change) || CoreLess(Successor(c, change), d)
  {
  }

  /** The text of a stable version: three numbers and, possibly, a build suffix. */
  function StableText(c: Core, build: string): string { Print(c) + (if build == "" then "" else "+" + build) }

  predicate IsBuild(build: string) { build == "" || (IsIdents(build) && '+' !in build) }

  lemma {:induction false} PrintHasNoPlus(c: Core)
    ensures '+' !in Print(c) && Print(c) != ""
  {
    PrintIsBare(c);
    BareHasNoPlus(Print(c));
    BareIsStable(Print(c));
    StableIsNotEmpty(Print(c));
  }

  /** The stable versions are exactly these texts, with these numbers. */
  lemma {:induction false} TextIsStable(c: Core, build: string)
    requires IsBuild(build)
    ensures var v := StableText(c, build);
            && ValidStable(v) && StableCore(v) == c && v != "" && (ValidBare(v) <==> build == "")
            && (|Split(v, '.')| == 3 <==> '.' !in build)
  {
    var v := StableText(c, build);
    PrintHasNoPlus(c);
    PrintIsBare(c);
    if build == "" {
      assert v == Print(c);
      BareIsStable(v);
    } else {
      assert v == Print(c) + ['+'] + build;
      SplitCons(Print(c), build, '+');
      SplitAtom(build, '+');
      assert v[|Print(c)|] == '+';
      if ValidBare(v) { BareHasNoPlus(v); }
      BuildDots(c, build);
    }
  }

  lemma {:induction false} BuildDots(c: Core, build: string)
    ensures |Split(Print(c) + ['+'] + build, '.')| == 3 <==> '.' !in build
  {
    NumeralFree(c.major, '.');
    NumeralFree(c.minor, '.');
    NumeralFree(c.patch, '.');
    SuffixedSplit(Numeral(c.major), Numeral(c.minor), Numeral(c.patch), build);
    if '.' !in build { SplitAtom(build, '.'); } else { SplitsAtAll(build, '.'); }
  }

  lemma {:induction false} SplitsAtAll(s: string, c: char)
    requires c in s
    ensures |Split(s, c)| > 1
  {
    if s[0] != c {
      assert s == [s[0]] + s[1..];
      SplitsAtAll(s[1..], c);
    }
  }

  lemma {:induction false} StableIsText(v: string) returns (c: Core, build: string)
    requires ValidStable(v)
    ensures IsBuild(build) && v == StableText(c, build)
  {
    var cut := Split(v, '+');
    c := BareCore(cut[0]);
    build := if |cut| == 1 then "" else cut[1];
    BareIsPrinted(cut[0]);
    JoinSplit(v, '+');
    SplitPartsFree(v, '+');
    if |cut| == 2 {
      assert cut[1..] == [cut[1]];
      assert v == Print(c) + ['+'] + cut[1];
      NoEmptyBuild();
    }
  }

  lemma {:induction false} NoEmptyBuild()
    ensures !IsIdents("")
  {
    assert !IsIdent(Split("", '.')[0]);
  }

  /** When a release may follow, on texts: the first one declares `initial`; a later one is the
      printed successor of its predecessor, whose build suffix must not hold a dot and must be
      absent for a patch. The check panics exactly on a patch after a build suffix. */
  lemma {:induction false} BumpIff(c: Core, build: string, version: string, change: string)
    requires IsBuild(build)
    ensures var previous := StableText(c, build); var known := change in {"major", "minor", "patch"};
            && (EditionBump(previous, version, change) == Accept <==>
                  && known && version == Print(Successor(c, change))
                  && (build == "" || (change != "patch" && '.' !in build)))
            && (EditionBump(previous, version, change) == Panic <==> ValidStable(version) && change == "patch" && build != "")
    ensures EditionBump("", version, change) == Accept <==> ValidStable(version) && change == "initial"
  {
    TextIsStable(c, build);
    if ChangeIndex(change).Some? {
      PrintIsBare(Successor(c, change));
      BareIsStable(Print(Successor(c, change)));
    }
  }

  /** A version that is not stable is followed by nothing. */
  lemma {:induction false} UnstableHasNoNext(previous: string, version: string, change: string)
    requires previous != "" && !ValidStable(previous)
    ensures EditionBump(previous, version, change) == Reject
  {
  }

  /** The decision read as one line: an accepted release after the first is bare and its
      core is the successor of its predecessor's. */
  lemma {:induction false} AcceptedBumpIsSuccessor(previous: string, version: string, change: string)
    requires previous != "" && EditionBump(previous, version, change) == Accept
    ensures ValidStable(previous) && ChangeIndex(change).Some? && ValidBare(version)
    ensures ValidStable(version) && StableCore(version) == Successor(StableCore(previous), change)
  {
    PrintIsBare(Successor(StableCore(previous), change));
    BareIsStable(version);
  }

  /** Every bare version has exactly one accepted successor for each change. */
  lemma {:induction false} BumpHasOneSuccessor(previous: string, version: string, change: string)
    requires ValidBare(previous) && ChangeIndex(change).Some?
    ensures EditionBump(previous, version, change) == Accept <==>
            version == Print(Successor(BareCore(previous), change))
  {
    BareIsStable(previous);
    PrintIsBare(Successor(BareCore(previous), change));
    BareIsStable(Print(Successor(BareCore(previous), change)));
    assert previous != "";
  }

  lemma {:induction false} SuffixedSplit(x: string, y: string, z: string, build: string)
    requires '.' !in x && '.' !in y && '.' !in z
    ensures var builds := Split(build, '.');
            Split(Join([x, y, z], '.') + ['+'] + build, '.') == [x, y, z + ['+'] + builds[0]] + builds[1..]
  {
    var tail := (z + ['+']) + build;
    assert [x, y, z][1..] == [y, z] && [y, z][1..] == [z];
    assert Join([x, y, z], '.') == x + ['.'] + (y + ['.'] + z) by {
      assert Join([y, z], '.') == y + ['.'] + z;
    }
    assert Join([x, y, z], '.') + ['+'] + build == x + ['.'] + (y + ['.'] + tail);
    SplitCons(x, y + ['.'] + tail, '.');
    SplitCons(y, tail, '.');
    SplitPrefix(z + ['+'], build, '.');
  }

  /** How a stable version splits on dots: a build suffix hides in the third part. */
  lemma {:induction false} StableSplit(v: string)
    requires ValidStable(v)
    ensures var parts, c := Split(v, '.'), StableCore(v);
            && |parts| >= 3 && parts[0] == Numeral(c.major) && parts[1] == Numeral(c.minor)
            && (ValidBare(v) ==> parts[2] == Numeral(c.patch))
            && (!ValidBare(v) ==> '+' in parts[2])
            && (forall i :: 3 <= i < |parts| ==> '+' !in parts[i])
  {
    var cut := Split(v, '+');
    BareIsPrinted(cut[0]);
    JoinSplit(v, '+');
    if |cut| == 1 {
      assert v == cut[0];
    } else {
      assert !ValidBare(v) by {
        if ValidBare(v) { BareHasNoPlus(v); SplitAtom(v, '+'); }
      }
      SuffixedStableSplit(v);
    }
  }

  lemma {:induction false} SuffixedParts(x: string, y: string, z: string, build: string)
    requires '.' !in x && '.' !in y && '.' !in z
    requires forall i :: 0 <= i < |Split(build, '.')| ==> '+' !in Split(build, '.')[i]
    ensures var parts := Split(Join([x, y, z], '.') + ['+'] + build, '.');
            && |parts| >= 3 && parts[0] == x && parts[1] == y && '+' in parts[2]
            && (forall i :: 3 <= i < |parts| ==> '+' !in parts[i])
  {
    SuffixedSplit(x, y, z, build);
    var builds := Split(build, '.');
    var parts := [x, y, z + ['+'] + builds[0]] + builds[1..];
    assert forall i :: 3 <= i < |parts| ==> parts[i] == builds[i - 2];
    assert parts[2][|z|] == '+';
  }

  lemma {:induction false} SuffixedStableSplit(v: string)
    requires ValidStable(v) && |Split(v, '+')| == 2
    ensures var parts, c := Split(v, '.'), StableCore(v);
            && |parts| >= 3 && parts[0] == Numeral(c.major) && parts[1] == Numeral(c.minor)
            && '+' in parts[2]
            && (forall i :: 3 <= i < |parts| ==> '+' !in parts[i])
  {
    var cut := Split(v, '+');
    var c := BareCore(cut[0]);
    BareIsPrinted(cut[0]);
    assert v == cut[0] + ['+'] + cut[1] by {
      JoinSplit(v, '+');
      assert cut[1..] == [cut[1]];
    }
    NumeralFree(c.major, '.');
    NumeralFree(c.minor, '.');
    NumeralFree(c.patch, '.');
    SuffixedParts(Numeral(c.major), Numeral(c.minor), Numeral(c.patch), cut[1]);
  }

  /** An edited part list that still has more than three parts is no stable version. */
  lemma {:induction false} TooManyParts(parts: seq<string>)
    requires |parts| > 3
    requires forall i :: 0 <= i < |parts| ==> '.' !in parts[i] && '+' !in parts[i]
    ensures !ValidStable(Join(parts, '.'))
  {
    var v := Join(parts, '.');
    SplitJoin(parts, '.');
    JoinMember(parts, '.', '+');
    SplitAtom(v, '+');
  }

  /** The part list after the increment and the zeroing. */
  predicate Edited(parts: seq<string>, original: seq<string>, k: nat, upTo: nat)
    requires k < |original| && AllDigits(original[k])
  {
    && |parts| == |original|
    && forall j :: 0 <= j < |parts| ==>
         parts[j] == if k < j < upTo then "0" else if j == k then Numeral(Value(original[k]) + 1) else original[j]
  }

  /** Three edited parts print the successor. */
  lemma {:induction false} EditedParts(core: Core, change: string, original: seq<string>, parts: seq<string>)
    requires ChangeIndex(change).Some? && |original| == 3 && |parts| == 3
    requires original[0] == Numeral(core.major) && original[1] == Numeral(core.minor)
    requires IsNumeric(original[2]) ==> original[2] == Numeral(core.patch)
    requires IsNumeric(original[ChangeIndex(change).value]) && Edited(parts, original, ChangeIndex(change).value, 3)
    ensures Join(parts, '.') == Print(Successor(core, change))
  {
    ValueOfNumeral(core.major);
    ValueOfNumeral(core.minor);
    ValueOfNumeral(core.patch);
    assert Numeral(0) == "0";
    var next := Successor(core, change);
    assert parts == [Numeral(next.major), Numeral(next.minor), Numeral(next.patch)];
  }

  lemma {:induction false} EditedIsSuccessor(previous: string, change: string, parts: seq<string>)
    requires ValidStable(previous) && ChangeIndex(change).Some?
    requires var original, k := Split(previous, '.'), ChangeIndex(change).value;
             |original| > k && IsNumeric(original[k]) && Edited(parts, original, k, 3)
    ensures |parts| == 3 ==> Join(parts, '.') == Print(Successor(StableCore(previous), change))
    ensures |parts| != 3 ==> !ValidStable(Join(parts, '.'))
  {
    var original, k, core := Split(previous, '.'), ChangeIndex(change).value, StableCore(previous);
    StableSplit(previous);
    if |parts| == 3 {
      EditedParts(core, change, original, parts);
    } else {
      SplitPartsFree(previous, '.');
      forall i | 0 <= i < |parts| ensures '.' !in parts[i] && '+' !in parts[i] {
        if i < 3 && i <= k { assert IsNumeric(parts[i]); }
      }
      TooManyParts(parts);
    }
  }

  /** The part to increment is a number unless a build suffix is attached to it. */
  lemma {:induction false} EditedPartIsNumeric(previous: string, change: string)
    requires ValidStable(previous) && ChangeIndex(change).Some?
    ensures var parts := Split(previous, '.');
            && |parts| >= 3
            && (IsNumeric(parts[ChangeIndex(change).value]) <==> (change != "patch" || ValidBare(previous)))
  {
    StableSplit(previous);
  }

  /** `validateEditionBump`: the source splits the predecessor, increments one part as a
      `big.Int`, zeroes the parts after it in place and compares the joined text. */
  method ValidateEditionBump(previous: string, version: string, change: string) returns (r: Outcome)
    ensures r == EditionBump(previous, version, change)
  {
    if !ValidStable(version) { return Reject; }
    if previous == "" {
      if change != "initial" { return Reject; }
      return Accept;
    }
    if !ValidStable(previous) { return Reject; }
    var parts := Split(previous, '.');
    var index := ChangeIndex(change);
    if index.None? { return Reject; }
    var k := index.value;
    EditedPartIsNumeric(previous, change);
    ghost var original := parts;
    if !IsNumeric(parts[k]) { return Panic; }  // SetString returned nil
    parts := parts[k := Numeral(Value(parts[k]) + 1)];
    for i := k + 1 to 3
      invariant Edited(parts, original, k, i)
    {
      parts := parts[i := "0"];
    }
    EditedIsSuccessor(previous, change, parts);
    if version != Join(parts, '.') { return Reject; }
    return Accept;
  }
}
