/** Versions as texts, printed from their parts: what the release order of `bumplevel.go` reads
    of them, stated without the parser. */
module SemVerText {
  import opened Text
  import opened Decimal
  import opened SemVer

  // ---- Parts ----

  function CoreText(p: Parsed): string { p.major + "." + p.minor + "." + p.patch }

  /** `[v]MAJOR.MINOR.PATCH[-PRE][+BUILD]` */
  function Printed(v: bool, p: Parsed, build: string): string {
    (if v then "v" else "") + (CoreText(p) + Marked("-", p.pre) + Marked("+", build))
  }

  predicate IsSuffix(s: string) { s == "" || V.IsIdents(s) }

  predicate IsPrintable(p: Parsed, build: string) {
    IsNumeric(p.major) && IsNumeric(p.minor) && IsNumeric(p.patch) && IsSuffix(p.pre) && IsSuffix(build)
  }

  /** Identifiers hold nothing but letters, digits, hyphens and the dots between them. */
  lemma {:induction false} SuffixFree(s: string, c: char)
    requires IsSuffix(s) && !V.IsIdentChar(c) && c != '.'
    ensures c !in s
  {
    if s != "" {
      var parts := Split(s, '.');
      forall i | 0 <= i < |parts| ensures c !in parts[i] { assert V.IsIdent(parts[i]); }
      JoinSplit(s, '.');
      JoinMember(parts, '.', c);
    }
  }

  lemma {:induction false} CoreSplits(p: Parsed)
    requires IsNumeric(p.major) && IsNumeric(p.minor) && IsNumeric(p.patch)
    ensures Split(CoreText(p), '.') == [p.major, p.minor, p.patch]
    ensures forall c :: c in CoreText(p) ==> IsDigit(c) || c == '.'
  {
    assert CoreText(p) == p.major + ['.'] + (p.minor + ['.'] + p.patch);
    SplitCons(p.major, p.minor + ['.'] + p.patch, '.');
    SplitCons(p.minor, p.patch, '.');
    SplitAtom(p.patch, '.');
  }

  lemma {:induction false} CoreJoins(parts: seq<string>)
    requires |parts| == 3
    ensures Join(parts, '.') == parts[0] + "." + parts[1] + "." + parts[2]
  {
    assert parts[1..] == [parts[1], parts[2]] && parts[1..][1..] == [parts[2]];
    assert Join(parts[1..], '.') == parts[1] + ['.'] + parts[2];
  }

  /** Past the optional `v`: where the text divides. */
  lemma {:induction false} BodyDivides(p: Parsed, build: string)
    requires IsPrintable(p, build)
    ensures var body := CoreText(p) + Marked("-", p.pre) + Marked("+", build);
            && body != "" && body[0] != 'v'
            && Cut(body, '+') == (CoreText(p) + Marked("-", p.pre), if build == "" then None else Some(build))
    ensures Cut(CoreText(p) + Marked("-", p.pre), '-') == (CoreText(p), if p.pre == "" then None else Some(p.pre))
  {
    CoreSplits(p);
    SuffixFree(p.pre, '+');
    assert '+' !in Marked("-", p.pre);
    CutMarked(CoreText(p) + Marked("-", p.pre), '+', build);
    CutMarked(CoreText(p), '-', p.pre);
    var body := CoreText(p) + Marked("-", p.pre) + Marked("+", build);
    assert body[0] == p.major[0];
  }

  /** What is printed from parts parses to these very parts. */
  lemma {:induction false} PrintedParses(v: bool, p: Parsed, build: string)
    requires IsPrintable(p, build)
    ensures Parse(Printed(v, p, build)) == Some(p)
  {
    var body := CoreText(p) + Marked("-", p.pre) + Marked("+", build);
    var s := Printed(v, p, build);
    BodyDivides(p, build);
    CoreSplits(p);
    assert v ==> s[0] == 'v' && s[1..] == body;
    assert !v ==> s == body;
  }

  /** And whatever parses is printed from the parts it parses to. */
  lemma {:induction false} ParsedIsPrinted(s: string) returns (v: bool, build: string)
    requires Parse(s).Some?
    ensures IsPrintable(Parse(s).value, build) && s == Printed(v, Parse(s).value, build)
  {
    v := s != [] && s[0] == 'v';
    var body := if v then s[1..] else s;
    build := BodyIsPrinted(body);
    assert s == (if v then "v" else "") + body;
  }

  lemma {:induction false} BodyIsPrinted(body: string) returns (build: string)
    requires ParseBody(body).Some?
    ensures var p := ParseBody(body).value; IsPrintable(p, build) && body == CoreText(p) + Marked("-", p.pre) + Marked("+", build)
  {
    NoEmptyIdents();
    SplitOfThree(Cut(Cut(body, '+').0, '-').0);
    build := DividedIsPrinted(body, ParseBody(body).value);
  }

  lemma {:induction false} SplitOfThree(core: string)
    ensures var parts := Split(core, '.'); |parts| == 3 ==> parts == [parts[0], parts[1], parts[2]]
  {
  }

  /** The parts as the cuts give them. */
  predicate Divided(body: string, p: Parsed) {
    var (left, b) := Cut(body, '+');
    var (core, pre) := Cut(left, '-');
    && Split(core, '.') == [p.major, p.minor, p.patch]
    && pre != Some("") && p.pre == (if pre.None? then "" else pre.value) && b != Some("")
  }

  lemma {:induction false} DividedIsPrinted(body: string, p: Parsed) returns (build: string)
    requires Divided(body, p)
    ensures build == (var b := Cut(body, '+').1; if b.None? then "" else b.value)
    ensures body == CoreText(p) + Marked("-", p.pre) + Marked("+", build)
  {
    var (left, b) := Cut(body, '+');
    build := if b.None? then "" else b.value;
    CoreIsJoined(Cut(left, '-').0);
    CutIsMarked(left, '-');
    CutIsMarked(body, '+');
  }

  lemma {:induction false} NoEmptyIdents()
    ensures !V.IsIdents("")
  {
    assert !V.IsIdent(Split("", '.')[0]);
  }

  lemma {:induction false} CoreIsJoined(core: string)
    ensures var parts := Split(core, '.'); |parts| == 3 ==> core == parts[0] + "." + parts[1] + "." + parts[2]
  {
    JoinSplit(core, '.');
    if |Split(core, '.')| == 3 { CoreJoins(Split(core, '.')); }
  }

  ghost predicate IsPrintedAs(s: string, p: Parsed) {
    exists v, build :: IsPrintable(p, build) && s == Printed(v, p, build)
  }

  /** The parser gives exactly the parts that a text is printed from. */
  lemma {:induction false} ParseIff(s: string, p: Parsed)
    ensures Parse(s) == Some(p) <==> IsPrintedAs(s, p)
  {
    if Parse(s) == Some(p) {
      var v, build := ParsedIsPrinted(s);
    }
    if IsPrintedAs(s, p) {
      var v, build :| IsPrintable(p, build) && s == Printed(v, p, build);
      PrintedParses(v, p, build);
    }
  }

  // ---- Versions with everything inside ----

  /** A version with its parts; what a wrapper wraps is a version again. */
  datatype Version = Version(v: bool, major: string, minor: string, patch: string, suffix: Suffix, build: string)

  datatype Suffix = NoSuffix | Identifiers(ids: seq<string>) | Wraps(inner: Version)

  function SuffixText(x: Suffix): string
    decreases x, 0
  {
    match x
    case NoSuffix => ""
    case Identifiers(ids) => Join(ids, '.')
    case Wraps(inner) => "nv-" + TextOf(inner)
  }

  function PartsOf(t: Version): Parsed
    decreases t, 1
  {
    Parsed(t.major, t.minor, t.patch, SuffixText(t.suffix))
  }

  function TextOf(t: Version): string
    decreases t, 2
  {
    Printed(t.v, PartsOf(t), t.build)
  }

  /** `nv-` in front of a version. */
  ghost predicate IsWrapped(s: string) { exists w, p :: s == "nv-" + w && IsPrintedAs(w, p) }

  ghost predicate Proper(t: Version) {
    IsNumeric(t.major) && IsNumeric(t.minor) && IsNumeric(t.patch) && IsSuffix(t.build) && ProperSuffix(t.suffix)
  }

  ghost predicate ProperSuffix(x: Suffix) {
    match x
    case NoSuffix => true
    case Identifiers(ids) => ids != [] && (forall i :: 0 <= i < |ids| ==> V.IsIdent(ids[i])) && !IsWrapped(Join(ids, '.'))
    case Wraps(inner) => Proper(inner) && inner.build == ""
  }

  /** The place of a version in the order, by the values of its parts. */
  function VersionKey(t: Version): Key
    requires IsNumeric(t.major) && IsNumeric(t.minor) && IsNumeric(t.patch) && NumericInside(t.suffix)
  {
    Key(Value(t.major), Value(t.minor), Value(t.patch), SuffixKey(t.suffix))
  }

  function SuffixKey(x: Suffix): Tail
    requires NumericInside(x)
  {
    match x
    case NoSuffix => Plain
    case Identifiers(ids) => Pre(IdentsOf(ids))
    case Wraps(inner) => Wrap(VersionKey(inner))
  }

  predicate NumericInside(x: Suffix) {
    x.Wraps? ==> IsNumeric(x.inner.major) && IsNumeric(x.inner.minor) && IsNumeric(x.inner.patch) && NumericInside(x.inner.suffix)
  }

  lemma {:induction false} ProperIsNumeric(x: Suffix)
    requires ProperSuffix(x)
    ensures NumericInside(x)
  {
    if x.Wraps? { ProperIsNumeric(x.inner.suffix); }
  }

  lemma {:induction false} JoinedIdents(ids: seq<string>)
    requires ids != [] && forall i :: 0 <= i < |ids| ==> V.IsIdent(ids[i])
    ensures V.IsIdents(Join(ids, '.')) && Split(Join(ids, '.'), '.') == ids && Join(ids, '.') != ""
  {
    forall i | 0 <= i < |ids| ensures '.' !in ids[i] { assert V.IsIdent(ids[i]); }
    SplitJoin(ids, '.');
    NoEmptyIdents();
  }

  lemma {:induction false} AffixedIdent(a: string, s: string)
    requires V.IsIdent(a) && IsSuffix(s)
    ensures V.IsIdents(a + s)
  {
    SplitPrefix(a, s, '.');
    var parts := Split(s, '.');
    forall i | 0 <= i < |Split(a + s, '.')| ensures V.IsIdent(Split(a + s, '.')[i]) {
      assert s != "" ==> V.IsIdent(parts[i]);
      if i == 0 { assert Split(a + s, '.')[0] == a + parts[0]; }
    }
  }

  lemma {:induction false} DottedIdents(a: string, s: string)
    requires V.IsIdent(a) && V.IsIdents(s)
    ensures V.IsIdents(a + "." + s)
  {
    SplitCons(a, s, '.');
    assert a + "." + s == a + ['.'] + s;
    var parts := [a] + Split(s, '.');
    forall i | 0 <= i < |parts| ensures V.IsIdent(parts[i]) { if i > 0 { assert parts[i] == Split(s, '.')[i - 1]; } }
  }

  lemma {:induction false} NumericIsIdent(a: string, x: string)
    requires IsNumeric(x) && V.IsIdent(a)
    ensures V.IsIdent(a + x)
  {
  }

  lemma {:induction false} LastIdents(patch: string, pre: string)
    requires IsNumeric(patch) && IsSuffix(pre)
    ensures V.IsIdents(patch + Marked("-", pre))
  {
    if pre == "" {
      AffixedIdent(patch, "");
    } else {
      assert V.IsIdent(patch + "-");
      AffixedIdent(patch + "-", pre);
      assert patch + "-" + pre == patch + ("-" + pre);
    }
  }

  lemma {:induction false} Regrouped(a: string, p: Parsed, x: string)
    ensures "nv-" + (a + (CoreText(p) + x + "")) == ("nv-" + a + p.major) + "." + (p.minor + "." + (p.patch + x))
  {
  }

  /** A version without a build suffix reads as identifiers, so it can stand in a wrapper. */
  lemma {:induction false} WrappedIsSuffix(v: bool, p: Parsed)
    requires IsPrintable(p, "")
    ensures V.IsIdents("nv-" + Printed(v, p, ""))
  {
    var a, last := if v then "v" else "", p.patch + Marked("-", p.pre);
    LastIdents(p.patch, p.pre);
    DottedIdents(p.minor, last);
    NumericIsIdent("nv-" + a, p.major);
    DottedIdents("nv-" + a + p.major, p.minor + "." + last);
    Regrouped(a, p, Marked("-", p.pre));
  }

  lemma {:induction false} NotWrapped(pre: string)
    ensures WrapperRelease(pre).Some? <==> IsWrapped(pre)
  {
    if WrapperRelease(pre).Some? {
      assert pre == "nv-" + pre[3..];
      ParseIff(pre[3..], Parse(pre[3..]).value);
    }
    if IsWrapped(pre) {
      var w, p :| pre == "nv-" + w && IsPrintedAs(w, p);
      assert pre[..3] == "nv-" && pre[3..] == w;
      ParseIff(w, p);
    }
  }

  lemma {:induction false} WrapperOf(w: string)
    requires Parse(w).Some?
    ensures WrapperRelease("nv-" + w) == Some(w)
  {
    assert ("nv-" + w)[..3] == "nv-" && ("nv-" + w)[3..] == w;
  }

  /** The text of a version parses to its parts, and its place is by the values of its parts. */
  lemma {:induction false} TextKey(t: Version)
    requires Proper(t)
    ensures IsPrintable(PartsOf(t), t.build) && Parse(TextOf(t)) == Some(PartsOf(t)) && NumericInside(t.suffix)
    ensures KeyOf(TextOf(t)) == VersionKey(t)
  {
    ProperIsNumeric(t.suffix);
    SuffixIs(t.suffix);
    PrintedParses(t.v, PartsOf(t), t.build);
  }

  lemma {:induction false} SuffixIs(x: Suffix)
    requires ProperSuffix(x)
    ensures NumericInside(x) && IsSuffix(SuffixText(x)) && TailOf(SuffixText(x)) == SuffixKey(x)
  {
    ProperIsNumeric(x);
    match x
    case NoSuffix =>
    case Identifiers(ids) =>
      JoinedIdents(ids);
      NotWrapped(Join(ids, '.'));
    case Wraps(inner) =>
      TextKey(inner);
      WrappedIsSuffix(inner.v, PartsOf(inner));
      WrapperOf(TextOf(inner));
  }

  /** Every text that parses is the text of a version. */
  lemma {:induction false} EveryVersion(s: string) returns (t: Version)
    requires Parse(s).Some?
    ensures Proper(t) && TextOf(t) == s
    decreases |s|
  {
    var p := Parse(s).value;
    var v, build := ParsedIsPrinted(s);
    var suffix := EverySuffix(p.pre);
    t := Version(v, p.major, p.minor, p.patch, suffix, build);
    assert PartsOf(t) == p;
  }

  lemma {:induction false} EverySuffix(pre: string) returns (x: Suffix)
    requires IsSuffix(pre)
    ensures ProperSuffix(x) && SuffixText(x) == pre
    decreases |pre|
  {
    NotWrapped(pre);
    if pre == "" {
      x := NoSuffix;
    } else if WrapperRelease(pre).Some? {
      var w := WrapperRelease(pre).value;
      var inner := EveryVersion(w);
      SuffixFree(pre, '+');
      if inner.build != "" { BuildIsThere(inner); }
      x := Wraps(inner);
      assert pre == "nv-" + w;
    } else {
      x := Identifiers(Split(pre, '.'));
      JoinSplit(pre, '.');
    }
  }

  lemma {:induction false} BuildIsThere(t: Version)
    requires t.build != ""
    ensures '+' in TextOf(t)
  {
    var p := PartsOf(t);
    var head := (if t.v then "v" else "") + (CoreText(p) + Marked("-", p.pre));
    assert TextOf(t) == head + ("+" + t.build);
    assert TextOf(t)[|head|] == '+';
  }

  // ---- The order on texts ----

  /** The text of a version, possibly with white space around it. */
  ghost predicate Reads(s: string, t: Version) {
    Proper(t) && exists a, b :: AllSpace(a) && AllSpace(b) && s == a + TextOf(t) + b
  }

  lemma {:induction false} ReadsIff(s: string, t: Version)
    ensures Reads(s, t) <==> Proper(t) && TrimSpace(s) == TextOf(t)
  {
    if Reads(s, t) {
      var a, b :| AllSpace(a) && AllSpace(b) && s == a + TextOf(t) + b;
      TextKey(t);
      ParsedIsTrimmed(TextOf(t));
      var x, y := TrimParts(TextOf(t));
      TrimIs(a, TextOf(t), b);
    }
    if Proper(t) && TrimSpace(s) == TextOf(t) {
      var a, b := TrimParts(s);
    }
  }

  /** What compares as a version is the text of one, and of one place in the order. */
  lemma {:induction false} IsVersionIff(s: string)
    ensures IsVersion(s) <==> exists t :: Reads(s, t)
    ensures forall t :: Reads(s, t) ==> NumericInside(t.suffix) && KeyOf(TrimSpace(s)) == VersionKey(t)
  {
    if IsVersion(s) {
      var t := EveryVersion(TrimSpace(s));
      ReadsIff(s, t);
    }
    forall t | Reads(s, t) ensures IsVersion(s) && NumericInside(t.suffix) && KeyOf(TrimSpace(s)) == VersionKey(t) {
      ReadsIff(s, t);
      TextKey(t);
    }
  }

  /** The comparison of any two texts answers exactly on versions, and is the order of what
      they are printed from. */
  lemma {:induction false} CompareTexts(x: string, y: string)
    ensures CompareVersions(x, y).Some? <==> (exists s :: Reads(x, s)) && exists t :: Reads(y, t)
    ensures forall s, t :: Reads(x, s) && Reads(y, t) ==>
              && NumericInside(s.suffix) && NumericInside(t.suffix) && CompareVersions(x, y).Some?
              && Sign(CompareVersions(x, y).value) == KeyOrder(VersionKey(s), VersionKey(t))
  {
    CompareByKey(x, y);
    IsVersionIff(x);
    IsVersionIff(y);
  }

  ghost predicate CoreBelow(s: Version, t: Version)
    requires Proper(s) && Proper(t)
  {
    || Value(s.major) < Value(t.major)
    || (Value(s.major) == Value(t.major) && Value(s.minor) < Value(t.minor))
    || (Value(s.major) == Value(t.major) && Value(s.minor) == Value(t.minor) && Value(s.patch) < Value(t.patch))
  }

  ghost predicate SameCore(s: Version, t: Version)
    requires Proper(s) && Proper(t)
  {
    Value(s.major) == Value(t.major) && Value(s.minor) == Value(t.minor) && Value(s.patch) == Value(t.patch)
  }

  /** Section 11 of SemVer 2.0.0, on printed versions: the numbers decide first; a pre-release
      is below its release; the first identifier that differs decides between two. */
  ghost predicate Precedes(s: Version, t: Version)
    requires Proper(s) && Proper(t)
  {
    || CoreBelow(s, t)
    || (SameCore(s, t) && s.suffix.Identifiers? &&
        (t.suffix.NoSuffix? || (t.suffix.Identifiers? && PreLess(IdentsOf(s.suffix.ids), IdentsOf(t.suffix.ids)))))
  }

  lemma {:induction false} PrecedesIsOrder(s: Version, t: Version)
    requires Proper(s) && Proper(t) && !s.suffix.Wraps? && !t.suffix.Wraps?
    ensures NumericInside(s.suffix) && NumericInside(t.suffix)
    ensures KeyOrder(VersionKey(s), VersionKey(t)) < 0 <==> Precedes(s, t)
  {
    if s.suffix.Identifiers? && t.suffix.Identifiers? { PreLessIsOrder(IdentsOf(s.suffix.ids), IdentsOf(t.suffix.ids)); }
  }

  /** Between versions that are not wrappers the comparison is section 11 precedence. */
  lemma {:induction false} PrecedenceOfTexts(x: string, y: string, s: Version, t: Version)
    requires Reads(x, s) && Reads(y, t) && !s.suffix.Wraps? && !t.suffix.Wraps?
    ensures CompareVersions(x, y).Some? && (CompareVersions(x, y).value < 0 <==> Precedes(s, t))
  {
    CompareTexts(x, y);
    PrecedesIsOrder(s, t);
  }

  lemma {:induction false} WrapOrder(k: Key, l: Key)
    requires k.tail.Wrap? && k.major == l.major && k.minor == l.minor && k.patch == l.patch
    ensures KeyOrder(k, l) == if l.tail.Wrap? then KeyOrder(k.tail.key, l.tail.key) else 1
  {
  }

  lemma {:induction false} CoreOrder(k: Key, l: Key)
    requires k.major < l.major || (k.major == l.major && (k.minor < l.minor || (k.minor == l.minor && k.patch < l.patch)))
    ensures KeyOrder(k, l) < 0
  {
  }

  /** The numbers decide first, also for wrappers. */
  lemma {:induction false} NumbersDecide(x: string, y: string, s: Version, t: Version)
    requires Reads(x, s) && Reads(y, t) && CoreBelow(s, t)
    ensures CompareVersions(x, y).Some? && CompareVersions(x, y).value < 0
    ensures CompareVersions(y, x).Some? && CompareVersions(y, x).value > 0
  {
    var k, l := KeysOfTexts(x, y, s, t);
    var m, n := KeysOfTexts(y, x, t, s);
    CoreOrder(k, l);
    KeyTotal(k, l, l);
  }

  /** On one core a wrapper is above all else, and two wrappers compare by what they wrap. */
  lemma {:induction false} WrappersOfTexts(x: string, y: string, s: Version, t: Version)
    requires Reads(x, s) && Reads(y, t) && s.suffix.Wraps? && SameCore(s, t)
    ensures CompareVersions(x, y).Some?
    ensures !t.suffix.Wraps? ==> CompareVersions(x, y).value > 0
    ensures t.suffix.Wraps? ==>
              var inner := CompareVersions(TextOf(s.suffix.inner), TextOf(t.suffix.inner));
              inner.Some? && Sign(CompareVersions(x, y).value) == Sign(inner.value)
  {
    var k, l := KeysOfTexts(x, y, s, t);
    WrapOrder(k, l);
    if t.suffix.Wraps? { var c := InnerKeys(s.suffix, t.suffix, k.tail.key, l.tail.key); }
  }

  lemma {:induction false} InnerKeys(x: Suffix, y: Suffix, k: Key, l: Key) returns (c: int)
    requires x.Wraps? && y.Wraps? && ProperSuffix(x) && ProperSuffix(y) && NumericInside(x) && NumericInside(y)
    requires SuffixKey(x) == Wrap(k) && SuffixKey(y) == Wrap(l)
    ensures CompareVersions(TextOf(x.inner), TextOf(y.inner)) == Some(c) && Sign(c) == KeyOrder(k, l)
  {
    Bare(x.inner);
    Bare(y.inner);
    var m, n := KeysOfTexts(TextOf(x.inner), TextOf(y.inner), x.inner, y.inner);
    c := CompareVersions(TextOf(x.inner), TextOf(y.inner)).value;
  }

  lemma {:induction false} KeysOfTexts(x: string, y: string, s: Version, t: Version) returns (k: Key, l: Key)
    requires Reads(x, s) && Reads(y, t)
    ensures NumericInside(s.suffix) && NumericInside(t.suffix) && k == VersionKey(s) && l == VersionKey(t)
    ensures CompareVersions(x, y).Some? && Sign(CompareVersions(x, y).value) == KeyOrder(k, l)
  {
    CompareTexts(x, y);
    k, l := VersionKey(s), VersionKey(t);
  }

  lemma {:induction false} Bare(t: Version)
    requires Proper(t)
    ensures Reads(TextOf(t), t)
  {
    assert AllSpace("") && TextOf(t) == "" + TextOf(t) + "";
  }

  // ---- Bump levels ----

  /** `strconv.Atoi` takes the three numbers. */
  predicate Fits(t: Version)
    requires IsNumeric(t.major) && IsNumeric(t.minor) && IsNumeric(t.patch)
  {
    Value(t.major) <= MAX_INT && Value(t.minor) <= MAX_INT && Value(t.patch) <= MAX_INT
  }

  lemma {:induction false} CoreOfText(x: string, s: Version)
    requires Reads(x, s)
    ensures ParseCore(x) == if Fits(s) then Some(V.Core(Value(s.major), Value(s.minor), Value(s.patch))) else None
  {
    ReadsIff(x, s);
    TextKey(s);
  }

  /** The level names the first number that rises, and there is none unless one does. */
  lemma {:induction false} LevelOfTexts(x: string, y: string, s: Version, t: Version)
    requires Reads(x, s) && Reads(y, t)
    ensures var level, fit := BumpLevel(x, y), Fits(s) && Fits(t);
            && (level == "major" <==> fit && Value(s.major) < Value(t.major))
            && (level == "minor" <==> fit && Value(s.major) == Value(t.major) && Value(s.minor) < Value(t.minor))
            && (level == "patch" <==> fit && Value(s.major) == Value(t.major) && Value(s.minor) == Value(t.minor) && Value(s.patch) < Value(t.patch))
            && level in {"", "patch", "minor", "major"}
  {
    CoreOfText(x, s);
    CoreOfText(y, t);
  }

  /** Without a version on either side there is no level. */
  lemma {:induction false} NoLevel(x: string, y: string)
    requires !IsVersion(x) || !IsVersion(y)
    ensures BumpLevel(x, y) == ""
  {
  }
}
