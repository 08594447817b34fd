/** Release precedence of the chart version bumper (`bumplevel.go`): SemVer 2.0.0 with the
    `nv-X.Y.Z` wrapper rule. */
module SemVer {
  import opened Text
  import opened Decimal
  import V = Versions

  // ---- Parsing ----

  /** The numbers and the pre-release of a version; no pre-release reads as the empty string. */
  datatype Parsed = Parsed(major: string, minor: string, patch: string, pre: string)

  /** `semverRE`. Neither the core nor a pre-release can hold `+`, and the core cannot hold
      `-`, so the first of each is where the expression divides. */
  function Parse(s: string): (p: Option<Parsed>)
    ensures p.Some? ==> IsNumeric(p.value.major) && IsNumeric(p.value.minor) && IsNumeric(p.value.patch)
    ensures p.Some? ==> p.value.pre == "" || V.IsIdents(p.value.pre)
    ensures p.Some? ==> |p.value.pre| < |s|
  {
    ParseBody(if s != [] && s[0] == 'v' then s[1..] else s)
  }

  function ParseBody(body: string): (p: Option<Parsed>)
    ensures p.Some? ==> IsNumeric(p.value.major) && IsNumeric(p.value.minor) && IsNumeric(p.value.patch)
    ensures p.Some? ==> p.value.pre == "" || V.IsIdents(p.value.pre)
    ensures p.Some? ==> |p.value.pre| < |body|
  {
    var (left, build) := Cut(body, '+');
    var (core, pre) := Cut(left, '-');
    var parts := Split(core, '.');
    if |parts| == 3 && IsNumeric(parts[0]) && IsNumeric(parts[1]) && IsNumeric(parts[2])
       && (pre.None? || V.IsIdents(pre.value)) && (build.None? || V.IsIdents(build.value))
    then Some(Parsed(parts[0], parts[1], parts[2], if pre.None? then "" else pre.value))
    else None
  }

  /** `wrapperRelease` */
  function WrapperRelease(pre: string): (w: Option<string>)
    ensures w.Some? ==> |w.value| < |pre| && Parse(w.value).Some?
  {
    if |pre| >= 3 && pre[..3] == "nv-" && Parse(pre[3..]).Some? then Some(pre[3..]) else None
  }

  // ---- Comparison ----

  /** `strings.TrimLeft(s, "0")` */
  function TrimZeros(s: string): (t: string)
    ensures t == [] || t[0] != '0'
    ensures AllDigits(s) ==> AllDigits(t)
  {
    if s != [] && s[0] == '0' then TrimZeros(s[1..]) else s
  }

  /** `compareNumeric`: only the sign of the result is used. */
  function CompareNumeric(a: string, b: string): (c: int) {
    var x, y := TrimZeros(a), TrimZeros(b);
    if |x| != |y| then |x| - |y| else Compare(x, y)
  }

  function CompareIdentifier(a: string, b: string): (c: int) {
    if IsNumeric(a) && IsNumeric(b) then CompareNumeric(a, b)
    else if IsNumeric(a) then -1
    else if IsNumeric(b) then 1
    else Compare(a, b)
  }

  /** The first differing identifier decides, then the length. */
  function CompareIdentifiers(a: seq<string>, b: seq<string>): (c: int) {
    if a == [] || b == [] then |a| - |b|
    else if CompareIdentifier(a[0], b[0]) != 0 then CompareIdentifier(a[0], b[0])
    else CompareIdentifiers(a[1..], b[1..])
  }

  function ComparePrerelease(a: string, b: string): (c: int) {
    if a == b then 0
    else if a == "" then 1
    else if b == "" then -1
    else CompareIdentifiers(Split(a, '.'), Split(b, '.'))
  }

  /** `CompareVersions`; `None` when either side is not a version. */
  function CompareVersions(a: string, b: string): (c: Option<int>)
    decreases |a|, 1
  {
    var p, q := Parse(TrimSpace(a)), Parse(TrimSpace(b));
    if p.None? || q.None? then None
    else
      var x, y := p.value, q.value;
      if CompareNumeric(x.major, y.major) != 0 then Some(CompareNumeric(x.major, y.major))
      else if CompareNumeric(x.minor, y.minor) != 0 then Some(CompareNumeric(x.minor, y.minor))
      else if CompareNumeric(x.patch, y.patch) != 0 then Some(CompareNumeric(x.patch, y.patch))
      else ComparePastCore(x.pre, y.pre)
  }

  /** Its last part, once the cores tie. */
  function ComparePastCore(x: string, y: string): (c: Option<int>)
    decreases |x|, 2
  {
    var w, z := WrapperRelease(x), WrapperRelease(y);
    if w.Some? && z.Some? then CompareVersions(w.value, z.value)
    else if w.Some? then Some(1)
    else if z.Some? then Some(-1)
    else Some(ComparePrerelease(x, y))
  }

  /** The loop of `comparePrerelease`. */
  method ComparePrereleaseLoop(a: string, b: string) returns (c: int)
    ensures c == ComparePrerelease(a, b)
  {
    if a == b { return 0; }
    if a == "" { return 1; }
    if b == "" { return -1; }
    var x, y := Split(a, '.'), Split(b, '.');
    var i := 0;
    while i < |x| && i < |y|
      invariant i <= |x| && i <= |y|
      invariant CompareIdentifiers(x[i..], y[i..]) == CompareIdentifiers(x, y)
    {
      c := CompareIdentifier(x[i], y[i]);
      if c != 0 { return; }
      assert x[i..][1..] == x[i + 1..] && y[i..][1..] == y[i + 1..];
      i := i + 1;
    }
    return |x| - |y|;
  }

  // ---- The reference order ----

  datatype Ident = Num(value: nat) | Word(text: string)

  /** A bare version sits between its pre-releases and its wrappers. */
  datatype Tail = Pre(ids: seq<Ident>) | Plain | Wrap(key: Key)

  datatype Key = Key(major: nat, minor: nat, patch: nat, tail: Tail)

  function IdentOf(s: string): Ident { if IsNumeric(s) then Num(Value(s)) else Word(s) }

  function IdentsOf(parts: seq<string>): (ids: seq<Ident>)
    ensures |ids| == |parts| && forall i :: 0 <= i < |ids| ==> ids[i] == IdentOf(parts[i])
  {
    seq(|parts|, i requires 0 <= i < |parts| => IdentOf(parts[i]))
  }

  /** The place of a version in the order. */
  function KeyOf(v: string): (k: Key)
    requires Parse(v).Some?
    decreases |v|, 1
  {
    var p := Parse(v).value;
    Key(Value(p.major), Value(p.minor), Value(p.patch), TailOf(p.pre))
  }

  function TailOf(pre: string): (t: Tail)
    decreases |pre|, 2
  {
    if pre == "" then Plain
    else if WrapperRelease(pre).Some? then Wrap(KeyOf(WrapperRelease(pre).value))
    else Pre(IdentsOf(Split(pre, '.')))
  }

  function Sign(n: int): int { if n < 0 then -1 else if n == 0 then 0 else 1 }

  function IdentOrder(a: Ident, b: Ident): int {
    match (a, b)
    case (Num(x), Num(y)) => Sign(x - y)
    case (Num(_), Word(_)) => -1
    case (Word(_), Num(_)) => 1
    case (Word(x), Word(y)) => Compare(x, y)
  }

  function IdentsOrder(a: seq<Ident>, b: seq<Ident>): int {
    if a == [] || b == [] then Sign(|a| - |b|)
    else if IdentOrder(a[0], b[0]) != 0 then IdentOrder(a[0], b[0])
    else IdentsOrder(a[1..], b[1..])
  }

  function TailRank(t: Tail): int { match t case Pre(_) => 0 case Plain => 1 case Wrap(_) => 2 }

  function TailOrder(a: Tail, b: Tail): int {
    match (a, b)
    case (Pre(x), Pre(y)) => IdentsOrder(x, y)
    case (Wrap(x), Wrap(y)) => KeyOrder(x, y)
    case _ => Sign(TailRank(a) - TailRank(b))
  }

  function KeyOrder(a: Key, b: Key): int {
    if a.major != b.major then Sign(a.major - b.major)
    else if a.minor != b.minor then Sign(a.minor - b.minor)
    else if a.patch != b.patch then Sign(a.patch - b.patch)
    else TailOrder(a.tail, b.tail)
  }

  // ---- Digit strings by value ----

  lemma {:induction false} LeadingZero(s: string)
    requires AllDigits(s) && s != [] && s[0] == '0'
    ensures Value(s) == Value(s[1..])
  {
    if |s| > 1 {
      LeadingZero(s[..|s| - 1]);
      assert s[1..][..|s[1..]| - 1] == s[..|s| - 1][1..];
    }
  }

  lemma {:induction false} TrimZerosValue(s: string)
    requires AllDigits(s)
    ensures Value(TrimZeros(s)) == Value(s)
  {
    if s != [] && s[0] == '0' {
      LeadingZero(s);
      TrimZerosValue(s[1..]);
    }
  }

  /** `compareNumeric` is comparison by value, for digit strings of any length and with any
      number of leading zeros. */
  lemma {:induction false} NumericByValue(a: string, b: string)
    requires AllDigits(a) && AllDigits(b)
    ensures Sign(CompareNumeric(a, b)) == Sign(Value(a) - Value(b))
  {
    var x, y := TrimZeros(a), TrimZeros(b);
    TrimZerosValue(a);
    TrimZerosValue(b);
    if |x| < |y| {
      LongerIsLarger(x, y);
    } else if |y| < |x| {
      LongerIsLarger(y, x);
    } else {
      SameLengthOrder(x, y);
    }
  }

  // ---- The code computes the reference order ----

  lemma {:induction false} IdentifierByKey(a: string, b: string)
    ensures Sign(CompareIdentifier(a, b)) == IdentOrder(IdentOf(a), IdentOf(b))
  {
    if IsNumeric(a) && IsNumeric(b) { NumericByValue(a, b); }
  }

  lemma {:induction false} IdentifiersByKey(a: seq<string>, b: seq<string>)
    ensures Sign(CompareIdentifiers(a, b)) == IdentsOrder(IdentsOf(a), IdentsOf(b))
  {
    if a != [] && b != [] {
      IdentifierByKey(a[0], b[0]);
      IdentifiersByKey(a[1..], b[1..]);
      assert IdentsOf(a)[1..] == IdentsOf(a[1..]) && IdentsOf(b)[1..] == IdentsOf(b[1..]);
    }
  }

  lemma {:induction false} IdentsOrderReflexive(a: seq<Ident>)
    ensures IdentsOrder(a, a) == 0
  {
    if a != [] {
      if a[0].Word? { CompareZero(a[0].text, a[0].text); }
      IdentsOrderReflexive(a[1..]);
    }
  }

  predicate IsVersionChar(c: char) { V.IsIdentChar(c) || c == '.' || c == '+' }

  ghost predicate InSomePart(parts: seq<string>, c: char) {
    exists k :: 0 <= k < |parts| && c in parts[k]
  }

  lemma {:induction false} SplitCovers(s: string, sep: char, i: nat)
    requires i < |s|
    ensures s[i] == sep || InSomePart(Split(s, sep), s[i])
  {
    var parts, rest := Split(s, sep), Split(s[1..], sep);
    if i == 0 {
      if s[0] != sep { assert s[0] in parts[0]; }
    } else {
      SplitCovers(s[1..], sep, i - 1);
      if s[i] != sep {
        var k :| 0 <= k < |rest| && s[i] in rest[k];
        if s[0] == sep {
          assert parts[k + 1] == rest[k];
        } else {
          assert k == 0 ==> parts[0] == [s[0]] + rest[0];
          assert k > 0 ==> parts[k] == rest[k];
          assert s[i] in parts[k];
        }
      }
    }
  }

  lemma {:induction false} IdentsChars(s: string)
    requires V.IsIdents(s)
    ensures VersionChars(s)
  {
    forall i | 0 <= i < |s| ensures IsVersionChar(s[i]) {
      SplitCovers(s, '.', i);
      if s[i] != '.' {
        var k :| 0 <= k < |Split(s, '.')| && s[i] in Split(s, '.')[k];
        assert V.IsIdent(Split(s, '.')[k]);
      }
    }
  }

  lemma {:induction false} CoreChars(core: string)
    requires var parts := Split(core, '.');
             |parts| == 3 && IsNumeric(parts[0]) && IsNumeric(parts[1]) && IsNumeric(parts[2])
    ensures VersionChars(core)
  {
    forall i | 0 <= i < |core| ensures IsVersionChar(core[i]) {
      SplitCovers(core, '.', i);
      if core[i] != '.' {
        var k :| 0 <= k < |Split(core, '.')| && core[i] in Split(core, '.')[k];
      }
    }
  }

  lemma {:induction false} ParsedChars(s: string)
    requires Parse(s).Some?
    ensures VersionChars(s)
  {
    var body := if s != [] && s[0] == 'v' then s[1..] else s;
    var (left, build) := Cut(body, '+');
    var (core, pre) := Cut(left, '-');
    CoreChars(core);
    if pre.Some? { IdentsChars(pre.value); }
    if build.Some? { IdentsChars(build.value); }
    CutChars(left, '-');
    CutChars(body, '+');
    if body != s { ConsChars(s); }
  }

  lemma {:induction false} ConsChars(s: string)
    requires s != "" && IsVersionChar(s[0]) && VersionChars(s[1..])
    ensures VersionChars(s)
  {
    assert s == [s[0]] + s[1..];
  }

  predicate VersionChars(s: string) { forall i :: 0 <= i < |s| ==> IsVersionChar(s[i]) }

  lemma {:induction false} CutChars(s: string, c: char)
    requires IsVersionChar(c) && var (left, right) := Cut(s, c); VersionChars(left) && (right.Some? ==> VersionChars(right.value))
    ensures VersionChars(s)
  {
  }

  lemma {:induction false} ParsedIsTrimmed(s: string)
    requires Parse(s).Some?
    ensures TrimSpace(s) == s
  {
    ParsedChars(s);
    if s != [] { assert IsVersionChar(s[0]) && IsVersionChar(s[|s| - 1]); }
  }

  lemma {:induction false} EmptyIsNoWrapper()
    ensures WrapperRelease("").None?
  {
  }

  lemma {:induction false} PrereleaseByKey(x: string, y: string)
    requires WrapperRelease(x).None? && WrapperRelease(y).None?
    ensures Sign(ComparePrerelease(x, y)) == TailOrder(TailOf(x), TailOf(y))
  {
    if x == y {
      if x != "" { IdentsOrderReflexive(IdentsOf(Split(x, '.'))); }
    } else if x != "" && y != "" {
      IdentifiersByKey(Split(x, '.'), Split(y, '.'));
    }
  }

  lemma {:induction false} PastCoreByKey(x: string, y: string)
    ensures ComparePastCore(x, y).Some?
    ensures Sign(ComparePastCore(x, y).value) == TailOrder(TailOf(x), TailOf(y))
    decreases |x|, 2
  {
    EmptyIsNoWrapper();
    var w, z := WrapperRelease(x), WrapperRelease(y);
    if w.Some? && z.Some? {
      ParsedIsTrimmed(w.value);
      ParsedIsTrimmed(z.value);
      CompareByKey(w.value, z.value);
    } else if w.None? && z.None? {
      PrereleaseByKey(x, y);
    }
  }

  function FirstNonZero(x: int, y: int, z: int, past: int): int { if x != 0 then x else if y != 0 then y else if z != 0 then z else past }

  /** The core decides, then what is past it. */
  lemma {:induction false} CoreThenPast(x: int, y: int, z: int, past: int, a: Key, b: Key)
    requires Sign(x) == Sign(a.major - b.major) && Sign(y) == Sign(a.minor - b.minor) && Sign(z) == Sign(a.patch - b.patch)
    requires Sign(past) == TailOrder(a.tail, b.tail)
    ensures Sign(FirstNonZero(x, y, z, past)) == KeyOrder(a, b)
  {
  }

  lemma {:induction false} CoreByValue(p: Parsed, q: Parsed)
    requires IsNumeric(p.major) && IsNumeric(p.minor) && IsNumeric(p.patch)
    requires IsNumeric(q.major) && IsNumeric(q.minor) && IsNumeric(q.patch)
    ensures Sign(CompareNumeric(p.major, q.major)) == Sign(Value(p.major) - Value(q.major))
    ensures Sign(CompareNumeric(p.minor, q.minor)) == Sign(Value(p.minor) - Value(q.minor))
    ensures Sign(CompareNumeric(p.patch, q.patch)) == Sign(Value(p.patch) - Value(q.patch))
  {
    NumericByValue(p.major, q.major);
    NumericByValue(p.minor, q.minor);
    NumericByValue(p.patch, q.patch);
  }

  /** `CompareVersions` is comparison in the reference order, and it answers exactly when
      both sides parse: the versions inside wrappers always do. */
  lemma {:induction false} CompareByKey(a: string, b: string)
    ensures CompareVersions(a, b).Some? <==> Parse(TrimSpace(a)).Some? && Parse(TrimSpace(b)).Some?
    ensures CompareVersions(a, b).Some? ==>
              Sign(CompareVersions(a, b).value) == KeyOrder(KeyOf(TrimSpace(a)), KeyOf(TrimSpace(b)))
    decreases |a|, 1
  {
    var p, q := Parse(TrimSpace(a)), Parse(TrimSpace(b));
    if p.Some? && q.Some? {
      ParsedByKey(p.value, q.value);
      CompareIs(a, b, p.value, q.value);
      KeyIs(TrimSpace(a), p.value);
      KeyIs(TrimSpace(b), q.value);
    }
  }

  lemma {:induction false} CompareIs(a: string, b: string, x: Parsed, y: Parsed)
    requires Parse(TrimSpace(a)) == Some(x) && Parse(TrimSpace(b)) == Some(y) && ComparePastCore(x.pre, y.pre).Some?
    ensures CompareVersions(a, b) == Some(CompareParsed(x, y, ComparePastCore(x.pre, y.pre).value))
  {
  }

  lemma {:induction false} KeyIs(v: string, p: Parsed)
    requires Parse(v) == Some(p)
    ensures IsParsed(p) && KeyOf(v) == ParsedKey(p, TailOf(p.pre))
  {
  }

  predicate IsParsed(p: Parsed) { IsNumeric(p.major) && IsNumeric(p.minor) && IsNumeric(p.patch) }

  function ParsedKey(p: Parsed, t: Tail): Key
    requires IsParsed(p)
  {
    Key(Value(p.major), Value(p.minor), Value(p.patch), t)
  }

  function CompareParsed(x: Parsed, y: Parsed, past: int): int {
    FirstNonZero(CompareNumeric(x.major, y.major), CompareNumeric(x.minor, y.minor), CompareNumeric(x.patch, y.patch), past)
  }

  lemma {:induction false} CoreWith(x: Parsed, y: Parsed, past: int, t: Tail, u: Tail)
    requires IsParsed(x) && IsParsed(y) && Sign(past) == TailOrder(t, u)
    ensures Sign(CompareParsed(x, y, past)) == KeyOrder(ParsedKey(x, t), ParsedKey(y, u))
  {
    CoreByValue(x, y);
    CoreThenPast(CompareNumeric(x.major, y.major), CompareNumeric(x.minor, y.minor), CompareNumeric(x.patch, y.patch),
                 past, ParsedKey(x, t), ParsedKey(y, u));
  }

  lemma {:induction false} ParsedByKey(x: Parsed, y: Parsed)
    requires IsParsed(x) && IsParsed(y)
    ensures var past := ComparePastCore(x.pre, y.pre);
            past.Some? && Sign(CompareParsed(x, y, past.value)) == KeyOrder(ParsedKey(x, TailOf(x.pre)), ParsedKey(y, TailOf(y.pre)))
    decreases |x.pre|, 3
  {
    PastCoreByKey(x.pre, y.pre);
    CoreWith(x, y, ComparePastCore(x.pre, y.pre).value, TailOf(x.pre), TailOf(y.pre));
  }

  // ---- The reference order is a total order ----

  lemma {:induction false} IdentTotal(a: Ident, b: Ident, c: Ident)
    ensures IdentOrder(a, b) == 0 <==> a == b
    ensures IdentOrder(b, a) == -IdentOrder(a, b)
    ensures IdentOrder(a, b) <= 0 && IdentOrder(b, c) <= 0 ==>
              IdentOrder(a, c) <= 0 && (IdentOrder(a, b) < 0 || IdentOrder(b, c) < 0 ==> IdentOrder(a, c) < 0)
  {
    if a.Word? && b.Word? {
      CompareZero(a.text, b.text);
      CompareFlip(a.text, b.text);
      if c.Word? && Compare(a.text, b.text) <= 0 && Compare(b.text, c.text) <= 0 {
        CompareTransitive(a.text, b.text, c.text);
      }
    }
  }

  lemma {:induction false} IdentsTotal(a: seq<Ident>, b: seq<Ident>, c: seq<Ident>)
    ensures IdentsOrder(a, b) == 0 <==> a == b
    ensures IdentsOrder(b, a) == -IdentsOrder(a, b)
    ensures IdentsOrder(a, b) <= 0 && IdentsOrder(b, c) <= 0 ==>
              IdentsOrder(a, c) <= 0 && (IdentsOrder(a, b) < 0 || IdentsOrder(b, c) < 0 ==> IdentsOrder(a, c) < 0)
    decreases |a|
  {
    if a != [] && b != [] {
      var c0, c' := if c == [] then a[0] else c[0], if c == [] then [] else c[1..];
      IdentTotal(a[0], b[0], c0);
      IdentTotal(b[0], c0, a[0]);
      IdentsTotal(a[1..], b[1..], c');
      assert a == [a[0]] + a[1..] && b == [b[0]] + b[1..];
    }
  }

  lemma {:induction false} TailTotal(a: Tail, b: Tail, c: Tail)
    ensures TailOrder(a, b) == 0 <==> a == b
    ensures TailOrder(b, a) == -TailOrder(a, b)
    ensures TailOrder(a, b) <= 0 && TailOrder(b, c) <= 0 ==>
              TailOrder(a, c) <= 0 && (TailOrder(a, b) < 0 || TailOrder(b, c) < 0 ==> TailOrder(a, c) < 0)
    decreases a
  {
    if a.Pre? && b.Pre? {
      IdentsTotal(a.ids, b.ids, if c.Pre? then c.ids else []);
    } else if a.Wrap? && b.Wrap? {
      KeyTotal(a.key, b.key, if c.Wrap? then c.key else b.key);
    }
  }

  lemma {:induction false} KeyTotal(a: Key, b: Key, c: Key)
    ensures KeyOrder(a, b) == 0 <==> a == b
    ensures KeyOrder(b, a) == -KeyOrder(a, b)
    ensures KeyOrder(a, b) <= 0 && KeyOrder(b, c) <= 0 ==>
              KeyOrder(a, c) <= 0 && (KeyOrder(a, b) < 0 || KeyOrder(b, c) < 0 ==> KeyOrder(a, c) < 0)
    decreases a
  {
    TailTotal(a.tail, b.tail, c.tail);
  }

  /** A version that parses, after trimming. */
  predicate IsVersion(v: string) { Parse(TrimSpace(v)).Some? }

  function Order(a: string, b: string): int
    requires IsVersion(a) && IsVersion(b)
  {
    CompareByKey(a, b);
    Sign(CompareVersions(a, b).value)
  }

  /** On all versions, nested wrappers included, the comparison is a total preorder whose
      ties are equal keys. */
  lemma {:induction false} VersionsTotallyPreordered(a: string, b: string, c: string)
    requires IsVersion(a) && IsVersion(b) && IsVersion(c)
    ensures Order(a, a) == 0 && Order(b, a) == -Order(a, b)
    ensures Order(a, b) == 0 <==> KeyOf(TrimSpace(a)) == KeyOf(TrimSpace(b))
    ensures Order(a, b) <= 0 && Order(b, c) <= 0 ==>
              Order(a, c) <= 0 && (Order(a, b) < 0 || Order(b, c) < 0 ==> Order(a, c) < 0)
  {
    CompareByKey(a, a);
    CompareByKey(a, b);
    CompareByKey(b, a);
    CompareByKey(b, c);
    CompareByKey(a, c);
    KeyTotal(KeyOf(TrimSpace(a)), KeyOf(TrimSpace(b)), KeyOf(TrimSpace(c)));
    KeyTotal(KeyOf(TrimSpace(a)), KeyOf(TrimSpace(a)), KeyOf(TrimSpace(a)));
  }

  // ---- SemVer 2.0.0, section 11 ----

  ghost predicate IdentLess(a: Ident, b: Ident) {
    match (a, b)
    case (Num(x), Num(y)) => x < y
    case (Num(_), Word(_)) => true
    case (Word(_), Num(_)) => false
    case (Word(x), Word(y)) => Compare(x, y) < 0
  }

  /** 11.4: the first identifier that differs decides; a longer list wins over its prefix. */
  ghost predicate PreLess(a: seq<Ident>, b: seq<Ident>) {
    exists k :: 0 <= k <= |a| && k <= |b| && a[..k] == b[..k] && DecidesAt(a, b, k)
  }

  ghost predicate DecidesAt(a: seq<Ident>, b: seq<Ident>, k: nat)
    requires k <= |a| && k <= |b|
  {
    k < |b| && (k == |a| || IdentLess(a[k], b[k]))
  }

  /** 11.2 and 11.3 for versions without a wrapper. */
  ghost predicate SectionElevenLess(a: Key, b: Key) {
    || a.major < b.major
    || (a.major == b.major && a.minor < b.minor)
    || (a.major == b.major && a.minor == b.minor && a.patch < b.patch)
    || (a.major == b.major && a.minor == b.minor && a.patch == b.patch && a.tail.Pre? &&
        (b.tail.Plain? || (b.tail.Pre? && PreLess(a.tail.ids, b.tail.ids))))
  }

  lemma {:induction false} PreLessIsOrder(a: seq<Ident>, b: seq<Ident>)
    ensures PreLess(a, b) <==> IdentsOrder(a, b) < 0
  {
    if b == [] {
    } else if a == [] {
      assert a[..0] == b[..0] && DecidesAt(a, b, 0);
    } else {
      IdentTotal(a[0], b[0], a[0]);
      if a[0] != b[0] {
        assert a[..0] == b[..0];
        assert forall k :: 0 < k <= |a| && k <= |b| ==> a[..k][0] != b[..k][0];
        assert PreLess(a, b) <==> DecidesAt(a, b, 0);
      } else {
        PreLessIsOrder(a[1..], b[1..]);
        PreLessShift(a, b);
      }
    }
  }

  lemma {:induction false} PreLessShift(a: seq<Ident>, b: seq<Ident>)
    requires a != [] && b != [] && a[0] == b[0]
    ensures PreLess(a, b) <==> PreLess(a[1..], b[1..])
  {
    if PreLess(a, b) { PreLessDrop(a, b); }
    if PreLess(a[1..], b[1..]) { PreLessAdd(a, b); }
  }

  lemma {:induction false} TakeOfRest(a: seq<Ident>, k: nat)
    requires 0 < k <= |a|
    ensures a[1..][..k - 1] == a[..k][1..] && a[..k] == [a[0]] + a[1..][..k - 1]
  {
  }

  lemma {:induction false} PreLessDrop(a: seq<Ident>, b: seq<Ident>)
    requires a != [] && b != [] && a[0] == b[0] && PreLess(a, b)
    ensures PreLess(a[1..], b[1..])
  {
    IdentTotal(a[0], b[0], a[0]);
    var k :| 0 <= k <= |a| && k <= |b| && a[..k] == b[..k] && DecidesAt(a, b, k);
    TakeOfRest(a, k);
    TakeOfRest(b, k);
    assert DecidesAt(a[1..], b[1..], k - 1);
  }

  lemma {:induction false} PreLessAdd(a: seq<Ident>, b: seq<Ident>)
    requires a != [] && b != [] && a[0] == b[0] && PreLess(a[1..], b[1..])
    ensures PreLess(a, b)
  {
    var x, y := a[1..], b[1..];
    var k :| 0 <= k <= |x| && k <= |y| && x[..k] == y[..k] && DecidesAt(x, y, k);
    TakeOfRest(a, k + 1);
    TakeOfRest(b, k + 1);
    assert DecidesAt(a, b, k + 1);
  }

  predicate IsWrapper(v: string)
    requires IsVersion(v)
  {
    KeyOf(TrimSpace(v)).tail.Wrap?
  }

  /** Between versions that are not wrappers, `CompareVersions` is section 11 precedence. */
  lemma {:induction false} SectionElevenPrecedence(a: string, b: string)
    requires IsVersion(a) && IsVersion(b) && !IsWrapper(a) && !IsWrapper(b)
    ensures Order(a, b) < 0 <==> SectionElevenLess(KeyOf(TrimSpace(a)), KeyOf(TrimSpace(b)))
  {
    CompareByKey(a, b);
    var x, y := KeyOf(TrimSpace(a)), KeyOf(TrimSpace(b));
    if x.tail.Pre? && y.tail.Pre? { PreLessIsOrder(x.tail.ids, y.tail.ids); }
  }

  /** A wrapper sorts above the bare version it wraps and above all its pre-releases, and two
      wrappers of one core compare by what they wrap. */
  lemma {:induction false} WrapperPrecedence(a: string, b: string)
    requires IsVersion(a) && IsVersion(b) && IsWrapper(a)
    requires var x, y := KeyOf(TrimSpace(a)), KeyOf(TrimSpace(b));
             x.major == y.major && x.minor == y.minor && x.patch == y.patch
    ensures !IsWrapper(b) ==> Order(a, b) > 0
    ensures IsWrapper(b) ==> Order(a, b) == KeyOrder(KeyOf(TrimSpace(a)).tail.key, KeyOf(TrimSpace(b)).tail.key)
  {
    CompareByKey(a, b);
  }

  // ---- Bump levels ----

  const MAX_INT: nat := 0x7FFF_FFFF_FFFF_FFFF

  /** `parseCore`: `strconv.Atoi` refuses a number that does not fit in 64 bits. */
  function ParseCore(v: string): (c: Option<V.Core>)
  {
    var p := Parse(TrimSpace(v));
    if p.None? then None
    else
      var x, y, z := Value(p.value.major), Value(p.value.minor), Value(p.value.patch);
      if x > MAX_INT || y > MAX_INT || z > MAX_INT then None else Some(V.Core(x, y, z))
  }

  /** `BumpLevel` */
  function BumpLevel(from: string, to: string): (level: string)
  {
    var p, q := ParseCore(from), ParseCore(to);
    if p.None? || q.None? then ""
    else
      var a, b := p.value, q.value;
      if b.major > a.major then "major"
      else if b.major < a.major then ""
      else if b.minor > a.minor then "minor"
      else if b.minor < a.minor then ""
      else if b.patch > a.patch then "patch"
      else ""
  }

  /** The core of a version, where it fits, is the core of its key. */
  lemma {:induction false} CoreOfKey(v: string)
    requires ParseCore(v).Some?
    ensures IsVersion(v) && var k, c := KeyOf(TrimSpace(v)), ParseCore(v).value;
            k.major == c.major && k.minor == c.minor && k.patch == c.patch
  {
  }

  lemma {:induction false} CoreKeys(from: string, to: string) returns (k: Key, l: Key)
    requires ParseCore(from).Some? && ParseCore(to).Some?
    ensures IsVersion(from) && IsVersion(to) && Order(from, to) == KeyOrder(k, l)
    ensures var c, d := ParseCore(from).value, ParseCore(to).value;
            && k.major == c.major && k.minor == c.minor && k.patch == c.patch
            && l.major == d.major && l.minor == d.minor && l.patch == d.patch
  {
    CoreOfKey(from);
    CoreOfKey(to);
    OrderOfKeys(from, to);
    k, l := KeyOf(TrimSpace(from)), KeyOf(TrimSpace(to));
  }

  lemma {:induction false} OrderOfKeys(a: string, b: string)
    requires IsVersion(a) && IsVersion(b)
    ensures Order(a, b) == KeyOrder(KeyOf(TrimSpace(a)), KeyOf(TrimSpace(b)))
  {
    CompareByKey(a, b);
  }

  /** A level is only reported for a strict upgrade; an upgrade without a level stays on one
      core or holds a number that does not fit in 64 bits. */
  lemma {:induction false} LevelMeansUpgrade(from: string, to: string)
    ensures BumpLevel(from, to) != "" ==> IsVersion(from) && IsVersion(to) && Order(from, to) < 0
    ensures IsVersion(from) && IsVersion(to) && Order(from, to) < 0 && BumpLevel(from, to) == "" ==>
              || ParseCore(from).None? || ParseCore(to).None? || ParseCore(from) == ParseCore(to)
  {
    if ParseCore(from).Some? && ParseCore(to).Some? {
      var k, l := CoreKeys(from, to);
    }
  }

  function LevelRank(level: string): nat {
    if level == "patch" then 1 else if level == "minor" then 2 else if level == "major" then 3 else 0
  }

  /** `HigherLevel` */
  function HigherLevel(a: string, b: string): string { if LevelRank(b) > LevelRank(a) then b else a }

  /** Of two levels the higher one: major above minor above patch above none. */
  lemma {:induction false} HigherLevelIs(a: string, b: string)
    requires a in {"", "patch", "minor", "major"} && b in {"", "patch", "minor", "major"}
    ensures var c := HigherLevel(a, b);
            && (c == "major" <==> a == "major" || b == "major")
            && (c == "minor" <==> (a == "minor" || b == "minor") && a != "major" && b != "major")
            && (c == "patch" <==> (a == "patch" || b == "patch") && a in {"", "patch"} && b in {"", "patch"})
            && (c == "" <==> a == "" && b == "")
  {
    assert |"patch"| == 5 && |"minor"| == 5 && |"major"| == 5 && "minor"[1] == 'i' && "major"[1] == 'a' && "patch"[0] == 'p';
  }
}
