/** The `appVersion` of a Chart.yaml (`appVersionRE`), found and replaced in the whole text:
    the blanks after the colon may run over several lines. */
module AppVersion {
  import opened Text
  import opened ChartText

  const KEY := "appVersion:"

  /** A match: the key with the blanks after it, and the scalar; the scalar's `rest` is all of
      the text that follows. */
  datatype Match = Match(blanks: string, scalar: Scalar)

  predicate HasKey(t: string) { |t| >= |KEY| && t[..|KEY|] == KEY }

  /** The attempt at one line start. */
  function MatchAt(t: string): (m: Option<Match>) {
    if HasKey(t) then PastKey(t[|KEY|..]) else None
  }

  function PastKey(t: string): (m: Option<Match>) {
    var h := Span(t, Blank);
    var s := ParseValue(h.post);
    if s.value != "" then Some(Match(h.pre, s)) else None
  }

  lemma {:induction false} PastKeyParts(t: string)
    requires PastKey(t).Some?
    ensures var m := PastKey(t).value;
            && t == m.blanks + Source(m.scalar) && All(m.blanks, Blank)
            && m.scalar.value != "" && Scanned(m.scalar)
  {
    SpanParts(t, Blank);
    ParseValueParts(Span(t, Blank).post);
  }

  predicate LineStart(text: string, i: nat) { i <= |text| && (i == 0 || text[i - 1] == '\n') }

  predicate Hits(text: string, i: nat) { LineStart(text, i) && MatchAt(text[i..]).Some? }

  function HitsOf(text: string): nat -> bool { (j: nat) => Hits(text, j) }

  /** The first line start where the attempt succeeds. */
  function FindFirst(text: string): (r: Option<nat>)
    ensures r.Some? ==> r.value <= |text|
  {
    FirstFrom(HitsOf(text), 0, |text|)
  }

  function Find(text: string): (m: Option<Match>) {
    var i := FindFirst(text);
    if i.None? then None else MatchAt(text[i.value..])
  }

  /** The replacement of the first match, which leaves the later ones alone. */
  function Replace(text: string, version: string): string {
    var i := FindFirst(text);
    if i.None? || Find(text).None? then text
    else
      var m := Find(text).value;
      text[..i.value] + (KEY + (m.blanks + Replaced(m.scalar, version)))
  }

  lemma {:induction false} ValueIsThere(text: string)
    ensures ParseValue(text).value != "" <==>
            text != "" && if text[0] == '"' then |text| > 1 && IsValueChar(text[1]) else IsValueChar(text[0])
  {
    if text != "" && text[0] == '"' && |text| > 1 { assert text[1..][0] == text[1]; }
  }

  lemma {:induction false} PastBlanks(r: string, y: string)
    requires Stops(y, Blank)
    ensures Span(r + y, Blank).post == Span(r, Blank).post + y
  {
    if r == "" {
      assert r + y == y;
    } else if IsBlank(r[0]) {
      assert (r + y)[1..] == r[1..] + y;
      PastBlanks(r[1..], y);
    }
  }

  lemma {:induction false} SameStart(c: string, y: string, z: string)
    requires c == "" || c[|c| - 1] == '\n'
    requires y != "" && IsValueChar(y[0]) && z != "" && IsValueChar(z[0])
    ensures ParseValue(c + y).value != "" ==> ParseValue(c + z).value != ""
  {
    ValueIsThere(c + y);
    ValueIsThere(c + z);
  }

  /** Whether there is a value past the blanks depends on nothing past a line break but on the
      next character being part of a value. */
  lemma {:induction false} ValuePastBlanks(r: string, y: string, z: string)
    requires r != "" && r[|r| - 1] == '\n'
    requires y != "" && IsValueChar(y[0]) && z != "" && IsValueChar(z[0])
    ensures PastKey(r + y).Some? ==> PastKey(r + z).Some?
  {
    var h := Span(r, Blank);
    SpanParts(r, Blank);
    PastBlanks(r, y);
    PastBlanks(r, z);
    if h.post != "" { assert h.post[|h.post| - 1] == r[|r| - 1]; }
    SameStart(h.post, y, z);
  }

  lemma {:induction false} KeyInside(q: string, y: string)
    requires q != "" && q[|q| - 1] == '\n' && HasKey(q + y)
    ensures |q| > |KEY| && HasKey(q)
  {
    assert forall i :: 0 <= i < |KEY| ==> KEY[i] == (q + y)[i];
    assert forall i :: 0 <= i < |KEY| ==> KEY[i] != '\n';
    assert (q + y)[|q| - 1] == '\n';
  }

  /** So an attempt on an earlier line does not see what changes on a later one. */
  lemma {:induction false} EarlierAttempt(q: string, y: string, z: string)
    requires q != "" && q[|q| - 1] == '\n'
    requires y != "" && IsValueChar(y[0]) && z != "" && IsValueChar(z[0])
    ensures MatchAt(q + y).Some? ==> MatchAt(q + z).Some?
  {
    if HasKey(q + y) {
      KeyInside(q, y);
      KeyPrefix(q, y);
      KeyPrefix(q, z);
      ValuePastBlanks(q[|KEY|..], y, z);
    }
  }

  lemma {:induction false} KeyPrefix(q: string, y: string)
    requires HasKey(q)
    ensures HasKey(q + y) && (q + y)[|KEY|..] == q[|KEY|..] + y
  {
    assert (q + y)[..|KEY|] == q[..|KEY|];
  }

  lemma {:induction false} FirstIs(hit: nat -> bool, i: nat, n: nat)
    requires i <= n && hit(i) && forall j :: 0 <= j < i ==> !hit(j)
    ensures FirstFrom(hit, 0, n) == Some(i)
  {
  }

  lemma {:induction false} MatchOf(blanks: string, text: string)
    requires All(blanks, Blank) && Stops(text, Blank) && ParseValue(text).value != ""
    ensures MatchAt(KEY + (blanks + text)) == Some(Match(blanks, ParseValue(text)))
  {
    var t := KEY + (blanks + text);
    assert t[..|KEY|] == KEY && t[|KEY|..] == blanks + text;
    SpanIs(blanks, text, Blank);
  }

  lemma {:induction false} EarlierFails(pre: string, x: string, y: string, j: nat)
    requires pre != "" && pre[|pre| - 1] == '\n' && j < |pre|
    requires x != "" && IsValueChar(x[0]) && y != "" && IsValueChar(y[0])
    ensures Hits(pre + y, j) ==> Hits(pre + x, j)
  {
    assert (pre + x)[j..] == pre[j..] + x && (pre + y)[j..] == pre[j..] + y;
    EarlierAttempt(pre[j..], y, x);
  }

  lemma {:induction false} BeforeFirst(pre: string, x: string)
    requires FindFirst(pre + x) == Some(|pre|)
    ensures pre != "" ==> pre[|pre| - 1] == '\n'
    ensures forall j :: 0 <= j < |pre| ==> !Hits(pre + x, j)
  {
    assert HitsOf(pre + x)(|pre|);
    assert LineStart(pre + x, |pre|);
    forall j | 0 <= j < |pre| ensures !Hits(pre + x, j) { assert !HitsOf(pre + x)(j); }
  }

  /** The first match stays where it is when the text from there on changes to another match. */
  lemma {:induction false} FirstStays(pre: string, x: string, y: string)
    requires pre != "" ==> pre[|pre| - 1] == '\n'
    requires forall j :: 0 <= j < |pre| ==> !Hits(pre + x, j)
    requires x != "" && IsValueChar(x[0])
    requires y != "" && IsValueChar(y[0]) && MatchAt(y).Some?
    ensures FindFirst(pre + y) == Some(|pre|)
  {
    var t := pre + y;
    assert t[|pre|..] == y;
    forall j | 0 <= j < |pre| ensures !Hits(t, j) {
      EarlierFails(pre, x, y, j);
    }
    FirstIs(HitsOf(t), |pre|, |t|);
  }

  lemma {:induction false} FoundParts(text: string) returns (pre: string, x: string)
    requires Find(text).Some?
    ensures text == pre + x && FindFirst(text) == Some(|pre|) && x != "" && x[0] == 'a'
    ensures var m := Find(text).value; All(m.blanks, Blank) && Scanned(m.scalar)
  {
    var i := FindFirst(text).value;
    pre, x := text[..i], text[i..];
    MatchedAt(x);
  }

  lemma {:induction false} MatchedAt(x: string)
    requires MatchAt(x).Some?
    ensures x != "" && x[0] == 'a' && All(MatchAt(x).value.blanks, Blank) && Scanned(MatchAt(x).value.scalar)
  {
    PastKeyParts(x[|KEY|..]);
    KeyOpens(x);
  }

  lemma {:induction false} FindScanned(text: string)
    requires Find(text).Some?
    ensures Scanned(Find(text).value.scalar)
  {
    var pre, x := FoundParts(text);
  }

  lemma {:induction false} KeyOpens(x: string)
    requires HasKey(x)
    ensures x != "" && x[0] == 'a'
  {
    assert x[0] == x[..|KEY|][0];
  }

  lemma {:induction false} ReplacedText(pre: string, x: string, m: Match, version: string)
    requires FindFirst(pre + x) == Some(|pre|) && Find(pre + x) == Some(m)
    ensures Replace(pre + x, version) == pre + (KEY + (m.blanks + Replaced(m.scalar, version)))
  {
    assert (pre + x)[..|pre|] == pre;
  }

  /** Replacing leaves the text before the match alone, and the first match stays where it was;
      it reads the new version exactly unless it fuses. */
  lemma {:induction false} ReplaceReadsBack(text: string, version: string)
    requires Find(text).Some? && CleanVersion(version)
    ensures var s, m := Find(text).value.scalar, Find(Replace(text, version));
            && m.Some? && (m.value.scalar.value == version <==> !Fuses(s))
            && (Tidy(s) ==> !Fuses(s) && Tidy(m.value.scalar))
            && Scanned(s) && m.value.scalar == ParseValue(Replaced(s, version))
  {
    var m := Find(text).value;
    var pre, x := FoundParts(text);
    RewriteReadsBack(m.scalar, version);
    MatchOf(m.blanks, Replaced(m.scalar, version));
    ReplacedText(pre, x, m, version);
    var y := KEY + (m.blanks + Replaced(m.scalar, version));
    assert y[0] == 'a';
    BeforeFirst(pre, x);
    FirstStays(pre, x, y);
    assert (pre + y)[|pre|..] == y;
  }

  /** A replacement by another version changes the text. */
  lemma {:induction false} ReplaceChanges(text: string, version: string)
    requires Find(text).Some? && CleanVersion(version) && Find(text).value.scalar.value != version
    ensures Replace(text, version) != text
  {
    ReplaceReadsBack(text, version);
    ReplacedShort(Find(text).value.scalar, version);
  }

  /** Everything but the value of the first match stays as it is. */
  lemma {:induction false} ReplaceMeans(text: string, version: string) returns (pre: string, blanks: string, s: Scalar)
    requires Find(text).Some?
    ensures text == pre + ("appVersion:" + (blanks + Source(s))) && All(blanks, Blank) && s.value != "" && (pre == "" || pre[|pre| - 1] == '\n')
    ensures Replace(text, version) == pre + ("appVersion:" + (blanks + (ScalarLike(s.quoted, version) + s.rest)))
    ensures forall j :: 0 <= j < |pre| ==> !Hits(text, j)
  {
    var x;
    pre, x := FoundParts(text);
    var m := Find(text).value;
    blanks, s := m.blanks, m.scalar;
    assert (pre + x)[|pre|..] == x;
    MatchedText(x);
    BeforeFirst(pre, x);
    ReplacedText(pre, x, m, version);
  }

  lemma {:induction false} MatchedText(x: string)
    requires MatchAt(x).Some?
    ensures var m := MatchAt(x).value; x == "appVersion:" + (m.blanks + Source(m.scalar)) && m.scalar.value != "" && All(m.blanks, Blank)
  {
    PastKeyParts(x[|KEY|..]);
    assert x == x[..|KEY|] + x[|KEY|..];
  }
}
