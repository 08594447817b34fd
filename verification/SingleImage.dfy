/** Planning and applying a release to a chart with at most one image (`PlanFor`, `Apply`). */
module SingleImage {
  import opened Text
  import opened ChartText
  import opened ValuesPath
  import opened ValuesEdit
  import opened FileCommit
  import opened Charts
  import opened AppLines
  import App = AppVersion

  // ---- Inline images ----

  predicate EndsPrefix(c: char) { IsBlank(c) || c == '{' || c == ',' }

  predicate IsPlainBlank(c: char) { c == ' ' || c == '\t' }

  /** The leading spaces and tabs. */
  function PlainPrefix(s: string): (p: string)
    ensures |p| <= |s| && p == s[..|p|] && All(p, Blank)
  {
    if s != "" && IsPlainBlank(s[0]) then [s[0]] + PlainPrefix(s[1..]) else ""
  }

  const IMAGE := "image:"

  predicate OpensImage(tail: string) { |tail| >= |IMAGE| && tail[..|IMAGE|] == IMAGE }

  /** An `image:` key with a value on the same line, after what may stand before it. */
  predicate InlineSplit(before: string, tail: string) {
    && OpensImage(tail)
    && (before == "" || (EndsPrefix(before[|before| - 1]) && '#' !in before[..|before| - 1]))
    && var t := tail[|IMAGE|..]; var n := |PlainPrefix(t)|; n < |t| && t[n] != '#'
  }

  /** `inlineImageRE`, line by line: a prefix that ends at a line break is an empty one on the
      next line. */
  predicate Inline(l: string) { exists q :: 0 <= q <= |l| && InlineAt(l, q) }

  predicate InlineAt(l: string, q: nat) { q <= |l| && InlineSplit(l[..q], l[q..]) }

  predicate AnyInline(lines: seq<string>) { exists i :: 0 <= i < |lines| && Inline(lines[i]) }

  predicate OpensAt(l: string, q: nat) { q <= |l| && OpensImage(l[q..]) }

  /** What a front must meet for no `image:` key to appear in it or where it joins the rest. */
  ghost predicate Shut(a: string, r: string) {
    && a != "" && (forall q :: 0 <= q <= |a| ==> !OpensAt(a, q))
    && (Stops(r, Value) || a[|a| - 1] == '"')
  }

  lemma {:induction false} NotImage(tail: string, k: nat)
    requires k < |IMAGE| && (k < |tail| ==> !IsValueChar(tail[k]))
    ensures !OpensImage(tail)
  {
    assert k < |tail| && |tail| >= |IMAGE| ==> tail[..|IMAGE|][k] == tail[k];
    assert IsValueChar(IMAGE[k]);
  }

  lemma {:induction false} NoImageInFront(a: string, r: string, q: nat)
    requires Shut(a, r) && q <= |a|
    ensures !InlineSplit((a + r)[..q], (a + r)[q..])
  {
    var tail := (a + r)[q..];
    var n := |a| - q;
    assert tail == a[q..] + r;
    if |IMAGE| <= n {
      assert tail[..|IMAGE|] == a[q..][..|IMAGE|];
      assert !OpensAt(a, q);
    } else if Stops(r, Value) {
      NotImage(tail, n);
    } else if n > 0 {
      assert tail[n - 1] == a[|a| - 1];
      NotImage(tail, n - 1);
    } else {
      assert (a + r)[..q] == a;
    }
  }

  lemma {:induction false} ShiftedBefore(a: string, b: string, m: string, tail: string)
    requires m != "" && '#' !in b && InlineSplit(a + m, tail)
    ensures InlineSplit(b + m, tail)
  {
    var x, y := a + m, b + m;
    assert x[|x| - 1] == m[|m| - 1] == y[|y| - 1];
    assert x[..|x| - 1] == a + m[..|m| - 1] && y[..|y| - 1] == b + m[..|m| - 1];
  }

  /** Exchanging the front of a line for a shut one makes no inline image. */
  lemma {:induction false} InlineComesFromRest(a: string, b: string, r: string)
    requires Shut(a, r) && '#' !in b && Inline(a + r)
    ensures Inline(b + r)
  {
    var q :| 0 <= q <= |a + r| && InlineAt(a + r, q);
    if q <= |a| { NoImageInFront(a, r, q); }
    var d := q - |a|;
    SlicePast(a, r, d);
    ShiftedBefore(a, b, r[..d], r[d..]);
    SlicePast(b, r, d);
    assert InlineAt(b + r, |b| + d);
  }

  lemma {:induction false} SlicePast(a: string, r: string, d: nat)
    requires d <= |r|
    ensures (a + r)[..|a| + d] == a + r[..d] && (a + r)[|a| + d..] == r[d..]
  {
  }

  // ---- Tag lines ----

  /** The scalar of a tag line as the rewrite sees it: past blanks other than spaces and tabs
      it does not see an opening quote. */
  function Seen(s: ScalarLine): Scalar { s.scalar.(quoted := s.scalar.quoted && PlainPrefix(s.blanks) == s.blanks) }

  function TagHead(s: ScalarLine): string { s.indent + s.key + ":" + PlainPrefix(s.blanks) }

  /** A tag line with its value replaced. */
  function Retagged(l: string, version: string): string {
    var s := ParseScalar(l);
    if s.Some? then TagHead(s.value) + Replaced(Seen(s.value), version) else l
  }

  predicate TidyTag(l: string) { var s := ParseScalar(l); s.Some? ==> Tidy(Seen(s.value)) }

  predicate FusesTag(l: string) { var s := ParseScalar(l); s.Some? && Fuses(Seen(s.value)) }

  /** The tag line can be rewritten this often, and is read back each time. */
  predicate TagLasts(l: string, n: nat) { var s := ParseScalar(l); s.Some? ==> Lasts(Seen(s.value), 1, n) }

  lemma {:induction false} PlainTwice(s: string)
    ensures PlainPrefix(PlainPrefix(s)) == PlainPrefix(s)
  {
    if s != "" && IsPlainBlank(s[0]) {
      PlainTwice(s[1..]);
      assert ([s[0]] + PlainPrefix(s[1..]))[1..] == PlainPrefix(s[1..]);
    }
  }

  lemma {:induction false} RetaggedParse(l: string, version: string)
    requires FrameOf(l).Some? && CleanVersion(version)
    ensures var n := Retagged(l, version); var s := ParseScalar(l).value;
            && FrameOf(n) == FrameOf(l) && ParseScalar(n).Some? && Scanned(Seen(s))
            && Seen(ParseScalar(n).value) == ParseScalar(n).value.scalar == ParseValue(Replaced(Seen(s), version))
  {
    PrintParsed(l);
    var s := ParseScalar(l).value;
    RewriteReadsBack(Seen(s), version);
    ParsePrinted(s.indent, s.key, PlainPrefix(s.blanks), Replaced(Seen(s), version));
    PlainTwice(s.blanks);
  }

  /** Retagging keeps the frame and reads the new version back exactly unless the value fuses;
      the line lasts one rewrite less then. */
  lemma {:induction false} RetaggedReads(l: string, version: string, n: nat)
    requires FrameOf(l).Some? && CleanVersion(version)
    ensures var m := Retagged(l, version);
            && FrameOf(m) == FrameOf(l) && ValueOf(m) != "" && (ValueOf(m) == version <==> !FusesTag(l))
            && (TidyTag(l) ==> !FusesTag(l) && TidyTag(m))
            && (TagLasts(l, n + 1) <==> !FusesTag(l) && TagLasts(m, n))
  {
    RetaggedParse(l, version);
    RewriteReadsBack(Seen(ParseScalar(l).value), version);
    LastsOneLess(Seen(ParseScalar(l).value), version, n);
  }

  predicate Free(s: string, c: char) { c !in s }

  lemma {:induction false} FreeConcat(a: string, b: string, c: char)
    ensures Free(a + b, c) <==> Free(a, c) && Free(b, c)
  {
  }

  /** A character of no version, `tag:` head or quote is in a retagged line only if it was. */
  lemma {:induction false} RetaggedFree(l: string, version: string, c: char)
    requires ParseScalar(l).Some? && Free(l, c) && Free(version, c) && c != '"'
    ensures Free(Retagged(l, version), c)
  {
    PrintParsed(l);
    var s := ParseScalar(l).value;
    var h := s.indent + s.key + ":";
    FreeConcat(Head(s), Source(s.scalar), c);
    FreeConcat(h, s.blanks, c);
    SourceFree(s.scalar, c);
    assert Free(PlainPrefix(s.blanks), c);
    FreeConcat(h, PlainPrefix(s.blanks), c);
    FreeConcat(ScalarLike(Seen(s).quoted, version), s.scalar.rest, c);
    FreeConcat(h + PlainPrefix(s.blanks), Replaced(Seen(s), version), c);
  }

  lemma {:induction false} SourceFree(s: Scalar, c: char)
    requires Free(Source(s), c)
    ensures Free(s.value, c) && Free(s.rest, c)
  {
    FreeConcat(s.value, After(s), c);
    FreeConcat("\"", s.value + After(s), c);
    FreeConcat("\"", s.rest, c);
  }

  /** One colon, not after an `e`: no `image:` anywhere. */
  lemma {:induction false} NoImageIn(x: string, y: string)
    requires Free(x, ':') && Free(y, ':') && x != "" && x[|x| - 1] != 'e'
    ensures forall q :: 0 <= q <= |x + ":" + y| ==> !OpensAt(x + ":" + y, q)
  {
    var a := x + ":" + y;
    forall q | 0 <= q <= |a| ensures !OpensAt(a, q) {
      var t := a[q..];
      if |t| >= |IMAGE| {
        assert t[..|IMAGE|][5] == t[5] == a[q + 5] && t[..|IMAGE|][4] == t[4] == a[q + 4];
        assert q + 5 != |x| ==> a[q + 5] != ':';
        assert a[|x| - 1] == x[|x| - 1];
      }
    }
  }

  lemma {:induction false} AllFree(s: string, among: Class, c: char)
    requires All(s, among) && !In(c, among)
    ensures Free(s, c)
  {
  }

  /** Everything of a tag line before the rest: head and value. */
  function TagFront(s: ScalarLine, version: string): string {
    TagHead(s) + ScalarLike(Seen(s).quoted, version)
  }

  lemma {:induction false} FrontIsShut(s: ScalarLine, version: string)
    requires IsKey(s.indent, s.key) && s.key == "tag" && Scanned(s.scalar) && !Fuses(Seen(s))
    requires CleanVersion(version) && Free(version, ':')
    ensures Shut(TagFront(s, version), s.scalar.rest)
  {
    var v := ScalarLike(Seen(s).quoted, version);
    var y := PlainPrefix(s.blanks) + v;
    var x := s.indent + s.key;
    assert TagFront(s, version) == x + ":" + y;
    AllFree(s.indent, Blank, ':');
    AllFree(PlainPrefix(s.blanks), Blank, ':');
    FreeConcat(s.indent, s.key, ':');
    FreeConcat("\"", version, ':');
    FreeConcat("\"" + version, "\"", ':');
    FreeConcat(PlainPrefix(s.blanks), v, ':');
    assert x[|x| - 1] == s.key[2] == 'g';
    NoImageIn(x, y);
    RewriteReadsBack(Seen(s), version);
    if Seen(s).quoted {
      assert TagFront(s, version)[|TagFront(s, version)| - 1] == '"';
    }
  }

  lemma {:induction false} HeadFree(s: ScalarLine)
    requires IsKey(s.indent, s.key) && All(s.blanks, Blank)
    ensures Free(Head(s), '#')
  {
    AllFree(s.indent, Blank, '#');
    AllFree(s.key, Key, '#');
    AllFree(s.blanks, Blank, '#');
    FreeConcat(s.indent, s.key, '#');
    FreeConcat(s.indent + s.key, ":", '#');
    FreeConcat(s.indent + s.key + ":", s.blanks, '#');
  }

  /** What stands before the rest of a scalar: quotes and value. */
  function Quoted(s: Scalar): string {
    (if s.quoted then "\"" else "") + (s.value + (if s.closed then "\"" else ""))
  }

  lemma {:induction false} QuotedFree(s: Scalar)
    requires All(s.value, Value)
    ensures Free(Quoted(s), '#') && Source(s) == Quoted(s) + s.rest
  {
    var q, e := if s.quoted then "\"" else "", if s.closed then "\"" else "";
    AllFree(s.value, Value, '#');
    FreeConcat(s.value, e, '#');
    FreeConcat(q, s.value + e, '#');
    assert After(s) == e + s.rest;
    assert s.value + (e + s.rest) == (s.value + e) + s.rest;
    Assoc(q, s.value + e, s.rest);
  }

  lemma {:induction false} OldFront(s: ScalarLine)
    requires IsKey(s.indent, s.key) && All(s.blanks, Blank) && All(s.scalar.value, Value)
    ensures exists b :: Free(b, '#') && Head(s) + Source(s.scalar) == b + s.scalar.rest
  {
    HeadFree(s);
    QuotedFree(s.scalar);
    FreeConcat(Head(s), Quoted(s.scalar), '#');
    Assoc(Head(s), Quoted(s.scalar), s.scalar.rest);
  }

  lemma {:induction false} RetaggedParts(l: string, version: string) returns (a: string, b: string, r: string)
    requires FrameOf(l).Some? && FrameOf(l).value.key == "tag" && !FusesTag(l)
    requires CleanVersion(version) && Free(version, ':')
    ensures l == b + r && Retagged(l, version) == a + r && Shut(a, r) && Free(b, '#')
  {
    PrintParsed(l);
    var s := ParseScalar(l).value;
    r := s.scalar.rest;
    a := TagFront(s, version);
    FrontIsShut(s, version);
    OldFront(s);
    b :| Free(b, '#') && Head(s) + Source(s.scalar) == b + s.scalar.rest;
    Assoc(TagHead(s), ScalarLike(Seen(s).quoted, version), r);
  }

  /** Retagging makes no line an inline image. */
  lemma {:induction false} RetaggedNotInline(l: string, version: string)
    requires FrameOf(l).Some? && FrameOf(l).value.key == "tag" && !FusesTag(l)
    requires CleanVersion(version) && Free(version, ':')
    ensures Inline(Retagged(l, version)) ==> Inline(l)
  {
    var a, b, r := RetaggedParts(l, version);
    if Inline(a + r) { InlineComesFromRest(a, b, r); }
  }

  // ---- The image tags of a file ----

  lemma {:induction false} OnlyTag(marks: seq<Option<string>>, n: nat, i: nat, c: string)
    requires n <= |marks|
    ensures TagsUpTo(marks, n) == [ImageTag(i, c)] <==>
            i < n && marks[i] == Some(c) && forall j :: 0 <= j < n && j != i ==> marks[j].None?
  {
    if n > 0 {
      OnlyTag(marks, n - 1, i, c);
      NoTag(marks, n - 1);
      var init := TagsUpTo(marks, n - 1);
      if marks[n - 1].Some? {
        assert TagsUpTo(marks, n)[..|init|] == init;
      }
    }
  }

  lemma {:induction false} NoTag(marks: seq<Option<string>>, n: nat)
    requires n <= |marks|
    ensures TagsUpTo(marks, n) == [] <==> forall j :: 0 <= j < n ==> marks[j].None?
  {
    if n > 0 { NoTag(marks, n - 1); }
  }

  /** The in-place loop over the image tags that hold the current version. */
  function Retag(lines: seq<string>, tags: seq<ImageTag>, current: string, version: string): (out: seq<string>)
    ensures |out| == |lines|
    decreases |tags|
  {
    if tags == [] then lines
    else
      var t := tags[0];
      var next := if t.value == current && t.line < |lines| then lines[t.line := Retagged(lines[t.line], version)] else lines;
      Retag(next, tags[1..], current, version)
  }

  lemma {:induction false} RetagOne(lines: seq<string>, i: nat, current: string, version: string)
    requires i < |lines|
    ensures Retag(lines, [ImageTag(i, current)], current, version) == lines[i := Retagged(lines[i], version)]
  {
    assert [ImageTag(i, current)][1..] == [];
  }

  /** When one image tag line changes only its value, the marks change only there. */
  lemma {:induction false} MarksMove(lines: seq<string>, out: seq<string>, i: nat, j: nat)
    requires |out| == |lines| && i < |lines| && j < |lines| && OutlineOf(out) == OutlineOf(lines)
    requires IsImageTag(lines, i) && ValueOf(out[i]) != "" && (i != j ==> out[j] == lines[j])
    ensures MarkAt(out, j) == if i == j then Some(ValueOf(out[i])) else MarkAt(lines, j)
  {
    assert OutlineOf(out)[i] == OutlineOf(lines)[i];
  }

  lemma {:induction false} MarksAfter(lines: seq<string>, out: seq<string>, i: nat)
    requires |out| == |lines| && i < |lines| && OutlineOf(out) == OutlineOf(lines)
    requires IsImageTag(lines, i) && ValueOf(out[i]) != ""
    requires forall j :: 0 <= j < |lines| && j != i ==> out[j] == lines[j]
    ensures Marks(out) == Marks(lines)[i := Some(ValueOf(out[i]))]
  {
    forall j | 0 <= j < |lines| ensures Marks(out)[j] == if i == j then Some(ValueOf(out[i])) else Marks(lines)[j] {
      MarksMove(lines, out, i, j);
    }
  }

  lemma {:induction false} RelabelOnly(marks: seq<Option<string>>, i: nat, c: string, v: string)
    requires i < |marks| && TagsUpTo(marks, |marks|) == [ImageTag(i, c)]
    ensures marks[i].Some? && TagsUpTo(marks[i := Some(v)], |marks|) == [ImageTag(i, v)]
  {
    OnlyTag(marks, |marks|, i, c);
    OnlyTag(marks[i := Some(v)], |marks|, i, v);
  }

  lemma {:induction false} OneTagReads(lines: seq<string>, i: nat, current: string, version: string)
    requires ImageTags(lines) == [ImageTag(i, current)] && CleanVersion(version) && i < |lines|
    ensures IsImageTag(lines, i) && FrameOf(lines[i]).Some? && FrameOf(lines[i]).value.key == "tag"
    ensures var out := lines[i := Retagged(lines[i], version)];
            ImageTags(out) == [ImageTag(i, ValueOf(out[i]))] && (ValueOf(out[i]) == version <==> !FusesTag(lines[i]))
  {
    var out := lines[i := Retagged(lines[i], version)];
    RelabelOnly(Marks(lines), i, current, ValueOf(out[i]));
    assert MarkAt(lines, i).Some?;
    RetaggedReads(lines[i], version, 0);
    assert OutlineOf(out) == OutlineOf(lines);
    MarksAfter(lines, out, i);
  }

  /** A file with one image tag, at the current version: afterwards it has the one tag, and
      every other line is the same. The tag reads the new version exactly unless it fuses, and
      if it does not, no inline image appears. */
  lemma {:induction false} OneTagMoves(lines: seq<string>, i: nat, current: string, version: string)
    requires ImageTags(lines) == [ImageTag(i, current)] && !AnyInline(lines)
    requires CleanVersion(version) && Free(version, ':') && i < |lines|
    ensures var out := Retag(lines, ImageTags(lines), current, version);
            && out == lines[i := Retagged(lines[i], version)]
            && ImageTags(out) == [ImageTag(i, ValueOf(out[i]))] && (ValueOf(out[i]) == version <==> !FusesTag(lines[i]))
            && (!FusesTag(lines[i]) ==> !AnyInline(out))
  {
    RetagOne(lines, i, current, version);
    OneTagReads(lines, i, current, version);
    if !FusesTag(lines[i]) {
      RetaggedNotInline(lines[i], version);
      var out := lines[i := Retagged(lines[i], version)];
      forall j | 0 <= j < |out| ensures !Inline(out[j]) {
        assert !Inline(lines[j]);
      }
    }
  }

  // ---- The chart ----

  /** What one image tag says about the current version. */
  function PlanTags(tags: seq<ImageTag>, current: string): Plan {
    if tags == [] then Move(AppVersionOnly, current)
    else if |tags| > 1 || tags[0].value in FLOATING || tags[0].value != current then Refuse
    else Move(Both, current)
  }

  function PlanLines(lines: seq<string>, current: string): Plan {
    if AnyInline(lines) then Refuse else PlanTags(ImageTags(lines), current)
  }

  /** `PlanFor` */
  function PlanSingle(files: Files, t: Target): (p: Plan) {
    if t.chart.None? then Skip
    else if t.chart.value !in files then Error
    else PlanParts(AppOf(files[t.chart.value]), if t.values in files then Some(Lines(files[t.values])) else None)
  }

  function AppOf(text: string): Option<string> {
    var m := App.Find(text);
    if m.None? then None else Some(m.value.scalar.value)
  }

  function PlanParts(current: Option<string>, values: Option<seq<string>>): Plan {
    if current.None? then Skip
    else if values.None? then PlanTags([], current.value)
    else PlanLines(values.value, current.value)
  }

  function RetagText(text: string, current: string, version: string): string {
    Join(Retag(Lines(text), ImageTags(Lines(text)), current, version), '\n')
  }

  /** `Apply`: Chart.yaml first, then, if the tag moves along, values.yaml. */
  function ApplySingle(files: Files, t: Target, action: Action, current: string, version: string): (out: Files)
    requires t.chart.Some? && t.chart.value in files && (action.Both? ==> t.values in files)
  {
    var moved := files[t.chart.value := App.Replace(files[t.chart.value], version)];
    if action.Both? then moved[t.values := RetagText(files[t.values], current, version)] else moved
  }

  predicate TidyTags(lines: seq<string>) { forall i :: 0 <= i < |lines| && IsImageTag(lines, i) ==> TidyTag(lines[i]) }

  /** The image tag lines can be rewritten this often. */
  predicate TagsLast(lines: seq<string>, n: nat) { forall i :: 0 <= i < |lines| && IsImageTag(lines, i) ==> TagLasts(lines[i], n) }

  /** The chart can be moved this often, and is read back each time. */
  predicate LastingSingle(files: Files, t: Target, a: Action, n: nat) {
    && (t.chart.Some? && t.chart.value in files ==> AppTextLasts(files[t.chart.value], n))
    && (a.Both? && t.values in files ==> TagsLast(Lines(files[t.values]), n))
  }

  predicate TidySingle(files: Files, t: Target) {
    && (t.chart.Some? && t.chart.value in files ==> TidyApp(files[t.chart.value]))
    && (t.values in files ==> TidyTags(Lines(files[t.values])))
  }

  lemma {:induction false} TagIsThere(marks: seq<Option<string>>, n: nat, k: nat)
    requires n <= |marks| && k < |TagsUpTo(marks, n)|
    ensures var t := TagsUpTo(marks, n)[k]; t.line < n && marks[t.line] == Some(t.value)
  {
    var init := TagsUpTo(marks, n - 1);
    if k < |init| { TagIsThere(marks, n - 1, k); }
  }

  lemma {:induction false} OnlyTagLasts(lines: seq<string>, i: nat, v: string, n: nat)
    requires ImageTags(lines) == [ImageTag(i, v)] && i < |lines|
    ensures TagsLast(lines, n) <==> TagLasts(lines[i], n)
  {
    OnlyTag(Marks(lines), |lines|, i, v);
    assert MarkAt(lines, i).Some?;
    assert forall j :: 0 <= j < |lines| && IsImageTag(lines, j) ==> Marks(lines)[j] == MarkAt(lines, j);
  }

  ghost predicate RetaggedAt(lines: seq<string>, out: seq<string>, version: string, i: nat) {
    i < |lines| && IsImageTag(lines, i) && out == lines[i := Retagged(lines[i], version)]
  }

  /** One image tag line is rewritten; all others are the same. */
  ghost predicate OneLineMoved(lines: seq<string>, out: seq<string>, version: string) {
    exists i :: RetaggedAt(lines, out, version, i)
  }

  lemma {:induction false} TheTag(lines: seq<string>, current: string) returns (i: nat)
    requires PlanLines(lines, current) == Move(Both, current)
    ensures i < |lines| && ImageTags(lines) == [ImageTag(i, current)] && !AnyInline(lines)
  {
    i := ImageTags(lines)[0].line;
    TagIsThere(Marks(lines), |lines|, 0);
  }

  lemma {:induction false} OneTagPlan(lines: seq<string>, i: nat, v: string, version: string)
    requires ImageTags(lines) == [ImageTag(i, v)] && version !in FLOATING && (v == version ==> !AnyInline(lines))
    ensures PlanLines(lines, version) == Move(Both, version) <==> v == version
  {
  }

  lemma {:induction false} TagLastsNext(l: string, version: string, n: nat)
    requires FrameOf(l).Some? && CleanVersion(version)
    ensures TagLasts(l, n + 1) <==> !FusesTag(l) && TagLasts(Retagged(l, version), n)
  {
    RetaggedReads(l, version, n);
  }

  /** The lines of a values file whose tag moves along last one move more than the moved ones,
      if planning reports this one. */
  lemma {:induction false} LinesMoveIff(lines: seq<string>, current: string, version: string, n: nat) returns (i: nat)
    requires PlanLines(lines, current) == Move(Both, current)
    requires CleanVersion(version) && Free(version, ':') && version !in FLOATING
    ensures var out := Retag(lines, ImageTags(lines), current, version);
            && RetaggedAt(lines, out, version, i)
            && (TagsLast(lines, n + 1) <==> PlanLines(out, version) == Move(Both, version) && TagsLast(out, n))
  {
    i := TheTag(lines, current);
    OneTagReads(lines, i, current, version);
    OneTagMoves(lines, i, current, version);
    var out := Retag(lines, ImageTags(lines), current, version);
    OneTagPlan(out, i, ValueOf(out[i]), version);
    OnlyTagLasts(lines, i, current, n + 1);
    OnlyTagLasts(out, i, ValueOf(out[i]), n);
    TagLastsNext(lines[i], version, n);
  }

  lemma {:induction false} Rejoined(text: string, i: nat, n: string)
    requires i < |Lines(text)| && Free(n, '\n')
    ensures Lines(Join(Lines(text)[i := n], '\n')) == Lines(text)[i := n]
  {
    SplitPartsFree(text, '\n');
    SplitJoin(Lines(text)[i := n], '\n');
  }

  lemma {:induction false} LineFree(text: string, i: nat)
    requires i < |Lines(text)|
    ensures Free(Lines(text)[i], '\n')
  {
    SplitPartsFree(text, '\n');
  }

  lemma {:induction false} RetagTextLines(text: string, i: nat, current: string, version: string)
    requires RetaggedAt(Lines(text), Retag(Lines(text), ImageTags(Lines(text)), current, version), version, i) && CleanVersion(version)
    ensures Lines(RetagText(text, current, version)) == Retag(Lines(text), ImageTags(Lines(text)), current, version)
  {
    LineFree(text, i);
    AllFree(version, Value, '\n');
    RetaggedFree(Lines(text)[i], version, '\n');
    Rejoined(text, i, Retagged(Lines(text)[i], version));
  }

  /** The values file of a chart whose tag moves along. */
  lemma {:induction false} ValuesMoveIff(text: string, current: string, version: string, n: nat)
    requires PlanLines(Lines(text), current) == Move(Both, current)
    requires CleanVersion(version) && Free(version, ':') && version !in FLOATING
    ensures var out := Lines(RetagText(text, current, version));
            && (TagsLast(Lines(text), n + 1) <==> PlanLines(out, version) == Move(Both, version) && TagsLast(out, n))
            && OneLineMoved(Lines(text), out, version)
  {
    var i := LinesMoveIff(Lines(text), current, version, n);
    RetagTextLines(text, i, current, version);
  }

  function ValuesIn(files: Files, t: Target): Option<seq<string>> {
    if t.values in files then Some(Lines(files[t.values])) else None
  }

  lemma {:induction false} PlannedParts(files: Files, t: Target, a: Action, c: string)
    requires PlanSingle(files, t) == Move(a, c)
    ensures t.chart.Some? && t.chart.value in files && AppOf(files[t.chart.value]) == Some(c)
    ensures PlanParts(Some(c), ValuesIn(files, t)) == Move(a, c)
    ensures a.Both? ==> t.values in files && PlanLines(Lines(files[t.values]), c) == Move(Both, c)
  {
  }

  lemma {:induction false} PlanOfParts(files: Files, t: Target, c: string)
    requires t.chart.Some? && t.chart.value in files && AppOf(files[t.chart.value]) == Some(c)
    ensures PlanSingle(files, t) == PlanParts(Some(c), ValuesIn(files, t))
  {
  }

  /** The files after applying, one by one. */
  ghost predicate AppliedSingle(files: Files, out: Files, t: Target, a: Action, c: string, version: string)
    requires t.chart.Some? && t.chart.value in files && (a.Both? ==> t.values in files)
  {
    && out.Keys == files.Keys
    && out[t.chart.value] == App.Replace(files[t.chart.value], version)
    && (t.values in files ==>
          out[t.values] == if a.Both? then RetagText(files[t.values], c, version) else files[t.values])
    && forall f :: f in files && Some(f) != t.chart && f != t.values ==> out[f] == files[f]
  }

  lemma {:induction false} SingleFiles(files: Files, t: Target, a: Action, c: string, version: string)
    requires t.chart.Some? && t.chart.value in files && (a.Both? ==> t.values in files) && t.chart != Some(t.values)
    ensures AppliedSingle(files, ApplySingle(files, t, a, c, version), t, a, c, version)
  {
  }

  /** The plan of what is applied: the new version, if appVersion and, where it moves along,
      the tag read it. */
  lemma {:induction false} AppliedPlanIff(files: Files, out: Files, t: Target, version: string, a: Action, c: string)
    requires PlanSingle(files, t) == Move(a, c) && CleanVersion(version)
    requires t.chart.Some? && t.chart.value in files && (a.Both? ==> t.values in files)
    requires AppliedSingle(files, out, t, a, c, version)
    ensures PlanSingle(out, t) == Move(a, version) <==>
            && AppText(App.Replace(files[t.chart.value], version)) == version
            && (a.Both? ==> PlanLines(Lines(RetagText(files[t.values], c, version)), version) == Move(Both, version))
  {
    PlannedParts(files, t, a, c);
    var app := ReplacedApp(files[t.chart.value], version);
    PlanOfParts(out, t, app);
    if a.AppVersionOnly? {
      NoTagPlan(ValuesIn(files, t), c, app);
    } else {
      PlannedAction(files, t, a, c);
      OwnVersion(Lines(out[t.values]), app, version);
    }
  }

  lemma {:induction false} ReplacedApp(text: string, version: string) returns (app: string)
    requires App.Find(text).Some? && CleanVersion(version)
    ensures app == AppText(App.Replace(text, version)) && AppOf(App.Replace(text, version)) == Some(app)
  {
    App.ReplaceReadsBack(text, version);
    app := AppText(App.Replace(text, version));
  }

  /** A plan of lines speaks of the version that it is asked about. */
  lemma {:induction false} OwnVersion(lines: seq<string>, current: string, version: string)
    ensures PlanLines(lines, current) == Move(Both, version) <==> current == version && PlanLines(lines, version) == Move(Both, version)
  {
  }

  lemma {:induction false} NoTagPlan(values: Option<seq<string>>, c: string, current: string)
    requires PlanParts(Some(c), values) == Move(AppVersionOnly, c)
    ensures PlanParts(Some(current), values) == Move(AppVersionOnly, current)
  {
  }

  lemma {:induction false} PlannedAction(files: Files, t: Target, a: Action, c: string)
    requires PlanSingle(files, t) == Move(a, c)
    ensures a.Both? || a.AppVersionOnly?
  {
  }

  /** A planned chart, applied: one line of values.yaml changes, if any, and no other file.
      Planning again reports the new version, with the same action, exactly when the chart lasts
      a move, and it lasts one move less then. */
  lemma {:induction false} SingleMovesIff(files: Files, t: Target, version: string, a: Action, c: string, n: nat)
    requires PlanSingle(files, t) == Move(a, c) && t.chart != Some(t.values)
    requires CleanVersion(version) && Free(version, ':') && version !in FLOATING
    ensures t.chart.Some? && t.chart.value in files && (a.Both? ==> t.values in files)
    ensures var out := ApplySingle(files, t, a, c, version);
            && AppliedSingle(files, out, t, a, c, version)
            && (LastingSingle(files, t, a, n + 1) <==> PlanSingle(out, t) == Move(a, version) && LastingSingle(out, t, a, n))
    ensures a.Both? ==> OneLineMoved(Lines(files[t.values]), Lines(RetagText(files[t.values], c, version)), version)
  {
    PlannedParts(files, t, a, c);
    PlannedAction(files, t, a, c);
    SingleFiles(files, t, a, c, version);
    AppliedPlanIff(files, ApplySingle(files, t, a, c, version), t, version, a, c);
    OwnAppIff(files[t.chart.value], version, n);
    if a.Both? { ValuesMoveIff(files[t.values], c, version, n); }
  }

  predicate FusesApp(text: string) { var m := App.Find(text); m.Some? && Fuses(m.value.scalar) }

  predicate AnyTagFuses(lines: seq<string>) { exists i :: 0 <= i < |lines| && IsImageTag(lines, i) && FusesTag(lines[i]) }

  /** One move lasts exactly when neither appVersion nor a tag that moves along fuses. */
  lemma {:induction false} LastsOneMove(files: Files, t: Target, a: Action, c: string)
    requires PlanSingle(files, t) == Move(a, c)
    ensures t.chart.Some? && t.chart.value in files && (a.Both? ==> t.values in files)
    ensures LastingSingle(files, t, a, 1) <==>
            !FusesApp(files[t.chart.value]) && (a.Both? ==> !AnyTagFuses(Lines(files[t.values])))
  {
    PlannedParts(files, t, a, c);
    AppLastsOne(files[t.chart.value]);
    if a.Both? {
      var lines := Lines(files[t.values]);
      forall i | 0 <= i < |lines| && IsImageTag(lines, i) ensures TagLasts(lines[i], 1) <==> !FusesTag(lines[i]) { TagLastsOne(lines[i]); }
    }
  }

  lemma {:induction false} TagLastsOne(l: string)
    requires FrameOf(l).Some?
    ensures TagLasts(l, 1) <==> !FusesTag(l)
  {
    PrintParsed(l);
    LastsOneLess(Seen(ParseScalar(l).value), "0", 0);
  }

  lemma {:induction false} AppLastsOne(text: string)
    requires App.Find(text).Some?
    ensures AppTextLasts(text, 1) <==> !FusesApp(text)
  {
    App.FindScanned(text);
    LastsOneLess(App.Find(text).value.scalar, "0", 0);
  }

  lemma {:induction false} TidySingleLasts(files: Files, t: Target, a: Action, n: nat)
    requires TidySingle(files, t)
    ensures LastingSingle(files, t, a, n)
  {
    if t.chart.Some? && t.chart.value in files { TidyAppLasts(files[t.chart.value], n); }
    if t.values in files {
      var lines := Lines(files[t.values]);
      forall i | 0 <= i < |lines| && IsImageTag(lines, i) ensures TagLasts(lines[i], n) {
        PrintParsed(lines[i]);
        TidyLasts(Seen(ParseScalar(lines[i]).value), 1, n);
      }
    }
  }

  /** The two files are not written as one step: with Chart.yaml written and values.yaml not,
      every later run refuses the chart, unless the written appVersion fuses. */
  lemma {:induction false} HalfAppliedIsRefused(files: Files, t: Target, version: string, c: string)
    requires PlanSingle(files, t) == Move(Both, c) && t.chart != Some(t.values)
    requires CleanVersion(version) && version != c
    ensures t.chart.Some? && t.chart.value in files
    ensures !FusesApp(files[t.chart.value]) ==>
              PlanSingle(files[t.chart.value := App.Replace(files[t.chart.value], version)], t) == Refuse
  {
    PlannedParts(files, t, Both, c);
    if !FusesApp(files[t.chart.value]) {
      App.ReplaceReadsBack(files[t.chart.value], version);
      HalfParts(files, t, App.Replace(files[t.chart.value], version), c, version);
    }
  }

  lemma {:induction false} HalfParts(files: Files, t: Target, text: string, c: string, version: string)
    requires t.chart.Some? && t.chart.value in files && t.chart != Some(t.values) && AppOf(text) == Some(version) && version != c
    requires t.values in files && PlanLines(Lines(files[t.values]), c) == Move(Both, c)
    ensures PlanSingle(files[t.chart.value := text], t) == Refuse
  {
    PlanOfParts(files[t.chart.value := text], t, version);
    HalfMoved(Lines(files[t.values]), c, version);
  }

  lemma {:induction false} HalfMoved(lines: seq<string>, c: string, version: string)
    requires PlanLines(lines, c) == Move(Both, c) && version != c
    ensures PlanLines(lines, version) == Refuse
  {
  }

  // ---- What a plan says, on the files alone ----

  /** A valued line whose full path ends in `image.tag`. */
  ghost predicate TagPath(lines: seq<string>, i: nat) {
    && i < |lines| && ValueOf(lines[i]) != "" && OutlineOf(lines)[i].Some?
    && var p := PathOf(OutlineOf(lines), i); |p| >= 2 && p[|p| - 2..] == ["image", "tag"]
  }

  /** There is one such line, and it holds this value. */
  ghost predicate OneTagPath(lines: seq<string>, v: string) {
    exists i: nat :: TagPath(lines, i) && ValueOf(lines[i]) == v && forall j: nat :: TagPath(lines, j) ==> j == i
  }

  lemma {:induction false} MarksAre(lines: seq<string>, i: nat)
    ensures TagPath(lines, i) <==> i < |lines| && Marks(lines)[i].Some?
    ensures TagPath(lines, i) ==> Marks(lines)[i] == Some(ValueOf(lines[i]))
  {
    if i < |lines| { ImageTagPath(lines, i); }
  }

  lemma {:induction false} TagsIff(lines: seq<string>, v: string)
    ensures ImageTags(lines) == [] <==> forall i: nat :: !TagPath(lines, i)
    ensures (exists i: nat :: ImageTags(lines) == [ImageTag(i, v)]) <==> OneTagPath(lines, v)
  {
    forall i: nat ensures TagPath(lines, i) <==> i < |lines| && Marks(lines)[i].Some? { MarksAre(lines, i); }
    NoTag(Marks(lines), |lines|);
    forall i: nat ensures ImageTags(lines) == [ImageTag(i, v)] <==>
                          TagPath(lines, i) && ValueOf(lines[i]) == v && forall j: nat :: TagPath(lines, j) ==> j == i
    {
      OnlyTag(Marks(lines), |lines|, i, v);
      MarksAre(lines, i);
    }
  }

  lemma {:induction false} PlanTagsIff(tags: seq<ImageTag>, current: string)
    ensures PlanTags(tags, current) == Move(Both, current) <==>
            (exists i: nat :: tags == [ImageTag(i, current)]) && current !in {"latest", "main", "stable", "edge"}
    ensures PlanTags(tags, current) == Move(AppVersionOnly, current) <==> tags == []
  {
    if |tags| == 1 { assert tags == [ImageTag(tags[0].line, tags[0].value)]; }
  }

  lemma {:induction false} PlanLinesIff(lines: seq<string>, current: string)
    ensures PlanLines(lines, current) == Move(Both, current) <==>
            !AnyInline(lines) && OneTagPath(lines, current) && current !in {"latest", "main", "stable", "edge"}
    ensures PlanLines(lines, current) == Move(AppVersionOnly, current) <==> !AnyInline(lines) && forall i: nat :: !TagPath(lines, i)
  {
    TagsIff(lines, current);
    PlanTagsIff(ImageTags(lines), current);
  }

  /** A chart is skipped exactly when it has no Chart.yaml or that has no appVersion, and fails
      exactly when Chart.yaml cannot be read. Its tag moves along exactly when values.yaml has
      one image tag, which holds the appVersion and is a pin; it has none to move exactly when
      there is none in sight; and otherwise it is refused. */
  lemma {:induction false} PlanSingleIff(files: Files, t: Target)
    ensures PlanSingle(files, t) == Error <==> t.chart.Some? && t.chart.value !in files
    ensures PlanSingle(files, t) == Skip <==> t.chart.None? || (t.chart.value in files && AppText(files[t.chart.value]) == "")
    ensures t.chart.Some? && t.chart.value in files && AppText(files[t.chart.value]) != "" ==>
              var c, p := AppText(files[t.chart.value]), PlanSingle(files, t);
              && (p == Move(Both, c) <==>
                    t.values in files && !AnyInline(Lines(files[t.values])) && OneTagPath(Lines(files[t.values]), c) && c !in {"latest", "main", "stable", "edge"})
              && (p == Move(AppVersionOnly, c) <==>
                    t.values !in files || (!AnyInline(Lines(files[t.values])) && forall i: nat :: !TagPath(Lines(files[t.values]), i)))
              && (p == Move(Both, c) || p == Move(AppVersionOnly, c) || p == Refuse)
  {
    if t.chart.Some? && t.chart.value in files {
      AppTextByLines(files[t.chart.value]);
      if t.values in files { PlanLinesIff(Lines(files[t.values]), AppText(files[t.chart.value])); }
    }
  }
}
