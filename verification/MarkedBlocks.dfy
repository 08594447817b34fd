/** Marked blocks of generated documentation (`ReplaceMarkedBlock`): replacing one is
    idempotent, keeps everything around it, and commutes with replacing another. */
module MarkedBlocks {
  import opened Text

  // ---- Tags ----

  predicate IsOpener(c: char) { c == '{' || c == '<' }
  predicate IsCloser(c: char) { c == '}' || c == '>' }

  /** Neither bracket nor line break. */
  predicate IsPlain(s: string) { forall i :: 0 <= i < |s| ==> !IsOpener(s[i]) && !IsCloser(s[i]) && s[i] != '\n' }

  /** A text between two brackets that holds none. */
  predicate IsTag(t: string) {
    |t| >= 2 && IsOpener(t[0]) && IsCloser(t[|t| - 1]) && IsPlain(t[1..|t| - 1])
  }

  lemma {:induction false} TagChar(t: string, i: nat)
    requires IsTag(t) && i < |t|
    ensures t[i] != '\n' && (IsOpener(t[i]) <==> i == 0) && (IsCloser(t[i]) <==> i == |t| - 1)
  {
    if 0 < i < |t| - 1 { assert t[1..|t| - 1][i - 1] == t[i]; }
  }

  /** Where no occurrence of a tag can straddle: at a line break, or next to a tag. */
  ghost predicate CleanSeam(a: string, b: string) {
    || a == "" || b == "" || a[|a| - 1] == '\n' || b[0] == '\n' || IsOpener(b[0]) || EndsInTag(a)
  }

  ghost predicate EndsInTag(a: string) { exists p: string, t: string :: a == p + t && IsTag(t) }

  lemma {:induction false} TagIsClosed(a: string)
    requires EndsInTag(a)
    ensures a != "" && IsCloser(a[|a| - 1])
  {
    var p, t :| a == p + t && IsTag(t);
    assert a[|a| - 1] == t[|t| - 1];
  }

  lemma {:induction false} NoStraddle(a: string, b: string, m: string, i: nat)
    requires IsTag(m) && CleanSeam(a, b) && At(a + b, m, i)
    ensures i + |m| <= |a| || |a| <= i
  {
    if EndsInTag(a) { TagIsClosed(a); }
    if i < |a| < i + |m| {
      var s := a + b;
      assert m == s[i..i + |m|];
      var k := |a| - i;
      assert m[k] == b[0] && m[k - 1] == a[|a| - 1];
      TagChar(m, k);
      TagChar(m, k - 1);
    }
  }

  lemma {:induction false} AtInPart(pre: string, x: string, m: string, j: nat)
    requires |pre| <= j
    ensures At(pre + x, m, j) <==> At(x, m, j - |pre|)
  {
    var s, i := pre + x, j - |pre|;
    if j + |m| <= |s| { assert s[j..j + |m|] == x[i..i + |m|]; }
  }

  lemma {:induction false} AtPrefix(a: string, b: string, m: string, i: nat)
    requires i + |m| <= |a|
    ensures At(a + b, m, i) <==> At(a, m, i)
  {
    var s := a + b;
    assert s[i..i + |m|] == a[i..i + |m|];
  }

  /** Across a clean seam a tag occurs on one side or on the other. */
  lemma {:induction false} OccursConcat(a: string, b: string, m: string)
    requires IsTag(m) && CleanSeam(a, b)
    ensures Occurs(a + b, m) <==> Occurs(a, m) || Occurs(b, m)
  {
    if Occurs(a + b, m) {
      var i :| 0 <= i && At(a + b, m, i);
      NoStraddle(a, b, m, i);
      if i + |m| <= |a| { AtPrefix(a, b, m, i); } else { AtInPart(a, b, m, i); }
    }
    if Occurs(a, m) {
      var i :| 0 <= i && At(a, m, i);
      AtPrefix(a, b, m, i);
    }
    if Occurs(b, m) {
      var i :| 0 <= i && At(b, m, i);
      AtInPart(a, b, m, |a| + i);
    }
  }

  /** A part holds no more than the whole. */
  lemma {:induction false} OccursIn(a: string, b: string, c: string, m: string)
    requires Occurs(b, m)
    ensures Occurs(a + b + c, m)
  {
    var i :| 0 <= i && At(b, m, i);
    var s := a + b + c;
    assert s[|a| + i..|a| + i + |m|] == b[i..i + |m|];
    assert At(s, m, |a| + i);
  }

  /** One tag in another: they are the same. */
  lemma {:induction false} TagInTag(t: string, m: string)
    requires IsTag(t) && IsTag(m)
    ensures Occurs(t, m) <==> t == m
  {
    if Occurs(t, m) {
      var i :| 0 <= i && At(t, m, i);
      assert m[0] == t[i] && m[|m| - 1] == t[i + |m| - 1];
      TagChar(t, i);
      TagChar(t, i + |m| - 1);
      assert t[0..|t|] == t;
    }
    if t == m {
      assert t[0..0 + |m|] == t;
      assert At(t, m, 0);
    }
  }

  // ---- Markers ----

  const SYNTAXES := 3
  const LEGACY := 2

  function Bracket(k: nat): char { if k == LEGACY then '<' else '{' }

  function Comment(k: nat): string { if k == 0 then "/* " else if k == 1 then "/*" else "!-- " }

  const TOOL := "docs-version-sync:"

  function Opening(k: nat): string { [Bracket(k)] + (Comment(k) + TOOL) }

  function Closing(k: nat): string { if k == 0 then " */}" else if k == 1 then "*/}" else " -->" }

  /** `markerSyntaxes`; the last is the legacy one. */
  function Begin(k: nat, marker: string): string { Opening(k) + ("BEGIN " + marker + Closing(k)) }
  function End(k: nat, marker: string): string { Opening(k) + ("END " + marker + Closing(k)) }

  lemma {:induction false} PlainConcat(a: string, b: string)
    requires IsPlain(a) && IsPlain(b)
    ensures IsPlain(a + b)
  {
  }

  lemma {:induction false} TagOf(open: string, middle: string, close: string)
    requires |open| >= 1 && IsOpener(open[0]) && IsPlain(open[1..]) && IsPlain(middle)
    requires |close| >= 1 && IsCloser(close[|close| - 1]) && IsPlain(close[..|close| - 1])
    ensures IsTag(open + (middle + close))
  {
    var t := open + (middle + close);
    PlainConcat(open[1..], middle);
    PlainConcat(open[1..] + middle, close[..|close| - 1]);
    assert t[1..|t| - 1] == open[1..] + middle + close[..|close| - 1];
  }

  lemma {:induction false} OpeningIsPlain(k: nat)
    ensures var s := Opening(k); |s| >= 1 && IsOpener(s[0]) && IsPlain(s[1..])
  {
    ToolIsPlain();
    assert IsPlain(Comment(k));
    PlainConcat(Comment(k), TOOL);
    assert Opening(k)[1..] == Comment(k) + TOOL;
  }

  lemma {:induction false} ToolIsPlain()
    ensures IsPlain(TOOL)
  {
  }

  lemma {:induction false} ClosingIsPlain(k: nat)
    ensures var s := Closing(k); |s| >= 1 && IsCloser(s[|s| - 1]) && IsPlain(s[..|s| - 1])
  {
  }

  lemma {:induction false} WordsArePlain()
    ensures IsPlain("BEGIN ") && IsPlain("END ")
  {
  }

  lemma {:induction false} MarkersAreTags(k: nat, marker: string)
    requires IsPlain(marker)
    ensures IsTag(Begin(k, marker)) && IsTag(End(k, marker))
  {
    OpeningIsPlain(k);
    ClosingIsPlain(k);
    WordsArePlain();
    PlainConcat("BEGIN ", marker);
    PlainConcat("END ", marker);
    TagOf(Opening(k), "BEGIN " + marker, Closing(k));
    TagOf(Opening(k), "END " + marker, Closing(k));
    assert Opening(k) + ("BEGIN " + marker + Closing(k)) == Begin(k, marker);
  }

  lemma {:induction false} OpeningsDiffer(j: nat, k: nat, x: string, y: string)
    requires j < SYNTAXES && k < SYNTAXES && Opening(j) + x == Opening(k) + y
    ensures j == k && x == y
  {
    var s, t := Opening(j) + x, Opening(k) + y;
    assert s[0] == t[0] && s[3] == t[3];
    assert s[0] == Bracket(j) && t[0] == Bracket(k);
    assert s[|Opening(j)|..] == x && t[|Opening(k)|..] == y;
  }

  lemma {:induction false} BeginIsNotEnd(j: nat, m: string, k: nat, n: string)
    requires j < SYNTAXES && k < SYNTAXES
    ensures Begin(j, m) != End(k, n)
  {
    var x, y := "BEGIN " + m + Closing(j), "END " + n + Closing(k);
    assert x[0] == 'B' && y[0] == 'E';
    if Begin(j, m) == End(k, n) { OpeningsDiffer(j, k, x, y); }
  }

  lemma {:induction false} BeginsDiffer(j: nat, m: string, k: nat, n: string)
    requires j < SYNTAXES && k < SYNTAXES && Begin(j, m) == Begin(k, n)
    ensures j == k && m == n
  {
    var x, y := "BEGIN " + m + Closing(j), "BEGIN " + n + Closing(k);
    OpeningsDiffer(j, k, x, y);
    assert |m| == |n|;
    assert x[6..6 + |m|] == m && y[6..6 + |n|] == n;
  }

  // ---- Syntaxes ----

  /** The begin and end tags of the syntaxes, the legacy one last. */
  datatype Syntaxes = Syntaxes(begins: seq<string>, ends: seq<string>)

  type Tags = g: Syntaxes | |g.begins| == SYNTAXES && |g.ends| == SYNTAXES witness Syntaxes(["", "", ""], ["", "", ""])

  /** `markerSyntaxes` */
  function TagsOf(marker: string): (g: Tags) {
    Syntaxes([Begin(0, marker), Begin(1, marker), Begin(2, marker)], [End(0, marker), End(1, marker), End(2, marker)])
  }

  predicate AllTags(ts: seq<string>) { forall k :: 0 <= k < |ts| ==> IsTag(ts[k]) }

  /** What the proofs need of them. */
  ghost predicate Proper(g: Tags) {
    && AllTags(g.begins) && AllTags(g.ends)
    && (forall j, k :: 0 <= j < SYNTAXES && 0 <= k < SYNTAXES && g.begins[j] == g.begins[k] ==> j == k)
    && (forall j, k :: 0 <= j < SYNTAXES && 0 <= k < SYNTAXES ==> g.begins[j] != g.ends[k])
  }

  lemma {:induction false} TagsAreProper(marker: string)
    requires IsPlain(marker)
    ensures Proper(TagsOf(marker))
  {
    var g := TagsOf(marker);
    forall k | 0 <= k < SYNTAXES ensures IsTag(g.begins[k]) && IsTag(g.ends[k]) && g.begins[k] == Begin(k, marker) && g.ends[k] == End(k, marker) {
      MarkersAreTags(k, marker);
    }
    forall j, k | 0 <= j < SYNTAXES && 0 <= k < SYNTAXES ensures g.begins[j] != g.ends[k] {
      BeginIsNotEnd(j, marker, k, marker);
    }
    forall j, k | 0 <= j < SYNTAXES && 0 <= k < SYNTAXES && g.begins[j] == g.begins[k] ensures j == k {
      BeginsDiffer(j, marker, k, marker);
    }
  }

  // ---- Finding and replacing ----

  datatype Selection = NoneYet | Chosen(k: nat, index: nat) | Duplicate

  /** What one more syntax does to the selection. */
  function Pick(before: Selection, content: string, tag: string, k: nat): Selection {
    var i := IndexFrom(content, tag, 0);
    if before.Duplicate? || i.None? then before
    else if before.Chosen? || IndexFrom(content, tag, i.value + |tag|).Some? then Duplicate
    else Chosen(k, i.value)
  }

  /** The loop over the first `n` syntaxes. */
  function Select(content: string, g: Tags, n: nat): (r: Selection)
    requires n <= SYNTAXES
    ensures r.Chosen? ==> r.k < n && r.index + |g.begins[r.k]| <= |content|
  {
    if n == 0 then NoneYet else Pick(Select(content, g, n - 1), content, g.begins[n - 1], n - 1)
  }

  datatype Block = Block(k: nat, begin: nat, start: nat, end: nat)

  predicate Fits(content: string, g: Tags, s: Selection) {
    s.Chosen? ==> s.k < SYNTAXES && s.index + |g.begins[s.k]| <= |content|
  }

  /** The end tag after the chosen begin tag. */
  function FindEnd(content: string, g: Tags, s: Selection): (b: Option<Block>)
    requires Fits(content, g, s)
    ensures b.Some? ==> b.value.k < SYNTAXES
    ensures b.Some? ==> b.value.begin <= b.value.start <= b.value.end && b.value.end + |g.ends[b.value.k]| <= |content|
  {
    if !s.Chosen? then None
    else
      var start := s.index + |g.begins[s.k]|;
      var e := IndexFrom(content, g.ends[s.k], start);
      if e.None? then None else Some(Block(s.k, s.index, start, e.value))
  }

  /** `findMarkedBlock` */
  function FindBlock(content: string, g: Tags): (b: Option<Block>)
    ensures b.Some? ==> b.value.k < SYNTAXES
    ensures b.Some? ==> b.value.begin <= b.value.start <= b.value.end && b.value.end + |g.ends[b.value.k]| <= |content|
  {
    FindEnd(content, g, Select(content, g, SYNTAXES))
  }

  /** `strings.TrimRight(s, "\n")` */
  function TrimBreaks(s: string): (t: string)
    ensures |t| <= |s| && t == s[..|t|]
  {
    if s != "" && s[|s| - 1] == '\n' then TrimBreaks(s[..|s| - 1]) else s
  }

  function Replacement(rendered: string): string {
    if TrimSpace(rendered) == "" then "\n\n" else "\n\n" + TrimBreaks(rendered) + "\n\n"
  }

  /** `ReplaceMarkedBlock`; it reports a change when the result differs from the content. */
  function Replace(content: string, g: Tags, rendered: string): (r: Option<string>) {
    var found := FindBlock(content, g);
    if found.None? then None
    else
      var b := found.value;
      if b.k == LEGACY then
        Some(content[..b.begin] + g.begins[0] + Replacement(rendered) + g.ends[0] + content[b.end + |g.ends[b.k]|..])
      else Some(content[..b.start] + Replacement(rendered) + content[b.end..])
  }

  /** `findMarkedBlock`, as its loop runs. */
  method FindMarkedBlock(content: string, g: Tags) returns (b: Option<Block>)
    ensures b == FindBlock(content, g)
  {
    var s := NoneYet;
    for n := 0 to SYNTAXES
      invariant s == Select(content, g, n) && !s.Duplicate?
    {
      s := Pick(s, content, g.begins[n], n);
      if s.Duplicate? {
        DuplicateStays(content, g, n + 1, SYNTAXES);
        return None;
      }
    }
    return FindEnd(content, g, s);
  }

  lemma {:induction false} DuplicateStays(content: string, g: Tags, n: nat, m: nat)
    requires n <= m <= SYNTAXES && Select(content, g, n).Duplicate?
    ensures Select(content, g, m).Duplicate?
  {
    if n < m { DuplicateStays(content, g, n, m - 1); }
  }

  // ---- Where a block stands ----

  ghost predicate NoBegin(s: string, g: Tags) { forall j :: 0 <= j < SYNTAXES ==> !Occurs(s, g.begins[j]) }

  /** The content around and inside the one block of a g. */
  datatype Parts = Parts(before: string, k: nat, inside: string, after: string)

  function Print(p: Parts, g: Tags): string
    requires p.k < SYNTAXES
  {
    p.before + (g.begins[p.k] + (p.inside + (g.ends[p.k] + p.after)))
  }

  ghost predicate Located(p: Parts, g: Tags) {
    && p.k < SYNTAXES && NoBegin(p.before, g) && NoBegin(p.inside, g) && NoBegin(p.after, g)
    && !Occurs(p.inside, g.ends[p.k])
  }

  lemma {:induction false} TagSeam(t: string, b: string)
    requires IsTag(t)
    ensures CleanSeam(t, b)
  {
    assert t == "" + t;
  }

  /** A begin tag occurs in the printed parts only as the block's own. */
  lemma {:induction false} BeginsOf(p: Parts, g: Tags, j: nat)
    requires Proper(g) && p.k < SYNTAXES && j < SYNTAXES
    requires NoBegin(p.inside, g) && NoBegin(p.after, g)
    ensures !Occurs(p.inside + (g.ends[p.k] + p.after), g.begins[j])
    ensures NoBegin(p.before, g) ==> (Occurs(Print(p, g), g.begins[j]) <==> j == p.k)
  {
    var b, e, m := g.begins[p.k], g.ends[p.k], g.begins[j];
    TagSeam(e, p.after);
    OccursConcat(e, p.after, m);
    TagInTag(e, m);
    assert (e + p.after)[0] == e[0];
    OccursConcat(p.inside, e + p.after, m);
    var rest := p.inside + (e + p.after);
    TagSeam(b, rest);
    OccursConcat(b, rest, m);
    TagInTag(b, m);
    assert (b + rest)[0] == b[0];
    OccursConcat(p.before, b + rest, m);
  }

  lemma {:induction false} AtBefore(x: string, y: string, m: string, j: nat)
    requires IsTag(m) && CleanSeam(x, y) && j < |x|
    ensures At(x + y, m, j) <==> At(x, m, j)
  {
    var s := x + y;
    if At(s, m, j) { NoStraddle(x, y, m, j); }
    if j + |m| <= |x| { AtPrefix(x, y, m, j); }
  }

  /** The first occurrence past a part that holds none, before a tag. */
  lemma {:induction false} FirstAfter(pre: string, x: string, m: string, post: string)
    requires IsTag(m) && !Occurs(x, m)
    ensures IndexFrom(pre + (x + (m + post)), m, |pre|) == Some(|pre| + |x|)
  {
    var y := x + (m + post);
    var i := |pre| + |x|;
    assert y[|x|..|x| + |m|] == m;
    AtInPart(pre, y, m, i);
    assert (m + post)[0] == m[0];
    forall j | |pre| <= j < i ensures !At(pre + y, m, j) {
      AtInPart(pre, y, m, j);
      AtBefore(x, m + post, m, j - |pre|);
    }
  }

  lemma {:induction false} NoneFrom(pre: string, x: string, m: string)
    requires !Occurs(x, m)
    ensures IndexFrom(pre + x, m, |pre|) == None
  {
    forall j | |pre| <= j ensures !At(pre + x, m, j) { AtInPart(pre, x, m, j); }
  }

  lemma {:induction false} OccursFound(s: string, m: string)
    ensures IndexFrom(s, m, 0).Some? <==> Occurs(s, m)
  {
  }

  /** Which syntax the loop chooses. */
  lemma {:induction false} SelectIff(content: string, g: Tags, k: nat, i: nat)
    requires k < SYNTAXES
    ensures Select(content, g, SYNTAXES) == Chosen(k, i) <==>
            && (forall j :: 0 <= j < SYNTAXES && j != k ==> !Occurs(content, g.begins[j]))
            && IndexFrom(content, g.begins[k], 0) == Some(i)
            && IndexFrom(content, g.begins[k], i + |g.begins[k]|) == None
  {
    OccursFound(content, g.begins[0]);
    OccursFound(content, g.begins[1]);
    OccursFound(content, g.begins[2]);
    var s1, s2 := Select(content, g, 1), Select(content, g, 2);
    assert Select(content, g, 0) == NoneYet;
  }

  lemma {:induction false} PrintSplits(p: Parts, g: Tags)
    requires p.k < SYNTAXES
    ensures var b, e := g.begins[p.k], g.ends[p.k];
            var rest := p.inside + (e + p.after);
            && Print(p, g) == "" + (p.before + (b + rest))
            && Print(p, g) == (p.before + b) + rest
  {
    var b, rest := g.begins[p.k], p.inside + (g.ends[p.k] + p.after);
    assert (p.before + b) + rest == p.before + (b + rest);
  }

  lemma {:induction false} LocatedIsSelected(p: Parts, g: Tags)
    requires Proper(g) && Located(p, g)
    ensures Select(Print(p, g), g, SYNTAXES) == Chosen(p.k, |p.before|)
  {
    var c, b := Print(p, g), g.begins[p.k];
    var rest := p.inside + (g.ends[p.k] + p.after);
    forall j | 0 <= j < SYNTAXES && j != p.k ensures !Occurs(c, g.begins[j]) { BeginsOf(p, g, j); }
    BeginsOf(p, g, p.k);
    PrintSplits(p, g);
    FirstAfter("", p.before, b, rest);
    NoneFrom(p.before + b, rest, b);
    SelectIff(c, g, p.k, |p.before|);
  }

  /** Parts that stand apart are found where they were put. */
  lemma {:induction false} LocatedIsFound(p: Parts, g: Tags)
    requires Proper(g) && Located(p, g)
    ensures var b := |p.before| + |g.begins[p.k]|;
            FindBlock(Print(p, g), g) == Some(Block(p.k, |p.before|, b, b + |p.inside|))
  {
    LocatedIsSelected(p, g);
    EndIsFound(p, g);
  }

  lemma {:induction false} EndIsFound(p: Parts, g: Tags)
    requires Proper(g) && p.k < SYNTAXES && !Occurs(p.inside, g.ends[p.k])
    ensures var b := |p.before| + |g.begins[p.k]|;
            Fits(Print(p, g), g, Chosen(p.k, |p.before|)) &&
            FindEnd(Print(p, g), g, Chosen(p.k, |p.before|)) == Some(Block(p.k, |p.before|, b, b + |p.inside|))
  {
    EndIsNext(p, g);
    FindEndIs(Print(p, g), g, Chosen(p.k, |p.before|), |p.before| + |g.begins[p.k]| + |p.inside|);
  }

  lemma {:induction false} EndIsNext(p: Parts, g: Tags)
    requires Proper(g) && p.k < SYNTAXES && !Occurs(p.inside, g.ends[p.k])
    ensures var b := |p.before| + |g.begins[p.k]|;
            b <= |Print(p, g)| && IndexFrom(Print(p, g), g.ends[p.k], b) == Some(b + |p.inside|)
  {
    assert IsTag(g.ends[p.k]);
    EndAfter(Print(p, g), p.before, g.begins[p.k], p.inside, g.ends[p.k], p.after);
  }

  lemma {:induction false} EndAfter(c: string, before: string, b: string, x: string, e: string, post: string)
    requires IsTag(e) && !Occurs(x, e) && c == before + (b + (x + (e + post)))
    ensures |before| + |b| <= |c| && IndexFrom(c, e, |before| + |b|) == Some(|before| + |b| + |x|)
  {
    NextTag(before, b, x, e, post);
  }

  lemma {:induction false} NextTag(before: string, b: string, x: string, e: string, post: string)
    requires IsTag(e) && !Occurs(x, e)
    ensures IndexFrom(before + (b + (x + (e + post))), e, |before| + |b|) == Some(|before| + |b| + |x|)
  {
    var rest := x + (e + post);
    assert before + (b + rest) == (before + b) + rest;
    FirstAfter(before + b, x, e, post);
  }

  lemma {:induction false} FindEndIs(content: string, g: Tags, s: Selection, e: nat)
    requires s.Chosen? && Fits(content, g, s)
    requires IndexFrom(content, g.ends[s.k], s.index + |g.begins[s.k]|) == Some(e)
    ensures FindEnd(content, g, s) == Some(Block(s.k, s.index, s.index + |g.begins[s.k]|, e))
  {
  }

  function PartsOf(content: string, g: Tags): (p: Parts)
    requires FindBlock(content, g).Some?
    ensures p.k < SYNTAXES
  {
    var b := FindBlock(content, g).value;
    Parts(content[..b.begin], b.k, content[b.start..b.end], content[b.end + |g.ends[b.k]|..])
  }

  lemma {:induction false} PartOccurs(s: string, from: nat, to: nat, m: string, lo: nat)
    requires lo <= from <= to <= |s| && Occurs(s[from..to], m)
    ensures exists i :: lo <= i && i + |m| <= to && At(s, m, i)
    ensures Occurs(s, m)
  {
    var i :| 0 <= i && At(s[from..to], m, i);
    SliceOfSlice(s, from, to, i, i + |m|);
    assert At(s, m, from + i);
  }

  lemma {:induction false} SliceOfSlice(s: string, from: nat, to: nat, i: nat, j: nat)
    requires from <= to <= |s| && i <= j <= to - from
    ensures s[from..to][i..j] == s[from + i..from + j]
  {
    var part := s[from..to];
    var x, y := part[i..j], s[from + i..from + j];
    forall t | 0 <= t < |x| ensures x[t] == y[t] { assert part[i + t] == s[from + (i + t)]; }
  }

  lemma {:induction false} FiveParts(c: string, i: nat, j: nat, k: nat, l: nat)
    requires i <= j <= k <= l <= |c|
    ensures c == c[..i] + (c[i..j] + (c[j..k] + (c[k..l] + c[l..])))
  {
  }

  lemma {:induction false} SelectAt(content: string, g: Tags, n: nat)
    requires n <= SYNTAXES && Select(content, g, n).Chosen?
    ensures var s := Select(content, g, n); At(content, g.begins[s.k], s.index)
  {
    if Select(content, g, n - 1).Chosen? { SelectAt(content, g, n - 1); }
  }

  lemma {:induction false} FoundTags(content: string, g: Tags)
    requires FindBlock(content, g).Some?
    ensures var f := FindBlock(content, g).value;
            && content[f.begin..f.start] == g.begins[f.k] && content[f.end..f.end + |g.ends[f.k]|] == g.ends[f.k]
  {
    SelectAt(content, g, SYNTAXES);
  }

  lemma {:induction false} PrintOfFound(content: string, g: Tags)
    requires FindBlock(content, g).Some?
    ensures Print(PartsOf(content, g), g) == content
  {
    FoundTags(content, g);
    var f := FindBlock(content, g).value;
    PrintOfSlices(content, g, f, PartsOf(content, g));
  }

  lemma {:induction false} PrintOfSlices(content: string, g: Tags, f: Block, p: Parts)
    requires f.k < SYNTAXES && f.begin <= f.start <= f.end && f.end + |g.ends[f.k]| <= |content|
    requires content[f.begin..f.start] == g.begins[f.k] && content[f.end..f.end + |g.ends[f.k]|] == g.ends[f.k]
    requires p == Parts(content[..f.begin], f.k, content[f.start..f.end], content[f.end + |g.ends[f.k]|..])
    ensures Print(p, g) == content
  {
    FiveParts(content, f.begin, f.start, f.end, f.end + |g.ends[f.k]|);
  }

  /** What is found is the one block: the parts around and inside it hold no begin tag. */
  lemma {:induction false} FoundIsLocated(content: string, g: Tags)
    requires Proper(g) && FindBlock(content, g).Some?
    ensures Located(PartsOf(content, g), g) && Print(PartsOf(content, g), g) == content
  {
    PrintOfFound(content, g);
    var f := FindBlock(content, g).value;
    var after := f.end + |g.ends[f.k]|;
    assert content[0..f.begin] == content[..f.begin] && content[after..|content|] == content[after..];
    NoBeginsInPart(content, g, 0, f.begin);
    NoBeginsInPart(content, g, f.start, f.end);
    NoBeginsInPart(content, g, after, |content|);
    if Occurs(content[f.start..f.end], g.ends[f.k]) { PartOccurs(content, f.start, f.end, g.ends[f.k], f.start); }
  }

  lemma {:induction false} NoBeginsInPart(content: string, g: Tags, from: nat, to: nat)
    requires FindBlock(content, g).Some? && from <= to <= |content|
    requires var f := FindBlock(content, g).value; to <= f.begin || f.start <= from
    ensures NoBegin(content[from..to], g)
  {
    forall j | 0 <= j < SYNTAXES ensures !Occurs(content[from..to], g.begins[j]) { NoBeginInPart(content, g, j, from, to); }
  }

  lemma {:induction false} NoBeginInPart(content: string, g: Tags, j: nat, from: nat, to: nat)
    requires FindBlock(content, g).Some? && j < SYNTAXES
    requires from <= to <= |content|
    requires var f := FindBlock(content, g).value; to <= f.begin || f.start <= from
    ensures !Occurs(content[from..to], g.begins[j])
  {
    var f := FindBlock(content, g).value;
    SelectIff(content, g, f.k, f.begin);
    if Occurs(content[from..to], g.begins[j]) { PartOccurs(content, from, to, g.begins[j], from); }
  }

  /** The current spelling of a syntax: the legacy one becomes the first. */
  function Upgraded(k: nat): nat { if k == LEGACY then 0 else k }

  /** Replacing keeps the text before and after the block as it is; the block ends up with the
      current tags around the new text. */
  lemma {:induction false} ReplaceKeepsAround(content: string, g: Tags, rendered: string)
    requires FindBlock(content, g).Some?
    ensures var p := PartsOf(content, g);
            Replace(content, g, rendered) == Some(Print(Parts(p.before, Upgraded(p.k), Replacement(rendered), p.after), g))
  {
    FoundTags(content, g);
    var f := FindBlock(content, g).value;
    var n := f.end + |g.ends[f.k]|;
    var before, r, after := content[..f.begin], Replacement(rendered), content[n..];
    if f.k == LEGACY {
      Flatten(before, g.begins[0], r, g.ends[0], after);
    } else {
      JoinSlices(content, 0, f.begin, f.start);
      JoinSlices(content, f.end, n, |content|);
      Flatten(before, g.begins[f.k], r, g.ends[f.k], after);
      Group(before, g.begins[f.k], r, g.ends[f.k], after);
    }
  }

  lemma {:induction false} JoinSlices(c: string, i: nat, j: nat, k: nat)
    requires i <= j <= k <= |c|
    ensures c[i..k] == c[i..j] + c[j..k]
    ensures i == 0 ==> c[..k] == c[..j] + c[j..k]
    ensures k == |c| ==> c[i..] == c[i..j] + c[j..]
  {
  }

  lemma {:induction false} Flatten(a: string, b: string, r: string, e: string, z: string)
    ensures a + b + r + e + z == a + (b + (r + (e + z)))
  {
  }

  lemma {:induction false} Group(a: string, b: string, r: string, e: string, z: string)
    ensures (a + b) + r + (e + z) == a + (b + (r + (e + z)))
  {
  }

  /** The rendered text holds none of these tags, so neither does what is spliced in. */
  lemma {:induction false} ReplacementIsClean(rendered: string, m: string)
    requires IsTag(m) && !Occurs(rendered, m)
    ensures !Occurs(Replacement(rendered), m)
  {
    var t := TrimBreaks(rendered);
    BreaksAreClean(m);
    assert "" + t + rendered[|t|..] == rendered;
    if Occurs(t, m) { OccursIn("", t, rendered[|t|..], m); }
    OccursConcat("\n\n", t, m);
    OccursConcat("\n\n" + t, "\n\n", m);
  }

  lemma {:induction false} BreaksAreClean(m: string)
    requires IsTag(m)
    ensures !Occurs("\n\n", m)
  {
    forall i | 0 <= i ensures !At("\n\n", m, i) {
      if i + |m| <= 2 { assert "\n\n"[i..i + |m|][0] == '\n'; }
    }
  }

  /** No begin or end tag of the g. */
  ghost predicate HoldsNone(text: string, g: Tags) {
    forall j :: 0 <= j < SYNTAXES ==> !Occurs(text, g.begins[j]) && !Occurs(text, g.ends[j])
  }

  lemma {:induction false} ReplacedIsLocated(p: Parts, g: Tags, rendered: string)
    requires Proper(g) && Located(p, g) && HoldsNone(rendered, g)
    ensures Located(Parts(p.before, Upgraded(p.k), Replacement(rendered), p.after), g)
  {
    forall j | 0 <= j < SYNTAXES ensures !Occurs(Replacement(rendered), g.begins[j]) && !Occurs(Replacement(rendered), g.ends[j]) {
      ReplacementIsClean(rendered, g.begins[j]);
      ReplacementIsClean(rendered, g.ends[j]);
    }
  }

  /** Replacing parts that stand apart. */
  lemma {:induction false} ReplaceLocated(p: Parts, g: Tags, rendered: string)
    requires Proper(g) && Located(p, g)
    ensures Replace(Print(p, g), g, rendered) ==
            Some(Print(Parts(p.before, Upgraded(p.k), Replacement(rendered), p.after), g))
  {
    LocatedIsFound(p, g);
    var c := Print(p, g);
    ReplaceKeepsAround(c, g, rendered);
    PrintedSlices(c, p.before, g.begins[p.k], p.inside, g.ends[p.k], p.after);
  }

  lemma {:induction false} PrintedSlices(c: string, before: string, b: string, inside: string, e: string, after: string)
    requires c == before + (b + (inside + (e + after)))
    ensures var n := |before| + |b|; c[..|before|] == before && c[n..n + |inside|] == inside && c[n + |inside| + |e|..] == after
  {
  }

  /** A second call reports no change, also after a legacy g was upgraded. */
  lemma {:induction false} ReplaceIsIdempotent(content: string, g: Tags, rendered: string)
    requires Proper(g) && HoldsNone(rendered, g)
    ensures var once := Replace(content, g, rendered); once.Some? ==> Replace(once.value, g, rendered) == once
  {
    if FindBlock(content, g).Some? {
      var p := PartsOf(content, g);
      FoundIsLocated(content, g);
      ReplaceKeepsAround(content, g, rendered);
      ReplacedIsLocated(p, g, rendered);
      ReplaceLocated(Parts(p.before, Upgraded(p.k), Replacement(rendered), p.after), g, rendered);
    }
  }

  // ---- Two blocks ----

  /** No begin tag of one is a tag of the other. */
  ghost predicate Strangers(g: Tags, h: Tags) {
    forall j, k :: 0 <= j < SYNTAXES && 0 <= k < SYNTAXES ==>
      g.begins[j] != h.begins[k] && g.begins[j] != h.ends[k] && h.begins[j] != g.ends[k]
  }

  lemma {:induction false} DifferentMarkers(m: string, n: string)
    requires m != n
    ensures Strangers(TagsOf(m), TagsOf(n))
  {
    var g, h := TagsOf(m), TagsOf(n);
    forall j, k | 0 <= j < SYNTAXES && 0 <= k < SYNTAXES
      ensures g.begins[j] != h.begins[k] && g.begins[j] != h.ends[k] && h.begins[j] != g.ends[k]
    {
      TagsDiffer(m, n, j, k);
      TagsAt(m, j);
      TagsAt(m, k);
      TagsAt(n, j);
      TagsAt(n, k);
    }
  }

  lemma {:induction false} TagsAt(m: string, k: nat)
    requires k < SYNTAXES
    ensures TagsOf(m).begins[k] == Begin(k, m) && TagsOf(m).ends[k] == End(k, m)
  {
  }

  lemma {:induction false} TagsDiffer(m: string, n: string, j: nat, k: nat)
    requires m != n && j < SYNTAXES && k < SYNTAXES
    ensures Begin(j, m) != Begin(k, n) && Begin(j, m) != End(k, n) && Begin(j, n) != End(k, m)
  {
    BeginIsNotEnd(j, m, k, n);
    BeginIsNotEnd(j, n, k, m);
    if Begin(j, m) == Begin(k, n) { BeginsDiffer(j, m, k, n); }
  }

  lemma {:induction false} NoBeginConcat(a: string, b: string, g: Tags)
    requires Proper(g) && NoBegin(a, g) && NoBegin(b, g) && CleanSeam(a, b)
    ensures NoBegin(a + b, g)
  {
    forall j | 0 <= j < SYNTAXES ensures !Occurs(a + b, g.begins[j]) { OccursConcat(a, b, g.begins[j]); }
  }

  lemma {:induction false} NoBeginPart(a: string, b: string, c: string, g: Tags)
    requires NoBegin(a + b + c, g)
    ensures NoBegin(b, g)
  {
    forall j | 0 <= j < SYNTAXES ensures !Occurs(b, g.begins[j]) {
      if Occurs(b, g.begins[j]) { OccursIn(a, b, c, g.begins[j]); }
    }
  }

  lemma {:induction false} ForeignTag(t: string, g: Tags)
    requires Proper(g) && IsTag(t) && forall j :: 0 <= j < SYNTAXES ==> g.begins[j] != t
    ensures NoBegin(t, g)
  {
    forall j | 0 <= j < SYNTAXES ensures !Occurs(t, g.begins[j]) { TagInTag(t, g.begins[j]); }
  }

  /** A whole foreign block, followed by more. */
  lemma {:induction false} ForeignBlock(b: string, x: string, e: string, rest: string, g: Tags)
    requires Proper(g) && IsTag(b) && IsTag(e)
    requires forall j :: 0 <= j < SYNTAXES ==> g.begins[j] != b && g.begins[j] != e
    requires NoBegin(x, g) && NoBegin(rest, g)
    ensures NoBegin(b + (x + (e + rest)), g)
  {
    ForeignTag(b, g);
    ForeignTag(e, g);
    TagSeam(e, rest);
    NoBeginConcat(e, rest, g);
    assert (e + rest)[0] == e[0];
    NoBeginConcat(x, e + rest, g);
    TagSeam(b, x + (e + rest));
    NoBeginConcat(b, x + (e + rest), g);
  }

  lemma {:induction false} Replaced(rendered: string, g: Tags)
    requires Proper(g) && HoldsNone(rendered, g)
    ensures NoBegin(Replacement(rendered), g)
  {
    forall j | 0 <= j < SYNTAXES ensures !Occurs(Replacement(rendered), g.begins[j]) {
      ReplacementIsClean(rendered, g.begins[j]);
    }
  }

  /** Two blocks one after the other, and what stands around them. */
  datatype TwoBlocks = TwoBlocks(before: string, j: nat, x: string, middle: string, k: nat, y: string, after: string)

  function First(w: TwoBlocks, h: Tags): Parts
    requires w.k < SYNTAXES
  {
    Parts(w.before, w.j, w.x, w.middle + (h.begins[w.k] + (w.y + (h.ends[w.k] + w.after))))
  }

  function Second(w: TwoBlocks, g: Tags): Parts
    requires w.j < SYNTAXES
  {
    Parts(w.before + (g.begins[w.j] + (w.x + (g.ends[w.j] + w.middle))), w.k, w.y, w.after)
  }

  lemma {:induction false} SamePrint(w: TwoBlocks, g: Tags, h: Tags)
    requires w.j < SYNTAXES && w.k < SYNTAXES
    ensures Print(First(w, h), g) == Print(Second(w, g), h)
  {
    var s := h.begins[w.k] + (w.y + (h.ends[w.k] + w.after));
    var b, x, e := g.begins[w.j], w.x, g.ends[w.j];
    assert w.before + (b + (x + (e + (w.middle + s)))) == (w.before + (b + (x + (e + w.middle)))) + s;
  }

  ghost predicate BothLocated(w: TwoBlocks, g: Tags, h: Tags) {
    w.j < SYNTAXES && w.k < SYNTAXES && Located(First(w, h), g) && Located(Second(w, g), h)
  }

  /** The text around a block holds no begin tag when the whole holds none. */
  lemma {:induction false} AroundBlock(before: string, b: string, x: string, e: string, after: string, g: Tags)
    requires NoBegin(before + (b + (x + (e + after))), g)
    ensures NoBegin(before, g) && NoBegin(after, g)
  {
    var inner := b + (x + (e + after));
    assert "" + before + inner == before + inner;
    NoBeginPart("", before, inner, g);
    var front := before + (b + (x + e));
    assert front + after + "" == before + inner;
    NoBeginPart(front, after, "", g);
  }

  /** A foreign block put between texts that hold no begin tag. */
  lemma {:induction false} WithBlock(before: string, b: string, x: string, e: string, after: string, g: Tags)
    requires Proper(g) && IsTag(b) && IsTag(e)
    requires forall j :: 0 <= j < SYNTAXES ==> g.begins[j] != b && g.begins[j] != e
    requires NoBegin(before, g) && NoBegin(x, g) && NoBegin(after, g)
    ensures NoBegin(before + (b + (x + (e + after))), g)
  {
    ForeignBlock(b, x, e, after, g);
    var block := b + (x + (e + after));
    assert block[0] == b[0];
    NoBeginConcat(before, block, g);
  }

  lemma {:induction false} FirstMoved(w: TwoBlocks, g: Tags, h: Tags, rendered: string)
    requires Proper(g) && Proper(h) && Strangers(g, h) && BothLocated(w, g, h)
    requires HoldsNone(rendered, g) && HoldsNone(rendered, h)
    ensures BothLocated(w.(j := Upgraded(w.j), x := Replacement(rendered)), g, h)
  {
    var v := w.(j := Upgraded(w.j), x := Replacement(rendered));
    ReplacedIsLocated(First(w, h), g, rendered);
    Replaced(rendered, h);
    AroundBlock(w.before, g.begins[w.j], w.x, g.ends[w.j], w.middle, h);
    WithBlock(w.before, g.begins[v.j], v.x, g.ends[v.j], w.middle, h);
  }

  lemma {:induction false} SecondMoved(w: TwoBlocks, g: Tags, h: Tags, rendered: string)
    requires Proper(g) && Proper(h) && Strangers(g, h) && BothLocated(w, g, h)
    requires HoldsNone(rendered, g) && HoldsNone(rendered, h)
    ensures BothLocated(w.(k := Upgraded(w.k), y := Replacement(rendered)), g, h)
  {
    var v := w.(k := Upgraded(w.k), y := Replacement(rendered));
    ReplacedIsLocated(Second(w, g), h, rendered);
    Replaced(rendered, g);
    AroundBlock(w.middle, h.begins[w.k], w.y, h.ends[w.k], w.after, g);
    WithBlock(w.middle, h.begins[v.k], v.y, h.ends[v.k], w.after, g);
  }

  /** Replacing the one block and the other, in either order. */
  lemma {:induction false} TwoBlocksCommute(w: TwoBlocks, g: Tags, h: Tags, r: string, s: string)
    requires Proper(g) && Proper(h) && Strangers(g, h) && BothLocated(w, g, h)
    requires HoldsNone(r, g) && HoldsNone(r, h) && HoldsNone(s, g) && HoldsNone(s, h)
    ensures var c := Print(First(w, h), g);
            var x, y := Replace(c, g, r), Replace(c, h, s);
            x.Some? && y.Some? && Replace(x.value, h, s) == Replace(y.value, g, r) && Replace(x.value, h, s).Some?
  {
    var u := w.(j := Upgraded(w.j), x := Replacement(r));
    var v := w.(k := Upgraded(w.k), y := Replacement(s));
    var z := u.(k := Upgraded(w.k), y := Replacement(s));
    SamePrint(w, g, h);
    ReplaceLocated(First(w, h), g, r);
    ReplaceLocated(Second(w, g), h, s);
    FirstMoved(w, g, h, r);
    SecondMoved(w, g, h, s);
    SamePrint(u, g, h);
    SamePrint(v, g, h);
    ReplaceLocated(Second(u, g), h, s);
    ReplaceLocated(First(v, h), g, r);
    SamePrint(z, g, h);
  }

  /** The block of the first marker ends where, or before, that of the second begins. */
  predicate Precedes(content: string, g: Tags, h: Tags) {
    var x, y := FindBlock(content, g), FindBlock(content, h);
    x.Some? && y.Some? && x.value.end + |g.ends[x.value.k]| <= y.value.begin
  }

  /** Two ways to cut one text, the first cut before the second. */
  lemma {:induction false} TwoCuts(pb: string, block: string, pa: string, qb: string, tail: string) returns (middle: string)
    requires pb + (block + pa) == qb + tail && |pb| + |block| <= |qb|
    ensures pa == middle + tail && qb == pb + (block + middle)
  {
    var c := pb + (block + pa);
    var n := |pb| + |block|;
    middle := c[n..|qb|];
    assert c[..|qb|] == qb && c[|qb|..] == tail && c[..n] == pb + block && c[n..] == pa;
    assert c[n..] == c[n..|qb|] + c[|qb|..];
    assert c[..|qb|] == c[..n] + c[n..|qb|];
  }

  lemma {:induction false} Regroup(b: string, x: string, e: string, rest: string)
    ensures b + (x + (e + rest)) == (b + (x + e)) + rest
  {
  }

  lemma {:induction false} CutTwo(p: Parts, q: Parts, g: Tags, h: Tags) returns (w: TwoBlocks)
    requires p.k < SYNTAXES && q.k < SYNTAXES && Print(p, g) == Print(q, h)
    requires |p.before| + |g.begins[p.k]| + |p.inside| + |g.ends[p.k]| <= |q.before|
    ensures w.j < SYNTAXES && w.k < SYNTAXES && First(w, h) == p && Second(w, g) == q
  {
    var b, e := g.begins[p.k], g.ends[p.k];
    var tail := h.begins[q.k] + (q.inside + (h.ends[q.k] + q.after));
    Regroup(b, p.inside, e, p.after);
    var middle := TwoCuts(p.before, b + (p.inside + e), p.after, q.before, tail);
    Regroup(b, p.inside, e, middle);
    w := TwoBlocks(p.before, p.k, p.inside, middle, q.k, q.inside, q.after);
  }

  lemma {:induction false} FoundTwo(content: string, g: Tags, h: Tags) returns (w: TwoBlocks)
    requires Proper(g) && Proper(h) && Precedes(content, g, h)
    ensures BothLocated(w, g, h) && Print(First(w, h), g) == content
  {
    FoundIsLocated(content, g);
    FoundIsLocated(content, h);
    FoundLengths(content, g);
    w := CutTwo(PartsOf(content, g), PartsOf(content, h), g, h);
  }

  lemma {:induction false} FoundLengths(content: string, g: Tags)
    requires FindBlock(content, g).Some?
    ensures var f, p := FindBlock(content, g).value, PartsOf(content, g);
            && |p.before| == f.begin && p.k == f.k
            && f.end == |p.before| + |g.begins[p.k]| + |p.inside|
  {
  }

  /** `ReplaceMarkedBlock` */
  function ReplaceMarkedBlock(content: string, marker: string, rendered: string): Option<string> {
    Replace(content, TagsOf(marker), rendered)
  }

  /** No marker of either kind in the text. */
  ghost predicate FreeOf(text: string, marker: string) { HoldsNone(text, TagsOf(marker)) }

  /** The second call changes nothing; a legacy marker is upgraded once. */
  lemma {:induction false} BlockIsIdempotent(content: string, marker: string, rendered: string)
    requires IsPlain(marker) && FreeOf(rendered, marker)
    ensures var once := ReplaceMarkedBlock(content, marker, rendered);
            once.Some? ==> ReplaceMarkedBlock(once.value, marker, rendered) == once
  {
    TagsAreProper(marker);
    ReplaceIsIdempotent(content, TagsOf(marker), rendered);
  }

  /** Two markers whose blocks do not overlap can be replaced in either order. */
  lemma {:induction false} BlocksCommute(content: string, m: string, n: string, r: string, s: string)
    requires IsPlain(m) && IsPlain(n) && m != n
    requires FreeOf(r, m) && FreeOf(r, n) && FreeOf(s, m) && FreeOf(s, n)
    requires Precedes(content, TagsOf(m), TagsOf(n)) || Precedes(content, TagsOf(n), TagsOf(m))
    ensures var x, y := ReplaceMarkedBlock(content, m, r), ReplaceMarkedBlock(content, n, s);
            && x.Some? && y.Some? && ReplaceMarkedBlock(x.value, n, s).Some?
            && ReplaceMarkedBlock(x.value, n, s) == ReplaceMarkedBlock(y.value, m, r)
  {
    TagsAreProper(m);
    TagsAreProper(n);
    DifferentMarkers(m, n);
    DifferentMarkers(n, m);
    if Precedes(content, TagsOf(m), TagsOf(n)) {
      var w := FoundTwo(content, TagsOf(m), TagsOf(n));
      TwoBlocksCommute(w, TagsOf(m), TagsOf(n), r, s);
    } else {
      var w := FoundTwo(content, TagsOf(n), TagsOf(m));
      TwoBlocksCommute(w, TagsOf(n), TagsOf(m), s, r);
    }
  }

  // ---- What a call does, on the texts alone ----

  /** What opens and what closes a tag of each syntax. */
  function OpenText(k: nat): string { (if k == 0 then "{/* " else if k == 1 then "{/*" else "<!-- ") + "docs-version-sync:" }

  function CloseText(k: nat): string { if k == 0 then " */}" else if k == 1 then "*/}" else " -->" }

  function BeginText(k: nat, marker: string): string { OpenText(k) + "BEGIN " + marker + CloseText(k) }
  function EndText(k: nat, marker: string): string { OpenText(k) + "END " + marker + CloseText(k) }

  lemma {:induction false} OpenTexts(k: nat)
    requires k < 3
    ensures Opening(k) == OpenText(k) && Closing(k) == CloseText(k)
  {
    var mark := [Bracket(k)] + Comment(k);
    assert k == 0 ==> mark == "{/* ";
    assert k == 1 ==> mark == "{/*";
    assert k == 2 ==> mark == "<!-- ";
    Regrouped([Bracket(k)], Comment(k), TOOL);
  }

  lemma {:induction false} Regrouped(a: string, b: string, c: string)
    ensures a + (b + c) == (a + b) + c
  {
  }

  lemma {:induction false} Glued(a: string, b: string, c: string, d: string)
    ensures a + (b + c + d) == a + b + c + d
  {
  }

  lemma {:induction false} TagTexts(marker: string, k: nat)
    requires k < 3
    ensures TagsOf(marker).begins[k] == BeginText(k, marker) && TagsOf(marker).ends[k] == EndText(k, marker)
  {
    TagsAt(marker, k);
    OpenTexts(k);
    Glued(Opening(k), "BEGIN ", marker, Closing(k));
    Glued(Opening(k), "END ", marker, Closing(k));
  }

  /** The content has this one block: its tags stand around the inside, no begin tag of the marker
      stands elsewhere, and the first end tag ends it. */
  ghost predicate HasBlock(content: string, marker: string, p: Parts) {
    && p.k < 3
    && content == p.before + (BeginText(p.k, marker) + (p.inside + (EndText(p.k, marker) + p.after)))
    && !Occurs(p.inside, EndText(p.k, marker))
    && forall j :: 0 <= j < 3 ==>
         !Occurs(p.before, BeginText(j, marker)) && !Occurs(p.inside, BeginText(j, marker)) && !Occurs(p.after, BeginText(j, marker))
  }

  predicate AllBreaks(s: string) { forall i :: 0 <= i < |s| ==> s[i] == '\n' }

  /** What goes between the tags: two line breaks for a blank text; else the text without the line
      breaks at its end, with two on either side. */
  ghost predicate IsFilling(rendered: string, filling: string) {
    if AllSpace(rendered) then filling == "\n\n"
    else exists body, breaks :: rendered == body + breaks && AllBreaks(breaks) && body != "" && body[|body| - 1] != '\n' && filling == "\n\n" + body + "\n\n"
  }

  lemma {:induction false} BlankIff(s: string)
    ensures TrimSpace(s) == "" <==> AllSpace(s)
  {
    var a, b := TrimParts(s);
    if AllSpace(s) {
      TrimIs(s, "", "");
      assert s + "" + "" == s;
    }
    if TrimSpace(s) == "" { assert s == a + b; }
  }

  lemma {:induction false} BreaksTrimmed(body: string, breaks: string)
    requires AllBreaks(breaks) && body != "" && body[|body| - 1] != '\n'
    ensures TrimBreaks(body + breaks) == body
  {
    var s := body + breaks;
    if breaks == "" {
      assert s == body;
    } else {
      assert s[..|s| - 1] == body + breaks[..|breaks| - 1];
      BreaksTrimmed(body, breaks[..|breaks| - 1]);
    }
  }

  lemma {:induction false} BreaksOff(s: string) returns (breaks: string)
    ensures AllBreaks(breaks) && s == TrimBreaks(s) + breaks && (TrimBreaks(s) == "" || TrimBreaks(s)[|TrimBreaks(s)| - 1] != '\n')
  {
    if s != "" && s[|s| - 1] == '\n' {
      breaks := BreaksOff(s[..|s| - 1]);
      assert s == s[..|s| - 1] + "\n";
      assert TrimBreaks(s) + (breaks + "\n") == (TrimBreaks(s) + breaks) + "\n";
      breaks := breaks + "\n";
    } else {
      breaks := "";
      assert s == s + "";
    }
  }

  lemma {:induction false} FillingIs(rendered: string, filling: string)
    ensures IsFilling(rendered, filling) <==> filling == Replacement(rendered)
  {
    BlankIff(rendered);
    if !AllSpace(rendered) {
      var breaks := BreaksOff(rendered);
      var body := TrimBreaks(rendered);
      assert "" + breaks == breaks;
      assert rendered == body + breaks && AllBreaks(breaks) && body != "" && body[|body| - 1] != '\n';
      if IsFilling(rendered, filling) {
        var b, r :| rendered == b + r && AllBreaks(r) && b != "" && b[|b| - 1] != '\n' && filling == "\n\n" + b + "\n\n";
        BreaksTrimmed(b, r);
      }
    }
  }

  lemma {:induction false} HasBlockIff(content: string, marker: string, p: Parts)
    ensures HasBlock(content, marker, p) <==> Located(p, TagsOf(marker)) && Print(p, TagsOf(marker)) == content
  {
    TagTexts(marker, 0);
    TagTexts(marker, 1);
    TagTexts(marker, 2);
  }

  /** The call succeeds exactly when the content has one block of the marker. The result is the
      content with the new text inside the tags, a legacy tag brought up to date, and everything
      around them as it was. */
  lemma {:induction false} BlockMeans(content: string, marker: string, rendered: string, out: string)
    requires IsPlain(marker)
    ensures ReplaceMarkedBlock(content, marker, rendered) == Some(out) <==>
            exists p, filling :: HasBlock(content, marker, p) && IsFilling(rendered, filling) && IsReplaced(out, marker, p, filling)
  {
    var g := TagsOf(marker);
    TagsAreProper(marker);
    if ReplaceMarkedBlock(content, marker, rendered) == Some(out) {
      FoundIsLocated(content, g);
      ReplaceKeepsAround(content, g, rendered);
      var p := PartsOf(content, g);
      HasBlockIff(content, marker, p);
      FillingIs(rendered, Replacement(rendered));
      PrintedIff(out, marker, p, Replacement(rendered));
    }
    if p, filling :| HasBlock(content, marker, p) && IsFilling(rendered, filling) && IsReplaced(out, marker, p, filling) {
      HasBlockIff(content, marker, p);
      FillingIs(rendered, filling);
      ReplaceLocated(p, g, rendered);
      PrintedIff(out, marker, p, filling);
    }
  }

  ghost predicate IsReplaced(out: string, marker: string, p: Parts, filling: string) {
    var k := if p.k == 2 then 0 else p.k;
    out == p.before + (BeginText(k, marker) + (filling + (EndText(k, marker) + p.after)))
  }

  lemma {:induction false} PrintedIff(out: string, marker: string, p: Parts, filling: string)
    requires p.k < 3
    ensures IsReplaced(out, marker, p, filling) <==> out == Print(Parts(p.before, Upgraded(p.k), filling, p.after), TagsOf(marker))
  {
    TagTexts(marker, Upgraded(p.k));
  }
}
