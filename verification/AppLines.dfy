/** The `appVersion` of a Chart.yaml whose lines are edited as those of a values file. */
module AppLines {
  import opened Text
  import opened ChartText
  import opened ValuesPath
  import opened ValuesEdit
  import App = AppVersion

  predicate OneLine(l: string) { '\n' !in l }

  predicate OneLines(lines: seq<string>) { forall i :: 0 <= i < |lines| ==> OneLine(lines[i]) }

  // ---- The match, line by line ----

  lemma {:induction false} JoinCons(lines: seq<string>)
    requires |lines| > 1
    ensures Join(lines, '\n') == lines[0] + ['\n'] + Join(lines[1..], '\n')
  {
  }

  /** No line starts inside a line. */
  lemma {:induction false} StartsPast(l: string, rest: string, i: nat)
    requires OneLine(l) && 0 < i
    ensures var text := l + ['\n'] + rest;
            && (App.LineStart(text, i) <==> i > |l| && App.LineStart(rest, i - |l| - 1))
            && (i > |l| && i <= |text| ==> text[i..] == rest[i - |l| - 1..])
  {
    var text := l + ['\n'] + rest;
    forall k | 0 <= k < |text| ensures text[k] == if k < |l| then l[k] else if k == |l| then '\n' else rest[k - |l| - 1] { }
  }

  /** An attempt at a line start, for any kind of attempt. */
  predicate HitBy(text: string, i: nat, attempt: string -> bool) { App.LineStart(text, i) && attempt(text[i..]) }

  function HitsBy(text: string, attempt: string -> bool): nat -> bool { (j: nat) => HitBy(text, j, attempt) }

  lemma {:induction false} HitsPast(l: string, rest: string, i: nat, attempt: string -> bool)
    requires OneLine(l) && 0 < i
    ensures HitBy(l + ['\n'] + rest, i, attempt) <==> i > |l| && HitBy(rest, i - |l| - 1, attempt)
  {
    StartsPast(l, rest, i);
  }

  /** The first hit of a search that starts `d` places later. */
  lemma {:induction false} FirstShifted(hit: nat -> bool, later: nat -> bool, d: nat, m: nat)
    requires (forall i :: 0 <= i < d ==> !hit(i)) && forall i: nat :: hit(d + i) <==> later(i)
    ensures var f := FirstFrom(later, 0, m); FirstFrom(hit, 0, d + m) == if f.None? then None else Some(d + f.value)
  {
    var f := FirstFrom(later, 0, m);
    if f.Some? {
      forall j | 0 <= j < d + f.value ensures !hit(j) {
        if j >= d { assert !later(j - d); assert hit(d + (j - d)) <==> later(j - d); }
      }
      App.FirstIs(hit, d + f.value, d + m);
    } else {
      forall j | 0 <= j <= d + m ensures !hit(j) {
        if j >= d { assert !later(j - d); assert hit(d + (j - d)) <==> later(j - d); }
      }
    }
  }

  lemma {:induction false} FirstPast(l: string, rest: string, attempt: string -> bool)
    requires OneLine(l) && !attempt(l + ['\n'] + rest)
    ensures var text := l + ['\n'] + rest;
            var here, there := FirstFrom(HitsBy(text, attempt), 0, |text|), FirstFrom(HitsBy(rest, attempt), 0, |rest|);
            here == if there.None? then None else Some(|l| + 1 + there.value)
  {
    var text := l + ['\n'] + rest;
    var hit, later := HitsBy(text, attempt), HitsBy(rest, attempt);
    assert text[0..] == text;
    forall i | 0 <= i < |l| + 1 ensures !hit(i) { if i > 0 { HitsPast(l, rest, i, attempt); } }
    forall i: nat ensures hit(|l| + 1 + i) <==> later(i) { HitsPast(l, rest, |l| + 1 + i, attempt); }
    FirstShifted(hit, later, |l| + 1, |rest|);
  }

  /** The attempt of the search for `appVersion`. */
  function Attempt(): string -> bool { (t: string) => App.MatchAt(t).Some? }

  lemma {:induction false} SameFirst(hit: nat -> bool, other: nat -> bool, i: nat, n: nat)
    requires i <= n && forall j :: i <= j <= n ==> hit(j) == other(j)
    ensures FirstFrom(hit, i, n) == FirstFrom(other, i, n)
    decreases n - i
  {
    if i < n { SameFirst(hit, other, i + 1, n); }
  }

  lemma {:induction false} FirstByAttempt(text: string)
    ensures App.FindFirst(text) == FirstFrom(HitsBy(text, Attempt()), 0, |text|)
  {
    forall j | 0 <= j <= |text| ensures App.HitsOf(text)(j) == HitsBy(text, Attempt())(j) { SameHit(text, j); }
    SameFirst(App.HitsOf(text), HitsBy(text, Attempt()), 0, |text|);
  }

  lemma {:induction false} SameHit(text: string, j: nat)
    ensures App.HitsOf(text)(j) == HitsBy(text, Attempt())(j)
  {
  }

  lemma {:induction false} FindAtStart(text: string)
    requires App.MatchAt(text).Some?
    ensures App.Find(text) == App.MatchAt(text)
  {
    assert text[0..] == text;
    assert App.HitsOf(text)(0);
    App.FirstIs(App.HitsOf(text), 0, |text|);
  }

  lemma {:induction false} FindInOne(l: string)
    requires OneLine(l) && App.MatchAt(l).None?
    ensures App.Find(l).None?
  {
    assert l[0..] == l;
    forall i | 0 <= i <= |l| ensures !App.HitsOf(l)(i) {
      assert i > 0 ==> l[i - 1] in l;
    }
  }

  lemma {:induction false} ByAttempt(text: string, rest: string) returns (attempt: string -> bool)
    ensures App.FindFirst(text) == FirstFrom(HitsBy(text, attempt), 0, |text|)
    ensures App.FindFirst(rest) == FirstFrom(HitsBy(rest, attempt), 0, |rest|)
    ensures attempt(text) == App.MatchAt(text).Some?
  {
    attempt := Attempt();
    FirstByAttempt(text);
    FirstByAttempt(rest);
  }

  lemma {:induction false} ShiftedBy(l: string, rest: string, attempt: string -> bool, here: Option<nat>, there: Option<nat>)
    requires OneLine(l) && !attempt(l + ['\n'] + rest)
    requires here == FirstFrom(HitsBy(l + ['\n'] + rest, attempt), 0, |l + ['\n'] + rest|)
    requires there == FirstFrom(HitsBy(rest, attempt), 0, |rest|)
    ensures here == if there.None? then None else Some(|l| + 1 + there.value)
  {
    FirstPast(l, rest, attempt);
  }

  lemma {:induction false} FindFirstPast(l: string, rest: string)
    requires OneLine(l) && App.MatchAt(l + ['\n'] + rest).None?
    ensures var there := App.FindFirst(rest);
            App.FindFirst(l + ['\n'] + rest) == if there.None? then None else Some(|l| + 1 + there.value)
  {
    var attempt := ByAttempt(l + ['\n'] + rest, rest);
    ShiftedBy(l, rest, attempt, App.FindFirst(l + ['\n'] + rest), App.FindFirst(rest));
  }

  lemma {:induction false} FindPast(l: string, rest: string)
    requires OneLine(l) && App.MatchAt(l + ['\n'] + rest).None?
    ensures App.Find(l + ['\n'] + rest) == App.Find(rest)
  {
    FindFirstPast(l, rest);
    var there := App.FindFirst(rest);
    if there.Some? { StartsPast(l, rest, |l| + 1 + there.value); }
  }

  /** The first match of a text is that of its first line, or that of the others. */
  lemma {:induction false} FindByLines(lines: seq<string>)
    requires lines != [] && OneLines(lines)
    ensures App.Find(Join(lines, '\n')) ==
            if App.MatchAt(Join(lines, '\n')).Some? then App.MatchAt(Join(lines, '\n'))
            else if |lines| == 1 then None else App.Find(Join(lines[1..], '\n'))
  {
    var text := Join(lines, '\n');
    if App.MatchAt(text).Some? {
      FindAtStart(text);
    } else if |lines| == 1 {
      FindInOne(lines[0]);
    } else {
      JoinCons(lines);
      FindPast(lines[0], Join(lines[1..], '\n'));
    }
  }

  // ---- What an attempt sees ----

  /** The first text past the blanks of these lines, up to the end of its line. */
  function Ahead(lines: seq<string>): string {
    if lines == [] then ""
    else
      var t := Span(lines[0], Blank).post;
      if t != "" then t else Ahead(lines[1..])
  }

  lemma {:induction false} BlanksRun(l: string, rest: string)
    ensures Span(l + ['\n'] + rest, Blank).post ==
            if Span(l, Blank).post != "" then Span(l, Blank).post + ['\n'] + rest else Span(rest, Blank).post
  {
    var text := l + ['\n'] + rest;
    if l == "" {
      assert text[1..] == rest;
      assert Span(l, Blank).post == "";
    } else if IsBlank(l[0]) {
      assert text[1..] == l[1..] + ['\n'] + rest;
      BlanksRun(l[1..], rest);
      assert Span(text, Blank).post == Span(text[1..], Blank).post;
      assert Span(l, Blank).post == Span(l[1..], Blank).post;
    }
  }

  /** A value ends with its line. */
  lemma {:induction false} ValueInLine(t: string, rest: string)
    requires t != "" && OneLine(t)
    ensures ParseValue(t + ['\n'] + rest).value == ParseValue(t).value
  {
    var more := ['\n'] + rest;
    assert t + ['\n'] + rest == t + more;
    if t[0] == '"' {
      assert (t + more)[1..] == t[1..] + more;
      SpanInLine(t[1..], more);
    } else {
      SpanInLine(t, more);
    }
  }

  lemma {:induction false} SpanInLine(t: string, more: string)
    requires OneLine(t) && Stops(more, Value)
    ensures Span(t + more, Value).pre == Span(t, Value).pre
  {
    if t == "" {
      assert t + more == more;
    } else if IsValueChar(t[0]) {
      assert (t + more)[1..] == t[1..] + more;
      SpanInLine(t[1..], more);
    }
  }

  /** What a value read past the blanks of a text is, by its lines. */
  lemma {:induction false} ReadAhead(lines: seq<string>)
    requires lines != [] && OneLines(lines)
    ensures ParseValue(Span(Join(lines, '\n'), Blank).post).value == ParseValue(Ahead(lines)).value
  {
    if |lines| == 1 {
      assert Ahead(lines[1..]) == "";
    } else {
      JoinCons(lines);
      var rest := Join(lines[1..], '\n');
      BlanksRun(lines[0], rest);
      var t := Span(lines[0], Blank).post;
      if t != "" {
        SpanParts(lines[0], Blank);
        assert OneLine(t);
        ValueInLine(t, rest);
      } else {
        ReadAhead(lines[1..]);
      }
    }
  }

  const HERE := Frame(0, "appVersion")

  /** A line that opens with the key is one whose frame it is. */
  lemma {:induction false} KeyByFrame(l: string)
    ensures App.HasKey(l) <==> FrameOf(l) == Some(HERE)
    ensures App.HasKey(l) ==> Ahead([l[|App.KEY|..]]) == Span(ParseKey(l).value.after, Blank).post
  {
    if App.HasKey(l) {
      var after := l[|App.KEY|..];
      assert l == "" + "appVersion" + ":" + after;
      ParseKeyIs("", "appVersion", after);
      assert [after][1..] == [];
    }
    if FrameOf(l) == Some(HERE) {
      KeyLineParts(l);
      var k := ParseKey(l).value;
      assert k.indent == "" && l == "appVersion" + ":" + k.after;
      assert l[..|App.KEY|] == App.KEY;
    }
  }

  /** What an attempt at the first line reads, if it has the key. */
  function Tail(lines: seq<string>): seq<string>
    requires lines != [] && |lines[0]| >= |App.KEY|
  {
    [lines[0][|App.KEY|..]] + lines[1..]
  }

  lemma {:induction false} TailText(lines: seq<string>)
    requires lines != [] && App.HasKey(lines[0])
    ensures App.HasKey(Join(lines, '\n')) && Join(lines, '\n')[|App.KEY|..] == Join(Tail(lines), '\n')
  {
    var l := lines[0];
    assert l == App.KEY + l[|App.KEY|..];
    if |lines| > 1 {
      JoinCons(lines);
      assert Tail(lines)[1..] == lines[1..];
      JoinCons(Tail(lines));
      var more := ['\n'] + Join(lines[1..], '\n');
      assert Join(lines, '\n') == l + more;
      App.KeyPrefix(l, more);
      assert l[|App.KEY|..] + more == Join(Tail(lines), '\n');
    }
  }

  lemma {:induction false} KeyInLine(lines: seq<string>)
    requires lines != [] && OneLines(lines) && App.HasKey(Join(lines, '\n'))
    ensures App.HasKey(lines[0])
  {
    var text, l := Join(lines, '\n'), lines[0];
    if |lines| > 1 {
      JoinCons(lines);
      assert text[|l|] == '\n' && OneLine(App.KEY);
      assert forall k :: 0 <= k < |App.KEY| ==> App.KEY[k] == text[k];
      assert text[..|App.KEY|] == l[..|App.KEY|];
    }
  }

  /** What the attempt at the first of these lines reads. */
  function ReadFirst(lines: seq<string>): string
    requires lines != []
  {
    if FrameOf(lines[0]) == Some(HERE) && |lines[0]| >= |App.KEY| then ParseValue(Ahead(Tail(lines))).value else ""
  }

  lemma {:induction false} MatchByLines(lines: seq<string>)
    requires lines != [] && OneLines(lines)
    ensures var m := App.MatchAt(Join(lines, '\n'));
            if ReadFirst(lines) == "" then m.None? else m.Some? && m.value.scalar.value == ReadFirst(lines)
  {
    KeyByFrame(lines[0]);
    if App.HasKey(Join(lines, '\n')) { KeyInLine(lines); }
    if App.HasKey(lines[0]) {
      TailText(lines);
      assert OneLines(Tail(lines)) by { assert OneLine(lines[0][|App.KEY|..]); }
      ReadAhead(Tail(lines));
    }
  }

  /** The first of these lines from which something is read, for any reading. */
  function FirstReading(lines: seq<string>, read: seq<string> -> string): (k: Option<nat>)
    ensures k.Some? ==> k.value < |lines| && read(lines[k.value..]) != ""
  {
    if lines == [] then None
    else if read(lines) != "" then assert lines[0..] == lines; Some(0)
    else
      var k := FirstReading(lines[1..], read);
      assert k.Some? ==> lines[1..][k.value..] == lines[k.value + 1..];
      if k.None? then None else Some(k.value + 1)
  }

  lemma {:induction false} FirstReadingIs(lines: seq<string>, read: seq<string> -> string, k: nat)
    requires k < |lines| && read(lines[k..]) != "" && forall j :: 0 <= j < k ==> read(lines[j..]) == ""
    ensures FirstReading(lines, read) == Some(k)
  {
    assert lines[0..] == lines;
    if k > 0 {
      assert lines[1..][k - 1..] == lines[k..];
      forall j | 0 <= j < k - 1 ensures read(lines[1..][j..]) == "" { assert lines[1..][j..] == lines[j + 1..]; }
      FirstReadingIs(lines[1..], read, k - 1);
    }
  }

  lemma {:induction false} BeforeFirstReading(lines: seq<string>, read: seq<string> -> string, j: nat)
    requires var k := FirstReading(lines, read); j < if k.Some? then k.value else |lines|
    ensures read(lines[j..]) == ""
  {
    assert lines[0..] == lines;
    if j > 0 {
      assert lines[1..][j - 1..] == lines[j..];
      BeforeFirstReading(lines[1..], read, j - 1);
    }
  }

  /** The reading of the attempts. */
  function Reads(): seq<string> -> string { (lines: seq<string>) => if lines == [] then "" else ReadFirst(lines) }

  /** The line at which the first match starts. */
  function FirstHit(lines: seq<string>): (k: Option<nat>)
    ensures k.Some? ==> k.value < |lines| && Reads()(lines[k.value..]) != ""
  {
    FirstReading(lines, Reads())
  }

  /** What the whole text reads, line by line. */
  function ReadApp(lines: seq<string>): string {
    var k := FirstHit(lines);
    if k.None? then "" else Reads()(lines[k.value..])
  }

  lemma {:induction false} ReadStep(lines: seq<string>, read: seq<string> -> string)
    requires lines != []
    ensures var k, l := FirstReading(lines, read), FirstReading(lines[1..], read);
            && (read(lines) != "" ==> k == Some(0) && lines[0..] == lines)
            && (read(lines) == "" ==> if l.None? then k.None? else k == Some(l.value + 1) && lines[l.value + 1..] == lines[1..][l.value..])
  {
  }

  lemma {:induction false} ReadAppStep(lines: seq<string>)
    requires lines != []
    ensures ReadApp(lines) == if ReadFirst(lines) != "" then ReadFirst(lines) else ReadApp(lines[1..])
  {
    ReadStep(lines, Reads());
  }

  lemma {:induction false} FindReads(lines: seq<string>)
    requires lines != [] && OneLines(lines)
    ensures var m := App.Find(Join(lines, '\n'));
            if ReadApp(lines) == "" then m.None? else m.Some? && m.value.scalar.value == ReadApp(lines)
  {
    FindByLines(lines);
    MatchByLines(lines);
    ReadAppStep(lines);
    if |lines| > 1 {
      assert OneLines(lines[1..]);
      FindReads(lines[1..]);
    } else {
      assert ReadApp(lines[1..]) == "";
    }
  }

  // ---- Edited lines ----

  /** A line of an edit: the same, or a key line that keeps its frame and goes from one value to
      another. */
  predicate Edits(l: string, n: string) {
    l == n || (FrameOf(l).Some? && FrameOf(n) == FrameOf(l) && ValueOf(l) != "" && ValueOf(n) != "")
  }

  predicate EditsAll(lines: seq<string>, out: seq<string>) {
    |out| == |lines| && forall i :: 0 <= i < |lines| ==> Edits(lines[i], out[i])
  }

  lemma {:induction false} EditsRest(lines: seq<string>, out: seq<string>)
    requires lines != [] && EditsAll(lines, out)
    ensures EditsAll(lines[1..], out[1..]) && Edits(lines[0], out[0])
  {
    forall i | 0 <= i < |lines| - 1 ensures Edits(lines[1..][i], out[1..][i]) { assert Edits(lines[i + 1], out[i + 1]); }
  }

  lemma {:induction false} SpanGrows(p: string, r: string, among: Class)
    requires All(p, among)
    ensures Span(p + r, among).pre == p + Span(r, among).pre
  {
    if p == "" {
      assert p + r == r;
    } else {
      assert (p + r)[0] == p[0] && In(p[0], among);
      assert (p + r)[1..] == p[1..] + r;
      SpanGrows(p[1..], r, among);
      Assoc([p[0]], p[1..], Span(r, among).pre);
      assert p == [p[0]] + p[1..];
    }
  }

  /** Read from its start, a key line gives a value that holds its colon. */
  lemma {:induction false} KeyLineReads(l: string)
    requires FrameOf(l).Some?
    ensures var t := Span(l, Blank).post; t != "" && ':' in ParseValue(t).value
  {
    KeyLineParts(l);
    var k := ParseKey(l).value;
    var p := k.key + ":";
    assert l == k.indent + (p + k.after);
    assert (p + k.after)[0] == k.key[0];
    SpanIs(k.indent, p + k.after, Blank);
    ColonIsRead(k.key, k.after);
  }

  lemma {:induction false} ColonIsRead(key: string, after: string)
    requires IsKey("", key)
    ensures ':' in ParseValue(key + ":" + after).value
  {
    var p := key + ":";
    assert p[|key|] == ':';
    assert All(p, Value) by { assert All(key, Value); }
    SpanGrows(p, after, Value);
    assert (p + after)[0] == key[0];
    assert Span(p + after, Value).pre[|key|] == ':';
  }

  /** What a change may do to a value that is read from the lines ahead: nothing, or it was and
      is a key line. */
  predicate SameOrColon(before: string, after: string) {
    before == after || (before != "" && ':' in after)
  }

  lemma {:induction false} AheadEdits(lines: seq<string>, out: seq<string>)
    requires EditsAll(lines, out)
    ensures SameOrColon(ParseValue(Ahead(lines)).value, ParseValue(Ahead(out)).value)
  {
    if lines != [] {
      EditsRest(lines, out);
      if lines[0] == out[0] {
        AheadEdits(lines[1..], out[1..]);
      } else {
        KeyLineReads(lines[0]);
        KeyLineReads(out[0]);
      }
    }
  }

  lemma {:induction false} ReadOwnLine(lines: seq<string>)
    requires lines != [] && FrameOf(lines[0]) == Some(HERE)
    ensures |lines[0]| >= |App.KEY|
    ensures ValueOf(lines[0]) != "" ==> ReadFirst(lines) == ValueOf(lines[0])
    ensures ValueOf(lines[0]) == "" ==>
              ReadFirst(lines) == "" || (Span(lines[0][|App.KEY|..], Blank).post == "" && ReadFirst(lines) == ParseValue(Ahead(lines[1..])).value)
  {
    var l := lines[0];
    KeyByFrame(l);
    var after := l[|App.KEY|..];
    assert [after][1..] == [];
    assert Tail(lines)[0] == after && Tail(lines)[1..] == lines[1..];
    assert ParseValue("").value == "";
  }

  lemma {:induction false} ReadFirstEdits(lines: seq<string>, out: seq<string>)
    requires lines != [] && EditsAll(lines, out)
    ensures ValueOf(lines[0]) != "" && FrameOf(lines[0]) == Some(HERE) ==>
              ReadFirst(lines) == ValueOf(lines[0]) && ReadFirst(out) == ValueOf(out[0]) != ""
    ensures ValueOf(lines[0]) == "" || FrameOf(lines[0]) != Some(HERE) ==> SameOrColon(ReadFirst(lines), ReadFirst(out))
  {
    EditsRest(lines, out);
    if FrameOf(lines[0]) == Some(HERE) {
      ReadOwnLine(lines);
      ReadOwnLine(out);
      if ValueOf(lines[0]) == "" {
        AheadEdits(lines[1..], out[1..]);
        assert Tail(lines)[0] == Tail(out)[0] && Tail(lines)[1..] == lines[1..] && Tail(out)[1..] == out[1..];
      }
    }
  }

  lemma {:induction false} EditsFrom(lines: seq<string>, out: seq<string>, k: nat)
    requires EditsAll(lines, out) && k <= |lines|
    ensures EditsAll(lines[k..], out[k..])
  {
    forall i | 0 <= i < |lines| - k ensures Edits(lines[k..][i], out[k..][i]) { assert Edits(lines[k + i], out[k + i]); }
  }

  predicate AtHere(l: string) { FrameOf(l) == Some(HERE) }

  /** What an attempt reads, before and after an edit. */
  lemma {:induction false} ReadsEdits(lines: seq<string>, out: seq<string>, k: nat)
    requires EditsAll(lines, out) && k < |lines|
    ensures var x, y := Reads()(lines[k..]), Reads()(out[k..]);
            && (x == "" <==> y == "") && (x != "" ==> AtHere(lines[k]))
            && if ValueOf(lines[k]) != "" && AtHere(lines[k]) then x == ValueOf(lines[k]) && y == ValueOf(out[k]) else SameOrColon(x, y)
  {
    EditsFrom(lines, out, k);
    assert lines[k..][0] == lines[k] && out[k..][0] == out[k];
    ReadFirstEdits(lines[k..], out[k..]);
  }

  lemma {:induction false} SameReading(lines: seq<string>, out: seq<string>, read: seq<string> -> string)
    requires |out| == |lines| && forall k :: 0 <= k < |lines| ==> (read(lines[k..]) == "" <==> read(out[k..]) == "")
    ensures FirstReading(out, read) == FirstReading(lines, read)
  {
    var l, o := FirstReading(lines, read), FirstReading(out, read);
    if l.Some? {
      forall j | 0 <= j < l.value ensures read(out[j..]) == "" { BeforeFirstReading(lines, read, j); }
      FirstReadingIs(out, read, l.value);
    } else if o.Some? {
      BeforeFirstReading(lines, read, o.value);
    }
  }

  lemma {:induction false} SameHits(lines: seq<string>, out: seq<string>)
    requires EditsAll(lines, out)
    ensures FirstHit(out) == FirstHit(lines)
  {
    forall k | 0 <= k < |lines| ensures Reads()(lines[k..]) == "" <==> Reads()(out[k..]) == "" { ReadsEdits(lines, out, k); }
    SameReading(lines, out, Reads());
  }

  /** After an edit the first match starts at the same line, and reads what that line holds; or,
      if it read on from there, it reads what it did or a colon. */
  lemma {:induction false} ReadAppEdits(lines: seq<string>, out: seq<string>)
    requires EditsAll(lines, out)
    ensures ReadApp(lines) == "" <==> FirstHit(lines).None?
    ensures FirstHit(lines).Some? ==>
              var k := FirstHit(lines).value;
              && AtHere(lines[k])
              && if ValueOf(lines[k]) != "" then ReadApp(lines) == ValueOf(lines[k]) && ReadApp(out) == ValueOf(out[k])
                 else SameOrColon(ReadApp(lines), ReadApp(out))
  {
    SameHits(lines, out);
    var k := FirstHit(lines);
    if k.Some? { ReadsEdits(lines, out, k.value); }
  }

  // ---- Chart.yaml as a declared values file ----

  /** The path `appVersion` is declared, and the first line that has it is not indented. */
  predicate MovesApp(o: Outline, paths: seq<string>) {
    "appVersion" in paths && var k := LineOf(o, "appVersion"); k.Some? && o[k.value].value.indent == 0
  }

  lemma {:induction false} TopPath(o: Outline, k: nat)
    requires k < |o| && o[k] == Some(HERE)
    ensures Owns(o, ["appVersion"], k)
  {
    assert Above(o, k, 0).None?;
    assert Chain(o, k, 0) == [];
    assert Keys([]) + ["appVersion"] == ["appVersion"];
  }

  lemma {:induction false} AppSegments()
    ensures Split("appVersion", '.') == ["appVersion"]
  {
    SplitAtom("appVersion", '.');
  }

  /** Declaring the path `appVersion` is not enough: an indented key of that name at the top of
      the file takes it. */
  lemma {:induction false} IndentedTakesPath(o: Outline, indent: nat, paths: seq<string>)
    requires o != [] && o[0] == Some(Frame(indent, "appVersion")) && indent > 0
    ensures LineOf(o, "appVersion") == Some(0) && !MovesApp(o, paths)
  {
    AppSegments();
    assert Above(o, 0, indent).None?;
    assert Keys([]) + ["appVersion"] == ["appVersion"];
    assert Owns(o, ["appVersion"], 0);
  }

  /** A path that lands on the line of the first match is `appVersion`. */
  lemma {:induction false} HitTargeted(lines: seq<string>, paths: seq<string>, k: nat)
    requires FirstHit(lines) == Some(k) && Targeted(OutlineOf(lines), paths, k)
    ensures MovesApp(OutlineOf(lines), paths) && LineOf(OutlineOf(lines), "appVersion") == Some(k)
  {
    var o := OutlineOf(lines);
    var j :| 0 <= j < |paths| && LineOf(o, paths[j]) == Some(k);
    FirstOwnerIsFirst(o, Split(paths[j], '.'), 0);
    ReadAppEdits(lines, lines);
    TopPath(o, k);
    JoinSplit(paths[j], '.');
    assert Join(["appVersion"], '.') == "appVersion";
    assert paths[j] == "appVersion";
  }

  /** Where the path `appVersion` lands without indentation and with a value, the first match
      starts. */
  lemma {:induction false} OwnerIsHit(lines: seq<string>, k: nat)
    requires LineOf(OutlineOf(lines), "appVersion") == Some(k) && OutlineOf(lines)[k].value.indent == 0 && ValueOf(lines[k]) != ""
    ensures FirstHit(lines) == Some(k)
  {
    var o := OutlineOf(lines);
    AppSegments();
    FirstOwnerIsFirst(o, ["appVersion"], 0);
    OwnedKey(o, k);
    forall j | 0 <= j < k ensures !AtHere(lines[j]) {
      if o[j] == Some(HERE) { TopPath(o, j); }
    }
    HitAt(lines, k);
  }

  lemma {:induction false} OwnedKey(o: Outline, k: nat)
    requires Owns(o, ["appVersion"], k) && o[k].value.indent == 0
    ensures o[k] == Some(HERE)
  {
    var p := PathOf(o, k);
    assert p[|p| - 1] == o[k].value.key;
  }

  lemma {:induction false} HitAt(lines: seq<string>, k: nat)
    requires k < |lines| && AtHere(lines[k]) && ValueOf(lines[k]) != ""
    requires forall j :: 0 <= j < k ==> !AtHere(lines[j])
    ensures FirstHit(lines) == Some(k)
  {
    forall j | 0 <= j < k ensures Reads()(lines[j..]) == "" { ReadsEdits(lines, lines, j); }
    ReadsEdits(lines, lines, k);
    FirstReadingIs(lines, Reads(), k);
  }

  /** An edit of what paths land on, and of nothing else. */
  ghost predicate EditsOnly(lines: seq<string>, out: seq<string>, paths: seq<string>) {
    EditsAll(lines, out) && forall i :: 0 <= i < |lines| && !Targeted(OutlineOf(lines), paths, i) ==> out[i] == lines[i]
  }

  lemma {:induction false} LineEdits(lines: seq<string>, out: seq<string>, paths: seq<string>, version: string, i: nat)
    requires EachRewritten(lines, out, paths, version) && AllFound(lines, paths) && CleanVersion(version) && i < |lines|
    ensures Edits(lines[i], out[i]) && (!Targeted(OutlineOf(lines), paths, i) ==> out[i] == lines[i])
  {
    var o := OutlineOf(lines);
    UsesTargeted(o, paths, i);
    if Targeted(o, paths, i) {
      var k :| 0 <= k < |paths| && LineOf(o, paths[k]) == Some(i);
      FoundAt(lines, paths[k]);
      RewritesRead(lines[i], out[i], version, Uses(o, paths, i));
    } else {
      ComesFew(lines[i], out[i], Rewriter(version), 0);
    }
  }

  lemma {:induction false} RewrittenEdits(lines: seq<string>, out: seq<string>, paths: seq<string>, version: string)
    requires EachRewritten(lines, out, paths, version) && AllFound(lines, paths) && CleanVersion(version)
    ensures EditsOnly(lines, out, paths)
  {
    forall i | 0 <= i < |lines| ensures Edits(lines[i], out[i]) && (!Targeted(OutlineOf(lines), paths, i) ==> out[i] == lines[i]) {
      LineEdits(lines, out, paths, version, i);
    }
  }

  /** After such an edit appVersion reads what the path `appVersion` does, if that is among the
      paths and lands on an unindented line; and otherwise no new version. */
  lemma {:induction false} AppMovesIff(lines: seq<string>, out: seq<string>, paths: seq<string>, version: string)
    requires EditsOnly(lines, out, paths) && AllFound(lines, paths) && ReadApp(lines) != ""
    ensures MovesApp(OutlineOf(lines), paths) ==> ReadApp(out) == ValueOf(out[LineOf(OutlineOf(lines), "appVersion").value])
    ensures ':' !in version && ReadApp(lines) != version == ReadApp(out) ==> MovesApp(OutlineOf(lines), paths)
  {
    var o := OutlineOf(lines);
    ReadAppEdits(lines, out);
    var k := FirstHit(lines).value;
    if ':' !in version && ReadApp(lines) != version == ReadApp(out) {
      assert out[k] != lines[k];
      HitTargeted(lines, paths, k);
    }
    if MovesApp(o, paths) {
      var at := LineOf(o, "appVersion").value;
      var j :| 0 <= j < |paths| && paths[j] == "appVersion";
      FoundAt(lines, paths[j]);
      OwnerIsHit(lines, at);
    }
  }

  /** What a text reads as its appVersion; nothing if there is none. */
  function AppText(text: string): string {
    var m := App.Find(text);
    if m.None? then "" else m.value.scalar.value
  }

  lemma {:induction false} AppTextByLines(text: string)
    ensures AppText(text) == ReadApp(Lines(text)) && (App.Find(text).Some? <==> AppText(text) != "")
  {
    SplitPartsFree(text, '\n');
    JoinSplit(text, '\n');
    FindReads(Lines(text));
  }

  /** A Chart.yaml edited as a values file: appVersion reads the new version exactly when the
      path `appVersion` is declared, lands on an unindented line and reads it. */
  lemma {:induction false} AppFileMoves(text: string, paths: seq<string>, version: string)
    requires AllFound(Lines(text), paths) && CleanVersion(version) && AppText(text) != ""
    ensures var out := EditFile(text, paths, version); var o := OutlineOf(Lines(text));
            && out.Some?
            && (MovesApp(o, paths) && ReadsAll(Lines(out.value), paths, version) ==> AppText(out.value) == version)
            && (':' !in version && AppText(text) != version == AppText(out.value) ==> MovesApp(o, paths))
  {
    EditedLines(text, paths, version);
    var lines, out := Lines(text), EditFile(text, paths, version).value;
    AppTextByLines(text);
    AppTextByLines(out);
    RewrittenEdits(lines, Lines(out), paths, version);
    AppMovesIff(lines, Lines(out), paths, version);
    if MovesApp(OutlineOf(lines), paths) && ReadsAll(Lines(out), paths, version) {
      var j :| 0 <= j < |paths| && paths[j] == "appVersion";
      FoundAt(Lines(out), paths[j]);
    }
  }
}
