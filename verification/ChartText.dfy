/** The line shapes that the chart bumper reads and rewrites (`chart.go`), on the text itself. */
module ChartText {
  import opened Text

  /** `\s` of the regular expressions. */
  predicate IsBlank(c: char) { c == ' ' || c == '\t' || c == '\n' || c == '\r' || c as int == 0x0C }

  /** `[A-Za-z0-9_.-]` */
  predicate IsKeyChar(c: char) {
    'A' <= c <= 'Z' || 'a' <= c <= 'z' || '0' <= c <= '9' || c == '_' || c == '.' || c == '-'
  }

  /** `[^"\s#]` */
  predicate IsValueChar(c: char) { c != '"' && c != '#' && !IsBlank(c) }

  datatype Class = Blank | Key | Value | Quote

  predicate In(c: char, among: Class) {
    match among
    case Blank => IsBlank(c)
    case Key => IsKeyChar(c)
    case Value => IsValueChar(c)
    case Quote => c == '"'
  }

  predicate All(s: string, among: Class) { forall i :: 0 <= i < |s| ==> In(s[i], among) }

  predicate Stops(s: string, among: Class) { s == "" || !In(s[0], among) }

  /** A text cut in two. */
  datatype Halves = Halves(pre: string, post: string)

  /** The longest prefix whose characters are all in a class, and the rest. */
  function Span(s: string, among: Class): (r: Halves)
    ensures |r.pre| + |r.post| == |s|
  {
    if Stops(s, among) then Halves([], s)
    else
      var r := Span(s[1..], among);
      Halves([s[0]] + r.pre, r.post)
  }

  lemma {:induction false} SpanParts(s: string, among: Class)
    ensures var r := Span(s, among); s == r.pre + r.post && All(r.pre, among) && Stops(r.post, among)
  {
    if !Stops(s, among) {
      SpanParts(s[1..], among);
      Prepend(s, Span(s[1..], among), among);
    }
  }

  lemma {:induction false} Prepend(s: string, r: Halves, among: Class)
    requires s != "" && In(s[0], among) && s[1..] == r.pre + r.post && All(r.pre, among)
    ensures s == ([s[0]] + r.pre) + r.post && All([s[0]] + r.pre, among)
  {
    assert s == [s[0]] + s[1..];
  }

  lemma {:induction false} SpanIs(p: string, t: string, among: Class)
    requires All(p, among) && Stops(t, among)
    ensures Span(p + t, among) == Halves(p, t)
  {
    if p == [] {
      assert p + t == t;
    } else {
      assert (p + t)[1..] == p[1..] + t;
      SpanIs(p[1..], t, among);
      assert [p[0]] + p[1..] == p;
    }
  }

  /** A line that opens with indentation, a key and a colon; the rest of the line. */
  datatype KeyLine = KeyLine(indent: string, key: string, after: string)

  /** `keyLineRE` */
  function ParseKey(l: string): (k: Option<KeyLine>) {
    var Halves(indent, s) := Span(l, Blank);
    var Halves(key, t) := Span(s, Key);
    if key != "" && t != "" && t[0] == ':' then Some(KeyLine(indent, key, t[1..])) else None
  }

  lemma {:induction false} KeyLineParts(l: string)
    requires ParseKey(l).Some?
    ensures var k := ParseKey(l).value; IsKey(k.indent, k.key) && l == k.indent + k.key + ":" + k.after
  {
    SpanParts(l, Blank);
    var Halves(indent, s) := Span(l, Blank);
    SpanParts(s, Key);
    var Halves(key, t) := Span(s, Key);
    KeyParts(l, indent, key, s, t);
  }

  lemma {:induction false} KeyParts(l: string, indent: string, key: string, s: string, t: string)
    requires l == indent + s && s == key + t && t != "" && t[0] == ':'
    ensures l == indent + key + ":" + t[1..]
  {
    assert t == ":" + t[1..];
  }

  predicate IsKey(indent: string, key: string) {
    && key != "" && All(indent, Blank)
    && All(key, Key)
  }

  lemma {:induction false} ParseKeyIs(indent: string, key: string, after: string)
    requires IsKey(indent, key)
    ensures ParseKey(indent + key + ":" + after) == Some(KeyLine(indent, key, after))
  {
    var t := ":" + after;
    assert indent + key + ":" + after == indent + (key + t);
    assert (key + t)[0] == key[0] && t[1..] == after;
    SpanIs(indent, key + t, Blank);
    SpanIs(key, t, Key);
  }

  /** A scalar: whether it opens with a quote, its text, whether a quote follows it, and the
      rest of the line. */
  datatype Scalar = Scalar(quoted: bool, value: string, closed: bool, rest: string)

  /** `"?([^"\s#]*)"?(.*)`. Each part takes all it can and none can fail later, so the
      expression never backtracks. */
  function ParseValue(text: string): (s: Scalar) {
    var quoted := text != [] && text[0] == '"';
    var Halves(value, after) := Span(if quoted then text[1..] else text, Value);
    var closed := after != [] && after[0] == '"';
    Scalar(quoted, value, closed, if closed then after[1..] else after)
  }

  lemma {:induction false} ParseValueParts(text: string)
    ensures var s := ParseValue(text); text == Source(s) && Scanned(s) && All(s.value, Value)
  {
    var quoted := text != [] && text[0] == '"';
    SpanParts(if quoted then text[1..] else text, Value);
    var after := Span(if quoted then text[1..] else text, Value).post;
    assert after != [] && after[0] == '"' ==> after == "\"" + after[1..];
    assert quoted ==> text == "\"" + text[1..];
  }

  /** What follows the value. */
  function After(s: Scalar): string { if s.closed then "\"" + s.rest else s.rest }

  /** The text of a scalar. */
  function Source(s: Scalar): string {
    if s.quoted then "\"" + (s.value + After(s)) else s.value + After(s)
  }

  lemma {:induction false} ParseValueOf(quoted: bool, value: string, after: string)
    requires All(value, Value)
    requires Stops(after, Value)
    requires !quoted ==> value != ""
    ensures var s := ParseValue(if quoted then "\"" + (value + after) else value + after);
            s.quoted == quoted && s.value == value && After(s) == after
  {
    SpanIs(value, after, Value);
    if quoted {
      assert ("\"" + (value + after))[1..] == value + after;
    } else {
      assert (value + after)[0] == value[0];
    }
    assert after != "" && after[0] == '"' ==> after == "\"" + after[1..];
  }

  /** A key line with a scalar: indentation, key, colon and blanks are its head. */
  datatype ScalarLine = ScalarLine(indent: string, key: string, blanks: string, scalar: Scalar)

  function Head(l: ScalarLine): string { l.indent + l.key + ":" + l.blanks }

  /** `scalarValueRE`, on a line of the file: it matches where `keyLineRE` does. */
  function ParseScalar(l: string): (s: Option<ScalarLine>)
    ensures s.Some? <==> ParseKey(l).Some?
  {
    var k := ParseKey(l);
    if k.None? then None
    else
      var Halves(blanks, text) := Span(k.value.after, Blank);
      Some(ScalarLine(k.value.indent, k.value.key, blanks, ParseValue(text)))
  }

  /** Printing a head and any text that opens with no blank, then parsing, gives them back. */
  lemma {:induction false} ParsePrinted(indent: string, key: string, blanks: string, text: string)
    requires IsKey(indent, key)
    requires All(blanks, Blank)
    requires Stops(text, Blank)
    ensures var l := indent + key + ":" + blanks + text;
            && ParseKey(l) == Some(KeyLine(indent, key, blanks + text))
            && ParseScalar(l) == Some(ScalarLine(indent, key, blanks, ParseValue(text)))
  {
    assert indent + key + ":" + blanks + text == indent + key + ":" + (blanks + text);
    ParseKeyIs(indent, key, blanks + text);
    SpanIs(blanks, text, Blank);
  }

  /** What a key line parses into prints back as the line. */
  lemma {:induction false} PrintParsed(l: string)
    requires ParseScalar(l).Some?
    ensures var s := ParseScalar(l).value;
            && IsKey(s.indent, s.key)
            && All(s.blanks, Blank)
            && Scanned(s.scalar) && All(s.scalar.value, Value)
            && l == Head(s) + Source(s.scalar)
  {
    KeyLineParts(l);
    var k := ParseKey(l).value;
    var h := Span(k.after, Blank);
    SpanParts(k.after, Blank);
    ParseValueParts(h.post);
    Assoc(k.indent + k.key + ":", h.pre, h.post);
  }

  lemma {:induction false} Assoc(x: string, y: string, z: string)
    ensures x + (y + z) == (x + y) + z
  {
  }

  /** `scalarLike`, for a version that `%q` prints without escapes. */
  function ScalarLike(quoted: bool, version: string): string {
    if quoted then "\"" + version + "\"" else version
  }

  /** A scalar with its value replaced. */
  function Replaced(s: Scalar, version: string): string { ScalarLike(s.quoted, version) + s.rest }

  /** A line with its value replaced. */
  function Rewritten(l: ScalarLine, version: string): string { Head(l) + Replaced(l.scalar, version) }

  /** A version without quotes, blanks and `#`, which `%q` prints without escapes. */
  predicate CleanVersion(v: string) {
    v != "" && forall i :: 0 <= i < |v| ==> IsValueChar(v[i]) && v[i] != '\\' && 0x20 < v[i] as int < 0x7F
  }

  /** A bare value followed by a quote and then more value text: the rewrite drops the quote
      and the text after it becomes part of the new value. */
  predicate Fuses(s: Scalar) { !s.quoted && s.closed && s.rest != "" && IsValueChar(s.rest[0]) }

  /** A quoted value, or a bare one that no value text follows, not even past quotes. */
  predicate Tidy(s: Scalar) {
    s.quoted || (var t := Span(After(s), Quote).post; Stops(t, Value))
  }

  lemma {:induction false} QuotesPeel(rest: string)
    ensures Span("\"" + rest, Quote) == Halves("\"" + Span(rest, Quote).pre, Span(rest, Quote).post)
  {
    assert ("\"" + rest)[1..] == rest;
  }

  /** The new value takes in what value text follows. */
  lemma {:induction false} FusedAfter(version: string, rest: string)
    requires CleanVersion(version)
    ensures var s := ParseValue(version + rest);
            !s.quoted && s.value == version + Span(rest, Value).pre && After(s) == Span(rest, Value).post
  {
    SpanParts(rest, Value);
    var h := Span(rest, Value);
    assert version + rest == (version + h.pre) + h.post;
    ParseValueOf(false, version + h.pre, h.post);
  }

  /** What a scan leaves behind: a value that no quote ends is followed by neither value text nor a quote. */
  predicate Scanned(s: Scalar) { s.closed || (Stops(s.rest, Value) && Stops(s.rest, Quote)) }

  /** What a rewritten value reads as: the new version, exactly unless the value fuses. A
      tidy value does not fuse and stays tidy. */
  lemma {:induction false} RewriteReadsBack(s: Scalar, version: string)
    requires CleanVersion(version) && Scanned(s)
    ensures var t := ParseValue(Replaced(s, version));
            && t.value != "" && t.quoted == s.quoted
            && (t.value == version <==> !Fuses(s))
            && (Tidy(s) ==> !Fuses(s) && Tidy(t))
    ensures Replaced(s, version) != "" && !IsBlank(Replaced(s, version)[0])
  {
    if s.quoted {
      assert "\"" + version + "\"" + s.rest == "\"" + (version + ("\"" + s.rest));
      ParseValueOf(true, version, "\"" + s.rest);
    } else {
      if s.closed { QuotesPeel(s.rest); }
      if Fuses(s) {
        FusedAfter(version, s.rest);
      } else {
        ParseValueOf(false, version, s.rest);
      }
    }
  }

  // ---- Rewriting again and again ----

  /** The text after a value is such that the rewrite with this number takes in some of it: each
      rewrite uses up one quote, and at the last of a run the text behind it joins the value. */
  predicate Spoils(after: string, n: nat)
    decreases |after|
  {
    var Halves(quotes, more) := Span(after, Quote);
    && !Stops(more, Value)
    && (n == |quotes| || (n > |quotes| && Spoils(Span(more, Value).post, n - |quotes|)))
  }

  predicate SpoiledBy(s: Scalar, n: nat) { !s.quoted && Spoils(After(s), n) }

  /** The quotes that follow a value. */
  function Quotes(s: Scalar): nat { |Span(After(s), Quote).pre| }

  /** A tidy value is never spoilt, and any other at the rewrite that takes its last quote. */
  lemma {:induction false} TidyIff(s: Scalar)
    requires Scanned(s)
    ensures Tidy(s) <==> forall n: nat :: n > 0 ==> !SpoiledBy(s, n)
    ensures !Tidy(s) ==> Quotes(s) > 0 && SpoiledBy(s, Quotes(s)) && forall n: nat :: 0 < n < Quotes(s) ==> !SpoiledBy(s, n)
  {
    if !Tidy(s) {
      if s.closed { QuotesPeel(s.rest); }
      assert SpoiledBy(s, Quotes(s));
    }
  }

  /** A value that is not tidy is followed by a quote, and fuses now exactly if by one. */
  lemma {:induction false} UntidyFuses(s: Scalar)
    requires Scanned(s) && !Tidy(s)
    ensures s.closed && (Fuses(s) <==> Quotes(s) == 1)
  {
    QuotesPeel(s.rest);
  }

  lemma {:induction false} FusesFirst(s: Scalar)
    requires Scanned(s)
    ensures Fuses(s) <==> SpoiledBy(s, 1)
  {
    if !s.quoted && s.closed { QuotesPeel(s.rest); }
  }

  lemma {:induction false} SpoilsPeel(rest: string, n: nat)
    requires n > 0
    ensures Spoils("\"" + rest, n + 1) <==> if Stops(rest, Value) then Spoils(rest, n) else Spoils(Span(rest, Value).post, n)
  {
    QuotesPeel(rest);
  }

  /** One rewrite uses up one. */
  lemma {:induction false} SpoiledNext(s: Scalar, version: string, n: nat)
    requires CleanVersion(version) && Scanned(s) && n > 0
    ensures SpoiledBy(ParseValue(Replaced(s, version)), n) <==> SpoiledBy(s, n + 1)
  {
    RewriteReadsBack(s, version);
    if !s.quoted {
      FusedAfter(version, s.rest);
      if s.closed { SpoilsPeel(s.rest, n); }
    }
  }

  /** What a rewritten value can be: the version, or the version and some of what followed. */
  lemma {:induction false} ReplacedShort(s: Scalar, version: string)
    requires CleanVersion(version) && Scanned(s)
    ensures var t := ParseValue(Replaced(s, version));
            && t.quoted == s.quoted && (s.quoted ==> t.value == version)
            && (!s.quoted ==> version <= t.value && |t.value| + |After(t)| <= |version| + |After(s)|)
  {
    RewriteReadsBack(s, version);
    if !s.quoted { FusedAfter(version, s.rest); }
  }

  /** None of the first `n` multiples of `u` is such a number. */
  predicate LastsBy(spoils: nat -> bool, u: nat, n: nat) { n == 0 || (LastsBy(spoils, u, n - 1) && !spoils(n * u)) }

  lemma {:induction false} LastsIfNever(spoils: nat -> bool, u: nat, n: nat)
    requires u > 0 && forall k: nat :: k > 0 ==> !spoils(k)
    ensures LastsBy(spoils, u, n)
  {
    if n > 0 { LastsIfNever(spoils, u, n - 1); }
  }

  lemma {:induction false} LastsLess(spoils: nat -> bool, u: nat, n: nat, m: nat)
    requires LastsBy(spoils, u, n) && m <= n
    ensures LastsBy(spoils, u, m)
  {
    if m < n { LastsLess(spoils, u, n - 1, m); }
  }

  lemma {:induction false} Multiples(u: nat, n: nat)
    ensures 1 * u == u && (n + 1) * u == u + n * u && (u > 0 && n > 0 ==> n * u > 0)
  {
  }

  /** Once the first `u` are used up it lasts one less. */
  lemma {:induction false} LastsByNext(spoils: nat -> bool, later: nat -> bool, u: nat, n: nat)
    requires u > 0 && forall k: nat :: k > 0 ==> later(k) == spoils(u + k)
    ensures LastsBy(spoils, u, n + 1) <==> !spoils(u) && LastsBy(later, u, n)
  {
    Multiples(u, n);
    if n == 0 { assert LastsBy(spoils, u, 0); } else { LastsByNext(spoils, later, u, n - 1); }
  }

  function Spoiling(s: Scalar): nat -> bool { (n: nat) => SpoiledBy(s, n) }

  /** Rewritten `u` times at a time, the value is read back each of the first `n` times. */
  predicate Lasts(s: Scalar, u: nat, n: nat) { LastsBy(Spoiling(s), u, n) }

  lemma {:induction false} TidyLasts(s: Scalar, u: nat, n: nat)
    requires Tidy(s) && Scanned(s) && u > 0
    ensures Lasts(s, u, n)
  {
    TidyIff(s);
    LastsIfNever(Spoiling(s), u, n);
  }

  /** One rewrite is read back exactly if the value lasts one, and it lasts one less then. */
  lemma {:induction false} LastsOneLess(s: Scalar, version: string, n: nat)
    requires CleanVersion(version) && Scanned(s)
    ensures Lasts(s, 1, n + 1) <==> !Fuses(s) && Lasts(ParseValue(Replaced(s, version)), 1, n)
    ensures Lasts(s, 1, 1) <==> !Fuses(s)
  {
    FusesFirst(s);
    var t := ParseValue(Replaced(s, version));
    forall k: nat | k > 0 ensures Spoiling(t)(k) == Spoiling(s)(1 + k) { SpoiledNext(s, version, k); }
    LastsByNext(Spoiling(s), Spoiling(t), 1, n);
    LastsByNext(Spoiling(s), Spoiling(t), 1, 0);
  }

  /** A rewritten line keeps its indentation and its key. */
  lemma {:induction false} RewrittenLine(l: string, version: string)
    requires ParseScalar(l).Some? && CleanVersion(version)
    ensures var s := ParseScalar(l).value;
            ParseScalar(Rewritten(s, version)) == Some(s.(scalar := ParseValue(Replaced(s.scalar, version))))
    ensures '\n' !in l ==> '\n' !in Rewritten(ParseScalar(l).value, version)
  {
    PrintParsed(l);
    var s := ParseScalar(l).value;
    RewriteReadsBack(s.scalar, version);
    ParsePrinted(s.indent, s.key, s.blanks, Replaced(s.scalar, version));
    if '\n' !in l {
      assert forall c :: c in s.scalar.rest ==> c in l;
      assert forall c :: c in Head(s) ==> c in l;
      assert forall c :: c in version ==> c != '\n';
    }
  }
}
