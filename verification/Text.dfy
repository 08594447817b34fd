/** Go's byte-string primitives, on `string`, with the facts the other modules use.
    Every string the tooling orders or splits is ASCII or UTF-8, for which code-point
    order and byte order agree. */
module Text {

  datatype Option<+T> = None | Some(value: T)

  /** `strings.Compare`: lexicographic order as -1, 0 or 1. */
  function Compare(a: string, b: string): (c: int)
    ensures -1 <= c <= 1
  {
    if a == [] && b == [] then 0
    else if a == [] then -1
    else if b == [] then 1
    else if a[0] < b[0] then -1
    else if b[0] < a[0] then 1
    else Compare(a[1..], b[1..])
  }

  lemma {:induction false} CompareZero(a: string, b: string)
    ensures Compare(a, b) == 0 <==> a == b
  {
    if a != [] && b != [] && a[0] == b[0] {
      CompareZero(a[1..], b[1..]);
      assert a == [a[0]] + a[1..] && b == [b[0]] + b[1..];
    }
  }

  lemma {:induction false} CompareFlip(a: string, b: string)
    ensures Compare(b, a) == -Compare(a, b)
  {
    if a != [] && b != [] && a[0] == b[0] {
      CompareFlip(a[1..], b[1..]);
    }
  }

  lemma {:induction false} CompareTransitive(a: string, b: string, c: string)
    requires Compare(a, b) <= 0 && Compare(b, c) <= 0
    ensures Compare(a, c) <= 0
    ensures Compare(a, b) < 0 || Compare(b, c) < 0 ==> Compare(a, c) < 0
  {
    if a != [] && b != [] && c != [] && a[0] == b[0] == c[0] {
      CompareTransitive(a[1..], b[1..], c[1..]);
    }
  }

  /** Dictionary order: at the first place where they differ, or where the first text ends. */
  ghost predicate Sooner(a: string, b: string) {
    exists k :: 0 <= k <= |a| && k < |b| && a[..k] == b[..k] && (k == |a| || a[k] < b[k])
  }

  /** `strings.Compare` is dictionary order. */
  lemma {:induction false} CompareIsSooner(a: string, b: string)
    ensures Compare(a, b) < 0 <==> Sooner(a, b)
  {
    if a == [] || b == [] || a[0] != b[0] {
      if Compare(a, b) < 0 { assert a[..0] == b[..0]; }
      assert forall k :: 0 < k <= |a| && k < |b| ==> a[..k][0] == a[0] && b[..k][0] == b[0];
    } else {
      CompareIsSooner(a[1..], b[1..]);
      if Sooner(a[1..], b[1..]) { SoonerAfter(a, b); }
      if Sooner(a, b) { SoonerPast(a, b); }
    }
  }

  lemma {:induction false} SoonerAfter(a: string, b: string)
    requires a != [] && b != [] && a[0] == b[0] && Sooner(a[1..], b[1..])
    ensures Sooner(a, b)
  {
    var x, y := a[1..], b[1..];
    var k :| 0 <= k <= |x| && k < |y| && x[..k] == y[..k] && (k == |x| || x[k] < y[k]);
    assert a[..k + 1] == [a[0]] + x[..k] && b[..k + 1] == [b[0]] + y[..k];
  }

  lemma {:induction false} SoonerPast(a: string, b: string)
    requires a != [] && b != [] && a[0] == b[0] && Sooner(a, b)
    ensures Sooner(a[1..], b[1..])
  {
    var k :| 0 <= k <= |a| && k < |b| && a[..k] == b[..k] && (k == |a| || a[k] < b[k]);
    assert a[1..][..k - 1] == a[..k][1..] && b[1..][..k - 1] == b[..k][1..];
  }

  /** Extending two equally long strings by one character each only refines a tie. */
  lemma {:induction false} CompareSnoc(a: string, x: char, b: string, y: char)
    requires |a| == |b|
    ensures Compare(a + [x], b + [y]) ==
            if Compare(a, b) != 0 then Compare(a, b) else if x < y then -1 else if y < x then 1 else 0
  {
    if a == [] {
      assert a + [x] == [x] && b + [y] == [y];
    } else {
      assert (a + [x])[1..] == a[1..] + [x] && (b + [y])[1..] == b[1..] + [y];
      CompareSnoc(a[1..], x, b[1..], y);
    }
  }

  /** `strings.Split` on a one-character separator. */
  function Split(s: string, sep: char): (parts: seq<string>)
    ensures |parts| >= 1
  {
    if s == [] then [[]]
    else
      var rest := Split(s[1..], sep);
      if s[0] == sep then [[]] + rest else [[s[0]] + rest[0]] + rest[1..]
  }

  /** `strings.Join` with a one-character separator. */
  function Join(parts: seq<string>, sep: char): (s: string)
  {
    if parts == [] then []
    else if |parts| == 1 then parts[0]
    else parts[0] + [sep] + Join(parts[1..], sep)
  }

  lemma {:induction false} SplitAtom(p: string, sep: char)
    requires sep !in p
    ensures Split(p, sep) == [p]
  {
    if p != [] {
      SplitAtom(p[1..], sep);
      assert [p[0]] + p[1..] == p;
    }
  }

  lemma {:induction false} SplitCons(p: string, rest: string, sep: char)
    requires sep !in p
    ensures Split(p + [sep] + rest, sep) == [p] + Split(rest, sep)
  {
    var s := p + [sep] + rest;
    if p == [] {
      assert s[1..] == rest;
    } else {
      assert s[1..] == p[1..] + [sep] + rest;
      SplitCons(p[1..], rest, sep);
      assert [p[0]] + p[1..] == p;
    }
  }

  lemma {:induction false} SplitPrefix(p: string, s: string, sep: char)
    requires sep !in p
    ensures Split(p + s, sep) == [p + Split(s, sep)[0]] + Split(s, sep)[1..]
  {
    if p == [] {
      assert p + s == s;
      assert p + Split(s, sep)[0] == Split(s, sep)[0];
    } else {
      SplitPrefix(p[1..], s, sep);
      assert (p + s)[1..] == p[1..] + s;
      var rest, parts := Split(p[1..] + s, sep), Split(s, sep);
      assert rest[1..] == parts[1..];
      assert [p[0]] + (p[1..] + parts[0]) == p + parts[0];
    }
  }

  lemma {:induction false} JoinMember(parts: seq<string>, sep: char, c: char)
    requires c != sep && forall i :: 0 <= i < |parts| ==> c !in parts[i]
    ensures c !in Join(parts, sep)
  {
    if |parts| > 1 { JoinMember(parts[1..], sep, c); }
  }

  lemma {:induction false} JoinSplit(s: string, sep: char)
    ensures Join(Split(s, sep), sep) == s
  {
    if s != [] {
      var rest := Split(s[1..], sep);
      var parts := Split(s, sep);
      JoinSplit(s[1..], sep);
      if s[0] == sep {
        assert parts[1..] == rest;
        assert s == [] + [sep] + s[1..];
      } else if |rest| == 1 {
        assert s == [s[0]] + s[1..];
      } else {
        assert parts[1..] == rest[1..];
        assert s == [s[0]] + s[1..];
        assert s[1..] == rest[0] + [sep] + Join(rest[1..], sep);
      }
    }
  }

  lemma {:induction false} SplitPartsFree(s: string, sep: char)
    ensures forall i :: 0 <= i < |Split(s, sep)| ==> sep !in Split(s, sep)[i]
  {
    if s != [] {
      SplitPartsFree(s[1..], sep);
    }
  }

  lemma {:induction false} SplitJoin(parts: seq<string>, sep: char)
    requires |parts| >= 1
    requires forall i :: 0 <= i < |parts| ==> sep !in parts[i]
    ensures Split(Join(parts, sep), sep) == parts
  {
    if |parts| == 1 {
      SplitAtom(parts[0], sep);
    } else {
      SplitJoin(parts[1..], sep);
      SplitCons(parts[0], Join(parts[1..], sep), sep);
    }
  }

  /** The text before and, if present, after the first `c`. */
  function Cut(s: string, c: char): (r: (string, Option<string>))
    ensures r.1.None? ==> r.0 == s
    ensures r.1.Some? ==> s == r.0 + [c] + r.1.value
    ensures c !in r.0
  {
    if s == [] then ([], None)
    else if s[0] == c then ([], Some(s[1..]))
    else
      var (before, after) := Cut(s[1..], c);
      assert s == [s[0]] + s[1..];
      ([s[0]] + before, after)
  }

  /** A text after its mark, or nothing. */
  function Marked(mark: string, s: string): string { if s == "" then "" else mark + s }

  lemma {:induction false} CutThere(a: string, c: char, b: string)
    requires c !in a
    ensures Cut(a + [c] + b, c) == (a, Some(b))
  {
    var s := a + [c] + b;
    if a == "" {
      assert s[1..] == b;
    } else {
      assert s[1..] == a[1..] + [c] + b;
      CutThere(a[1..], c, b);
      assert [a[0]] + a[1..] == a;
    }
  }

  lemma {:induction false} CutNowhere(a: string, c: char)
    requires c !in a
    ensures Cut(a, c) == (a, None)
  {
  }

  lemma {:induction false} CutMarked(a: string, c: char, b: string)
    requires c !in a
    ensures Cut(a + Marked([c], b), c) == (a, if b == "" then None else Some(b))
  {
    if b == "" {
      assert a + "" == a;
      CutNowhere(a, c);
    } else {
      assert a + ([c] + b) == a + [c] + b;
      CutThere(a, c, b);
    }
  }

  lemma {:induction false} CutIsMarked(s: string, c: char)
    ensures var (a, b) := Cut(s, c); b == Some("") || s == a + Marked([c], if b.None? then "" else b.value)
  {
    var (a, b) := Cut(s, c);
    if b.Some? { assert a + [c] + b.value == a + ([c] + b.value); } else { assert a + "" == a; }
  }

  /** White space as `strings.TrimSpace` sees it. */
  predicate IsSpace(c: char) {
    || c == ' ' || 0x09 <= c as int <= 0x0D || c as int == 0x85 || c as int == 0xA0 || c as int == 0x1680
    || c as int == 0x2028 || c as int == 0x2029 || c as int == 0x202F || c as int == 0x205F || c as int == 0x3000
    || 0x2000 <= c as int <= 0x200A
  }

  function TrimSpace(s: string): (t: string)
    ensures |t| <= |s|
    decreases |s|
  {
    if s == [] then []
    else if IsSpace(s[0]) then TrimSpace(s[1..])
    else if IsSpace(s[|s| - 1]) then TrimSpace(s[..|s| - 1])
    else s
  }

  predicate AllSpace(s: string) { forall i :: 0 <= i < |s| ==> IsSpace(s[i]) }

  /** A text that neither opens nor ends with white space. */
  predicate IsTrimmed(s: string) { s == "" || (!IsSpace(s[0]) && !IsSpace(s[|s| - 1])) }

  /** The one trimmed text that a text is with white space around it. */
  lemma {:induction false} TrimIs(a: string, s: string, b: string)
    requires AllSpace(a) && AllSpace(b) && IsTrimmed(s)
    ensures TrimSpace(a + s + b) == s
    decreases |a| + |b|
  {
    var all := a + s + b;
    if a != "" {
      assert all[0] == a[0] && all[1..] == a[1..] + s + b;
      TrimIs(a[1..], s, b);
    } else if b != "" {
      assert all == s + b && all[|all| - 1] == b[|b| - 1];
      if s == "" {
        assert all[1..] == "" + s + b[1..];
        TrimIs("", s, b[1..]);
      } else {
        assert all[..|all| - 1] == "" + s + b[..|b| - 1];
        TrimIs("", s, b[..|b| - 1]);
      }
    } else {
      assert all == s;
    }
  }

  lemma {:induction false} TrimParts(s: string) returns (a: string, b: string)
    ensures AllSpace(a) && AllSpace(b) && IsTrimmed(TrimSpace(s)) && s == a + TrimSpace(s) + b
    decreases |s|
  {
    if s != "" && IsSpace(s[0]) {
      a, b := TrimParts(s[1..]);
      a := OneBefore(s, a, TrimSpace(s[1..]), b);
    } else if s != "" && IsSpace(s[|s| - 1]) {
      a, b := TrimParts(s[..|s| - 1]);
      b := OneAfter(s, a, TrimSpace(s[..|s| - 1]), b);
    } else {
      a, b := "", "";
    }
  }

  lemma {:induction false} OneBefore(s: string, a: string, t: string, b: string) returns (c: string)
    requires s != "" && s[1..] == a + t + b && IsSpace(s[0]) && AllSpace(a)
    ensures AllSpace(c) && s == c + t + b
  {
    c := [s[0]] + a;
    assert s == [s[0]] + s[1..];
  }

  lemma {:induction false} OneAfter(s: string, a: string, t: string, b: string) returns (c: string)
    requires s != "" && s[..|s| - 1] == a + t + b && IsSpace(s[|s| - 1]) && AllSpace(b)
    ensures AllSpace(c) && s == a + t + c
  {
    c := b + [s[|s| - 1]];
    assert s == s[..|s| - 1] + [s[|s| - 1]];
  }

  /** The first place from `i` up to `n` that is a hit. */
  function FirstFrom(hit: nat -> bool, i: nat, n: nat): (r: Option<nat>)
    requires i <= n
    ensures r.Some? ==> i <= r.value <= n && hit(r.value)
    ensures forall j :: i <= j < (if r.Some? then r.value else n + 1) ==> !hit(j)
    decreases n - i
  {
    if hit(i) then Some(i) else if i == n then None else FirstFrom(hit, i + 1, n)
  }

  predicate At(s: string, m: string, i: nat) { i + |m| <= |s| && s[i..i + |m|] == m }

  /** `strings.Index` */
  function IndexFrom(s: string, m: string, i: nat): (r: Option<nat>)
    requires i <= |s|
    ensures r.Some? ==> i <= r.value && At(s, m, r.value) && forall j :: i <= j < r.value ==> !At(s, m, j)
    ensures r.None? ==> forall j :: i <= j ==> !At(s, m, j)
    decreases |s| - i
  {
    if At(s, m, i) then Some(i) else if i == |s| then None else IndexFrom(s, m, i + 1)
  }

  ghost predicate Occurs(s: string, m: string) { exists i :: 0 <= i && At(s, m, i) }
}

/** Unbounded decimal numerals as the tooling handles them: strings of digits. */
module Decimal {
  import opened Text

  predicate IsDigit(c: char) { '0' <= c <= '9' }

  /** `isNumeric`: a non-empty run of digits. */
  predicate IsNumeric(s: string) { s != [] && AllDigits(s) }

  predicate AllDigits(s: string) { forall i :: 0 <= i < |s| ==> IsDigit(s[i]) }

  /** `0|[1-9][0-9]*` */
  predicate IsCanonical(s: string) { IsNumeric(s) && (s[0] != '0' || s == "0") }

  function DigitValue(c: char): (d: nat)
    requires IsDigit(c)
    ensures d < 10
  {
    (c as int - '0' as int)
  }

  function DigitChar(d: nat): (c: char)
    requires d < 10
    ensures IsDigit(c) && DigitValue(c) == d
  {
    ('0' as int + d) as char
  }

  function Value(s: string): (n: nat)
    requires AllDigits(s)
  {
    if s == [] then 0 else 10 * Value(s[..|s| - 1]) + DigitValue(s[|s| - 1])
  }

  /** `big.Int.String` for a non-negative number. */
  function Numeral(n: nat): (s: string)
    ensures IsCanonical(s)
    ensures n > 0 ==> s[0] != '0'
  {
    if n < 10 then [DigitChar(n)] else Numeral(n / 10) + [DigitChar(n % 10)]
  }

  lemma {:induction false} ValueOfNumeral(n: nat)
    ensures Value(Numeral(n)) == n
  {
    var s := Numeral(n);
    if n < 10 {
      assert s[..0] == [];
    } else {
      ValueOfNumeral(n / 10);
      assert s[..|s| - 1] == Numeral(n / 10);
    }
  }

  lemma {:induction false} NumeralOfValue(s: string)
    requires IsCanonical(s)
    ensures Numeral(Value(s)) == s
  {
    var init, last := s[..|s| - 1], s[|s| - 1];
    assert s == init + [last];
    if init == [] {
      assert Value(s) == DigitValue(last);
    } else {
      assert init[0] != '0';
      NumeralOfValue(init);
      LongerIsLarger([], init);
    }
  }

  /** More digits, without a leading zero, is a larger number. */
  lemma {:induction false} LongerIsLarger(a: string, b: string)
    requires AllDigits(a) && AllDigits(b) && |a| < |b| && b[0] != '0'
    ensures Value(a) < Value(b)
  {
    var b' := b[..|b| - 1];
    if a == [] {
      if b' != [] { LongerIsLarger([], b'); }
    } else {
      LongerIsLarger(a[..|a| - 1], b');
    }
  }

  /** Equal digit counts: text order is numeric order. */
  lemma {:induction false} SameLengthOrder(a: string, b: string)
    requires AllDigits(a) && AllDigits(b) && |a| == |b|
    ensures Compare(a, b) < 0 <==> Value(a) < Value(b)
    ensures Compare(a, b) == 0 <==> Value(a) == Value(b)
  {
    if a != [] {
      var a', b' := a[..|a| - 1], b[..|b| - 1];
      var x, y := a[|a| - 1], b[|b| - 1];
      SameLengthOrder(a', b');
      CompareSnoc(a', x, b', y);
      assert a == a' + [x] && b == b' + [y];
    }
  }
}
