/** Sequences sorted by a pair of strings, as the three comparators of the resolved inventory
    sort releases, artifacts and sources. */
module Sorting {
  import opened Text

  datatype Pair = Pair(fst: string, snd: string)

  /** `compareResolvedInventoryReleases` and its two companions. */
  function ComparePair(a: Pair, b: Pair): int {
    if a.fst != b.fst then Compare(a.fst, b.fst) else Compare(a.snd, b.snd)
  }

  predicate Less(a: Pair, b: Pair) { ComparePair(a, b) < 0 }

  lemma {:induction false} LessIsStrict(a: Pair, b: Pair)
    ensures Less(a, b) || a == b || Less(b, a)
    ensures Less(a, b) ==> a != b && !Less(b, a)
  {
    CompareZero(a.fst, b.fst);
    CompareZero(a.snd, b.snd);
    CompareFlip(a.fst, b.fst);
    CompareFlip(a.snd, b.snd);
  }

  lemma {:induction false} LessIsTransitive(a: Pair, b: Pair, c: Pair)
    requires Less(a, b) && Less(b, c)
    ensures Less(a, c)
  {
    if a.fst != b.fst && b.fst != c.fst {
      CompareTransitive(a.fst, b.fst, c.fst);
      CompareZero(a.fst, c.fst);
    } else if a.fst == b.fst == c.fst {
      CompareTransitive(a.snd, b.snd, c.snd);
    }
  }

  /** Strictly ascending keys. */
  ghost predicate Ascending(keys: seq<Pair>) { forall i, j :: 0 <= i < j < |keys| ==> Less(keys[i], keys[j]) }

  /** What the validator checks: each of the first `n` keys above the one before it. */
  predicate StepsUp(keys: seq<Pair>, n: nat)
    requires n <= |keys|
  {
    n <= 1 || (StepsUp(keys, n - 1) && Less(keys[n - 2], keys[n - 1]))
  }

  lemma {:induction false} StepTo(keys: seq<Pair>, n: nat, i: nat, j: nat)
    requires n <= |keys| && StepsUp(keys, n) && i < j < n
    ensures Less(keys[i], keys[j])
    decreases n
  {
    if j < n - 1 {
      StepTo(keys, n - 1, i, j);
    } else if i < j - 1 {
      StepTo(keys, n - 1, i, j - 1);
      LessIsTransitive(keys[i], keys[j - 1], keys[j]);
    }
  }

  lemma {:induction false} StepsAscend(keys: seq<Pair>)
    requires StepsUp(keys, |keys|)
    ensures Ascending(keys)
  {
    forall i, j | 0 <= i < j < |keys| ensures Less(keys[i], keys[j]) {
      StepTo(keys, |keys|, i, j);
    }
  }

  lemma {:induction false} StepDown(keys: seq<Pair>, i: nat)
    requires 0 < i < |keys| && !Less(keys[i - 1], keys[i])
    ensures !Ascending(keys)
  {
  }

  function Keys<T>(s: seq<T>, key: T -> Pair): (ks: seq<Pair>)
    ensures |ks| == |s| && forall i :: 0 <= i < |s| ==> ks[i] == key(s[i])
  {
    seq(|s|, i requires 0 <= i < |s| => key(s[i]))
  }

  /** `sort.Slice` with a comparator by key: where no two keys are equal, any sort by that
      comparator gives this. */
  function SortBy<T>(s: seq<T>, key: T -> Pair): (out: seq<T>)
    ensures |out| == |s|
  {
    if s == [] then [] else Insert(s[0], SortBy(s[1..], key), key)
  }

  function Insert<T>(x: T, s: seq<T>, key: T -> Pair): (out: seq<T>)
    ensures |out| == |s| + 1
  {
    if s == [] || Less(key(x), key(s[0])) then [x] + s else [s[0]] + Insert(x, s[1..], key)
  }

  lemma {:induction false} InsertMembers<T>(x: T, s: seq<T>, key: T -> Pair, y: T)
    ensures y in Insert(x, s, key) <==> y == x || y in s
  {
    if s != [] && !Less(key(x), key(s[0])) {
      InsertMembers(x, s[1..], key, y);
      assert s == [s[0]] + s[1..];
    }
  }

  lemma {:induction false} SortMembers<T>(s: seq<T>, key: T -> Pair, y: T)
    ensures y in SortBy(s, key) <==> y in s
  {
    if s != [] {
      SortMembers(s[1..], key, y);
      InsertMembers(s[0], SortBy(s[1..], key), key, y);
      assert s == [s[0]] + s[1..];
    }
  }

  ghost predicate DistinctKeys<T>(s: seq<T>, key: T -> Pair) {
    forall i, j :: 0 <= i < j < |s| ==> key(s[i]) != key(s[j])
  }

  /** Ascending, by members: below a head, and on. */
  lemma {:induction false} AscendingCons(k: Pair, keys: seq<Pair>)
    requires Ascending(keys) && (keys != [] ==> Less(k, keys[0]))
    ensures Ascending([k] + keys)
  {
    var all := [k] + keys;
    forall i, j | 0 <= i < j < |all| ensures Less(all[i], all[j]) {
      if i == 0 && j > 1 { LessIsTransitive(k, keys[0], keys[j - 1]); }
    }
  }

  lemma {:induction false} KeysCons<T>(x: T, s: seq<T>, key: T -> Pair)
    ensures Keys([x] + s, key) == [key(x)] + Keys(s, key)
  {
  }

  lemma {:induction false} AscendingRest<T>(s: seq<T>, key: T -> Pair)
    requires s != [] && Ascending(Keys(s, key))
    ensures Ascending(Keys(s[1..], key))
  {
    assert Keys(s[1..], key) == Keys(s, key)[1..];
  }

  lemma {:induction false} InsertAscends<T>(x: T, s: seq<T>, key: T -> Pair)
    requires Ascending(Keys(s, key)) && forall i :: 0 <= i < |s| ==> key(s[i]) != key(x)
    ensures Ascending(Keys(Insert(x, s, key), key))
  {
    var out := Insert(x, s, key);
    if s == [] || Less(key(x), key(s[0])) {
      AscendingCons(key(x), Keys(s, key));
      KeysCons(x, s, key);
    } else {
      var rest := Insert(x, s[1..], key);
      AscendingRest(s, key);
      InsertAscends(x, s[1..], key);
      InsertedIsAbove(x, s, key);
      AscendingCons(key(s[0]), Keys(rest, key));
      KeysCons(s[0], rest, key);
    }
  }

  lemma {:induction false} InsertedIsAbove<T>(x: T, s: seq<T>, key: T -> Pair)
    requires s != [] && Ascending(Keys(s, key)) && key(s[0]) != key(x) && !Less(key(x), key(s[0]))
    ensures Insert(x, s[1..], key) != [] && Less(key(s[0]), key(Insert(x, s[1..], key)[0]))
  {
    LessIsStrict(key(s[0]), key(x));
    if |s| > 1 { assert Less(Keys(s, key)[0], Keys(s, key)[1]); }
  }

  /** Sorting distinct keys makes them ascend. */
  lemma {:induction false} SortAscends<T>(s: seq<T>, key: T -> Pair)
    requires DistinctKeys(s, key)
    ensures Ascending(Keys(SortBy(s, key), key))
  {
    if s != [] {
      var rest := SortBy(s[1..], key);
      SortAscends(s[1..], key);
      forall i | 0 <= i < |rest| ensures key(rest[i]) != key(s[0]) {
        SortMembers(s[1..], key, rest[i]);
        var j :| 0 <= j < |s[1..]| && s[1..][j] == rest[i];
        assert s[j + 1] == rest[i];
      }
      InsertAscends(s[0], rest, key);
    }
  }

  lemma {:induction false} AscendingTail<T>(s: seq<T>, key: T -> Pair)
    requires s != [] && Ascending(Keys(s, key))
    ensures Ascending(Keys(s[1..], key)) && s[0] !in s[1..]
    ensures forall y :: y in s[1..] ==> Less(key(s[0]), key(y))
  {
    assert Keys(s[1..], key) == Keys(s, key)[1..];
    forall y | y in s[1..] ensures Less(key(s[0]), key(y)) && y != s[0] {
      var j :| 0 <= j < |s[1..]| && s[1..][j] == y;
      assert Less(Keys(s, key)[0], Keys(s, key)[j + 1]);
      LessIsStrict(key(s[0]), key(y));
    }
  }

  /** An ascending sequence is determined by its members: nothing else about how it was put
      together shows. */
  lemma {:induction false} AscendingIsUnique<T>(a: seq<T>, b: seq<T>, key: T -> Pair)
    requires Ascending(Keys(a, key)) && Ascending(Keys(b, key))
    requires forall x :: x in a <==> x in b
    ensures a == b
    decreases |a|
  {
    assert b != [] ==> b[0] in b;
    if a != [] {
      assert a[0] in b;
      AscendingTail(a, key);
      AscendingTail(b, key);
      assert b[0] in a;
      LessIsStrict(key(a[0]), key(b[0]));
      assert a == [a[0]] + a[1..] && b == [b[0]] + b[1..];
      assert a[0] == b[0];
      forall x ensures x in a[1..] <==> x in b[1..] {
        assert x in a <==> x in b;
      }
      AscendingIsUnique(a[1..], b[1..], key);
    }
  }
}
