/** Identities of catalog artifacts (`assignCatalogArtifactIDs`, `catalogKey`). */
module CatalogIds {
  import opened Decimal

  datatype Artifact = Artifact(name: string, kind: string, version: string, id: string, upstream: string)

  /** `catalogKey` */
  function CatalogKey(a: Artifact): string { if a.id != "" then a.id else a.name }

  /** `artifactNameAndTypeKey` */
  function TypedName(a: Artifact): string { a.name + "\0" + a.kind }

  function CountName(s: seq<Artifact>, name: string): nat {
    if s == [] then 0 else CountName(s[..|s| - 1], name) + if s[|s| - 1].name == name then 1 else 0
  }

  function CountTyped(s: seq<Artifact>, key: string): nat {
    if s == [] then 0 else CountTyped(s[..|s| - 1], key) + if TypedName(s[|s| - 1]) == key then 1 else 0
  }

  /** The only artifact of its name, without an ID of its own: its name is its key. */
  predicate IsSingle(s: seq<Artifact>, a: Artifact) { CountName(s, a.name) == 1 && a.id == "" }

  /** Needs an ID. */
  predicate NeedsId(s: seq<Artifact>, a: Artifact) { CountName(s, a.name) != 1 && a.id == "" }

  function BaseId(s: seq<Artifact>, a: Artifact): string {
    a.name + "-" + a.kind + (if CountTyped(s, TypedName(a)) > 1 then "-" + a.version else "")
  }

  // ---- The search for a free ID ----

  /** The candidates in the order of the search. */
  function Candidate(base: string, n: nat): string {
    if n <= 1 then base else base + "-" + Numeral(n)
  }

  lemma {:induction false} CandidatesDiffer(base: string, m: nat, n: nat)
    requires 1 <= m < n
    ensures Candidate(base, m) != Candidate(base, n)
  {
    var x, y := Candidate(base, m), Candidate(base, n);
    if x == y && m > 1 {
      assert x[|base| + 1..] == Numeral(m) && y[|base| + 1..] == Numeral(n);
      ValueOfNumeral(m);
      ValueOfNumeral(n);
    }
  }

  /** The candidates before `n`. */
  ghost function Tried(base: string, n: nat): set<string> {
    if n <= 1 then {} else Tried(base, n - 1) + {Candidate(base, n - 1)}
  }

  lemma {:induction false} TriedAre(base: string, n: nat, x: string)
    ensures x in Tried(base, n) <==> exists k :: 1 <= k < n && x == Candidate(base, k)
  {
    if n > 1 { TriedAre(base, n - 1, x); }
  }

  lemma {:induction false} NotYetTried(base: string, n: nat)
    requires n >= 1
    ensures Candidate(base, n) !in Tried(base, n)
  {
    TriedAre(base, n, Candidate(base, n));
    if k :| 1 <= k < n && Candidate(base, n) == Candidate(base, k) {
      CandidatesDiffer(base, k, n);
    }
  }

  /** The search ends: each used candidate is one of finitely many, and none comes twice. */
  lemma {:induction false} SearchShrinks(base: string, n: nat, used: set<string>)
    requires n >= 1 && Candidate(base, n) in used
    ensures |used - Tried(base, n + 1)| < |used - Tried(base, n)|
  {
    NotYetTried(base, n);
    var c := Candidate(base, n);
    var rest := used - Tried(base, n);
    assert used - Tried(base, n + 1) == rest - {c};
  }

  /** The first candidate from `n` on that is not used. */
  function FreeFrom(base: string, n: nat, used: set<string>): (id: string)
    requires n >= 1
    ensures id !in used && exists k :: n <= k && id == Candidate(base, k)
    decreases |used - Tried(base, n)|
  {
    if Candidate(base, n) !in used then Candidate(base, n)
    else
      SearchShrinks(base, n, used);
      FreeFrom(base, n + 1, used)
  }

  method FindFree(base: string, used: set<string>) returns (candidate: string)
    ensures candidate == FreeFrom(base, 1, used)
  {
    candidate := base;
    var ordinal := 2;
    while candidate in used
      invariant ordinal >= 2 && candidate == Candidate(base, ordinal - 1)
      invariant FreeFrom(base, ordinal - 1, used) == FreeFrom(base, 1, used)
      decreases |used - Tried(base, ordinal - 1)|
    {
      SearchShrinks(base, ordinal - 1, used);
      candidate := base + "-" + Numeral(ordinal);
      ordinal := ordinal + 1;
    }
  }

  // ---- The assignment ----

  /** The IDs and names that are taken before the assignment. */
  function Taken(s: seq<Artifact>, n: nat): (used: set<string>)
    requires n <= |s|
  {
    set i | 0 <= i < n && (s[i].id != "" || IsSingle(s, s[i])) :: CatalogKey(s[i])
  }

  /** The IDs after the first `n` artifacts have theirs, and the IDs in use. */
  datatype Progress = Progress(done: seq<Artifact>, used: set<string>)

  function AssignTo(s: seq<Artifact>, n: nat): (p: Progress)
    requires n <= |s|
    ensures |p.done| == n
  {
    if n == 0 then Progress([], Taken(s, |s|))
    else
      var p, a := AssignTo(s, n - 1), s[n - 1];
      if NeedsId(s, a) then
        var id := FreeFrom(BaseId(s, a), 1, p.used);
        Progress(p.done + [a.(id := id)], p.used + {id})
      else Progress(p.done + [a], p.used)
  }

  function Assigned(s: seq<Artifact>): seq<Artifact> { AssignTo(s, |s|).done }

  /** A preset key: an ID of its own, or the name of a single artifact. */
  predicate IsPreset(s: seq<Artifact>, i: nat) { i < |s| && (s[i].id != "" || IsSingle(s, s[i])) }

  ghost predicate Kept(s: seq<Artifact>, out: seq<Artifact>, i: nat) {
    i < |s| && i < |out| && if NeedsId(s, s[i]) then out[i] == s[i].(id := out[i].id) && out[i].id != "" else out[i] == s[i]
  }

  lemma {:induction false} BaseIdNotEmpty(s: seq<Artifact>, a: Artifact, n: nat)
    ensures Candidate(BaseId(s, a), n) != ""
  {
  }

  /** Every field but a missing ID is kept, and every key given so far is in use. */
  lemma {:induction false} AssignKeeps(s: seq<Artifact>, n: nat)
    requires n <= |s|
    ensures var p := AssignTo(s, n);
            && (forall i :: 0 <= i < n ==> Kept(s, p.done, i) && CatalogKey(p.done[i]) in p.used)
            && Taken(s, |s|) <= p.used
  {
    if n > 0 {
      AssignKeeps(s, n - 1);
      var p, q, a := AssignTo(s, n), AssignTo(s, n - 1), s[n - 1];
      forall i | 0 <= i < n ensures Kept(s, p.done, i) && CatalogKey(p.done[i]) in p.used {
        if i < n - 1 {
          assert p.done[i] == q.done[i] && Kept(s, q.done, i);
        } else if NeedsId(s, a) {
          var id := FreeFrom(BaseId(s, a), 1, q.used);
          var k :| 1 <= k && id == Candidate(BaseId(s, a), k);
          BaseIdNotEmpty(s, a, k);
        } else {
          assert CatalogKey(s[i]) in Taken(s, |s|);
        }
      }
    }
  }

  ghost predicate PresetsDistinct(s: seq<Artifact>) {
    forall i, j :: 0 <= i < j < |s| && IsPreset(s, i) && IsPreset(s, j) ==> CatalogKey(s[i]) != CatalogKey(s[j])
  }

  ghost predicate KeysDistinct(s: seq<Artifact>) {
    forall i, j :: 0 <= i < j < |s| ==> CatalogKey(s[i]) != CatalogKey(s[j])
  }

  /** An assigned ID differs from every preset key and from every ID assigned before it. */
  lemma {:induction false} AssignedIsFresh(s: seq<Artifact>, n: nat, i: nat, j: nat)
    requires n <= |s| && i < n && j < n && i != j && NeedsId(s, s[j]) && (i < j || !NeedsId(s, s[i]))
    ensures var done := AssignTo(s, n).done; CatalogKey(done[i]) != CatalogKey(done[j])
  {
    var p, q := AssignTo(s, n), AssignTo(s, n - 1);
    AssignKeeps(s, n);
    AssignKeeps(s, n - 1);
    if j == n - 1 {
      var id := FreeFrom(BaseId(s, s[j]), 1, q.used);
      assert p.done[j].id == id && Kept(s, p.done, j);
      assert p.done[i] == q.done[i];
    } else if i == n - 1 {
      IdIsNotTaken(s, n - 1, j);
      assert CatalogKey(s[i]) in Taken(s, |s|);
      assert Kept(s, p.done, i) && p.done[j] == q.done[j];
    } else {
      AssignedIsFresh(s, n - 1, i, j);
    }
  }

  lemma {:induction false} IdIsNotTaken(s: seq<Artifact>, n: nat, j: nat)
    requires n <= |s| && j < n && NeedsId(s, s[j])
    ensures CatalogKey(AssignTo(s, n).done[j]) !in Taken(s, |s|)
  {
    AssignKeeps(s, n);
    AssignKeeps(s, n - 1);
    if j < n - 1 {
      IdIsNotTaken(s, n - 1, j);
    } else {
      assert Kept(s, AssignTo(s, n).done, j);
    }
  }

  /** All keys end up distinct exactly when the preset IDs are distinct from one another and
      from the names of the single artifacts without one. */
  lemma {:induction false} KeysDistinctIff(s: seq<Artifact>)
    ensures KeysDistinct(Assigned(s)) <==> PresetsDistinct(s)
  {
    var out := Assigned(s);
    AssignKeeps(s, |s|);
    if PresetsDistinct(s) {
      forall i, j | 0 <= i < j < |s| ensures CatalogKey(out[i]) != CatalogKey(out[j]) {
        assert Kept(s, out, i) && Kept(s, out, j);
        if NeedsId(s, s[j]) {
          AssignedIsFresh(s, |s|, i, j);
        } else if NeedsId(s, s[i]) {
          AssignedIsFresh(s, |s|, j, i);
        } else {
          assert IsPreset(s, i) && IsPreset(s, j);
        }
      }
    }
    if KeysDistinct(out) {
      forall i, j | 0 <= i < j < |s| && IsPreset(s, i) && IsPreset(s, j) ensures CatalogKey(s[i]) != CatalogKey(s[j]) {
        assert Kept(s, out, i) && Kept(s, out, j);
      }
    }
  }

  // ---- What each artifact gets ----

  /** Another artifact of the name. */
  ghost predicate SharesName(s: seq<Artifact>, i: nat) {
    i < |s| && exists j :: 0 <= j < |s| && j != i && s[j].name == s[i].name
  }

  /** Another artifact of the name and the type. */
  ghost predicate SharesType(s: seq<Artifact>, i: nat) {
    i < |s| && exists j :: 0 <= j < |s| && j != i && TypedName(s[j]) == TypedName(s[i])
  }

  lemma {:induction false} CountNone(s: seq<Artifact>, name: string)
    requires forall j :: 0 <= j < |s| ==> s[j].name != name
    ensures CountName(s, name) == 0
  {
    if s != [] { CountNone(s[..|s| - 1], name); }
  }

  lemma {:induction false} CountNoneTyped(s: seq<Artifact>, key: string)
    requires forall j :: 0 <= j < |s| ==> TypedName(s[j]) != key
    ensures CountTyped(s, key) == 0
  {
    if s != [] { CountNoneTyped(s[..|s| - 1], key); }
  }

  lemma {:induction false} CountIff(s: seq<Artifact>, i: nat)
    requires i < |s|
    ensures CountName(s, s[i].name) > 1 <==> SharesName(s, i)
    ensures CountTyped(s, TypedName(s[i])) > 1 <==> SharesType(s, i)
  {
    var n := |s| - 1;
    var init := s[..n];
    assert forall j :: 0 <= j < n ==> init[j] == s[j];
    if i == n {
      if SharesName(s, i) {
        var j :| 0 <= j < |s| && j != i && s[j].name == s[i].name;
        CountedIsThere(init, j);
      } else {
        CountNone(init, s[i].name);
      }
      if SharesType(s, i) {
        var j :| 0 <= j < |s| && j != i && TypedName(s[j]) == TypedName(s[i]);
        CountedIsThere(init, j);
      } else {
        CountNoneTyped(init, TypedName(s[i]));
      }
    } else {
      CountIff(init, i);
      CountedIsThere(init, i);
      SharesInit(s, i);
    }
  }

  lemma {:induction false} SharesInit(s: seq<Artifact>, i: nat)
    requires i < |s| - 1
    ensures var n := |s| - 1;
            && (SharesName(s, i) <==> SharesName(s[..n], i) || s[n].name == s[i].name)
            && (SharesType(s, i) <==> SharesType(s[..n], i) || TypedName(s[n]) == TypedName(s[i]))
  {
    var n := |s| - 1;
    var init := s[..n];
    assert forall j :: 0 <= j < n ==> init[j] == s[j];
    if SharesName(s, i) && s[n].name != s[i].name {
      var j :| 0 <= j < |s| && j != i && s[j].name == s[i].name;
      assert init[j].name == init[i].name;
    }
    if SharesName(init, i) {
      var j :| 0 <= j < |init| && j != i && init[j].name == init[i].name;
      assert s[j].name == s[i].name;
    }
    if SharesType(s, i) && TypedName(s[n]) != TypedName(s[i]) {
      var j :| 0 <= j < |s| && j != i && TypedName(s[j]) == TypedName(s[i]);
      assert TypedName(init[j]) == TypedName(init[i]);
    }
    if SharesType(init, i) {
      var j :| 0 <= j < |init| && j != i && TypedName(init[j]) == TypedName(init[i]);
      assert TypedName(s[j]) == TypedName(s[i]);
    }
  }

  /** The name and the type, and the version if another artifact has both. */
  ghost function Wanted(s: seq<Artifact>, i: nat): string
    requires i < |s|
  {
    s[i].name + "-" + s[i].kind + (if SharesType(s, i) then "-" + s[i].version else "")
  }

  /** A key that was in use when artifact `i` had its turn: a preset ID, the name of an artifact
      that needs no ID, or an ID given before. */
  ghost predicate InUse(s: seq<Artifact>, out: seq<Artifact>, i: nat, id: string)
    requires |out| == |s|
  {
    || (exists j :: 0 <= j < |s| && s[j].id != "" && s[j].id == id)
    || (exists j :: 0 <= j < |s| && s[j].id == "" && !SharesName(s, j) && s[j].name == id)
    || (exists j :: 0 <= j < i && j < |s| && s[j].id == "" && SharesName(s, j) && out[j].id == id)
  }

  /** The first of `base`, `base-2`, `base-3`, ... that is not in use. */
  ghost predicate IsFirstFree(base: string, used: set<string>, id: string) {
    && id !in used
    && exists k :: k >= 1 && id == Candidate(base, k) && forall m :: 1 <= m < k ==> Candidate(base, m) in used
  }

  lemma {:induction false} FreeIsFirst(base: string, n: nat, used: set<string>)
    requires n >= 1 && forall m :: 1 <= m < n ==> Candidate(base, m) in used
    ensures IsFirstFree(base, used, FreeFrom(base, n, used))
    decreases |used - Tried(base, n)|
  {
    if Candidate(base, n) in used {
      SearchShrinks(base, n, used);
      FreeIsFirst(base, n + 1, used);
    }
  }

  lemma {:induction false} CandidateText(base: string, k: nat)
    requires k >= 1
    ensures Candidate(base, k) == if k == 1 then base else base + "-" + Numeral(k)
  {
  }

  lemma {:induction false} DoneStays(s: seq<Artifact>, n: nat, m: nat)
    requires n <= m <= |s|
    ensures AssignTo(s, m).done[..n] == AssignTo(s, n).done
  {
    if n < m { DoneStays(s, n, m - 1); }
  }

  lemma {:induction false} TakenIff(s: seq<Artifact>, id: string)
    ensures id in Taken(s, |s|) <==>
            || (exists j :: 0 <= j < |s| && s[j].id != "" && s[j].id == id)
            || (exists j :: 0 <= j < |s| && s[j].id == "" && !SharesName(s, j) && s[j].name == id)
  {
    forall j | 0 <= j < |s| ensures IsSingle(s, s[j]) <==> s[j].id == "" && !SharesName(s, j) {
      CountIff(s, j);
      CountedIsThere(s, j);
    }
  }

  /** The IDs in use after the first `n` artifacts. */
  lemma {:induction false} UsedIff(s: seq<Artifact>, n: nat, id: string)
    requires n <= |s|
    ensures id in AssignTo(s, n).used <==> InUse(s, Assigned(s), n, id)
  {
    TakenIff(s, id);
    if n > 0 {
      UsedIff(s, n - 1, id);
      TurnOf(s, n - 1);
      var out := Assigned(s);
      if s[n - 1].id == "" && SharesName(s, n - 1) && out[n - 1].id == id { assert InUse(s, out, n, id); }
    }
  }

  /** The turn of one artifact. */
  lemma {:induction false} TurnOf(s: seq<Artifact>, i: nat)
    requires i < |s|
    ensures var before, after, a := AssignTo(s, i), AssignTo(s, i + 1), Assigned(s)[i];
            if s[i].id == "" && SharesName(s, i) then
              a == s[i].(id := FreeFrom(Wanted(s, i), 1, before.used)) && after.used == before.used + {a.id}
            else a == s[i] && after.used == before.used
  {
    DoneStays(s, i + 1, |s|);
    assert Assigned(s)[i] == AssignTo(s, i + 1).done[i];
    CountIff(s, i);
    CountedIsThere(s, i);
    assert NeedsId(s, s[i]) <==> s[i].id == "" && SharesName(s, i);
    assert BaseId(s, s[i]) == Wanted(s, i);
  }

  /** What every artifact gets, on the list alone: an artifact with an ID, or with a name of its
      own, stays as it is; any other gets the first free one of its texts. */
  lemma {:induction false} AssignedIs(s: seq<Artifact>, i: nat)
    requires i < |s|
    ensures var out := Assigned(s);
            && |out| == |s| && out[i] == s[i].(id := out[i].id)
            && (s[i].id != "" || !SharesName(s, i) ==> out[i].id == s[i].id)
            && (s[i].id == "" && SharesName(s, i) ==>
                  && !InUse(s, out, i, out[i].id)
                  && exists k :: k >= 1 && out[i].id == Candidate(Wanted(s, i), k) && forall m :: 1 <= m < k ==> InUse(s, out, i, Candidate(Wanted(s, i), m)))
  {
    TurnOf(s, i);
    var out, used, base := Assigned(s), AssignTo(s, i).used, Wanted(s, i);
    if s[i].id == "" && SharesName(s, i) {
      FreeIsFirst(base, 1, used);
      var k :| k >= 1 && out[i].id == Candidate(base, k) && forall m :: 1 <= m < k ==> Candidate(base, m) in used;
      UsedIff(s, i, out[i].id);
      forall m | 1 <= m < k ensures InUse(s, out, i, Candidate(base, m)) { UsedIff(s, i, Candidate(base, m)); }
    }
  }

  // ---- In place ----

  ghost predicate NameCounts(counts: map<string, nat>, s: seq<Artifact>) {
    forall name :: (if name in counts then counts[name] else 0) == CountName(s, name)
  }

  ghost predicate TypedCounts(counts: map<string, nat>, s: seq<Artifact>) {
    forall key :: (if key in counts then counts[key] else 0) == CountTyped(s, key)
  }

  function Bump(counts: map<string, nat>, key: string): map<string, nat> {
    counts[key := (if key in counts then counts[key] else 0) + 1]
  }

  lemma {:induction false} CountsSnoc(names: map<string, nat>, typed: map<string, nat>, s: seq<Artifact>, a: Artifact)
    requires NameCounts(names, s) && TypedCounts(typed, s)
    ensures NameCounts(Bump(names, a.name), s + [a]) && TypedCounts(Bump(typed, TypedName(a)), s + [a])
  {
    assert (s + [a])[..|s|] == s;
  }

  lemma {:induction false} CountedIsThere(s: seq<Artifact>, i: nat)
    requires i < |s|
    ensures CountName(s, s[i].name) >= 1 && CountTyped(s, TypedName(s[i])) >= 1
  {
    if i < |s| - 1 { CountedIsThere(s[..|s| - 1], i); }
  }

  /** The first loop: counts and preset IDs. */
  method Survey(s: seq<Artifact>) returns (names: map<string, nat>, typed: map<string, nat>, used: set<string>)
    ensures NameCounts(names, s) && TypedCounts(typed, s)
    ensures used == set i | 0 <= i < |s| && s[i].id != "" :: s[i].id
  {
    names, typed, used := map[], map[], {};
    for i := 0 to |s|
      invariant NameCounts(names, s[..i]) && TypedCounts(typed, s[..i])
      invariant used == set k | 0 <= k < i && s[k].id != "" :: s[k].id
    {
      CountsSnoc(names, typed, s[..i], s[i]);
      assert s[..i + 1] == s[..i] + [s[i]];
      names, typed := Bump(names, s[i].name), Bump(typed, TypedName(s[i]));
      if s[i].id != "" { used := used + {s[i].id}; }
    }
    assert s[..|s|] == s;
  }

  /** The second loop: the names of the single artifacts. */
  method ReserveSingles(s: seq<Artifact>, names: map<string, nat>, preset: set<string>) returns (used: set<string>)
    requires NameCounts(names, s) && preset == set i | 0 <= i < |s| && s[i].id != "" :: s[i].id
    ensures used == Taken(s, |s|)
  {
    used := preset;
    for i := 0 to |s|
      invariant used == preset + set k | 0 <= k < i && IsSingle(s, s[k]) :: s[k].name
    {
      CountedIsThere(s, i);
      if names[s[i].name] == 1 && s[i].id == "" { used := used + {s[i].name}; }
    }
    assert forall k :: 0 <= k < |s| && s[k].id != "" ==> CatalogKey(s[k]) == s[k].id;
    assert forall k :: 0 <= k < |s| && IsSingle(s, s[k]) ==> CatalogKey(s[k]) == s[k].name;
  }

  /** `assignCatalogArtifactIDs` */
  method AssignIds(artifacts: array<Artifact>)
    modifies artifacts
    ensures artifacts[..] == Assigned(old(artifacts[..]))
  {
    ghost var s := artifacts[..];
    var names, typed, used := Survey(artifacts[..]);
    used := ReserveSingles(artifacts[..], names, used);
    for i := 0 to artifacts.Length
      invariant artifacts[..i] == AssignTo(s, i).done && used == AssignTo(s, i).used
      invariant artifacts[i..] == s[i..]
    {
      var a := artifacts[i];
      assert a == artifacts[i..][0] == s[i];
      CountedIsThere(s, i);
      if names[a.name] != 1 && a.id == "" {
        var base := a.name + "-" + a.kind + (if typed[TypedName(a)] > 1 then "-" + a.version else "");
        var id := FindFree(base, used);
        artifacts[i] := a.(id := id);
        used := used + {id};
      }
      assert artifacts[..i + 1] == artifacts[..i] + [artifacts[i]];
      assert artifacts[i + 1..] == s[i + 1..];
    }
    assert artifacts[..artifacts.Length] == artifacts[..];
  }
}
