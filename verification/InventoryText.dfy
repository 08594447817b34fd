/** The references of inventory artifacts as texts, printed from their fields: what the validator
    asks of an artifact, stated without its parsers. */
module InventoryText {
  import opened Text
  import opened Sorting
  import opened Inventory

  // ---- The last character of a kind ----

  lemma {:induction false} LastIndexThere(a: string, c: char, b: string)
    requires c !in b
    ensures LastIndex(a + [c] + b, c) == |a|
  {
    var s := a + [c] + b;
    if b != "" {
      assert s[|s| - 1] == b[|b| - 1] && s[..|s| - 1] == a + [c] + b[..|b| - 1];
      LastIndexThere(a, c, b[..|b| - 1]);
    }
  }

  lemma {:induction false} LastIndexIs(s: string, c: char)
    ensures forall j :: LastIndex(s, c) < j < |s| ==> s[j] != c
  {
    if s != "" && s[|s| - 1] != c {
      LastIndexIs(s[..|s| - 1], c);
      assert forall j :: 0 <= j < |s| - 1 ==> s[..|s| - 1][j] == s[j];
    }
  }

  lemma {:induction false} LastIndexNone(s: string, c: char)
    ensures LastIndex(s, c) < 0 <==> c !in s
  {
    LastIndexIs(s, c);
  }

  /** What follows the last slash of a path, or all of it. */
  predicate IsLast(path: string, name: string) {
    '/' !in name && |name| <= |path| && path[|path| - |name|..] == name && (|name| < |path| ==> path[|path| - |name| - 1] == '/')
  }

  lemma {:induction false} LastSlash(path: string, name: string)
    requires IsLast(path, name)
    ensures LastIndex(path, '/') == |path| - |name| - 1
  {
    if |name| < |path| {
      var d := path[..|path| - |name| - 1];
      assert path == d + ['/'] + name;
      LastIndexThere(d, '/', name);
    } else {
      assert path == name;
      LastIndexNone(path, '/');
    }
  }

  lemma {:induction false} LastOf(path: string) returns (name: string)
    ensures IsLast(path, name)
  {
    LastIndexIs(path, '/');
    name := path[LastIndex(path, '/') + 1..];
  }

  /** The base of a path that does not end with a slash. */
  lemma {:induction false} BaseIs(path: string, name: string)
    requires IsLast(path, name) && name != ""
    ensures Base(path) == name && path != "" && path[|path| - 1] != '/'
  {
    assert path[|path| - 1] == name[|name| - 1];
    assert TrimSlashes(path) == path;
    LastSlash(path, name);
  }

  // ---- White space, placeholders ----

  lemma {:induction false} TrimmedIff(s: string)
    ensures s == TrimSpace(s) <==> IsTrimmed(s)
  {
    if IsTrimmed(s) {
      TrimIs("", s, "");
      assert "" + s + "" == s;
    } else {
      var a, b := TrimParts(s);
    }
  }

  lemma {:induction false} ContainsIff(s: string, sub: string)
    ensures Contains(s, sub) <==> Occurs(s, sub)
  {
    if |s| >= |sub| && s[..|sub|] == sub {
      assert s[0..0 + |sub|] == sub;
      assert At(s, sub, 0);
    } else if s != "" {
      ContainsIff(s[1..], sub);
      if Occurs(s[1..], sub) {
        var i :| 0 <= i && At(s[1..], sub, i);
        assert s[i + 1..i + 1 + |sub|] == s[1..][i..i + |sub|];
        assert At(s, sub, i + 1);
      }
      if Occurs(s, sub) {
        var i :| 0 <= i && At(s, sub, i);
        assert |sub| <= |s| ==> s[0..|sub|] == s[..|sub|];
        assert s[1..][i - 1..i - 1 + |sub|] == s[i..i + |sub|];
        assert At(s[1..], sub, i - 1);
      }
    }
  }

  /** A text that is resolved: nothing to trim, no placeholder. */
  predicate IsResolved(s: string) { s != "" && IsTrimmed(s) && '{' !in s && '}' !in s && '$' !in s }

  lemma {:induction false} ResolvedIff(s: string)
    ensures IsResolved(s) <==> !Unresolved(s)
  {
    TrimmedIff(s);
    var a, b := TrimParts(s);
  }

  // ---- Digests ----

  /** `[A-Za-z0-9_+.-]` */
  predicate IsWord(c: char) {
    'A' <= c <= 'Z' || 'a' <= c <= 'z' || '0' <= c <= '9' || c == '_' || c == '+' || c == '.' || c == '-'
  }

  predicate AlgorithmChars(s: string) { forall i :: 0 <= i < |s| ==> IsWord(s[i]) }
  predicate DigestChars(s: string) { forall i :: 0 <= i < |s| ==> IsWord(s[i]) || s[i] == '=' }

  /** `ALGORITHM:VALUE` */
  ghost predicate IsDigestText(d: string) {
    exists a, v :: d == a + [':'] + v && v != "" && a != "" && ('A' <= a[0] <= 'Z' || 'a' <= a[0] <= 'z') && AlgorithmChars(a) && DigestChars(v)
  }

  lemma {:induction false} DigestIff(d: string)
    ensures IsDigest(d) <==> IsDigestText(d)
    ensures IsDigest(d) ==> '@' !in d && d != ""
  {
    if IsDigest(d) {
      var a, v := Cut(d, ':').0, Cut(d, ':').1.value;
      assert d == a + [':'] + v && AlgorithmChars(a) && DigestChars(v);
    }
    if IsDigestText(d) {
      var a, v :| d == a + [':'] + v && v != "" && a != "" && ('A' <= a[0] <= 'Z' || 'a' <= a[0] <= 'z') && AlgorithmChars(a) && DigestChars(v);
      CutThere(a, ':', v);
    }
  }

  // ---- Images ----

  /** `REPOSITORY[:VERSION]`; without the colon the last part of the repository holds none. */
  ghost predicate NameAndTag(s: string, repository: string, name: string, version: string) {
    && IsLast(repository, name) && '/' !in version && ':' !in version
    && (s == repository + [':'] + version || (s == repository && version == "" && ':' !in name))
  }

  lemma {:induction false} TagSplitIs(s: string, repository: string, name: string, version: string)
    requires NameAndTag(s, repository, name, version)
    ensures TagSplit(s) == (repository, version)
  {
    if s == repository + [':'] + version {
      LastIndexThere(repository, ':', version);
      SlashBefore(repository, version);
      assert s[..|repository|] == repository && s[|repository| + 1..] == version;
    } else {
      LastSlash(s, name);
      ColonBefore(s, name);
    }
  }

  lemma {:induction false} SlashBefore(repository: string, version: string)
    requires '/' !in version
    ensures LastIndex(repository + [':'] + version, '/') < |repository|
  {
    var s := repository + [':'] + version;
    LastIndexIs(s, '/');
    assert s[|repository|] == ':' && forall j :: |repository| < j < |s| ==> s[j] == version[j - |repository| - 1];
  }

  lemma {:induction false} ColonBefore(s: string, name: string)
    requires IsLast(s, name) && ':' !in name
    ensures LastIndex(s, ':') <= |s| - |name| - 1
  {
    assert forall j :: |s| - |name| <= j < |s| ==> s[j] == name[j - (|s| - |name|)];
  }

  lemma {:induction false} TagSplitParts(s: string) returns (name: string)
    ensures NameAndTag(s, TagSplit(s).0, name, TagSplit(s).1)
  {
    var colon, slash := LastIndex(s, ':'), LastIndex(s, '/');
    LastIndexIs(s, ':');
    LastIndexIs(s, '/');
    if colon > slash {
      name := LastOf(s[..colon]);
      assert s == s[..colon] + [':'] + s[colon + 1..];
    } else {
      name := LastOf(s);
      LastSlash(s, name);
    }
  }

  /** The text of an image reference: the repository with the name at its end, a tag, a digest;
      at least one of the two, and no bare `latest`. */
  ghost predicate ImageText(reference: string, i: Image) {
    && IsResolved(reference) && !Occurs(reference, "://")
    && (exists s :: NameAndTag(s, i.repository, i.name, i.version) && '@' !in s && reference == s + Marked("@", i.digest))
    && (i.digest == "" || IsDigestText(i.digest))
    && (i.version in {"", "latest"} ==> i.digest != "")
    && i.name !in {"", "."}
  }

  predicate ReferenceOk(reference: string) {
    !(reference == "" || reference != TrimSpace(reference) || HasPlaceholder(reference) || Contains(reference, "://"))
  }

  lemma {:induction false} ReferenceOkIff(reference: string)
    ensures ReferenceOk(reference) <==> IsResolved(reference) && !Occurs(reference, "://")
  {
    TrimmedIff(reference);
    ContainsIff(reference, "://");
  }

  lemma {:induction false} ImageParses(reference: string, i: Image)
    requires ImageText(reference, i)
    ensures ParseImage(reference) == Some(i)
  {
    ReferenceOkIff(reference);
    var s :| NameAndTag(s, i.repository, i.name, i.version) && '@' !in s && reference == s + Marked("@", i.digest);
    CutMarked(s, '@', i.digest);
    DigestIff(i.digest);
    ImageOfParts(s, if i.digest == "" then None else Some(i.digest), i);
  }

  lemma {:induction false} ImageOfParts(s: string, d: Option<string>, i: Image)
    requires NameAndTag(s, i.repository, i.name, i.version) && i.name !in {"", "."}
    requires i.digest == (if d.None? then "" else d.value) && (i.version in {"", "latest"} ==> d.Some?)
    ensures ImageOf(s, d) == Some(i)
  {
    TagSplitIs(s, i.repository, i.name, i.version);
    BaseIs(i.repository, i.name);
  }

  lemma {:induction false} PartsOfImage(s: string, d: Option<string>)
    requires ImageOf(s, d).Some?
    ensures var i := ImageOf(s, d).value;
            && NameAndTag(s, i.repository, i.name, i.version) && i.name !in {"", "."}
            && i.digest == (if d.None? then "" else d.value) && (i.version in {"", "latest"} ==> d.Some?)
  {
    var name := TagSplitParts(s);
    NameAtEnd(TagSplit(s).0, name);
  }

  lemma {:induction false} NameAtEnd(repository: string, name: string)
    requires IsLast(repository, name) && repository != "" && repository[|repository| - 1] != '/'
    ensures name != "" && Base(repository) == name
  {
    assert |name| < |repository| ==> repository[|repository| - |name| - 1] == '/';
    BaseIs(repository, name);
  }

  lemma {:induction false} ParsedImage(reference: string)
    requires ParseImage(reference).Some?
    ensures ImageText(reference, ParseImage(reference).value)
  {
    ReferenceOkIff(reference);
    var s, d := Cut(reference, '@').0, Cut(reference, '@').1;
    CutIsMarked(reference, '@');
    if d.Some? { DigestIff(d.value); }
    PartsOfImage(s, d);
  }

  /** The parser gives exactly the fields that a reference is printed from. */
  lemma {:induction false} ImageIff(reference: string, i: Image)
    ensures ParseImage(reference) == Some(i) <==> ImageText(reference, i)
  {
    if ImageText(reference, i) { ImageParses(reference, i); }
    if ParseImage(reference) == Some(i) { ParsedImage(reference); }
  }

  // ---- Charts ----

  /** The text of a chart reference, `REPOSITORY/NAME@VERSION`. */
  ghost predicate ChartText(a: Artifact) {
    && IsResolved(a.repository + "/" + a.name) && IsResolved(a.version) && a.version != "latest"
    && a.repository != "" && a.name !in {"", "."} && '/' !in a.name
    && a.reference == a.repository + "/" + a.name + "@" + a.version && a.digest == ""
  }

  lemma {:induction false} SuffixTrimmed(s: string, suffix: string)
    ensures TrimSuffix(s + suffix, suffix) == s
  {
    assert (s + suffix)[|s|..] == suffix && (s + suffix)[..|s|] == s;
  }

  lemma {:induction false} NoSlashAtEnd(chart: string)
    requires chart != "" && chart[|chart| - 1] != '/'
    ensures TrimSuffix(chart, "/") == chart
  {
    assert chart[|chart| - 1..][0] == chart[|chart| - 1];
  }

  lemma {:induction false} ChartParses(a: Artifact)
    requires ChartText(a)
    ensures ParseChart(a.repository + "/" + a.name, a.version) == Some(ChartRef(a.repository, a.name, a.reference))
  {
    var chart := a.repository + "/" + a.name;
    ResolvedIff(chart);
    ResolvedIff(a.version);
    assert IsLast(chart, a.name);
    BaseIs(chart, a.name);
    NoSlashAtEnd(chart);
    assert chart == a.repository + ("/" + a.name);
    SuffixTrimmed(a.repository, "/" + a.name);
  }

  /** The base of any path holds no slash, except for the root. */
  lemma {:induction false} BaseHasNoSlash(s: string)
    ensures Base(s) == "/" || '/' !in Base(s)
    ensures Base(s) != ""
  {
    if s != "" { LastIndexIs(TrimSlashes(s), '/'); }
  }

  lemma {:induction false} ParsedChart(a: Artifact)
    requires ParseChart(a.repository + "/" + a.name, a.version) == Some(ChartRef(a.repository, a.name, a.reference)) && a.digest == ""
    ensures ChartText(a)
  {
    var chart := a.repository + "/" + a.name;
    ResolvedIff(chart);
    ResolvedIff(a.version);
    BaseHasNoSlash(TrimSuffix(chart, "/"));
  }

  /** A valid artifact of either kind, by its fields alone. */
  lemma {:induction false} ArtifactIff(a: Artifact)
    ensures ValidArtifact(a) <==>
            || (a.kind == "helm-chart" && ChartText(a))
            || (a.kind == "container-image" && ImageText(a.reference, Image(a.name, a.repository, a.version, a.digest)))
  {
    if a.kind == CHART {
      if ChartText(a) { ChartParses(a); }
      if ValidArtifact(a) { ParsedChart(a); }
    } else {
      ImageIff(a.reference, Image(a.name, a.repository, a.version, a.digest));
    }
  }

  // ---- Inventories ----

  /** In the order of two texts, the first one first. */
  ghost predicate Before(a: string, b: string, c: string, d: string) { Sooner(a, c) || (a == c && Sooner(b, d)) }

  lemma {:induction false} LessIff(a: Pair, b: Pair)
    ensures Less(a, b) <==> Before(a.fst, a.snd, b.fst, b.snd)
  {
    CompareIsSooner(a.fst, b.fst);
    CompareIsSooner(a.snd, b.snd);
    CompareZero(a.fst, b.fst);
  }

  ghost predicate ReleasesInOrder(rs: seq<Release>) {
    forall i, j :: 0 <= i < j < |rs| ==> Before(rs[i].plane, rs[i].name, rs[j].plane, rs[j].name)
  }

  ghost predicate SourcesInOrder(ss: seq<Source>) {
    forall i, j :: 0 <= i < j < |ss| ==> Before(ss[i].plane, ss[i].release, ss[j].plane, ss[j].release)
  }

  ghost predicate ArtifactsInOrder(s: seq<Artifact>) {
    forall i, j :: 0 <= i < j < |s| ==> Before(s[i].kind, s[i].reference, s[j].kind, s[j].reference)
  }

  lemma {:induction false} OrdersIff(rs: seq<Release>, ss: seq<Source>, s: seq<Artifact>)
    ensures Ascending(Keys(rs, ReleasePair)) <==> ReleasesInOrder(rs)
    ensures Ascending(Keys(ss, SourcePair)) <==> SourcesInOrder(ss)
    ensures Ascending(Keys(s, ArtifactPair)) <==> ArtifactsInOrder(s)
  {
    forall i, j | 0 <= i < j < |rs|
      ensures Less(Keys(rs, ReleasePair)[i], Keys(rs, ReleasePair)[j]) <==> Before(rs[i].plane, rs[i].name, rs[j].plane, rs[j].name)
    {
      LessIff(ReleasePair(rs[i]), ReleasePair(rs[j]));
    }
    forall i, j | 0 <= i < j < |ss|
      ensures Less(Keys(ss, SourcePair)[i], Keys(ss, SourcePair)[j]) <==> Before(ss[i].plane, ss[i].release, ss[j].plane, ss[j].release)
    {
      LessIff(SourcePair(ss[i]), SourcePair(ss[j]));
    }
    forall i, j | 0 <= i < j < |s|
      ensures Less(Keys(s, ArtifactPair)[i], Keys(s, ArtifactPair)[j]) <==> Before(s[i].kind, s[i].reference, s[j].kind, s[j].reference)
    {
      LessIff(ArtifactPair(s[i]), ArtifactPair(s[j]));
    }
  }

  /** An artifact by its fields alone. */
  ghost predicate ArtifactText(a: Artifact) {
    || (a.kind == "helm-chart" && ChartText(a))
    || (a.kind == "container-image" && ImageText(a.reference, Image(a.name, a.repository, a.version, a.digest)))
  }

  /** A source names a release, by plane and name joined with a slash, and if it says of a chart
      whether the release is required, it says so. */
  ghost predicate NamesRelease(a: Artifact, s: Source, r: Release) {
    && r.plane + "/" + r.name == s.plane + "/" + s.release && s.requirement in {"", "required", "optional"}
    && (a.kind == "helm-chart" && s.requirement != "" ==> (s.requirement == "required" <==> r.required))
  }

  /** A source of a chart artifact that is the chart of the release. */
  ghost predicate Charts(a: Artifact, s: Source, r: Release) {
    a.kind == "helm-chart" && s in a.sources && r.plane + "/" + r.name == s.plane + "/" + s.release && a.reference == r.chart + "@" + r.version
  }

  /** A valid inventory, on its fields alone. */
  ghost predicate ValidText(inv: Inventory) {
    && inv.schema == 1 && inv.source.valid && inv.releases != [] && inv.artifacts != []
    && WarningsText(inv.warnings) && ReleasesText(inv.releases) && ArtifactsText(inv.artifacts, inv.releases)
  }

  ghost predicate WarningsText(warnings: seq<string>) {
    && (forall i :: 0 <= i < |warnings| ==> warnings[i] != "" && IsTrimmed(warnings[i]))
    && (forall i :: 1 <= i < |warnings| ==> Sooner(warnings[i - 1], warnings[i]))
  }

  ghost predicate ReleasesText(releases: seq<Release>) {
    ReleasesInOrder(releases) && forall r :: r in releases ==> r.plane in {"compute-plane", "control-plane", "observability"}
  }

  ghost predicate ArtifactsText(artifacts: seq<Artifact>, releases: seq<Release>) {
    && ArtifactsInOrder(artifacts)
    && (forall a :: a in artifacts ==> ArtifactText(a) && SourcesText(a, releases))
    && (forall r :: r in releases ==> Charted(artifacts, r))
  }

  ghost predicate SourcesText(a: Artifact, releases: seq<Release>) {
    && a.sources != [] && SourcesInOrder(a.sources)
    && forall s :: s in a.sources ==> exists r :: r in releases && NamesRelease(a, s, r)
  }

  ghost predicate Charted(artifacts: seq<Artifact>, r: Release) { exists a, s :: a in artifacts && Charts(a, s, r) }

  lemma {:induction false} WarningsIff(warnings: seq<string>)
    ensures ValidWarnings(warnings) == WarningsText(warnings)
  {
    forall i | 0 <= i < |warnings| ensures warnings[i] == TrimSpace(warnings[i]) <==> IsTrimmed(warnings[i]) { TrimmedIff(warnings[i]); }
    forall i | 1 <= i < |warnings| ensures Compare(warnings[i - 1], warnings[i]) < 0 <==> Sooner(warnings[i - 1], warnings[i]) {
      CompareIsSooner(warnings[i - 1], warnings[i]);
    }
  }

  lemma {:induction false} SourcesIff(a: Artifact, releases: seq<Release>)
    ensures SourcesOk(a, releases) <==> SourcesText(a, releases)
  {
    OrdersIff([], a.sources, []);
    forall s, r ensures SourceFits(a.kind, s, r) <==> NamesRelease(a, s, r) { }
  }

  lemma {:induction false} ChartsIff(artifacts: seq<Artifact>, r: Release)
    ensures HasChart(artifacts, r) <==> Charted(artifacts, r)
  {
    forall a, s ensures IsChartOf(a, s, r) <==> Charts(a, s, r) { }
  }

  ghost predicate AllMeet<T>(s: seq<T>, p: T -> bool) { forall x :: x in s ==> p(x) }

  lemma {:induction false} MeetAlike<T>(s: seq<T>, p: T -> bool, q: T -> bool)
    requires forall x :: p(x) == q(x)
    ensures AllMeet(s, p) == AllMeet(s, q)
  {
  }

  lemma {:induction false} ArtifactsIff(artifacts: seq<Artifact>, releases: seq<Release>)
    ensures (forall a :: a in artifacts ==> ValidArtifact(a) && SourcesOk(a, releases)) <==>
            (forall a :: a in artifacts ==> ArtifactText(a) && SourcesText(a, releases))
  {
    var p, q := (a: Artifact) => ValidArtifact(a) && SourcesOk(a, releases), (a: Artifact) => ArtifactText(a) && SourcesText(a, releases);
    forall a ensures p(a) == q(a) {
      ArtifactIff(a);
      SourcesIff(a, releases);
    }
    MeetAlike(artifacts, p, q);
    assert AllMeet(artifacts, p) <==> forall a :: a in artifacts ==> ValidArtifact(a) && SourcesOk(a, releases);
    assert AllMeet(artifacts, q) <==> forall a :: a in artifacts ==> ArtifactText(a) && SourcesText(a, releases);
  }

  lemma {:induction false} AllChartedIff(artifacts: seq<Artifact>, releases: seq<Release>)
    ensures (forall r :: r in releases ==> HasChart(artifacts, r)) <==> forall r :: r in releases ==> Charted(artifacts, r)
  {
    forall r ensures HasChart(artifacts, r) <==> Charted(artifacts, r) { ChartsIff(artifacts, r); }
  }

  lemma {:induction false} ReleasesIff(releases: seq<Release>)
    ensures ReleasesOk(releases) == ReleasesText(releases)
  {
    OrdersIff(releases, [], []);
  }

  lemma {:induction false} AllArtifactsIff(artifacts: seq<Artifact>, releases: seq<Release>)
    ensures ArtifactsOk(artifacts, releases) == ArtifactsText(artifacts, releases)
  {
    OrdersIff([], [], artifacts);
    ArtifactsIff(artifacts, releases);
    AllChartedIff(artifacts, releases);
  }

  /** The validator accepts exactly these. */
  lemma {:induction false} ValidIff(inv: Inventory)
    ensures Valid(inv) == ValidText(inv)
  {
    WarningsIff(inv.warnings);
    ReleasesIff(inv.releases);
    AllArtifactsIff(inv.artifacts, inv.releases);
  }
}
