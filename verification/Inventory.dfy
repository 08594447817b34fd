/** Resolved stack inventories and what makes one valid (`resolved_inventory.go`). */
module Inventory {
  import opened Text
  import opened Sorting

  datatype Release = Release(plane: string, name: string, namespace: string, required: bool, chart: string, version: string)

  datatype Source = Source(plane: string, release: string, requirement: string)

  datatype Artifact = Artifact(
    kind: string, name: string, repository: string, version: string, digest: string, reference: string, sources: seq<Source>)

  /** The stack release an inventory was resolved from, and whether that record passes its own
      validation. */
  datatype StackSource = StackSource(version: string, tag: string, commit: string, valid: bool)

  datatype Inventory = Inventory(
    schema: int, source: StackSource, releases: seq<Release>, artifacts: seq<Artifact>, warnings: seq<string>)

  const SCHEMA := 1
  const CHART := "helm-chart"
  const IMAGE := "container-image"
  const REQUIRED := "required"
  const OPTIONAL := "optional"
  const PLANES: set<string> := {"compute-plane", "control-plane", "observability"}

  // ---- Keys ----

  function ReleasePair(r: Release): Pair { Pair(r.plane, r.name) }
  function SourcePair(s: Source): Pair { Pair(s.plane, s.release) }
  function ArtifactPair(a: Artifact): Pair { Pair(a.kind, a.reference) }

  /** `resolvedReleaseKey`: the text under which a release is looked up. */
  function ReleaseKey(r: Release): string { r.plane + "/" + r.name }
  function SourceKey(s: Source): string { s.plane + "/" + s.release }

  /** A pair joined by a character that the first part does not hold can be taken apart. */
  lemma {:induction false} JoinedApart(a: string, b: string, c: string, d: string, sep: char)
    requires sep !in a && sep !in c && a + [sep] + b == c + [sep] + d
    ensures a == c && b == d
  {
    var s := a + [sep] + b;
    assert s[|a|] == sep && s[|c|] == sep;
    assert s[..|a|] == a && s[..|c|] == c && s[|a| + 1..] == b && s[|c| + 1..] == d;
  }

  lemma {:induction false} PlaneHasNoSlash(plane: string)
    requires plane in PLANES
    ensures '/' !in plane
  {
  }

  /** Releases of known planes with one lookup key have one plane and one name. */
  lemma {:induction false} ReleaseKeyIsPair(r: Release, s: Release)
    requires r.plane in PLANES && s.plane in PLANES && ReleaseKey(r) == ReleaseKey(s)
    ensures ReleasePair(r) == ReleasePair(s)
  {
    PlaneHasNoSlash(r.plane);
    PlaneHasNoSlash(s.plane);
    JoinedApart(r.plane, r.name, s.plane, s.name, '/');
  }

  // ---- References ----

  /** `strings.ContainsAny(s, "{}$")` */
  predicate HasPlaceholder(s: string) { exists i :: 0 <= i < |s| && (s[i] == '{' || s[i] == '}' || s[i] == '$') }

  predicate Contains(s: string, sub: string) {
    (|s| >= |sub| && s[..|sub|] == sub) || (s != "" && Contains(s[1..], sub))
  }

  /** `strings.LastIndex` of one character. */
  function LastIndex(s: string, c: char): (i: int)
    ensures -1 <= i < |s|
    ensures i >= 0 ==> s[i] == c
  {
    if s == [] then -1 else if s[|s| - 1] == c then |s| - 1 else LastIndex(s[..|s| - 1], c)
  }

  function TrimSlashes(s: string): (t: string)
    ensures t == "" || t[|t| - 1] != '/'
  {
    if s != "" && s[|s| - 1] == '/' then TrimSlashes(s[..|s| - 1]) else s
  }

  /** `path.Base` */
  function Base(s: string): string {
    if s == "" then "."
    else
      var t := TrimSlashes(s);
      var last := t[LastIndex(t, '/') + 1..];
      if last == "" then "/" else last
  }

  predicate IsLetter(c: char) { 'A' <= c <= 'Z' || 'a' <= c <= 'z' }
  predicate IsAlnum(c: char) { IsLetter(c) || '0' <= c <= '9' }

  predicate IsMark(c: char) { c == '_' || c == '+' || c == '.' || c == '-' }

  /** `imageDigestRe` */
  predicate IsDigest(d: string) {
    var (algorithm, value) := Cut(d, ':');
    && value.Some? && value.value != "" && algorithm != "" && IsLetter(algorithm[0])
    && (forall i :: 0 <= i < |algorithm| ==> IsAlnum(algorithm[i]) || IsMark(algorithm[i]))
    && (forall i :: 0 <= i < |value.value| ==> IsAlnum(value.value[i]) || IsMark(value.value[i]) || value.value[i] == '=')
  }

  datatype Image = Image(name: string, repository: string, version: string, digest: string)

  /** Name and tag: the tag follows the last colon past the last slash. */
  function TagSplit(nameAndTag: string): (string, string) {
    var colon := LastIndex(nameAndTag, ':');
    if colon > LastIndex(nameAndTag, '/') then (nameAndTag[..colon], nameAndTag[colon + 1..]) else (nameAndTag, "")
  }

  /** `parseResolvedImageReference` */
  function ParseImage(reference: string): (image: Option<Image>) {
    if reference == "" || reference != TrimSpace(reference) || HasPlaceholder(reference) || Contains(reference, "://") then None
    else
      var (nameAndTag, digest) := Cut(reference, '@');
      if digest.Some? && !IsDigest(digest.value) then None else ImageOf(nameAndTag, digest)
  }

  function ImageOf(nameAndTag: string, digest: Option<string>): Option<Image> {
    var (repository, version) := TagSplit(nameAndTag);
    var name := Base(repository);
    if repository == "" || repository[|repository| - 1] == '/' then None
    else if (version == "" || version == "latest") && digest.None? then None
    else if name == "." || name == "/" || name == "" then None
    else Some(Image(name, repository, version, if digest.Some? then digest.value else ""))
  }

  predicate Unresolved(s: string) { TrimSpace(s) == "" || s != TrimSpace(s) || HasPlaceholder(s) }

  function TrimSuffix(s: string, suffix: string): string {
    if |s| >= |suffix| && s[|s| - |suffix|..] == suffix then s[..|s| - |suffix|] else s
  }

  datatype ChartRef = ChartRef(repository: string, name: string, reference: string)

  /** `resolvedChartReference` */
  function ParseChart(chart: string, version: string): (c: Option<ChartRef>) {
    if Unresolved(chart) || Unresolved(version) || version == "latest" then None
    else
      var clean := TrimSuffix(chart, "/");
      var name := Base(clean);
      var repository := TrimSuffix(clean, "/" + name);
      if name == "." || name == "/" || name == "" || repository == "" then None
      else Some(ChartRef(repository, name, chart + "@" + version))
  }

  /** `validateResolvedInventoryArtifact` */
  predicate ValidArtifact(a: Artifact) {
    if a.kind == CHART then
      a.digest == "" && ParseChart(a.repository + "/" + a.name, a.version) == Some(ChartRef(a.repository, a.name, a.reference))
    else
      a.kind == IMAGE && ParseImage(a.reference) == Some(Image(a.name, a.repository, a.version, a.digest))
  }

  // ---- Validity ----

  predicate ValidWarnings(warnings: seq<string>) {
    && (forall i :: 0 <= i < |warnings| ==> warnings[i] != "" && warnings[i] == TrimSpace(warnings[i]))
    && (forall i :: 1 <= i < |warnings| ==> Compare(warnings[i - 1], warnings[i]) < 0)
  }

  /** The release a source names, and a requirement that fits it. */
  predicate SourceFits(kind: string, s: Source, r: Release) {
    && ReleaseKey(r) == SourceKey(s)
    && s.requirement in {"", REQUIRED, OPTIONAL}
    && (kind == CHART && s.requirement != "" ==> (s.requirement == REQUIRED) == r.required)
  }

  ghost predicate SourceOk(kind: string, s: Source, releases: seq<Release>) {
    exists r :: r in releases && SourceFits(kind, s, r)
  }

  ghost predicate SourcesOk(a: Artifact, releases: seq<Release>) {
    && a.sources != [] && Ascending(Keys(a.sources, SourcePair))
    && forall s :: s in a.sources ==> SourceOk(a.kind, s, releases)
  }

  /** A source of the artifact makes it the chart of this release. */
  predicate IsChartOf(a: Artifact, s: Source, r: Release) {
    s in a.sources && a.kind == CHART && SourceKey(s) == ReleaseKey(r) && a.reference == r.chart + "@" + r.version
  }

  ghost predicate HasChart(artifacts: seq<Artifact>, r: Release) {
    exists a, s :: a in artifacts && IsChartOf(a, s, r)
  }

  ghost predicate ReleasesOk(releases: seq<Release>) {
    Ascending(Keys(releases, ReleasePair)) && forall r :: r in releases ==> r.plane in PLANES
  }

  ghost predicate ArtifactsOk(artifacts: seq<Artifact>, releases: seq<Release>) {
    && Ascending(Keys(artifacts, ArtifactPair))
    && (forall a :: a in artifacts ==> ValidArtifact(a) && SourcesOk(a, releases))
    && (forall r :: r in releases ==> HasChart(artifacts, r))
  }

  /** What `validateResolvedStackInventory` accepts. */
  ghost predicate Valid(inv: Inventory) {
    && inv.schema == SCHEMA && inv.source.valid && inv.releases != [] && inv.artifacts != []
    && ValidWarnings(inv.warnings) && ReleasesOk(inv.releases) && ArtifactsOk(inv.artifacts, inv.releases)
  }

  /** All that a valid artifact says but where it is used. */
  predicate SameFields(a: Artifact, b: Artifact) { a == b.(sources := a.sources) }

  /** The fields of two valid artifacts with one type and reference are the same, exactly unless
      they are charts with versions of different lengths, and then a version holds `@`. */
  lemma {:induction false} FieldsByReference(a: Artifact, b: Artifact)
    requires ValidArtifact(a) && ValidArtifact(b) && ArtifactPair(a) == ArtifactPair(b)
    ensures SameFields(a, b) <==> (a.kind == CHART ==> |a.version| == |b.version|)
    ensures !SameFields(a, b) ==> a.kind == CHART && ('@' in a.version || '@' in b.version)
  {
    if a.kind == CHART {
      var x, y := a.repository + "/" + a.name, b.repository + "/" + b.name;
      assert a.reference == x + "@" + a.version == y + "@" + b.version;
      if |a.version| == |b.version| {
        SplitAtSameLength(x, a.version, y, b.version);
      } else if |a.version| < |b.version| {
        LongerHoldsAt(x, a.version, y, b.version);
      } else {
        LongerHoldsAt(y, b.version, x, a.version);
      }
    }
  }

  lemma {:induction false} SplitAtSameLength(x: string, v: string, y: string, w: string)
    requires x + "@" + v == y + "@" + w && |v| == |w|
    ensures x == y && v == w
  {
    var s := x + "@" + v;
    assert s[..|x|] == x && s[..|y|] == y && s[|x| + 1..] == v && s[|y| + 1..] == w;
  }

  /** The longer of two texts after an `@` of one text holds the `@` before the shorter. */
  lemma {:induction false} LongerHoldsAt(x: string, v: string, y: string, w: string)
    requires x + "@" + v == y + "@" + w && |v| < |w|
    ensures '@' in w
  {
    var s := x + "@" + v;
    assert s[|x|] == '@' && s[|x|] == (y + "@" + w)[|x|] && w[|x| - |y| - 1] == '@';
  }
}
