/** Planning and applying a release to one chart target that declares where its tags are
    (`PlanForValuesPaths`, `ApplyValuesPaths`). */
module Charts {
  import opened Text
  import opened ChartText
  import opened ValuesPath
  import opened ValuesEdit
  import opened FileCommit
  import opened AppLines
  import App = AppVersion

  /** A values file and the paths declared in it. */
  datatype Spec = Spec(file: string, paths: seq<string>)

  /** A deploy edge: the chart's own files, if it has a Chart.yaml, the declarations, whether
      some of them are for its own values.yaml, and whether it owns appVersion. */
  datatype Target = Target(chart: Option<string>, values: string, specs: seq<Spec>, ownPaths: bool, owns: bool)

  datatype Action = Both | AppVersionOnly | ValuesPaths

  datatype Plan = Error | Refuse | Skip | Move(action: Action, current: string)

  const FLOATING: set<string> := {"latest", "main", "stable", "edge"}

  // ---- Declarations ----

  /** `declaredValuesSpecs` gives at least one declaration, each with a path. */
  predicate ValidSpecs(specs: seq<Spec>) { specs != [] && forall k :: 0 <= k < |specs| ==> specs[k].paths != [] }

  predicate Declares(specs: seq<Spec>, file: string) { exists k :: 0 <= k < |specs| && specs[k].file == file }

  /** All paths declared in one file, in order. */
  function PathsIn(specs: seq<Spec>, file: string): (paths: seq<string>) {
    if specs == [] then []
    else
      var init, last := specs[..|specs| - 1], specs[|specs| - 1];
      PathsIn(init, file) + (if last.file == file then last.paths else [])
  }

  /** The paths of a file are exactly those of its declarations. */
  lemma {:induction false} PathsInHolds(specs: seq<Spec>, file: string, path: string)
    ensures path in PathsIn(specs, file) <==> exists k :: 0 <= k < |specs| && specs[k].file == file && path in specs[k].paths
  {
    if specs != [] {
      var init := specs[..|specs| - 1];
      PathsInHolds(init, file, path);
      if k :| 0 <= k < |init| && init[k].file == file && path in init[k].paths {
        assert specs[k].file == file && path in specs[k].paths;
      }
      if k :| 0 <= k < |specs| && specs[k].file == file && path in specs[k].paths {
        assert k < |init| ==> init[k].file == file && path in init[k].paths;
      }
    }
  }

  // ---- Planning ----

  datatype Reading = Unreadable | Unresolved | Values(values: seq<string>)

  function Append(r: Reading, more: Reading): Reading {
    if !r.Values? then r else if !more.Values? then more else Values(r.values + more.values)
  }

  function ReadPath(lines: seq<string>, path: string): Reading {
    var found := Resolve(lines, path);
    if found.Found? then Values([found.value]) else Unresolved
  }

  /** The values at the paths of one file; the first path that does not resolve stops it. */
  function ReadPaths(lines: seq<string>, paths: seq<string>): (r: Reading) {
    if paths == [] then Values([])
    else Append(ReadPaths(lines, paths[..|paths| - 1]), ReadPath(lines, paths[|paths| - 1]))
  }

  function ReadSpec(files: Files, spec: Spec): Reading {
    if spec.file !in files then Unreadable else ReadPaths(Lines(files[spec.file]), spec.paths)
  }

  /** The values of all declarations, up to the first trouble. */
  function ReadSpecs(files: Files, specs: seq<Spec>): (r: Reading) {
    if specs == [] then Values([])
    else Append(ReadSpecs(files, specs[..|specs| - 1]), ReadSpec(files, specs[|specs| - 1]))
  }

  predicate AllAre(values: seq<string>, v: string) { forall k :: 0 <= k < |values| ==> values[k] == v }

  /** What planning finds out about the values, once they are read. */
  function PlanRead(files: Files, t: Target, values: seq<string>): (p: Plan)
    requires values != []
  {
    if !AllAre(values, values[0]) then Refuse
    else if !t.owns then FloatingCheck(values[0])
    else if t.chart.None? || t.chart.value !in files then Error
    else
      var m := App.Find(files[t.chart.value]);
      if m.None? || m.value.scalar.value != values[0] then Refuse else FloatingCheck(values[0])
  }

  function FloatingCheck(current: string): Plan { if current in FLOATING then Refuse else Move(ValuesPaths, current) }

  /** `PlanForValuesPaths` */
  function PlanDeclared(files: Files, t: Target): (p: Plan) {
    if t.chart.None? && (t.owns || t.ownPaths) then Skip
    else if !ValidSpecs(t.specs) then Error
    else
      var r := ReadSpecs(files, t.specs);
      if r.Unreadable? then Error else if r.Unresolved? || r.values == [] then Refuse
      else PlanRead(files, t, r.values)
  }

  /** The declared paths of one file all read `v`. */
  predicate FileReads(files: Files, specs: seq<Spec>, file: string, v: string) {
    file in files && ReadsAll(Lines(files[file]), PathsIn(specs, file), v)
  }

  predicate SpecReads(files: Files, spec: Spec, v: string) {
    spec.file in files && ReadsAll(Lines(files[spec.file]), spec.paths, v)
  }

  predicate AllRead(r: Reading, v: string) { r.Values? && AllAre(r.values, v) }

  lemma {:induction false} AppendIff(r: Reading, more: Reading, v: string)
    ensures AllRead(Append(r, more), v) <==> AllRead(r, v) && AllRead(more, v)
  {
    if r.Values? && more.Values? {
      var a, b := r.values, more.values;
      var c := a + b;
      if AllAre(c, v) {
        forall k | 0 <= k < |a| ensures a[k] == v { assert c[k] == v; }
        forall k | 0 <= k < |b| ensures b[k] == v { assert c[|a| + k] == v; }
      }
    }
  }

  /** Whether a path reads `v`, as a test. */
  function Reader(lines: seq<string>, v: string): string -> bool { path => ReadsAt(lines, path, v) }

  predicate AllPass(paths: seq<string>, test: string -> bool) { forall k :: 0 <= k < |paths| ==> test(paths[k]) }

  lemma {:induction false} AllPassSnoc(paths: seq<string>, test: string -> bool)
    requires paths != []
    ensures AllPass(paths, test) <==> AllPass(paths[..|paths| - 1], test) && test(paths[|paths| - 1])
  {
    var init := paths[..|paths| - 1];
    assert forall k :: 0 <= k < |init| ==> init[k] == paths[k];
  }

  lemma {:induction false} ReadsAllPass(lines: seq<string>, paths: seq<string>, v: string)
    ensures ReadsAll(lines, paths, v) <==> AllPass(paths, Reader(lines, v))
  {
  }

  lemma {:induction false} ReadPathIff(lines: seq<string>, path: string, v: string)
    ensures AllRead(ReadPath(lines, path), v) <==> Reader(lines, v)(path)
  {
    var r := ReadPath(lines, path);
    if r.Values? { assert r.values[0] == Resolve(lines, path).value; }
  }

  lemma {:induction false} ReadPathsPass(lines: seq<string>, paths: seq<string>, v: string)
    ensures AllRead(ReadPaths(lines, paths), v) <==> AllPass(paths, Reader(lines, v))
  {
    if paths != [] {
      var init, last := paths[..|paths| - 1], paths[|paths| - 1];
      ReadPathsPass(lines, init, v);
      ReadPathIff(lines, last, v);
      AllPassSnoc(paths, Reader(lines, v));
      AppendIff(ReadPaths(lines, init), ReadPath(lines, last), v);
    }
  }

  lemma {:induction false} ReadPathsIff(lines: seq<string>, paths: seq<string>, v: string)
    ensures AllRead(ReadPaths(lines, paths), v) <==> ReadsAll(lines, paths, v)
  {
    ReadPathsPass(lines, paths, v);
    ReadsAllPass(lines, paths, v);
  }

  predicate SpecsRead(files: Files, specs: seq<Spec>, v: string) {
    forall k :: 0 <= k < |specs| ==> SpecReads(files, specs[k], v)
  }

  lemma {:induction false} SpecsReadSnoc(files: Files, specs: seq<Spec>, v: string)
    requires specs != []
    ensures SpecsRead(files, specs, v) <==>
            SpecsRead(files, specs[..|specs| - 1], v) && SpecReads(files, specs[|specs| - 1], v)
  {
    var init := specs[..|specs| - 1];
    assert forall k :: 0 <= k < |init| ==> init[k] == specs[k];
  }

  /** All declarations read and all values are `v`. */
  lemma {:induction false} ReadSpecsIff(files: Files, specs: seq<Spec>, v: string)
    ensures AllRead(ReadSpecs(files, specs), v) <==> SpecsRead(files, specs, v)
  {
    if specs != [] {
      var init, last := specs[..|specs| - 1], specs[|specs| - 1];
      ReadSpecsIff(files, init, v);
      if last.file in files { ReadPathsIff(Lines(files[last.file]), last.paths, v); }
      SpecsReadSnoc(files, specs, v);
      AppendIff(ReadSpecs(files, init), ReadSpec(files, last), v);
    }
  }

  lemma {:induction false} SomeValue(files: Files, specs: seq<Spec>)
    requires ReadSpecs(files, specs).Values? && ValidSpecs(specs)
    ensures ReadSpecs(files, specs).values != []
  {
    var spec := specs[|specs| - 1];
    assert ReadSpec(files, spec).Values?;
    assert ReadPath(Lines(files[spec.file]), spec.paths[|spec.paths| - 1]).Values?;
  }

  /** The chart's own appVersion reads `v`. */
  predicate AppReads(files: Files, chart: Option<string>, v: string) {
    && chart.Some? && chart.value in files
    && var m := App.Find(files[chart.value]); m.Some? && m.value.scalar.value == v
  }

  lemma {:induction false} PlanReadIff(files: Files, t: Target, values: seq<string>, c: string)
    requires values != []
    ensures PlanRead(files, t, values) == Move(ValuesPaths, c) <==>
            AllAre(values, c) && (t.owns ==> AppReads(files, t.chart, c)) && c !in FLOATING
  {
    if AllAre(values, c) { assert values[0] == c; }
  }

  lemma {:induction false} MovesWhen(files: Files, t: Target, c: string)
    ensures PlanDeclared(files, t) == Move(ValuesPaths, c) <==>
            && (t.chart.Some? || !(t.owns || t.ownPaths)) && ValidSpecs(t.specs)
            && SpecsRead(files, t.specs, c) && (t.owns ==> AppReads(files, t.chart, c)) && c !in FLOATING
  {
    ReadSpecsIff(files, t.specs, c);
    var r := ReadSpecs(files, t.specs);
    if r.Values? && ValidSpecs(t.specs) {
      SomeValue(files, t.specs);
      PlanReadIff(files, t, r.values, c);
    }
  }

  /** Planning moves a target exactly when all its declared places hold one version that is a
      pin. */
  lemma {:induction false} PlanDeclaredIff(files: Files, t: Target, c: string)
    ensures PlanDeclared(files, t) == Move(ValuesPaths, c) <==>
            && (t.chart.Some? || !(t.owns || t.ownPaths)) && ValidSpecs(t.specs)
            && SpecsRead(files, t.specs, c) && (t.owns ==> AppReads(files, t.chart, c))
            && c !in {"latest", "main", "stable", "edge"}
  {
    MovesWhen(files, t, c);
  }

  /** All paths of a declaration resolve in its file. */
  predicate Resolves(files: Files, spec: Spec) { spec.file in files && AllFound(Lines(files[spec.file]), spec.paths) }

  /** The first declaration that does not is one whose file cannot be read. */
  ghost predicate FirstUnreadable(files: Files, specs: seq<Spec>) {
    exists k :: 0 <= k < |specs| && specs[k].file !in files && forall j :: 0 <= j < k ==> Resolves(files, specs[j])
  }

  /** Readings one after the other, up to the first trouble. */
  function ReadAll<T>(items: seq<T>, read: T -> Reading): (r: Reading) {
    if items == [] then Values([]) else Append(ReadAll(items[..|items| - 1], read), read(items[|items| - 1]))
  }

  ghost predicate TroubleAt<T>(items: seq<T>, read: T -> Reading, k: nat) {
    k < |items| && read(items[k]).Unreadable? && forall j :: 0 <= j < k ==> read(items[j]).Values?
  }

  lemma {:induction false} ReadAllIff<T>(items: seq<T>, read: T -> Reading)
    ensures ReadAll(items, read).Values? <==> forall k :: 0 <= k < |items| ==> read(items[k]).Values?
    ensures ReadAll(items, read).Unreadable? <==> exists k: nat :: TroubleAt(items, read, k)
  {
    if items != [] {
      var n := |items| - 1;
      var init := items[..n];
      ReadAllIff(init, read);
      assert forall k :: 0 <= k < n ==> init[k] == items[k];
      assert forall k: nat :: k < n ==> TroubleAt(items, read, k) == TroubleAt(init, read, k);
      if k: nat :| TroubleAt(init, read, k) { assert TroubleAt(items, read, k); }
      if ReadAll(init, read).Values? && read(items[n]).Unreadable? { assert TroubleAt(items, read, n); }
    }
  }

  function PathReader(lines: seq<string>): string -> Reading { path => ReadPath(lines, path) }

  lemma {:induction false} ReadPathsAre(lines: seq<string>, paths: seq<string>)
    ensures ReadPaths(lines, paths) == ReadAll(paths, PathReader(lines))
  {
    if paths != [] { ReadPathsAre(lines, paths[..|paths| - 1]); }
  }

  lemma {:induction false} ReadPathsResolves(lines: seq<string>, paths: seq<string>)
    ensures !ReadPaths(lines, paths).Unreadable? && (ReadPaths(lines, paths).Values? == AllFound(lines, paths))
  {
    ReadPathsAre(lines, paths);
    ReadAllIff(paths, PathReader(lines));
    assert forall k: nat :: !TroubleAt(paths, PathReader(lines), k);
  }

  function SpecReader(files: Files): Spec -> Reading { spec => ReadSpec(files, spec) }

  lemma {:induction false} ReadSpecsAre(files: Files, specs: seq<Spec>)
    ensures ReadSpecs(files, specs) == ReadAll(specs, SpecReader(files))
  {
    if specs != [] { ReadSpecsAre(files, specs[..|specs| - 1]); }
  }

  lemma {:induction false} ReadSpecResolves(files: Files, spec: Spec)
    ensures SpecReader(files)(spec).Values? == Resolves(files, spec)
    ensures SpecReader(files)(spec).Unreadable? == (spec.file !in files)
  {
    if spec.file in files { ReadPathsResolves(Lines(files[spec.file]), spec.paths); }
  }

  lemma {:induction false} TroubleIsUnreadable(specs: seq<Spec>, files: Files, read: Spec -> Reading)
    requires forall k :: 0 <= k < |specs| ==> read(specs[k]).Values? == Resolves(files, specs[k])
    requires forall k :: 0 <= k < |specs| ==> read(specs[k]).Unreadable? == (specs[k].file !in files)
    ensures (exists k: nat :: TroubleAt(specs, read, k)) <==> FirstUnreadable(files, specs)
  {
    if k: nat :| TroubleAt(specs, read, k) {
      assert specs[k].file !in files && forall j :: 0 <= j < k ==> Resolves(files, specs[j]);
    }
    if FirstUnreadable(files, specs) {
      var k :| 0 <= k < |specs| && specs[k].file !in files && forall j :: 0 <= j < k ==> Resolves(files, specs[j]);
      assert TroubleAt(specs, read, k);
    }
  }

  lemma {:induction false} ReadSpecsResolves(files: Files, specs: seq<Spec>)
    ensures ReadSpecs(files, specs).Unreadable? == FirstUnreadable(files, specs)
  {
    ReadSpecsAre(files, specs);
    ReadAllIff(specs, SpecReader(files));
    forall k | 0 <= k < |specs|
      ensures SpecReader(files)(specs[k]).Values? == Resolves(files, specs[k])
      ensures SpecReader(files)(specs[k]).Unreadable? == (specs[k].file !in files)
    {
      ReadSpecResolves(files, specs[k]);
    }
    TroubleIsUnreadable(specs, files, SpecReader(files));
  }

  /** Some version that all declared places hold. */
  ghost predicate AllHoldOne(files: Files, specs: seq<Spec>) { exists v :: SpecsRead(files, specs, v) }

  lemma {:induction false} HoldOneIff(files: Files, specs: seq<Spec>)
    requires ValidSpecs(specs)
    ensures var r := ReadSpecs(files, specs);
            AllHoldOne(files, specs) == (r.Values? && r.values != [] && AllAre(r.values, r.values[0]))
  {
    var r := ReadSpecs(files, specs);
    if r.Values? {
      SomeValue(files, specs);
      ReadSpecsIff(files, specs, r.values[0]);
    }
    if AllHoldOne(files, specs) {
      var v :| SpecsRead(files, specs, v);
      ReadSpecsIff(files, specs, v);
    }
  }

  lemma {:induction false} PlanReadFails(files: Files, t: Target, values: seq<string>)
    requires values != []
    ensures PlanRead(files, t, values) != Skip
    ensures PlanRead(files, t, values) == Error <==>
            AllAre(values, values[0]) && t.owns && (t.chart.None? || t.chart.value !in files)
  {
  }

  /** Planning skips a target exactly when it needs a Chart.yaml and has none. It fails exactly
      when there is no valid declaration, when a file cannot be read before a path does not
      resolve, or when all places agree and the owned Chart.yaml cannot be read. */
  lemma {:induction false} PlanDeclaredFails(files: Files, t: Target)
    ensures PlanDeclared(files, t) == Skip <==> t.chart.None? && (t.owns || t.ownPaths)
    ensures PlanDeclared(files, t) == Error <==>
            && !(t.chart.None? && (t.owns || t.ownPaths))
            && (|| !ValidSpecs(t.specs) || FirstUnreadable(files, t.specs)
                || (AllHoldOne(files, t.specs) && t.owns && t.chart.value !in files))
  {
    var r := ReadSpecs(files, t.specs);
    ReadSpecsResolves(files, t.specs);
    if ValidSpecs(t.specs) { HoldOneIff(files, t.specs); }
    if r.Values? && r.values != [] { PlanReadFails(files, t, r.values); }
  }

  // ---- Applying ----

  /** `ApplyValuesPaths` can prepare every update. */
  predicate CanApply(files: Files, t: Target, version: string) {
    ValidSpecs(t.specs) && AllEditable(files, t.specs, version) && (t.owns ==> HasApp(files, t))
  }

  predicate AllEditable(files: Files, specs: seq<Spec>, version: string) {
    forall k :: 0 <= k < |specs| ==> CanEdit(files, specs, specs[k].file, version)
  }

  predicate HasApp(files: Files, t: Target) {
    t.chart.Some? && t.chart.value in files && App.Find(files[t.chart.value]).Some?
  }

  predicate CanEdit(files: Files, specs: seq<Spec>, file: string, version: string) {
    file in files && EditFile(files[file], PathsIn(specs, file), version).Some?
  }

  /** What one file is afterwards. An update of a values file is written after the one of
      Chart.yaml. */
  function EditedFile(text: string, t: Target, version: string, file: string): string {
    if Declares(t.specs, file) then
      var edit := EditFile(text, PathsIn(t.specs, file), version);
      if edit.Some? then edit.value else text
    else if t.owns && Some(file) == t.chart then App.Replace(text, version)
    else text
  }

  /** All files afterwards. */
  function Edited(files: Files, t: Target, version: string): (out: Files)
    requires CanApply(files, t, version)
  {
    map file | file in files :: EditedFile(files[file], t, version, file)
  }

  /** Chart.yaml, if owned, as it is read. */
  predicate OwnsIn(files: Files, t: Target) { t.owns && t.chart.Some? && t.chart.value in files }

  /** The owned appVersion can follow: Chart.yaml is not a declared values file, or the path
      `appVersion` is declared in it, at an unindented line. */
  predicate AppFollows(files: Files, t: Target) {
    OwnsIn(files, t) && Declares(t.specs, t.chart.value) ==> AppAmong(files[t.chart.value], t.specs, t.chart.value)
  }

  predicate AppAmong(text: string, specs: seq<Spec>, file: string) { MovesApp(OutlineOf(Lines(text)), PathsIn(specs, file)) }

  /** The lines to be rewritten are tidy. */
  predicate TidyTarget(files: Files, t: Target) {
    && (forall k :: 0 <= k < |t.specs| ==> TidyFile(files, t.specs, t.specs[k].file))
    && (OwnsIn(files, t) && !Declares(t.specs, t.chart.value) ==> TidyApp(files[t.chart.value]))
  }

  predicate TidyFile(files: Files, specs: seq<Spec>, file: string) {
    file in files ==> TidyTargets(Lines(files[file]), PathsIn(specs, file))
  }

  predicate TidyApp(text: string) { var m := App.Find(text); m.Some? ==> Tidy(m.value.scalar) }

  /** The target can be moved this often, and is read back each time: no line that is rewritten
      is spoilt on the way, and the owned appVersion follows. */
  predicate LastingDeclared(files: Files, t: Target, n: nat) { FilesLast(files, t.specs, n) && AppLasts(files, t, n) }

  predicate FilesLast(files: Files, specs: seq<Spec>, n: nat) {
    forall k :: 0 <= k < |specs| ==> FileLasts(files, specs, specs[k].file, n)
  }

  predicate FileLasts(files: Files, specs: seq<Spec>, file: string, n: nat) {
    file in files ==> LinesLast(Lines(files[file]), PathsIn(specs, file), n)
  }

  predicate AppLasts(files: Files, t: Target, n: nat) {
    OwnsIn(files, t) ==>
      if Declares(t.specs, t.chart.value) then n > 0 ==> AppAmong(files[t.chart.value], t.specs, t.chart.value)
      else AppTextLasts(files[t.chart.value], n)
  }

  predicate AppTextLasts(text: string, n: nat) { var m := App.Find(text); m.Some? ==> Lasts(m.value.scalar, 1, n) }

  lemma {:induction false} FileReadsAll(files: Files, specs: seq<Spec>, file: string, v: string)
    requires SpecsRead(files, specs, v)
    requires Declares(specs, file)
    ensures FileReads(files, specs, file, v)
  {
    var paths := PathsIn(specs, file);
    forall j | 0 <= j < |paths| ensures ReadsAt(Lines(files[file]), paths[j], v) {
      PathsInHolds(specs, file, paths[j]);
      var k :| 0 <= k < |specs| && specs[k].file == file && paths[j] in specs[k].paths;
      assert SpecReads(files, specs[k], v);
    }
    var k :| 0 <= k < |specs| && specs[k].file == file;
    assert SpecReads(files, specs[k], v);
  }

  lemma {:induction false} SpecReadsIn(files: Files, specs: seq<Spec>, k: nat, v: string)
    requires k < |specs| && FileReads(files, specs, specs[k].file, v)
    ensures SpecReads(files, specs[k], v)
  {
    var all := PathsIn(specs, specs[k].file);
    forall j | 0 <= j < |specs[k].paths|
      ensures ReadsAt(Lines(files[specs[k].file]), specs[k].paths[j], v)
    {
      PathsInHolds(specs, specs[k].file, specs[k].paths[j]);
      var i :| 0 <= i < |all| && all[i] == specs[k].paths[j];
    }
  }

  lemma {:induction false} FoundAll(lines: seq<string>, paths: seq<string>, v: string)
    requires ReadsAll(lines, paths, v)
    ensures AllFound(lines, paths)
  {
    forall k | 0 <= k < |paths| ensures Resolve(lines, paths[k]).Found? { assert ReadsAt(lines, paths[k], v); }
  }

  /** One file: it lasts one edit more than the edited one, if this edit reads back. */
  lemma {:induction false} FileMovesIff(text: string, paths: seq<string>, version: string, n: nat)
    requires AllFound(Lines(text), paths) && CleanVersion(version)
    ensures var out := EditFile(text, paths, version);
            && out.Some? && OutlineOf(Lines(out.value)) == OutlineOf(Lines(text))
            && (LinesLast(Lines(text), paths, n + 1) <==> ReadsAll(Lines(out.value), paths, version) && LinesLast(Lines(out.value), paths, n))
  {
    EditedLines(text, paths, version);
    PathsReadBackIff(Lines(text), paths, version);
    LinesLastNext(Lines(text), Lines(EditFile(text, paths, version).value), paths, version, n);
  }

  lemma {:induction false} DeclaredFound(files: Files, t: Target, file: string, c: string)
    requires SpecsRead(files, t.specs, c) && Declares(t.specs, file)
    ensures file in files && AllFound(Lines(files[file]), PathsIn(t.specs, file))
  {
    FileReadsAll(files, t.specs, file, c);
    FoundAll(Lines(files[file]), PathsIn(t.specs, file), c);
  }

  /** What is planned can always be prepared. */
  lemma {:induction false} DeclaredCanApply(files: Files, t: Target, version: string, c: string)
    requires PlanDeclared(files, t) == Move(ValuesPaths, c) && CleanVersion(version)
    ensures CanApply(files, t, version)
  {
    PlanDeclaredIff(files, t, c);
    forall k | 0 <= k < |t.specs| ensures CanEdit(files, t.specs, t.specs[k].file, version) {
      DeclaredFound(files, t, t.specs[k].file, c);
      FileMovesIff(files[t.specs[k].file], PathsIn(t.specs, t.specs[k].file), version, 0);
    }
  }

  /** A declared file of the target, before and after. */
  lemma {:induction false} DeclaredFileIff(files: Files, t: Target, version: string, file: string, c: string, n: nat)
    requires SpecsRead(files, t.specs, c) && CanApply(files, t, version) && Declares(t.specs, file) && CleanVersion(version)
    ensures var out := Edited(files, t, version);
            && (FileLasts(files, t.specs, file, n + 1) <==> FileReads(out, t.specs, file, version) && FileLasts(out, t.specs, file, n))
            && file in files && file in out && OutlineOf(Lines(out[file])) == OutlineOf(Lines(files[file]))
  {
    DeclaredFound(files, t, file, c);
    FileMovesIff(files[file], PathsIn(t.specs, file), version, n);
  }

  lemma {:induction false} SpecsReadIff(files: Files, specs: seq<Spec>, v: string)
    ensures SpecsRead(files, specs, v) <==> forall k :: 0 <= k < |specs| ==> FileReads(files, specs, specs[k].file, v)
  {
    if SpecsRead(files, specs, v) {
      forall k | 0 <= k < |specs| ensures FileReads(files, specs, specs[k].file, v) { FileReadsAll(files, specs, specs[k].file, v); }
    }
    if forall k :: 0 <= k < |specs| ==> FileReads(files, specs, specs[k].file, v) {
      forall k | 0 <= k < |specs| ensures SpecReads(files, specs[k], v) { SpecReadsIn(files, specs, k, v); }
    }
  }

  /** All declared files of the target. */
  lemma {:induction false} DeclaredFilesIff(files: Files, t: Target, version: string, c: string, n: nat)
    requires SpecsRead(files, t.specs, c) && CanApply(files, t, version) && CleanVersion(version)
    ensures var out := Edited(files, t, version);
            FilesLast(files, t.specs, n + 1) <==> SpecsRead(out, t.specs, version) && FilesLast(out, t.specs, n)
  {
    var out := Edited(files, t, version);
    forall k | 0 <= k < |t.specs|
      ensures FileLasts(files, t.specs, t.specs[k].file, n + 1) <==>
              FileReads(out, t.specs, t.specs[k].file, version) && FileLasts(out, t.specs, t.specs[k].file, n)
    {
      DeclaredFileIff(files, t, version, t.specs[k].file, c, n);
    }
    SpecsReadIff(out, t.specs, version);
  }

  /** An owned Chart.yaml that is not declared. */
  lemma {:induction false} OwnAppIff(text: string, version: string, n: nat)
    requires App.Find(text).Some? && CleanVersion(version)
    ensures var out := App.Replace(text, version);
            App.Find(out).Some? && (AppTextLasts(text, n + 1) <==> AppText(out) == version && AppTextLasts(out, n))
  {
    App.ReplaceReadsBack(text, version);
    LastsOneLess(App.Find(text).value.scalar, version, n);
  }

  /** An owned Chart.yaml that is declared. */
  lemma {:induction false} DeclaredAppIff(files: Files, t: Target, version: string, c: string)
    requires SpecsRead(files, t.specs, c) && CanApply(files, t, version) && CleanVersion(version)
    requires OwnsIn(files, t) && Declares(t.specs, t.chart.value) && AppReads(files, t.chart, c) && c != ""
    ensures var out := Edited(files, t, version);
            && (SpecsRead(out, t.specs, version) && AppFollows(files, t) ==> AppReads(out, t.chart, version))
            && (':' !in version && c != version && AppReads(out, t.chart, version) ==> AppFollows(files, t))
  {
    var out, file := Edited(files, t, version), t.chart.value;
    DeclaredFound(files, t, file, c);
    AppFileMoves(files[file], PathsIn(t.specs, file), version);
    if SpecsRead(out, t.specs, version) { FileReadsAll(out, t.specs, file, version); }
    AppTextByLines(out[file]);
  }

  lemma {:induction false} SameAmong(text: string, out: string, specs: seq<Spec>, file: string)
    requires OutlineOf(Lines(out)) == OutlineOf(Lines(text))
    ensures AppAmong(text, specs, file) == AppAmong(out, specs, file)
  {
  }

  lemma {:induction false} DeclaredAppLasts(files: Files, t: Target, version: string, c: string, n: nat)
    requires SpecsRead(files, t.specs, c) && CanApply(files, t, version) && CleanVersion(version)
    requires OwnsIn(files, t) && Declares(t.specs, t.chart.value)
    ensures AppLasts(files, t, n + 1) <==> AppFollows(files, t) && AppLasts(Edited(files, t, version), t, n)
  {
    var out, file := Edited(files, t, version), t.chart.value;
    DeclaredFileIff(files, t, version, file, c, 0);
    SameAmong(files[file], out[file], t.specs, file);
  }

  lemma {:induction false} OwnAppLasts(files: Files, t: Target, version: string, n: nat)
    requires CanApply(files, t, version) && CleanVersion(version) && OwnsIn(files, t) && !Declares(t.specs, t.chart.value)
    ensures var out := Edited(files, t, version);
            AppLasts(files, t, n + 1) <==> AppReads(out, t.chart, version) && AppLasts(out, t, n)
  {
    OwnAppIff(files[t.chart.value], version, n);
  }

  /** The owned appVersion, once all declared places read the new version. */
  lemma {:induction false} AppIff(files: Files, t: Target, version: string, c: string, n: nat)
    requires SpecsRead(files, t.specs, c) && CanApply(files, t, version) && CleanVersion(version) && c != ""
    requires OwnsIn(files, t) && AppReads(files, t.chart, c) && SpecsRead(Edited(files, t, version), t.specs, version)
    ensures var out := Edited(files, t, version);
            && (AppLasts(files, t, n + 1) ==> AppReads(out, t.chart, version) && AppLasts(out, t, n))
            && (':' !in version && c != version && AppReads(out, t.chart, version) && AppLasts(out, t, n) ==> AppLasts(files, t, n + 1))
  {
    if Declares(t.specs, t.chart.value) {
      DeclaredAppIff(files, t, version, c);
      DeclaredAppLasts(files, t, version, c, n);
    } else {
      OwnAppLasts(files, t, version, n);
    }
  }

  lemma {:induction false} SomeRead(files: Files, t: Target, c: string)
    requires SpecsRead(files, t.specs, c) && ValidSpecs(t.specs)
    ensures c != ""
  {
    assert SpecReads(files, t.specs[0], c);
    assert ReadsAt(Lines(files[t.specs[0].file]), t.specs[0].paths[0], c);
  }

  /** Planning again after a move of a planned target reports the new version exactly when the
      target lasts a move; and it lasts one move less then. */
  lemma {:induction false} DeclaredMovesIff(files: Files, t: Target, version: string, c: string, n: nat)
    requires PlanDeclared(files, t) == Move(ValuesPaths, c) && CleanVersion(version) && version !in FLOATING
    ensures CanApply(files, t, version)
    ensures var out := Edited(files, t, version); var moved := PlanDeclared(out, t) == Move(ValuesPaths, version);
            && (LastingDeclared(files, t, n + 1) ==> moved && LastingDeclared(out, t, n))
            && (':' !in version && version != c && moved && LastingDeclared(out, t, n) ==> LastingDeclared(files, t, n + 1))
  {
    PlanDeclaredIff(files, t, c);
    DeclaredCanApply(files, t, version, c);
    var out := Edited(files, t, version);
    SomeRead(files, t, c);
    DeclaredFilesIff(files, t, version, c, n);
    if OwnsIn(files, t) && SpecsRead(out, t.specs, version) { AppIff(files, t, version, c, n); }
    PlanDeclaredIff(out, t, version);
  }

  lemma {:induction false} TidyTargetLasts(files: Files, t: Target, n: nat)
    requires TidyTarget(files, t)
    ensures LastingDeclared(files, t, n) <==> n == 0 || AppFollows(files, t)
  {
    forall k | 0 <= k < |t.specs| ensures FileLasts(files, t.specs, t.specs[k].file, n) {
      assert TidyFile(files, t.specs, t.specs[k].file);
      if t.specs[k].file in files { TidyLinesLast(Lines(files[t.specs[k].file]), PathsIn(t.specs, t.specs[k].file), n); }
    }
    if OwnsIn(files, t) && !Declares(t.specs, t.chart.value) { TidyAppLasts(files[t.chart.value], n); }
  }

  lemma {:induction false} TidyAppLasts(text: string, n: nat)
    requires TidyApp(text)
    ensures AppTextLasts(text, n)
  {
    if App.Find(text).Some? {
      App.FindScanned(text);
      TidyLasts(App.Find(text).value.scalar, 1, n);
    }
  }

  /** What applying leaves of one file. */
  ghost predicate FileMoved(files: Files, out: Files, t: Target, version: string, file: string) {
    && file in files && file in out
    && if Declares(t.specs, file) then
         MovedAll(Lines(files[file]), Lines(out[file]), PathsIn(t.specs, file), version)
       else if t.owns && Some(file) == t.chart then out[file] == App.Replace(files[file], version)
       else out[file] == files[file]
  }

  /** One declared file: from every path reading `c` to every path reading `version`. */
  lemma {:induction false} DeclaredFileMoves(files: Files, t: Target, version: string, file: string, c: string)
    requires SpecsRead(files, t.specs, c) && CanApply(files, t, version)
    requires Declares(t.specs, file) && TidyTarget(files, t) && CleanVersion(version)
    ensures var out := Edited(files, t, version); FileMoved(files, out, t, version, file) && TidyFile(out, t.specs, file)
  {
    DeclaredFound(files, t, file, c);
    var k :| 0 <= k < |t.specs| && t.specs[k].file == file;
    assert TidyFile(files, t.specs, t.specs[k].file);
    FileMoves(files[file], PathsIn(t.specs, file), version);
  }

  lemma {:induction false} StaysTidy(files: Files, t: Target, version: string, c: string)
    requires PlanDeclared(files, t) == Move(ValuesPaths, c) && TidyTarget(files, t) && CleanVersion(version)
    requires CanApply(files, t, version)
    ensures TidyTarget(Edited(files, t, version), t)
  {
    PlanDeclaredIff(files, t, c);
    var out := Edited(files, t, version);
    forall k | 0 <= k < |t.specs| ensures TidyFile(out, t.specs, t.specs[k].file) {
      DeclaredFileMoves(files, t, version, t.specs[k].file, c);
    }
    if t.owns && !Declares(t.specs, t.chart.value) { App.ReplaceReadsBack(files[t.chart.value], version); }
  }

  /** Of a planned target with tidy lines, planning again after a move reports the new version
      exactly when the owned appVersion can follow. */
  lemma {:induction false} TidyMovesIff(files: Files, t: Target, version: string, c: string)
    requires PlanDeclared(files, t) == Move(ValuesPaths, c) && TidyTarget(files, t)
    requires CleanVersion(version) && version !in FLOATING
    ensures CanApply(files, t, version)
    ensures var out := Edited(files, t, version); var moved := PlanDeclared(out, t) == Move(ValuesPaths, version);
            && (AppFollows(files, t) ==> moved && AppFollows(out, t))
            && (':' !in version && version != c && moved ==> AppFollows(files, t))
  {
    DeclaredCanApply(files, t, version, c);
    StaysTidy(files, t, version, c);
    DeclaredMovesIff(files, t, version, c, 0);
    DeclaredMovesIff(files, t, version, c, 1);
    var out := Edited(files, t, version);
    TidyTargetLasts(files, t, 1);
    TidyTargetLasts(files, t, 2);
    TidyTargetLasts(out, t, 0);
    TidyTargetLasts(out, t, 1);
  }

  /** A planned target with tidy lines, applied: every declared path in every file reads the new
      version, no line elsewhere and no other file changes, and the lines stay tidy; and, if the
      owned appVersion can follow, planning again reports the new version. */
  lemma {:induction false} DeclaredMoves(files: Files, t: Target, version: string, c: string)
    requires PlanDeclared(files, t) == Move(ValuesPaths, c) && TidyTarget(files, t)
    requires CleanVersion(version) && version !in FLOATING
    ensures CanApply(files, t, version)
    ensures var out := Edited(files, t, version);
            && out.Keys == files.Keys && (forall file :: file in files ==> FileMoved(files, out, t, version, file))
            && TidyTarget(out, t)
            && (AppFollows(files, t) ==> PlanDeclared(out, t) == Move(ValuesPaths, version) && AppFollows(out, t))
  {
    PlanDeclaredIff(files, t, c);
    TidyMovesIff(files, t, version, c);
    var out := Edited(files, t, version);
    forall file | file in files ensures FileMoved(files, out, t, version, file) {
      if Declares(t.specs, file) { DeclaredFileMoves(files, t, version, file, c); }
    }
    StaysTidy(files, t, version, c);
  }

  lemma {:induction false} FileChanges(text: string, paths: seq<string>, version: string, c: string)
    requires paths != [] && ReadsAll(Lines(text), paths, c) && CleanVersion(version) && version != c
    ensures EditFile(text, paths, version).Some? && EditFile(text, paths, version).value != text
  {
    FoundAll(Lines(text), paths, c);
    EditedLines(text, paths, version);
    var lines, out := Lines(text), Lines(EditFile(text, paths, version).value);
    assert ReadsAt(lines, paths[0], c);
    PathReads(lines, out, paths, version, paths[0]);
    var i := Resolve(lines, paths[0]).line;
    UsesTargeted(OutlineOf(lines), paths, i);
    RewritesChange(lines[i], out[i], version, Uses(OutlineOf(lines), paths, i));
  }

  /** Applied to another version, a planned target changes the first file it declares. */
  lemma {:induction false} DeclaredChanges(files: Files, t: Target, version: string, c: string)
    requires PlanDeclared(files, t) == Move(ValuesPaths, c) && CleanVersion(version) && version != c
    ensures CanApply(files, t, version) && t.specs != []
    ensures var out, file := Edited(files, t, version), t.specs[0].file; file in files && file in out && out[file] != files[file]
  {
    PlanDeclaredIff(files, t, c);
    DeclaredCanApply(files, t, version, c);
    var file := t.specs[0].file;
    assert Declares(t.specs, file);
    FileReadsAll(files, t.specs, file, c);
    PathsInHolds(t.specs, file, t.specs[0].paths[0]);
    FileChanges(files[file], PathsIn(t.specs, file), version, c);
  }

  lemma {:induction false} SameEdit(text: string, t: Target, version: string, file: string)
    requires t.owns && t.chart.Some? && Declares(t.specs, t.chart.value)
    ensures EditedFile(text, t, version, file) == EditedFile(text, t.(owns := false), version, file)
  {
  }

  /** When Chart.yaml is itself a declared values file, its values update is written over the
      appVersion update: the files end as if appVersion were not owned. */
  lemma {:induction false} DeclaredChartLosesAppVersion(files: Files, t: Target, version: string)
    requires CanApply(files, t, version) && t.owns && Declares(t.specs, t.chart.value)
    ensures CanApply(files, t.(owns := false), version)
    ensures Edited(files, t, version) == Edited(files, t.(owns := false), version)
  {
    var u := t.(owns := false);
    forall k | 0 <= k < |u.specs| ensures CanEdit(files, u.specs, u.specs[k].file, version) {
      assert CanEdit(files, t.specs, t.specs[k].file, version);
    }
    forall file | file in files ensures EditedFile(files[file], t, version, file) == EditedFile(files[file], u, version, file) {
      SameEdit(files[file], t, version, file);
    }
  }
}
