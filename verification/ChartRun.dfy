/** The bumper as it runs: declarations grouped by file, plans and edits in loops, files
    written. */
module ChartRun {
  import opened Text
  import opened ValuesPath
  import opened ValuesEdit
  import opened FileCommit
  import opened Charts
  import opened SingleImage
  import opened SemVer
  import opened PinLoop
  import App = AppVersion

  // ---- Grouping ----

  datatype Group = Group(file: string, specs: seq<Spec>)

  /** The declarations of one file, in order. */
  function Filter(specs: seq<Spec>, file: string): seq<Spec> {
    if specs == [] then []
    else
      var init, last := specs[..|specs| - 1], specs[|specs| - 1];
      Filter(init, file) + (if last.file == file then [last] else [])
  }

  lemma {:induction false} FilterPaths(specs: seq<Spec>, file: string)
    ensures PathsIn(Filter(specs, file), file) == PathsIn(specs, file)
  {
    if specs != [] {
      var init, last := specs[..|specs| - 1], specs[|specs| - 1];
      FilterPaths(init, file);
      if last.file == file {
        var f := Filter(init, file) + [last];
        assert f[..|f| - 1] == Filter(init, file);
      } else {
        assert Filter(init, file) + [] == Filter(init, file);
      }
    }
  }

  ghost predicate DistinctFiles(groups: seq<Group>) {
    forall i, j :: 0 <= i < j < |groups| ==> groups[i].file != groups[j].file
  }

  ghost predicate Grouped(groups: seq<Group>, specs: seq<Spec>) {
    && DistinctFiles(groups)
    && (forall i :: 0 <= i < |groups| ==> groups[i].specs == Filter(specs, groups[i].file))
    && (forall file :: Declares(specs, file) <==> HasGroup(groups, file))
  }

  predicate HasGroup(groups: seq<Group>, file: string) { exists i :: 0 <= i < |groups| && groups[i].file == file }

  lemma {:induction false} DeclaresSnoc(specs: seq<Spec>, spec: Spec, file: string)
    ensures Declares(specs + [spec], file) <==> Declares(specs, file) || spec.file == file
  {
    var all := specs + [spec];
    if k :| 0 <= k < |specs| && specs[k].file == file { assert all[k].file == file; }
    if spec.file == file { assert all[|specs|].file == file; }
    if k :| 0 <= k < |all| && all[k].file == file { assert k < |specs| ==> specs[k].file == file; }
  }

  lemma {:induction false} FilterNone(specs: seq<Spec>, file: string)
    requires !Declares(specs, file)
    ensures Filter(specs, file) == []
  {
    if specs != [] {
      var init := specs[..|specs| - 1];
      DeclaresSnoc(init, specs[|specs| - 1], file);
      assert init + [specs[|specs| - 1]] == specs;
      FilterNone(init, file);
    }
  }

  /** One more declaration, into the group of its file or a new one. */
  lemma {:induction false} GroupedSnoc(groups: seq<Group>, specs: seq<Spec>, spec: Spec, index: nat, out: seq<Group>)
    requires Grouped(groups, specs)
    requires if index < |groups| then
               groups[index].file == spec.file && out == groups[index := Group(spec.file, groups[index].specs + [spec])]
             else index == |groups| && !HasGroup(groups, spec.file) && out == groups + [Group(spec.file, [spec])]
    ensures Grouped(out, specs + [spec])
  {
    var all := specs + [spec];
    assert all[..|all| - 1] == specs;
    if index == |groups| { FilterNone(specs, spec.file); }
    forall i | 0 <= i < |out| ensures out[i].specs == Filter(all, out[i].file) {
      if i != index { assert out[i] == groups[i]; }
    }
    forall file ensures Declares(all, file) <==> HasGroup(out, file) {
      DeclaresSnoc(specs, spec, file);
      assert forall i :: 0 <= i < |groups| ==> out[i].file == groups[i].file;
      if i :| 0 <= i < |groups| && groups[i].file == file { assert out[i].file == file; }
      assert out[index].file == spec.file;
    }
  }

  /** `groupDeclaredValuesSpecs`: one group for each declared file, with all its declarations
      in order. */
  method GroupSpecs(specs: seq<Spec>) returns (groups: seq<Group>)
    ensures Grouped(groups, specs)
  {
    groups := [];
    var index: map<string, nat> := map[];
    for k := 0 to |specs|
      invariant Grouped(groups, specs[..k])
      invariant forall file :: file in index <==> HasGroup(groups, file)
      invariant forall file :: file in index ==> index[file] < |groups| && groups[index[file]].file == file
    {
      var spec := specs[k];
      ghost var was := groups;
      var at := |groups|;
      if spec.file in index {
        at := index[spec.file];
        groups := groups[at := Group(spec.file, groups[at].specs + [spec])];
      } else {
        index := index[spec.file := at];
        groups := groups + [Group(spec.file, [spec])];
      }
      assert specs[..k + 1] == specs[..k] + [spec];
      GroupedSnoc(was, specs[..k], spec, at, groups);
      forall file ensures file in index <==> HasGroup(groups, file) {
        DeclaresSnoc(specs[..k], spec, file);
      }
    }
    assert specs[..|specs|] == specs;
  }

  // ---- Planning the declared paths ----

  method ReadAll(lines: seq<string>, paths: seq<string>) returns (r: Reading)
    ensures r == ReadPaths(lines, paths)
  {
    var values: seq<string> := [];
    for j := 0 to |paths|
      invariant ReadPaths(lines, paths[..j]) == Values(values)
    {
      var found := ResolveValuesPath(lines, paths[j]);
      assert paths[..j + 1][..j] == paths[..j];
      if !found.Found? {
        ReadPathsStop(lines, paths, j + 1);
        return Unresolved;
      }
      values := values + [found.value];
    }
    assert paths[..|paths|] == paths;
    return Values(values);
  }

  lemma {:induction false} ReadPathsStop(lines: seq<string>, paths: seq<string>, n: nat)
    requires n <= |paths| && !ReadPaths(lines, paths[..n]).Values?
    ensures ReadPaths(lines, paths) == ReadPaths(lines, paths[..n])
  {
    if n == |paths| {
      assert paths[..n] == paths;
    } else {
      assert paths[..|paths| - 1][..n] == paths[..n];
      ReadPathsStop(lines, paths[..|paths| - 1], n);
    }
  }

  lemma {:induction false} ReadSpecsStop(files: Files, specs: seq<Spec>, n: nat)
    requires n <= |specs| && !ReadSpecs(files, specs[..n]).Values?
    ensures ReadSpecs(files, specs) == ReadSpecs(files, specs[..n])
  {
    if n == |specs| {
      assert specs[..n] == specs;
    } else {
      assert specs[..|specs| - 1][..n] == specs[..n];
      ReadSpecsStop(files, specs[..|specs| - 1], n);
    }
  }

  /** The loops over the declarations. */
  method ReadDeclared(files: Files, specs: seq<Spec>) returns (r: Reading)
    ensures r == ReadSpecs(files, specs)
  {
    var values: seq<string> := [];
    for i := 0 to |specs|
      invariant ReadSpecs(files, specs[..i]) == Values(values)
    {
      var more := Unreadable;
      if specs[i].file in files { more := ReadAll(Lines(files[specs[i].file]), specs[i].paths); }
      assert specs[..i + 1][..i] == specs[..i];
      if !more.Values? {
        ReadSpecsStop(files, specs, i + 1);
        return more;
      }
      values := values + more.values;
    }
    assert specs[..|specs|] == specs;
    return Values(values);
  }

  /** The loop that looks for a value unlike the first. */
  method Agree(values: seq<string>) returns (yes: bool)
    requires values != []
    ensures yes <==> AllAre(values, values[0])
  {
    for k := 1 to |values|
      invariant forall i :: 0 <= i < k ==> values[i] == values[0]
    {
      if values[k] != values[0] { return false; }
    }
    return true;
  }

  /** `PlanForValuesPaths` */
  method PlanForValuesPaths(files: Files, t: Target) returns (p: Plan)
    ensures p == PlanDeclared(files, t)
  {
    if t.chart.None? && (t.owns || t.ownPaths) { return Skip; }
    if !ValidSpecs(t.specs) { return Error; }
    var r := ReadDeclared(files, t.specs);
    if r.Unreadable? { return Error; }
    if r.Unresolved? || r.values == [] { return Refuse; }
    p := PlanValues(files, t, r.values);
  }

  method PlanValues(files: Files, t: Target, values: seq<string>) returns (p: Plan)
    requires values != []
    ensures p == PlanRead(files, t, values)
  {
    var agree := Agree(values);
    if !agree { return Refuse; }
    if t.owns {
      if t.chart.None? || t.chart.value !in files { return Error; }
      var m := App.Find(files[t.chart.value]);
      if m.None? || m.value.scalar.value != values[0] { return Refuse; }
    }
    return FloatingCheck(values[0]);
  }

  // ---- Applying the declared paths ----

  datatype ApplyResult = Applied | Rejected | Broken(unrestored: set<string>)

  /** The update of one group. */
  function UpdateOf(files: Files, specs: seq<Spec>, version: string, file: string): FileUpdate
    requires CanEdit(files, specs, file, version)
  {
    FileUpdate(file, files[file], EditFile(files[file], PathsIn(specs, file), version).value)
  }

  ghost predicate UpdatesOf(files: Files, specs: seq<Spec>, version: string, groups: seq<Group>, updates: seq<FileUpdate>) {
    |updates| <= |groups| &&
    forall i :: 0 <= i < |updates| ==>
      CanEdit(files, specs, groups[i].file, version) && updates[i] == UpdateOf(files, specs, version, groups[i].file)
  }

  lemma {:induction false} GroupsCanApply(files: Files, t: Target, version: string, groups: seq<Group>)
    requires Grouped(groups, t.specs)
    ensures AllEditable(files, t.specs, version) <==>
            forall i :: 0 <= i < |groups| ==> CanEdit(files, t.specs, groups[i].file, version)
  {
    forall k | 0 <= k < |t.specs| ensures HasGroup(groups, t.specs[k].file) {
      assert Declares(t.specs, t.specs[k].file);
    }
    forall i | 0 <= i < |groups| ensures Declares(t.specs, groups[i].file) {
      assert HasGroup(groups, groups[i].file);
    }
  }

  ghost predicate FromFiles(files: Files, updates: seq<FileUpdate>) {
    forall k :: 0 <= k < |updates| ==> updates[k].path in files && files[updates[k].path] == updates[k].original
  }

  /** The buffer of one group. */
  method PrepareOne(files: Files, specs: seq<Spec>, version: string, group: Group) returns (update: Option<FileUpdate>)
    requires group.specs == Filter(specs, group.file)
    ensures update.Some? <==> CanEdit(files, specs, group.file, version)
    ensures update.Some? ==> update.value == UpdateOf(files, specs, version, group.file)
  {
    var file := group.file;
    if file !in files { return None; }
    FilterPaths(specs, file);
    var edit := EditBuffer(files[file], PathsIn(group.specs, file), version);
    return if edit.None? then None else Some(FileUpdate(file, files[file], edit.value));
  }

  lemma {:induction false} UpdatesFromFiles(files: Files, specs: seq<Spec>, version: string, groups: seq<Group>, updates: seq<FileUpdate>)
    requires UpdatesOf(files, specs, version, groups, updates)
    ensures FromFiles(files, updates)
  {
    forall k | 0 <= k < |updates| ensures updates[k].path in files && files[updates[k].path] == updates[k].original {
      assert CanEdit(files, specs, groups[k].file, version) && updates[k] == UpdateOf(files, specs, version, groups[k].file);
    }
  }

  /** The buffers of all groups, prepared in turn; nothing if one cannot be. */
  method Prepare(files: Files, t: Target, version: string, groups: seq<Group>) returns (updates: Option<seq<FileUpdate>>)
    requires Grouped(groups, t.specs)
    ensures updates.Some? <==> AllEditable(files, t.specs, version)
    ensures updates.Some? ==> |updates.value| == |groups| && UpdatesOf(files, t.specs, version, groups, updates.value)
    ensures updates.Some? ==> FromFiles(files, updates.value)
  {
    GroupsCanApply(files, t, version, groups);
    updates := PrepareAll(files, t.specs, version, groups);
    if updates.Some? { UpdatesFromFiles(files, t.specs, version, groups, updates.value); }
  }

  method PrepareAll(files: Files, specs: seq<Spec>, version: string, groups: seq<Group>) returns (updates: Option<seq<FileUpdate>>)
    requires forall i :: 0 <= i < |groups| ==> groups[i].specs == Filter(specs, groups[i].file)
    ensures updates.Some? <==> forall i :: 0 <= i < |groups| ==> CanEdit(files, specs, groups[i].file, version)
    ensures updates.Some? ==> |updates.value| == |groups| && UpdatesOf(files, specs, version, groups, updates.value)
  {
    var done: seq<FileUpdate> := [];
    for i := 0 to |groups|
      invariant |done| == i && UpdatesOf(files, specs, version, groups, done)
    {
      var one := PrepareOne(files, specs, version, groups[i]);
      if one.None? { return None; }
      done := done + [one.value];
    }
    return Some(done);
  }

  lemma {:induction false} OverlayCons(files: Files, u: FileUpdate, updates: seq<FileUpdate>)
    ensures Overlay(files, [u] + updates) == Overlay(files[u.path := u.updated], updates)
  {
    if updates == [] {
      assert [u] + updates == [u] && [u][..0] == [];
    } else {
      var all := [u] + updates;
      assert all[..|all| - 1] == [u] + updates[..|updates| - 1];
      OverlayCons(files, u, updates[..|updates| - 1]);
    }
  }

  /** What the written groups are at one file, over any base that agrees elsewhere. */
  lemma {:induction false} OverlayGroups(files: Files, base: Files, t: Target, version: string, groups: seq<Group>, updates: seq<FileUpdate>, file: string)
    requires Grouped(groups, t.specs) && |updates| == |groups| && UpdatesOf(files, t.specs, version, groups, updates)
    ensures var out := Overlay(base, updates);
            if Declares(t.specs, file) then
              CanEdit(files, t.specs, file, version) && file in out && out[file] == EditFile(files[file], PathsIn(t.specs, file), version).value
            else SameAt(out, base, file)
  {
    if Declares(t.specs, file) {
      var i :| 0 <= i < |groups| && groups[i].file == file;
      forall j, k | 0 <= j < k < |updates| ensures updates[j].path != updates[k].path {
        assert updates[j].path == groups[j].file && updates[k].path == groups[k].file;
      }
      assert updates[i] == UpdateOf(files, t.specs, version, file);
      OverlayLands(base, updates, i);
    } else {
      ListsAt(updates, file);
      assert !HasGroup(groups, file);
      forall k | 0 <= k < |updates| ensures updates[k].path != file { assert updates[k].path == groups[k].file; }
      OverlayElsewhere(base, updates, file);
    }
  }

  /** The updates, Chart.yaml first when it is owned, over the files: exactly the edit. */
  lemma {:induction false} OverlayIsEdited(files: Files, t: Target, version: string, groups: seq<Group>, updates: seq<FileUpdate>, all: seq<FileUpdate>)
    requires CanApply(files, t, version) && Grouped(groups, t.specs)
    requires |updates| == |groups| && UpdatesOf(files, t.specs, version, groups, updates)
    requires all == if t.owns then [ChartUpdate(files, t, version)] + updates else updates
    ensures Overlay(files, all) == Edited(files, t, version)
  {
    var base := if t.owns then files[t.chart.value := App.Replace(files[t.chart.value], version)] else files;
    if t.owns { OverlayCons(files, all[0], updates); }
    assert Overlay(files, all) == Overlay(base, updates);
    forall file ensures SameAt(Overlay(base, updates), Edited(files, t, version), file) {
      OverlayGroups(files, base, t, version, groups, updates, file);
    }
    SameEverywhere(Overlay(base, updates), Edited(files, t, version));
  }

  function ChartUpdate(files: Files, t: Target, version: string): FileUpdate
    requires HasApp(files, t)
  {
    FileUpdate(t.chart.value, files[t.chart.value], App.Replace(files[t.chart.value], version))
  }

  lemma {:induction false} ChartFromFiles(files: Files, t: Target, version: string, updates: seq<FileUpdate>)
    requires HasApp(files, t) && FromFiles(files, updates)
    ensures FromFiles(files, [ChartUpdate(files, t, version)] + updates)
  {
  }

  /** The updates are of files that the target names. */
  ghost predicate Within(t: Target, updates: seq<FileUpdate>) { forall k :: 0 <= k < |updates| ==> Names(t, updates[k].path) }

  lemma {:induction false} UpdatesWithin(files: Files, t: Target, version: string, groups: seq<Group>, updates: seq<FileUpdate>)
    requires Grouped(groups, t.specs) && UpdatesOf(files, t.specs, version, groups, updates)
    ensures Within(t, updates)
  {
    forall k | 0 <= k < |updates| ensures Names(t, updates[k].path) {
      assert CanEdit(files, t.specs, groups[k].file, version) && updates[k] == UpdateOf(files, t.specs, version, groups[k].file);
      assert HasGroup(groups, groups[k].file);
    }
  }

  lemma {:induction false} WithinLists(t: Target, updates: seq<FileUpdate>, p: string)
    requires Within(t, updates) && !Names(t, p)
    ensures !Lists(updates, p)
  {
    ListsAt(updates, p);
  }

  /** Everything is read and prepared before the first write. */
  method AllUpdates(files: Files, t: Target, version: string) returns (all: Option<seq<FileUpdate>>)
    ensures all.Some? <==> CanApply(files, t, version)
    ensures all.Some? ==> FromFiles(files, all.value) && Overlay(files, all.value) == Edited(files, t, version) && Within(t, all.value)
  {
    if !ValidSpecs(t.specs) { return None; }
    var groups := GroupSpecs(t.specs);
    var prepared := Prepare(files, t, version, groups);
    if prepared.None? || (t.owns && !HasApp(files, t)) { return None; }
    var updates := prepared.value;
    UpdatesWithin(files, t, version, groups, updates);
    if t.owns {
      ChartFromFiles(files, t, version, updates);
      updates := [ChartUpdate(files, t, version)] + updates;
    }
    OverlayIsEdited(files, t, version, groups, prepared.value, updates);
    return Some(updates);
  }

  /** `ApplyValuesPaths` */
  method ApplyValuesPaths(disk: Disk, t: Target, version: string) returns (r: ApplyResult)
    modifies disk
    ensures r.Applied? ==> CanApply(old(disk.files), t, version) && disk.files == Edited(old(disk.files), t, version)
    ensures r.Rejected? ==> !CanApply(old(disk.files), t, version) && disk.files == old(disk.files)
    ensures r.Broken? ==> forall p :: p !in r.unrestored ==> SameAt(disk.files, old(disk.files), p)
    ensures r.Broken? && r.unrestored == {} ==> disk.files == old(disk.files)
    ensures forall p :: !Names(t, p) ==> SameAt(disk.files, old(disk.files), p)
    ensures (forall n: nat :: disk.script(n).Done?) ==> !r.Broken?
  {
    var updates := AllUpdates(disk.files, t, version);
    if updates.None? { return Rejected; }
    var c := disk.Commit(updates.value);
    forall p | !Names(t, p) ensures SameAt(disk.files, old(disk.files), p) { WithinLists(t, updates.value, p); }
    return if c.Committed? then Applied else Broken(c.unrestored);
  }

  // ---- Applying to a chart with one image ----

  ghost predicate SameBut(files: Files, before: Files, file: string) { forall p :: p != file ==> SameAt(files, before, p) }

  function ChartWritten(files: Files, t: Target, version: string): Files
    requires t.chart.Some? && t.chart.value in files
  {
    files[t.chart.value := App.Replace(files[t.chart.value], version)]
  }

  /** `Apply`: two writes, one after the other. If it fails, either only Chart.yaml may differ
      from what it was, or Chart.yaml is written and only values.yaml may differ beyond that. */
  method Apply(disk: Disk, t: Target, action: Action, current: string, version: string) returns (ok: bool)
    requires t.chart.Some? && t.chart.value in disk.files && (action.Both? ==> t.values in disk.files)
    modifies disk
    ensures ok ==> disk.files == ApplySingle(old(disk.files), t, action, current, version)
    ensures !ok ==>
              || SameBut(disk.files, old(disk.files), t.chart.value)
              || (action.Both? && SameBut(disk.files, ChartWritten(old(disk.files), t, version), t.values))
    ensures forall p :: Some(p) != t.chart && p != t.values ==> SameAt(disk.files, old(disk.files), p)
    ensures (forall n: nat :: disk.script(n).Done?) ==> ok
  {
    var files := disk.files;
    ok := disk.Write(t.chart.value, App.Replace(files[t.chart.value], version));
    if ok && action.Both? {
      ghost var between := disk.files;
      var lines := RetagLoop(Lines(files[t.values]), current, version);
      ok := disk.Write(t.values, Join(lines, '\n'));
      assert forall p :: Some(p) != t.chart && p != t.values ==> SameAt(disk.files, between, p);
    }
  }

  /** Its loop over the image tags. */
  method RetagLoop(before: seq<string>, current: string, version: string) returns (lines: seq<string>)
    ensures lines == Retag(before, ImageTags(before), current, version)
  {
    lines := before;
    var tags := FindImageTags(before);
    for k := 0 to |tags|
      invariant |lines| == |before|
      invariant Retag(lines, tags[k..], current, version) == Retag(before, tags, current, version)
    {
      var t := tags[k];
      assert tags[k..][0] == t && tags[k..][1..] == tags[k + 1..];
      if t.value == current && t.line < |lines| { lines := lines[t.line := Retagged(lines[t.line], version)]; }
    }
  }

  // ---- A run ----

  /** A deploy edge of the released service; some wait for a manual bump. */
  datatype Edge = Edge(target: Target, manual: bool)

  datatype RunState = RunState(files: Files, refused: nat, level: string, failed: bool)

  /** What the loop does for one edge, once it is planned and decided. */
  function RunPlan(s: RunState, t: Target, p: Plan, d: Decision, r: Release, write: bool): RunState {
    if p.Skip? then s
    else if p.Error? then s.(failed := true)
    else if p.Refuse? || d.Unrecovered? then s.(refused := s.refused + 1)
    else if d.Stay? then s
    else
      var moved := s.(level := HigherLevel(s.level, BumpLevel(d.from, r.version)));
      if !write then moved
      else if IsDeclared(t) && !CanApply(s.files, t, r.artifact) then moved.(failed := true)
      else moved.(files := Write(s.files, t, p, r.artifact))
  }

  function DecisionOf(p: Plan, r: Release): Decision { if p.Move? then Decide(p.current, r) else Stay }

  function RunStep(s: RunState, e: Edge, r: Release, write: bool): RunState {
    var p := PlanOf(s.files, e.target);
    if s.failed || e.manual then s else RunPlan(s, e.target, p, DecisionOf(p, r), r, write)
  }

  function RunAll(s: RunState, edges: seq<Edge>, r: Release, write: bool): RunState {
    if edges == [] then s
    else RunStep(RunAll(s, edges[..|edges| - 1], r, write), edges[|edges| - 1], r, write)
  }

  function ExitCode(s: RunState): int { if s.failed then 1 else if s.refused > 0 then 3 else 0 }

  function Start(files: Files): RunState { RunState(files, 0, "", false) }

  method PlanEdge(files: Files, t: Target) returns (p: Plan)
    ensures p == PlanOf(files, t)
    ensures p.Move? && !IsDeclared(t) ==> t.chart.Some? && t.chart.value in files && (p.action.Both? ==> t.values in files)
  {
    if IsDeclared(t) {
      p := PlanForValuesPaths(files, t);
    } else {
      p := PlanSingle(files, t);
      if p.Move? { PlannedParts(files, t, p.action, p.current); }
    }
  }

  method ApplyEdge(disk: Disk, t: Target, p: Plan, artifact: string) returns (ok: bool)
    requires p.Move? && p == PlanOf(disk.files, t)
    requires !IsDeclared(t) ==> t.chart.Some? && t.chart.value in disk.files && (p.action.Both? ==> t.values in disk.files)
    modifies disk
    ensures ok ==> disk.files == Write(old(disk.files), t, p, artifact) && (IsDeclared(t) ==> CanApply(old(disk.files), t, artifact))
    ensures (forall n: nat :: disk.script(n).Done?) && !ok ==>
              disk.files == old(disk.files) && IsDeclared(t) && !CanApply(old(disk.files), t, artifact)
    ensures forall file :: !Names(t, file) ==> SameAt(disk.files, old(disk.files), file)
  {
    if IsDeclared(t) {
      var r := ApplyValuesPaths(disk, t, artifact);
      ok := r.Applied?;
    } else {
      ok := Apply(disk, t, p.action, p.current, artifact);
    }
  }

  /** A failed state stays as it is. */
  lemma {:induction false} FailedStays(s: RunState, edges: seq<Edge>, n: nat, r: Release, write: bool)
    requires n <= |edges| && RunAll(s, edges[..n], r, write).failed
    ensures RunAll(s, edges, r, write) == RunAll(s, edges[..n], r, write)
  {
    if n == |edges| {
      assert edges[..n] == edges;
    } else {
      assert edges[..|edges| - 1][..n] == edges[..n];
      FailedStays(s, edges[..|edges| - 1], n, r, write);
    }
  }

  /** One edge of the loop. If it does not fail, the state is the next one, whatever the disk
      does; if every write is done, it is in any case. */
  method RunEdge(disk: Disk, e: Edge, r: Release, write: bool, refused: nat, level: string) returns (failed: bool, refused': nat, level': string)
    modifies disk
    ensures !failed || (forall n: nat :: disk.script(n).Done?) ==>
              RunStep(RunState(old(disk.files), refused, level, false), e, r, write) == RunState(disk.files, refused', level', failed)
    ensures forall file :: !Names(e.target, file) ==> SameAt(disk.files, old(disk.files), file)
    ensures !write ==> disk.files == old(disk.files)
  {
    failed, refused', level' := false, refused, level;
    if e.manual { return; }
    var p := PlanEdge(disk.files, e.target);
    if p.Error? { return true, refused, level; }
    if p.Refuse? { return false, refused + 1, level; }
    if p.Skip? { return; }
    var decision := DecisionOf(p, r);
    if decision.Unrecovered? { return false, refused + 1, level; }
    if decision.Bump? {
      level' := HigherLevel(level, BumpLevel(decision.from, r.version));
      if write {
        var ok := ApplyEdge(disk, e.target, p, r.artifact);
        failed := !ok;
      }
    }
  }

  /** The run ended at edge `j`: the edges before it are done, and beyond that only files of this
      edge may differ. */
  ghost predicate EndedAt(files: Files, edges: seq<Edge>, r: Release, write: bool, j: nat, out: Files) {
    && j < |edges|
    && var s := RunAll(Start(files), edges[..j], r, write);
       !s.failed && forall file :: !Names(edges[j].target, file) ==> SameAt(out, s.files, file)
  }

  /** `Run`, from the deploy edges on: the loop over the charts. A run that returns no error has
      done what it says, whatever the disk did; one that does has done the edges before the one
      it ended at. */
  method Run(disk: Disk, edges: seq<Edge>, r: Release, write: bool) returns (code: int, level: string)
    modifies disk
    ensures code != 1 || (forall n: nat :: disk.script(n).Done?) ==>
              var s := RunAll(Start(old(disk.files)), edges, r, write);
              disk.files == s.files && code == ExitCode(s) && level == s.level
    ensures code == 1 ==> exists j :: EndedAt(old(disk.files), edges, r, write, j, disk.files)
    ensures !write ==> disk.files == old(disk.files)
  {
    var refused := 0;
    level := "";
    ghost var start := Start(disk.files);
    for i := 0 to |edges|
      invariant !write ==> disk.files == old(disk.files)
      invariant RunAll(start, edges[..i], r, write) == RunState(disk.files, refused, level, false)
    {
      RunAllSnoc(start, edges, i, r, write);
      ghost var before := disk.files;
      var failed, refused', level' := RunEdge(disk, edges[i], r, write, refused, level);
      refused, level := refused', level';
      if failed {
        assert EndedAt(start.files, edges, r, write, i, disk.files);
        if forall n: nat :: disk.script(n).Done? { FailedStays(start, edges, i + 1, r, write); }
        return 1, level;
      }
    }
    assert edges[..|edges|] == edges;
    return if refused > 0 then 3 else 0, level;
  }

  lemma {:induction false} RunAllSnoc(s: RunState, edges: seq<Edge>, i: nat, r: Release, write: bool)
    requires i < |edges|
    ensures RunAll(s, edges[..i + 1], r, write) == RunStep(RunAll(s, edges[..i], r, write), edges[i], r, write)
  {
    assert edges[..i + 1][..i] == edges[..i];
  }

  /** The release that the edge after these moves away from, if the run gets there and moves it. */
  function MovesFrom(s: RunState, e: Edge, r: Release): Option<string> {
    var d := DecisionOf(PlanOf(s.files, e.target), r);
    if !s.failed && !e.manual && d.Bump? then Some(d.from) else None
  }

  /** The step of each chart of a run; the empty string for one that stays or takes none. */
  function Steps(s: RunState, edges: seq<Edge>, r: Release, write: bool): (steps: seq<string>)
    ensures |steps| == |edges|
  {
    if edges == [] then []
    else
      var init := edges[..|edges| - 1];
      var m := MovesFrom(RunAll(s, init, r, write), edges[|edges| - 1], r);
      Steps(s, init, r, write) + [if m.Some? then BumpLevel(m.value, r.version) else ""]
  }

  function Highest(steps: seq<string>): string {
    if steps == [] then "" else HigherLevel(Highest(steps[..|steps| - 1]), steps[|steps| - 1])
  }

  lemma {:induction false} StepLevel(s: RunState, e: Edge, r: Release, write: bool)
    ensures var m := MovesFrom(s, e, r);
            RunStep(s, e, r, write).level == HigherLevel(s.level, if m.Some? then BumpLevel(m.value, r.version) else "")
  {
    var p := PlanOf(s.files, e.target);
    PlanLevel(s, e.target, p, DecisionOf(p, r), r, write);
  }

  lemma {:induction false} PlanLevel(s: RunState, t: Target, p: Plan, d: Decision, r: Release, write: bool)
    requires !p.Move? ==> d.Stay?
    ensures HigherLevel(s.level, "") == s.level
    ensures RunPlan(s, t, p, d, r, write).level == if d.Bump? then HigherLevel(s.level, BumpLevel(d.from, r.version)) else s.level
  {
  }

  /** No step exceeds the highest, and the highest is one of them. */
  lemma {:induction false} HighestIsOne(steps: seq<string>)
    ensures forall k :: 0 <= k < |steps| ==> LevelRank(steps[k]) <= LevelRank(Highest(steps))
    ensures Highest(steps) == "" || Highest(steps) in steps
  {
    if steps != [] {
      var init := steps[..|steps| - 1];
      HighestIsOne(init);
      assert forall k :: 0 <= k < |init| ==> steps[k] == init[k];
    }
  }

  /** The reported level is the largest step of any chart. */
  lemma {:induction false} LevelIsLargestStep(s: RunState, edges: seq<Edge>, r: Release, write: bool)
    requires s.level == ""
    ensures RunAll(s, edges, r, write).level == Highest(Steps(s, edges, r, write))
  {
    if edges != [] {
      var init := edges[..|edges| - 1];
      LevelIsLargestStep(s, init, r, write);
      StepLevel(RunAll(s, init, r, write), edges[|edges| - 1], r, write);
      var steps := Steps(s, edges, r, write);
      assert steps[..|steps| - 1] == Steps(s, init, r, write);
    }
  }

  // ---- What the exit code says ----

  /** The edge is refused on these files: its plan says so, or its pin does not match the format. */
  predicate Refuses(files: Files, e: Edge, r: Release) {
    var p := PlanOf(files, e.target);
    !e.manual && (p.Refuse? || (p.Move? && p.current != r.artifact && CurrentRelease(r.format, p.current).None?))
  }

  /** The edge stops the run on these files: it cannot be planned, or it is to be moved and its
      updates cannot be prepared. */
  predicate Halts(files: Files, e: Edge, r: Release, write: bool) {
    var p := PlanOf(files, e.target);
    !e.manual && (p.Error? || (write && p.Move? && Decide(p.current, r).Bump? && IsDeclared(e.target) && !CanApply(files, e.target, r.artifact)))
  }

  lemma {:induction false} StepCounts(s: RunState, e: Edge, r: Release, write: bool)
    requires !s.failed
    ensures var next := RunStep(s, e, r, write);
            && next.failed == Halts(s.files, e, r, write)
            && next.refused == s.refused + (if Refuses(s.files, e, r) then 1 else 0)
  {
  }

  /** The state in which edge `j` finds the run. */
  function StateAt(files: Files, edges: seq<Edge>, r: Release, write: bool, j: nat): RunState {
    RunAll(Start(files), edges[..if j < |edges| then j else |edges|], r, write)
  }

  ghost function Halting(files: Files, edges: seq<Edge>, r: Release, write: bool): nat -> bool {
    (j: nat) => j < |edges| && Halts(StateAt(files, edges, r, write, j).files, edges[j], r, write)
  }

  ghost function Refusing(files: Files, edges: seq<Edge>, r: Release, write: bool): nat -> bool {
    (j: nat) => j < |edges| && Refuses(StateAt(files, edges, r, write, j).files, edges[j], r)
  }

  ghost predicate Any(n: nat, at: nat -> bool) { exists j: nat :: j < n && at(j) }

  lemma {:induction false} AnyMore(n: nat, at: nat -> bool)
    ensures Any(n + 1, at) <==> Any(n, at) || at(n)
  {
  }

  /** One step of a count, for any states. */
  ghost predicate CountsAt(k: nat, state: nat -> RunState, halts: nat -> bool, refuses: nat -> bool) {
    var s, next := state(k), state(k + 1);
    && (s.failed ==> next == s)
    && (!s.failed ==> next.failed == halts(k) && next.refused == s.refused + (if refuses(k) then 1 else 0))
  }

  lemma {:induction false} CountsUp(n: nat, state: nat -> RunState, halts: nat -> bool, refuses: nat -> bool)
    requires !state(0).failed && state(0).refused == 0 && forall k: nat :: k < n ==> CountsAt(k, state, halts, refuses)
    ensures state(n).failed <==> Any(n, halts)
    ensures !state(n).failed ==> (state(n).refused > 0 <==> Any(n, refuses))
  {
    if n > 0 {
      CountsUp(n - 1, state, halts, refuses);
      assert CountsAt(n - 1, state, halts, refuses);
      AnyMore(n - 1, halts);
      AnyMore(n - 1, refuses);
    }
  }

  ghost function States(files: Files, edges: seq<Edge>, r: Release, write: bool): nat -> RunState {
    (j: nat) => StateAt(files, edges, r, write, j)
  }

  lemma {:induction false} RunCounts(files: Files, edges: seq<Edge>, r: Release, write: bool, k: nat)
    requires k < |edges|
    ensures CountsAt(k, States(files, edges, r, write), Halting(files, edges, r, write), Refusing(files, edges, r, write))
  {
    var s := StateAt(files, edges, r, write, k);
    RunAllSnoc(Start(files), edges, k, r, write);
    if !s.failed { StepCounts(s, edges[k], r, write); }
  }

  /** The exit code: 1 exactly when a chart stops the run, 3 exactly when none does and one is
      refused, 0 otherwise. */
  lemma {:induction false} ExitCodeMeans(files: Files, edges: seq<Edge>, r: Release, write: bool)
    ensures var code, n := ExitCode(RunAll(Start(files), edges, r, write)), |edges|;
            && (code == 1 <==> Any(n, Halting(files, edges, r, write)))
            && (code == 3 <==> !Any(n, Halting(files, edges, r, write)) && Any(n, Refusing(files, edges, r, write)))
            && code in {0, 1, 3}
  {
    var state, halts, refuses := RunAsCounts(files, edges, r, write);
    CountsUp(|edges|, state, halts, refuses);
  }

  lemma {:induction false} RunAsCounts(files: Files, edges: seq<Edge>, r: Release, write: bool)
    returns (state: nat -> RunState, halts: nat -> bool, refuses: nat -> bool)
    ensures !state(0).failed && state(0).refused == 0 && state(|edges|) == RunAll(Start(files), edges, r, write)
    ensures forall k: nat :: k < |edges| ==> CountsAt(k, state, halts, refuses)
    ensures halts == Halting(files, edges, r, write) && refuses == Refusing(files, edges, r, write)
  {
    state, halts, refuses := States(files, edges, r, write), Halting(files, edges, r, write), Refusing(files, edges, r, write);
    assert edges[..|edges|] == edges && edges[..0] == [];
    forall k: nat | k < |edges| ensures CountsAt(k, state, halts, refuses) { RunCounts(files, edges, r, write, k); }
  }

  // ---- When a failing run is clean ----

  /** What an edge will do on these files: nothing (manual, skipped, refused, or not a bump),
      stop the run, or write. */
  datatype Kind = Passive | Failing | Active

  function KindOf(files: Files, e: Edge, r: Release): Kind {
    var p := PlanOf(files, e.target);
    if e.manual || p.Skip? || p.Refuse? then Passive
    else if p.Error? then Failing
    else if !DecisionOf(p, r).Bump? then Passive
    else if IsDeclared(e.target) && !CanApply(files, e.target, r.artifact) then Failing
    else Active
  }

  /** For an artifact that can be pinned, only planning can stop a run. */
  lemma {:induction false} FailingIsError(files: Files, e: Edge, r: Release)
    requires Usable(r.artifact)
    ensures KindOf(files, e, r).Failing? <==> !e.manual && PlanOf(files, e.target).Error?
  {
    var p := PlanOf(files, e.target);
    if p.Move? && IsDeclared(e.target) {
      DeclaredAction(files, e.target);
      DeclaredCanApply(files, e.target, r.artifact, p.current);
    }
  }

  lemma {:induction false} StepByKind(s: RunState, e: Edge, r: Release)
    requires !s.failed
    ensures var k, next := KindOf(s.files, e, r), RunStep(s, e, r, true);
            && next.failed == k.Failing? && (!k.Active? ==> next.files == s.files)
            && (k.Active? ==> PlanOf(s.files, e.target).Move? && next.files == Write(s.files, e.target, PlanOf(s.files, e.target), r.artifact))
  {
  }

  /** The first edge that is not passive on these files, if there is one. */
  function FirstLively(files: Files, edges: seq<Edge>, r: Release): (k: nat)
    ensures k <= |edges| && (k < |edges| ==> Lively(r, files)(edges[k]))
    ensures forall j :: 0 <= j < k ==> !Lively(r, files)(edges[j])
  {
    FirstBy(edges, Lively(r, files))
  }

  function Lively(r: Release, files: Files): Edge -> bool { (e: Edge) => !KindOf(files, e, r).Passive? }

  function FirstBy(edges: seq<Edge>, lively: Edge -> bool): (k: nat)
    ensures k <= |edges| && (k < |edges| ==> lively(edges[k]))
    ensures forall j :: 0 <= j < k ==> !lively(edges[j])
  {
    if edges == [] then 0
    else
      var init := edges[..|edges| - 1];
      var k := FirstBy(init, lively);
      if k < |init| then k else if lively(edges[|edges| - 1]) then |init| else |edges|
  }

  lemma {:induction false} PassiveBefore(files: Files, edges: seq<Edge>, r: Release, k: nat)
    requires k == FirstLively(files, edges, r)
    ensures forall j :: 0 <= j < k ==> KindOf(files, edges[j], r).Passive?
    ensures k < |edges| ==> !KindOf(files, edges[k], r).Passive?
  {
    forall j | 0 <= j < k ensures KindOf(files, edges[j], r).Passive? { assert !Lively(r, files)(edges[j]); }
  }

  /** The passive edges before it leave the files alone. */
  lemma {:induction false} PassiveKeeps(files: Files, edges: seq<Edge>, r: Release, n: nat)
    requires n <= |edges| && forall j :: 0 <= j < n ==> KindOf(files, edges[j], r).Passive?
    ensures var s := RunAll(Start(files), edges[..n], r, true); s.files == files && !s.failed
  {
    if n > 0 {
      PassiveKeeps(files, edges, r, n - 1);
      RunAllSnoc(Start(files), edges, n - 1, r, true);
      StepByKind(RunAll(Start(files), edges[..n - 1], r, true), edges[n - 1], r);
    }
  }

  /** For any edges: if the first that is not passive stops the run, no file has changed. */
  lemma {:induction false} FailsCleanly(files: Files, edges: seq<Edge>, r: Release)
    requires var k := FirstLively(files, edges, r); k < |edges| && KindOf(files, edges[k], r).Failing?
    ensures var s := RunAll(Start(files), edges, r, true); s.failed && s.files == files
  {
    var k := FirstLively(files, edges, r);
    PassiveBefore(files, edges, r, k);
    PassiveKeeps(files, edges, r, k);
    RunAllSnoc(Start(files), edges, k, r, true);
    StepByKind(RunAll(Start(files), edges[..k], r, true), edges[k], r);
    FailedStays(Start(files), edges, k + 1, r, true);
  }

  /** A run fails only at an edge that is not passive. */
  lemma {:induction false} FailsAtSome(files: Files, edges: seq<Edge>, r: Release)
    requires RunAll(Start(files), edges, r, true).failed
    ensures FirstLively(files, edges, r) < |edges|
  {
    if FirstLively(files, edges, r) == |edges| {
      assert edges[..|edges|] == edges;
      PassiveBefore(files, edges, r, |edges|);
      PassiveKeeps(files, edges, r, |edges|);
    }
  }

  /** Two targets share no file. */
  ghost predicate Disjoint(t: Target, u: Target) { forall file :: Names(t, file) ==> !Names(u, file) }

  /** The edge `j`, when the run gets there, writes no file of edge `k`. */
  ghost predicate LeavesAlone(files: Files, edges: seq<Edge>, r: Release, k: nat, j: nat)
    requires k < |edges| && j < |edges|
  {
    Disjoint(edges[k].target, edges[j].target) || !KindOf(RunAll(Start(files), edges[..j], r, true).files, edges[j], r).Active?
  }

  lemma {:induction false} StepNames(s: RunState, e: Edge, r: Release, file: string)
    requires !Names(e.target, file) || s.failed || !KindOf(s.files, e, r).Active?
    ensures SameAt(RunStep(s, e, r, true).files, s.files, file)
  {
    if !s.failed {
      StepByKind(s, e, r);
      var p := PlanOf(s.files, e.target);
      if KindOf(s.files, e, r).Active? { WriteNames(s.files, e.target, p, r.artifact, file); }
    }
  }

  /** What edge `k` has left in its files is there at the end of the run. */
  lemma {:induction false} LaterLeave(files: Files, edges: seq<Edge>, r: Release, k: nat, n: nat, file: string)
    requires k < n <= |edges| && Names(edges[k].target, file) && forall j :: k < j < n ==> LeavesAlone(files, edges, r, k, j)
    ensures SameAt(RunAll(Start(files), edges[..n], r, true).files, RunAll(Start(files), edges[..k + 1], r, true).files, file)
  {
    if n > k + 1 {
      LaterLeave(files, edges, r, k, n - 1, file);
      assert LeavesAlone(files, edges, r, k, n - 1);
      RunAllSnoc(Start(files), edges, n - 1, r, true);
      StepLeaves(RunAll(Start(files), edges[..n - 1], r, true), RunAll(Start(files), edges[..k + 1], r, true).files, edges[n - 1], r, file);
    }
  }

  lemma {:induction false} StepLeaves(s: RunState, before: Files, e: Edge, r: Release, file: string)
    requires SameAt(s.files, before, file) && (!Names(e.target, file) || !KindOf(s.files, e, r).Active?)
    ensures SameAt(RunStep(s, e, r, true).files, before, file)
  {
    StepNames(s, e, r, file);
  }

  /** A plan depends on the files that the target names. */
  lemma {:induction false} SamePlan(files: Files, out: Files, t: Target)
    requires forall file :: Names(t, file) ==> SameAt(out, files, file)
    ensures PlanOf(out, t) == PlanOf(files, t)
  {
    if IsDeclared(t) { SameDeclaredPlan(files, out, t); } else { SameSinglePlan(files, out, t); }
  }

  lemma {:induction false} SameSinglePlan(files: Files, out: Files, t: Target)
    requires !IsDeclared(t) && forall file :: Names(t, file) ==> SameAt(out, files, file)
    ensures PlanSingle(out, t) == PlanSingle(files, t)
  {
    if t.chart.Some? { assert Names(t, t.chart.value); }
    assert Names(t, t.values);
  }

  lemma {:induction false} SamePlanRead(files: Files, out: Files, t: Target, values: seq<string>)
    requires values != [] && (t.owns && t.chart.Some? ==> SameAt(out, files, t.chart.value))
    ensures PlanRead(out, t, values) == PlanRead(files, t, values)
  {
  }

  lemma {:induction false} SameReadSpecs(files: Files, out: Files, t: Target)
    requires IsDeclared(t) && forall file :: Names(t, file) ==> SameAt(out, files, file)
    ensures ReadSpecs(out, t.specs) == ReadSpecs(files, t.specs)
  {
    SameReadings(files, out, t, |t.specs|);
    assert t.specs[..|t.specs|] == t.specs;
  }

  lemma {:induction false} SameDeclaredPlan(files: Files, out: Files, t: Target)
    requires IsDeclared(t) && forall file :: Names(t, file) ==> SameAt(out, files, file)
    ensures PlanDeclared(out, t) == PlanDeclared(files, t)
  {
    SameReadSpecs(files, out, t);
    if t.owns && t.chart.Some? { assert Names(t, t.chart.value); }
    var r := ReadSpecs(files, t.specs);
    if r.Values? && r.values != [] { SamePlanRead(files, out, t, r.values); }
  }

  lemma {:induction false} SameReadings(files: Files, out: Files, t: Target, n: nat)
    requires IsDeclared(t) && n <= |t.specs| && forall file :: Names(t, file) ==> SameAt(out, files, file)
    ensures ReadSpecs(out, t.specs[..n]) == ReadSpecs(files, t.specs[..n])
  {
    if n > 0 {
      assert t.specs[..n][..n - 1] == t.specs[..n - 1];
      SameReadings(files, out, t, n - 1);
      assert Declares(t.specs, t.specs[n - 1].file);
      assert Names(t, t.specs[n - 1].file);
    }
  }

  /** The first active edge of a run has written its files, and they stay. */
  lemma {:induction false} FirstActive(files: Files, edges: seq<Edge>, r: Release, k: nat)
    requires k == FirstLively(files, edges, r) < |edges| && KindOf(files, edges[k], r).Active?
    requires forall j :: k < j < |edges| ==> LeavesAlone(files, edges, r, k, j)
    ensures var t, p := edges[k].target, PlanOf(files, edges[k].target);
            p.Move? && forall file :: Names(t, file) ==> SameAt(RunAll(Start(files), edges, r, true).files, Write(files, t, p, r.artifact), file)
  {
    var t := edges[k].target;
    PassiveBefore(files, edges, r, k);
    PassiveKeeps(files, edges, r, k);
    RunAllSnoc(Start(files), edges, k, r, true);
    StepByKind(RunAll(Start(files), edges[..k], r, true), edges[k], r);
    assert edges[..|edges|] == edges;
    forall file | Names(t, file)
      ensures SameAt(RunAll(Start(files), edges, r, true).files, RunAll(Start(files), edges[..k + 1], r, true).files, file)
    {
      LaterLeave(files, edges, r, k, |edges|, file);
    }
  }

  /** The promise that a failing run has moved nothing: it holds exactly when the first edge that
      is not passive is the one that fails. Otherwise that edge's chart has been written, and
      its pin is the new artifact exactly if the chart lasts a move. */
  lemma {:induction false} CleanFailureIff(files: Files, edges: seq<Edge>, r: Release, k: nat)
    requires Usable(r.artifact) && k == FirstLively(files, edges, r)
    requires RunAll(Start(files), edges, r, true).failed
    requires k < |edges| ==> TwoFiles(edges[k].target) && forall j :: k < j < |edges| ==> LeavesAlone(files, edges, r, k, j)
    ensures k < |edges|
    ensures var s := RunAll(Start(files), edges, r, true); var t, p := edges[k].target, PlanOf(files, edges[k].target);
            && (s.files == files <==> KindOf(files, edges[k], r).Failing?)
            && (KindOf(files, edges[k], r).Active? ==>
                  p.Move? && (PlanOf(s.files, t) == Move(p.action, r.artifact) <==> Lasting(files, t, p.action, 1)))
  {
    FailsAtSome(files, edges, r);
    PassiveBefore(files, edges, r, k);
    if KindOf(files, edges[k], r).Failing? {
      FailsCleanly(files, edges, r);
    } else {
      FirstActive(files, edges, r, k);
      ActiveMoved(files, RunAll(Start(files), edges, r, true).files, edges[k], r);
    }
  }

  lemma {:induction false} ActiveMoved(files: Files, out: Files, e: Edge, r: Release)
    requires Usable(r.artifact) && TwoFiles(e.target) && KindOf(files, e, r).Active? && PlanOf(files, e.target).Move?
    requires forall file :: Names(e.target, file) ==> SameAt(out, Write(files, e.target, PlanOf(files, e.target), r.artifact), file)
    ensures out != files
    ensures var p := PlanOf(files, e.target); PlanOf(out, e.target) == Move(p.action, r.artifact) <==> Lasting(files, e.target, p.action, 1)
  {
    var p := PlanOf(files, e.target);
    Written(files, out, e.target, Write(files, e.target, p, r.artifact), r.artifact, p.action, p.current);
  }

  lemma {:induction false} Written(files: Files, out: Files, t: Target, written: Files, artifact: string, a: Action, c: string)
    requires PlanOf(files, t) == Move(a, c) && TwoFiles(t) && Usable(artifact) && artifact != c && written == Write(files, t, Move(a, c), artifact)
    requires forall file :: Names(t, file) ==> SameAt(out, written, file)
    ensures out != files && (PlanOf(out, t) == Move(a, artifact) <==> Lasting(files, t, a, 1))
  {
    WrittenDiffers(files, out, t, written, artifact, a, c);
    SamePlan(written, out, t);
    WriteMovesOnce(files, t, artifact, a, c);
  }

  lemma {:induction false} WrittenDiffers(files: Files, out: Files, t: Target, written: Files, artifact: string, a: Action, c: string)
    requires PlanOf(files, t) == Move(a, c) && TwoFiles(t) && Usable(artifact) && artifact != c && written == Write(files, t, Move(a, c), artifact)
    requires forall file :: Names(t, file) ==> SameAt(out, written, file)
    ensures out != files
  {
    var file := WriteChanges(files, t, artifact, a, c);
    assert SameAt(out, written, file);
  }
}
