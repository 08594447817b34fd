/** Several files written as one step (`commitFileUpdatesWith`), on a disk whose writes may fail
    and leave anything behind. */
module FileCommit {
  import opened Text

  type Files = map<string, string>

  datatype FileUpdate = FileUpdate(path: string, original: string, updated: string)

  /** What a write does: it is done, or it fails and leaves this behind. */
  datatype WriteOutcome = Done | Fails(left: Option<string>)

  ghost predicate SameAt(a: Files, b: Files, p: string) { (p in a <==> p in b) && (p in a && p in b ==> a[p] == b[p]) }

  lemma {:induction false} SameEverywhere(a: Files, b: Files)
    requires forall p :: SameAt(a, b, p)
    ensures a == b
  {
    assert forall p :: p in a ==> SameAt(a, b, p);
    assert forall p :: p in b ==> SameAt(a, b, p);
  }

  /** The files once every update is written, in order. */
  function Overlay(files: Files, updates: seq<FileUpdate>): (out: Files) {
    if updates == [] then files
    else
      var u := updates[|updates| - 1];
      Overlay(files, updates[..|updates| - 1])[u.path := u.updated]
  }

  predicate Lists(updates: seq<FileUpdate>, p: string) {
    updates != [] && (updates[|updates| - 1].path == p || Lists(updates[..|updates| - 1], p))
  }

  /** A file that no update lists stays as it was. */
  lemma {:induction false} OverlayElsewhere(files: Files, updates: seq<FileUpdate>, p: string)
    requires !Lists(updates, p)
    ensures SameAt(Overlay(files, updates), files, p)
  {
    if updates != [] { OverlayElsewhere(files, updates[..|updates| - 1], p); }
  }

  lemma {:induction false} ListsAt(updates: seq<FileUpdate>, p: string)
    ensures Lists(updates, p) <==> exists k :: 0 <= k < |updates| && updates[k].path == p
  {
    if updates != [] {
      var init := updates[..|updates| - 1];
      ListsAt(init, p);
      if k :| 0 <= k < |init| && init[k].path == p { assert updates[k].path == p; }
      if k :| 0 <= k < |updates| && updates[k].path == p { assert k < |init| ==> init[k].path == p; }
    }
  }

  /** With each file listed once, each ends as its update. */
  lemma {:induction false} OverlayLands(files: Files, updates: seq<FileUpdate>, k: nat)
    requires k < |updates| && forall i, j :: 0 <= i < j < |updates| ==> updates[i].path != updates[j].path
    ensures updates[k].path in Overlay(files, updates) && Overlay(files, updates)[updates[k].path] == updates[k].updated
  {
    if k < |updates| - 1 { OverlayLands(files, updates[..|updates| - 1], k); }
  }

  /** The result of a commit: done, or failed with the files that could not be restored. */
  datatype CommitResult = Committed | Failed(unrestored: set<string>)

  class Disk {
    var files: Files
    /** What each write to come will do. */
    const script: nat -> WriteOutcome
    var writes: nat

    constructor (files: Files, script: nat -> WriteOutcome)
      ensures this.files == files && this.script == script && writes == 0
    {
      this.files := files;
      this.script := script;
      this.writes := 0;
    }

    /** `os.WriteFile` */
    method Write(path: string, content: string) returns (ok: bool)
      modifies this
      ensures writes == old(writes) + 1 && (ok <==> script(old(writes)).Done?)
      ensures ok ==> files == old(files)[path := content]
      ensures forall p :: p != path ==> SameAt(files, old(files), p)
    {
      var outcome := script(writes);
      writes := writes + 1;
      ok := outcome.Done?;
      if ok {
        files := files[path := content];
      } else if outcome.left.Some? {
        files := files[path := outcome.left.value];
      } else {
        files := files - {path};
      }
    }

    /** Each update was prepared from what the disk holds. */
    ghost predicate Prepared(updates: seq<FileUpdate>)
      reads this
    {
      forall k :: 0 <= k < |updates| ==> updates[k].path in files && files[updates[k].path] == updates[k].original
    }

    /** `commitFileUpdatesWith` */
    method Commit(updates: seq<FileUpdate>) returns (r: CommitResult)
      requires Prepared(updates)
      modifies this
      ensures r.Committed? ==> files == Overlay(old(files), updates)
      ensures r.Failed? ==> forall p :: p !in r.unrestored ==> SameAt(files, old(files), p)
      ensures r.Failed? && r.unrestored == {} ==> files == old(files)
      ensures forall p :: !Lists(updates, p) ==> SameAt(files, old(files), p)
      ensures (forall n: nat :: old(writes) <= n < old(writes) + |updates| ==> script(n).Done?) ==> r.Committed?
    {
      for i := 0 to |updates|
        invariant files == Overlay(old(files), updates[..i])
        invariant writes == old(writes) + i
      {
        var u := updates[i];
        assert updates[..i + 1][..i] == updates[..i];
        ghost var was := files;
        var ok := Write(u.path, u.updated);
        if !ok {
          forall p | !Lists(updates[..i + 1], p) ensures SameAt(files, old(files), p) {
            OverlayElsewhere(old(files), updates[..i], p);
            assert SameAt(files, was, p);
          }
          var failed := Restore(updates, i, old(files));
          if failed == {} { SameEverywhere(files, old(files)); }
          return Failed(failed);
        }
      }
      assert updates[..|updates|] == updates;
      forall p | !Lists(updates, p) ensures SameAt(files, old(files), p) {
        OverlayElsewhere(old(files), updates, p);
      }
      return Committed;
    }

    /** The rollback: the attempted files, last first. */
    method Restore(updates: seq<FileUpdate>, last: nat, ghost before: Files) returns (failed: set<string>)
      requires last < |updates|
      requires forall k :: 0 <= k < |updates| ==> updates[k].path in before && before[updates[k].path] == updates[k].original
      requires forall p :: !Lists(updates[..last + 1], p) ==> SameAt(files, before, p)
      modifies this
      ensures forall p :: p in failed ==> Lists(updates, p)
      ensures forall p :: p !in failed ==> SameAt(files, before, p)
    {
      failed := {};
      var j := last + 1;
      while j > 0
        invariant 0 <= j <= last + 1
        invariant forall p :: p in failed ==> Lists(updates, p)
        invariant forall p :: p !in failed && !Lists(updates[..j], p) ==> SameAt(files, before, p)
      {
        j := j - 1;
        var u := updates[j];
        assert updates[..j + 1][..j] == updates[..j];
        ListsAt(updates, u.path);
        ghost var was := files;
        var ok := Write(u.path, u.original);
        if !ok { failed := failed + {u.path}; }
        forall p | p !in failed && !Lists(updates[..j], p) ensures SameAt(files, before, p) {
          if p != u.path {
            assert !Lists(updates[..j + 1], p);
            assert SameAt(was, before, p) && SameAt(files, was, p);
          }
        }
      }
    }
  }
}
