/** The release server as the umbrella publisher uses it. A release is addressed by its
    position, which never changes, and an asset by its release and position: both stand for
    the server's numeric ids. */
module ReleaseServer {

  type Bytes = seq<bv8>

  datatype Asset = Asset(name: string, uploaded: bool, data: Bytes)

  datatype Release = Release(
    tag: string, target: string, body: string, draft: bool, prerelease: bool, assets: seq<Asset>)

  /** What a ref or an annotated tag points at. */
  datatype GitObject = CommitObject(sha: string) | TagObject(sha: string)

  datatype Server = Server(
    releases: seq<Release>, tags: map<string, GitObject>, tagObjects: map<string, GitObject>)

  /** The server refuses a second asset of one name on one release. */
  predicate UniqueNames(assets: seq<Asset>) {
    forall i, j :: 0 <= i < j < |assets| ==> assets[i].name != assets[j].name
  }

  ghost predicate WellFormed(s: Server) {
    forall id :: 0 <= id < |s.releases| ==> UniqueNames(s.releases[id].assets)
  }

  /** The position of a name in an asset list, or the length. */
  function Find(assets: seq<Asset>, name: string): (i: nat)
    ensures i <= |assets|
    ensures i < |assets| ==> assets[i].name == name
    ensures forall k :: 0 <= k < i ==> assets[k].name != name
  {
    if assets == [] || assets[0].name == name then 0 else 1 + Find(assets[1..], name)
  }

  // ---- Requests that write ----

  function CreateDraft(s: Server, tag: string, target: string, body: string): Server {
    s.(releases := s.releases + [Release(tag, target, body, true, false, [])])
  }

  /** Adds an asset unless the release already has one of that name. */
  function AddAsset(s: Server, id: nat, a: Asset): Server
    requires id < |s.releases|
  {
    var r := s.releases[id];
    if Find(r.assets, a.name) < |r.assets| then s
    else s.(releases := s.releases[id := r.(assets := r.assets + [a])])
  }

  /** Leaves the draft state, and creates a missing tag at the release's target. */
  function PromoteRelease(s: Server, id: nat): Server
    requires id < |s.releases|
  {
    var r := s.releases[id];
    Server(s.releases[id := r.(draft := false)],
           if r.tag in s.tags then s.tags else s.tags[r.tag := CommitObject(r.target)], s.tagObjects)
  }

  // ---- Requests that read ----

  datatype TagState = Missing | Selects(commit: string) | Broken

  /** The loop of `verifyTag`: at most five annotated tags are followed. */
  function Peel(objects: map<string, GitObject>, o: GitObject, depth: nat): (t: TagState)
    decreases depth
  {
    if o.CommitObject? then Selects(o.sha)
    else if depth == 0 || o.sha !in objects then Broken
    else Peel(objects, objects[o.sha], depth - 1)
  }

  function TagLookup(s: Server, tag: string): (t: TagState)
  {
    if tag !in s.tags then Missing else Peel(s.tagObjects, s.tags[tag], 5)
  }

  /** An annotated tag and what it points at. */
  predicate PointsAt(objects: map<string, GitObject>, a: GitObject, b: GitObject) {
    a.TagObject? && a.sha in objects && objects[a.sha] == b
  }

  /** A way from one object to another along annotated tags. */
  ghost predicate IsWay(objects: map<string, GitObject>, way: seq<GitObject>, a: GitObject, b: GitObject) {
    && way != [] && way[0] == a && way[|way| - 1] == b
    && forall i :: 1 <= i < |way| ==> PointsAt(objects, way[i - 1], way[i])
  }

  /** At most this many annotated tags lead from the object to the commit. */
  ghost predicate LeadsTo(objects: map<string, GitObject>, o: GitObject, commit: string, most: nat) {
    exists way :: IsWay(objects, way, o, CommitObject(commit)) && |way| <= most + 1
  }

  /** The tag is there and selects the commit, through at most five annotated tags. */
  ghost predicate TagSelects(s: Server, tag: string, commit: string) {
    tag in s.tags && LeadsTo(s.tagObjects, s.tags[tag], commit, 5)
  }

  lemma {:induction false} PeelIff(objects: map<string, GitObject>, o: GitObject, depth: nat, commit: string)
    ensures Peel(objects, o, depth) == Selects(commit) <==> LeadsTo(objects, o, commit, depth)
    decreases depth
  {
    if o.CommitObject? {
      assert IsWay(objects, [o], o, o);
      if LeadsTo(objects, o, commit, depth) {
        var way :| IsWay(objects, way, o, CommitObject(commit)) && |way| <= depth + 1;
        assert |way| > 1 ==> PointsAt(objects, way[1 - 1], way[1]);
      }
    } else {
      if depth > 0 && o.sha in objects {
        PeelIff(objects, objects[o.sha], depth - 1, commit);
        if LeadsTo(objects, objects[o.sha], commit, depth - 1) { WayGrows(objects, o, commit, depth); }
      }
      if LeadsTo(objects, o, commit, depth) { WayShrinks(objects, o, commit, depth); }
    }
  }

  lemma {:induction false} WayGrows(objects: map<string, GitObject>, o: GitObject, commit: string, depth: nat)
    requires o.TagObject? && depth > 0 && o.sha in objects && LeadsTo(objects, objects[o.sha], commit, depth - 1)
    ensures LeadsTo(objects, o, commit, depth)
  {
    var way :| IsWay(objects, way, objects[o.sha], CommitObject(commit)) && |way| <= depth;
    var more := [o] + way;
    forall i | 1 <= i < |more| ensures PointsAt(objects, more[i - 1], more[i]) {
      if i > 1 { assert PointsAt(objects, way[i - 1 - 1], way[i - 1]); }
    }
    assert IsWay(objects, more, o, CommitObject(commit));
  }

  lemma {:induction false} WayShrinks(objects: map<string, GitObject>, o: GitObject, commit: string, depth: nat)
    requires o.TagObject? && LeadsTo(objects, o, commit, depth)
    ensures depth > 0 && o.sha in objects && LeadsTo(objects, objects[o.sha], commit, depth - 1)
  {
    var way :| IsWay(objects, way, o, CommitObject(commit)) && |way| <= depth + 1;
    assert PointsAt(objects, way[1 - 1], way[1]);
    var rest := way[1..];
    forall i | 1 <= i < |rest| ensures PointsAt(objects, rest[i - 1], rest[i]) {
      assert PointsAt(objects, way[i + 1 - 1], way[i + 1]);
    }
    assert IsWay(objects, rest, objects[o.sha], CommitObject(commit));
  }

  /** What the lookup says, on any server: the commit that the tag selects, or that there is no
      tag. */
  lemma {:induction false} TagLookupIff(s: Server, tag: string, commit: string)
    ensures TagLookup(s, tag) == Selects(commit) <==> TagSelects(s, tag, commit)
    ensures TagLookup(s, tag) == Missing <==> tag !in s.tags
  {
    if tag in s.tags {
      PeelIff(s.tagObjects, s.tags[tag], 5, commit);
      PeelNeverMissing(s.tagObjects, s.tags[tag], 5);
    }
  }

  lemma {:induction false} PeelNeverMissing(objects: map<string, GitObject>, o: GitObject, depth: nat)
    ensures Peel(objects, o, depth) != Missing
    decreases depth
  {
    if o.TagObject? && depth > 0 && o.sha in objects { PeelNeverMissing(objects, objects[o.sha], depth - 1); }
  }

  /** `GET /releases/tags/{tag}`: the published release of a tag. */
  function PublishedByTag(releases: seq<Release>, tag: string): (id: nat)
    ensures id <= |releases|
    ensures id < |releases| ==> releases[id].tag == tag && !releases[id].draft
    ensures forall k :: 0 <= k < id ==> releases[k].tag != tag || releases[k].draft
  {
    if releases == [] || (releases[0].tag == tag && !releases[0].draft) then 0
    else 1 + PublishedByTag(releases[1..], tag)
  }

  /** All releases of a tag, drafts included. */
  function IdsOfTag(releases: seq<Release>, tag: string): (ids: seq<nat>)
    ensures forall k :: 0 <= k < |ids| ==> ids[k] < |releases| && releases[ids[k]].tag == tag
    ensures forall i, j :: 0 <= i < j < |ids| ==> ids[i] < ids[j]
    ensures forall id :: 0 <= id < |releases| && releases[id].tag == tag ==> id in ids
  {
    if releases == [] then []
    else
      var n := |releases| - 1;
      var ids := IdsOfTag(releases[..n], tag);
      if releases[n].tag == tag then ids + [n] else ids
  }

  // ---- What time can do to a server ----

  /** A release's later self: same identity, assets only appended, a draft may be promoted. */
  ghost predicate ReleaseExtends(a: Release, b: Release) {
    && b.tag == a.tag && b.target == a.target && b.body == a.body && b.prerelease == a.prerelease
    && a.assets <= b.assets && (b.draft ==> a.draft)
  }

  ghost predicate Extends(a: Server, b: Server) {
    && |a.releases| <= |b.releases|
    && (forall id :: 0 <= id < |a.releases| ==> ReleaseExtends(a.releases[id], b.releases[id]))
    && (forall t :: t in a.tags ==> t in b.tags && b.tags[t] == a.tags[t])
    && b.tagObjects == a.tagObjects
  }

  lemma {:induction false} ExtendsTransitive(a: Server, b: Server, c: Server)
    requires Extends(a, b) && Extends(b, c)
    ensures Extends(a, c)
  {
    forall id | 0 <= id < |a.releases| ensures ReleaseExtends(a.releases[id], c.releases[id]) {
      assert ReleaseExtends(a.releases[id], b.releases[id]) && ReleaseExtends(b.releases[id], c.releases[id]);
    }
  }

  lemma {:induction false} CreateExtends(s: Server, tag: string, target: string, body: string)
    requires WellFormed(s)
    ensures var s' := CreateDraft(s, tag, target, body); Extends(s, s') && WellFormed(s')
  {
  }

  lemma {:induction false} AddExtends(s: Server, id: nat, a: Asset)
    requires WellFormed(s) && id < |s.releases|
    ensures Extends(s, AddAsset(s, id, a)) && WellFormed(AddAsset(s, id, a))
  {
  }

  lemma {:induction false} PromoteExtends(s: Server, id: nat)
    requires WellFormed(s) && id < |s.releases|
    ensures Extends(s, PromoteRelease(s, id)) && WellFormed(PromoteRelease(s, id))
  {
  }
}
