/** Where a dotted path lands in a values file (`resolveValuesPath`, `imageTags`). */
module ValuesPath {
  import opened Text
  import opened ChartText

  // ---- Ancestors, by recursion ----

  /** A key line as the scans see it. */
  datatype Frame = Frame(indent: nat, key: string)

  function FrameOf(l: string): Option<Frame> {
    var k := ParseKey(l);
    if k.Some? then Some(Frame(|k.value.indent|, k.value.key)) else None
  }

  type Outline = seq<Option<Frame>>

  function OutlineOf(lines: seq<string>): (o: Outline)
    ensures |o| == |lines| && forall i :: 0 <= i < |lines| ==> o[i] == FrameOf(lines[i])
  {
    seq(|lines|, i requires 0 <= i < |lines| => FrameOf(lines[i]))
  }

  /** The nearest key line before `i` with a smaller indent. */
  function Above(o: Outline, i: nat, indent: nat): (p: Option<nat>)
    requires i <= |o|
    ensures p.Some? ==> p.value < i && o[p.value].Some? && o[p.value].value.indent < indent
  {
    if i == 0 then None
    else if o[i - 1].Some? && o[i - 1].value.indent < indent then Some(i - 1)
    else Above(o, i - 1, indent)
  }

  lemma {:induction false} AboveIsNearest(o: Outline, i: nat, indent: nat)
    requires i <= |o|
    ensures var p := Above(o, i, indent);
            forall j :: (if p.Some? then p.value + 1 else 0) <= j < i ==> o[j].None? || o[j].value.indent >= indent
  {
    if i > 0 { AboveIsNearest(o, i - 1, indent); }
  }

  /** The ancestors, outermost first, of a key at this indent on line `i`. */
  function Chain(o: Outline, i: nat, indent: nat): seq<Frame>
    requires i <= |o|
  {
    var p := Above(o, i, indent);
    if p.None? then [] else Chain(o, p.value, o[p.value].value.indent) + [o[p.value].value]
  }

  function Keys(frames: seq<Frame>): (ks: seq<string>)
    ensures |ks| == |frames| && forall i :: 0 <= i < |ks| ==> ks[i] == frames[i].key
  {
    seq(|frames|, i requires 0 <= i < |frames| => frames[i].key)
  }

  /** The full path of a key line. */
  function PathOf(o: Outline, i: nat): seq<string>
    requires i < |o| && o[i].Some?
  {
    Keys(Chain(o, i, o[i].value.indent)) + [o[i].value.key]
  }

  predicate Owns(o: Outline, segments: seq<string>, i: nat) {
    i < |o| && o[i].Some? && PathOf(o, i) == segments
  }

  /** The first line whose full path is the one asked for. */
  function FirstOwner(o: Outline, segments: seq<string>, i: nat): (r: Option<nat>)
    requires i <= |o|
    ensures r.Some? ==> i <= r.value < |o| && o[r.value].Some?
    decreases |o| - i
  {
    if i == |o| then None
    else if Owns(o, segments, i) then Some(i)
    else FirstOwner(o, segments, i + 1)
  }

  lemma {:induction false} FirstOwnerIsFirst(o: Outline, segments: seq<string>, i: nat)
    requires i <= |o|
    ensures var r := FirstOwner(o, segments, i);
            && (r.Some? ==> Owns(o, segments, r.value))
            && forall j :: i <= j < (if r.Some? then r.value else |o|) ==> !Owns(o, segments, j)
    decreases |o| - i
  {
    if i < |o| && !Owns(o, segments, i) { FirstOwnerIsFirst(o, segments, i + 1); }
  }

  datatype Resolution = NotFound | NoScalar(line: nat) | Found(line: nat, value: string)

  function ValueOf(l: string): string {
    var s := ParseScalar(l);
    if s.Some? then s.value.scalar.value else ""
  }

  function Resolve(lines: seq<string>, path: string): (r: Resolution)
    ensures r.Found? ==> r.line < |lines| && r.value == ValueOf(lines[r.line]) != ""
  {
    var i := FirstOwner(OutlineOf(lines), Split(path, '.'), 0);
    if i.None? then NotFound
    else if ValueOf(lines[i.value]) == "" then NoScalar(i.value)
    else Found(i.value, ValueOf(lines[i.value]))
  }

  // ---- The stack ----

  /** Drop the frames on top that are indented at least this far. */
  function Pop(stack: seq<Frame>, indent: nat): seq<Frame> {
    if stack != [] && stack[|stack| - 1].indent >= indent then Pop(stack[..|stack| - 1], indent) else stack
  }

  /** The stack once the first `i` lines are read. */
  function StackAt(o: Outline, i: nat): seq<Frame>
    requires i <= |o|
  {
    if i == 0 then []
    else if o[i - 1].None? then StackAt(o, i - 1)
    else Chain(o, i - 1, o[i - 1].value.indent) + [o[i - 1].value]
  }

  lemma {:induction false} PopTwice(stack: seq<Frame>, e: nat, d: nat)
    requires d <= e
    ensures Pop(Pop(stack, e), d) == Pop(stack, d)
  {
    if stack != [] && stack[|stack| - 1].indent >= e { PopTwice(stack[..|stack| - 1], e, d); }
  }

  /** Popping to an indent leaves exactly the ancestor chain of a key at that indent. */
  lemma {:induction false} PopIsChain(o: Outline, i: nat, d: nat)
    requires i <= |o|
    ensures Pop(StackAt(o, i), d) == Chain(o, i, d)
  {
    if i > 0 {
      PopIsChain(o, i - 1, d);
      if o[i - 1].Some? {
        var f := o[i - 1].value;
        var below := Chain(o, i - 1, f.indent);
        assert (below + [f])[..|below|] == below;
        if f.indent >= d {
          PopIsChain(o, i - 1, f.indent);
          PopTwice(StackAt(o, i - 1), f.indent, d);
        }
      }
    }
  }

  /** `resolveValuesPath` */
  method ResolveValuesPath(lines: seq<string>, path: string) returns (r: Resolution)
    ensures r == Resolve(lines, path)
  {
    var i := FindOwner(OutlineOf(lines), Split(path, '.'));
    if i.None? { return NotFound; }
    if ValueOf(lines[i.value]) == "" { return NoScalar(i.value); }
    return Found(i.value, ValueOf(lines[i.value]));
  }

  /** Its scan: one pass with an explicit stack finds the first line whose full ancestor path
      is the one asked for. */
  method FindOwner(o: Outline, segments: seq<string>) returns (r: Option<nat>)
    requires segments != []
    ensures r == FirstOwner(o, segments, 0)
  {
    var stack: seq<Frame> := [];
    for i := 0 to |o|
      invariant stack == StackAt(o, i)
      invariant FirstOwner(o, segments, 0) == FirstOwner(o, segments, i)
    {
      if o[i].Some? {
        var f := o[i].value;
        PopIsChain(o, i, f.indent);
        stack := PopTo(stack, f.indent);
        var full := false;
        if |stack| == |segments| - 1 && f.key == segments[|stack|] {
          full := MatchesPrefix(stack, segments);
        }
        OwnsWhen(o, segments, i, full);
        if full { return Some(i); }
        stack := stack + [f];
      }
    }
    return None;
  }

  lemma {:induction false} OwnsWhen(o: Outline, segments: seq<string>, i: nat, full: bool)
    requires i < |o| && o[i].Some?
    requires var c := Chain(o, i, o[i].value.indent);
             full <==> |c| == |segments| - 1 && o[i].value.key == segments[|c|] && Keys(c) == segments[..|c|]
    ensures full <==> Owns(o, segments, i)
  {
    var c := Chain(o, i, o[i].value.indent);
    assert |c| == |segments| - 1 ==> segments == segments[..|c|] + [segments[|c|]];
  }

  /** The inner loop that drops frames. */
  method PopTo(frames: seq<Frame>, indent: nat) returns (stack: seq<Frame>)
    ensures stack == Pop(frames, indent)
  {
    stack := frames;
    while stack != [] && stack[|stack| - 1].indent >= indent
      invariant Pop(stack, indent) == Pop(frames, indent)
      decreases |stack|
    {
      stack := stack[..|stack| - 1];
    }
  }

  /** The inner comparison loop. */
  method MatchesPrefix(stack: seq<Frame>, segments: seq<string>) returns (full: bool)
    requires |stack| < |segments|
    ensures full <==> Keys(stack) == segments[..|stack|]
  {
    for depth := 0 to |stack|
      invariant Keys(stack)[..depth] == segments[..depth]
    {
      if stack[depth].key != segments[depth] {
        assert Keys(stack)[depth] != segments[..|stack|][depth];
        return false;
      }
      assert Keys(stack)[..depth + 1] == Keys(stack)[..depth] + [stack[depth].key];
      assert segments[..depth + 1] == segments[..depth] + [segments[depth]];
    }
    assert Keys(stack)[..|stack|] == Keys(stack);
    return true;
  }

  // ---- Image tags ----

  datatype ImageTag = ImageTag(line: nat, value: string)

  /** A `tag:` line with a value (`tagLineRE`). */
  predicate IsTagLine(l: string) {
    var f := FrameOf(l);
    f.Some? && f.value.indent > 0 && f.value.key == "tag" && ValueOf(l) != ""
  }

  /** The parent of line `i` is an `image` key. */
  predicate UnderImage(o: Outline, i: nat) {
    i < |o| && o[i].Some? &&
    var p := Above(o, i, o[i].value.indent);
    p.Some? && o[p.value].value.key == "image"
  }

  /** A tag line whose parent is an `image` key. */
  predicate IsImageTag(lines: seq<string>, i: nat) {
    i < |lines| && IsTagLine(lines[i]) && UnderImage(OutlineOf(lines), i)
  }

  /** The value of each line that is an image tag. */
  function Marks(lines: seq<string>): (m: seq<Option<string>>)
    ensures |m| == |lines|
    ensures forall i :: 0 <= i < |m| ==> m[i] == MarkAt(lines, i)
  {
    seq(|lines|, i requires 0 <= i < |lines| => MarkAt(lines, i))
  }

  function MarkAt(lines: seq<string>, i: nat): Option<string>
    requires i < |lines|
  {
    if IsImageTag(lines, i) then Some(ValueOf(lines[i])) else None
  }

  /** The image tags on the first `n` lines. */
  function TagsUpTo(marks: seq<Option<string>>, n: nat): (tags: seq<ImageTag>)
    requires n <= |marks|
  {
    if n == 0 then []
    else if marks[n - 1].Some? then TagsUpTo(marks, n - 1) + [ImageTag(n - 1, marks[n - 1].value)]
    else TagsUpTo(marks, n - 1)
  }

  function ImageTags(lines: seq<string>): seq<ImageTag> { TagsUpTo(Marks(lines), |lines|) }

  /** `imageTags` */
  method FindImageTags(lines: seq<string>) returns (tags: seq<ImageTag>)
    ensures tags == ImageTags(lines)
  {
    tags := [];
    ghost var marks := Marks(lines);
    for i := 0 to |lines|
      invariant tags == TagsUpTo(marks, i)
    {
      var mark := TagsImage(lines, i);
      if mark.Some? { tags := tags + [ImageTag(i, mark.value)]; }
    }
  }

  method TagsImage(lines: seq<string>, i: nat) returns (mark: Option<string>)
    requires i < |lines|
    ensures mark == Marks(lines)[i]
  {
    if !IsTagLine(lines[i]) { return None; }
    var yes := ParentIsImage(OutlineOf(lines), i);
    return if yes then Some(ValueOf(lines[i])) else None;
  }

  /** Its backward scan for the parent. */
  method ParentIsImage(o: Outline, i: nat) returns (yes: bool)
    requires i < |o| && o[i].Some?
    ensures yes <==> UnderImage(o, i)
  {
    var indent := o[i].value.indent;
    var j := i;
    while j > 0 && (o[j - 1].None? || o[j - 1].value.indent >= indent)
      invariant 0 <= j <= i
      invariant Above(o, i, indent) == Above(o, j, indent)
    {
      j := j - 1;
    }
    return j > 0 && o[j - 1].value.key == "image";
  }

  /** The backward scan and the stack have one notion of parent: an image tag is a valued line
      whose full path ends in `image.tag`. */
  lemma {:induction false} ImageTagPath(lines: seq<string>, i: nat)
    requires i < |lines|
    ensures IsImageTag(lines, i) <==>
            && ValueOf(lines[i]) != "" && OutlineOf(lines)[i].Some?
            && var p := PathOf(OutlineOf(lines), i); |p| >= 2 && p[|p| - 2..] == ["image", "tag"]
  {
    var o := OutlineOf(lines);
    if o[i].Some? {
      var f := o[i].value;
      var a := Above(o, i, f.indent);
      var p := PathOf(o, i);
      if a.Some? {
        assert |p| >= 2 && p[|p| - 2] == o[a.value].value.key && p[|p| - 1] == f.key;
        assert p[|p| - 2..] == [p[|p| - 2], p[|p| - 1]];
      } else {
        assert p == [f.key];
      }
    }
  }

  /** Different paths never land on one line. */
  lemma {:induction false} PathsApart(lines: seq<string>, p: string, q: string)
    requires Resolve(lines, p).Found? && Resolve(lines, q).Found? && Resolve(lines, p).line == Resolve(lines, q).line
    ensures p == q
  {
    JoinSplit(p, '.');
    JoinSplit(q, '.');
    FirstOwnerIsFirst(OutlineOf(lines), Split(p, '.'), 0);
    FirstOwnerIsFirst(OutlineOf(lines), Split(q, '.'), 0);
  }
}
