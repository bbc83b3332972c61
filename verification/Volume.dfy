/**
 * A FileCore volume as files/rofilecore.py builds and uses it: the index of blocks, the walk with
 * its stack, the lookup of a file, and the image file that is patched in place.
 */
module Volume {
  import opened Bytes
  import opened GuestMemory
  import opened BigDir
  import opened Walk
  import opened Patch

  ghost predicate HasName(d: Dir, name: Name) {
    exists e :: e in d.ents && e.name == name
  }

  /** A directory called $ with the usual top-level names. */
  ghost predicate RootLike(d: Dir) {
    d.name == ROOT && HasName(d, BOOT) && HasName(d, APPS)
  }

  /** The i-th block is the root: the one with most entries that looks like it, the first such. */
  ghost predicate IsRoot(dirs: seq<Dir>, i: nat) {
    && i < |dirs| && RootLike(dirs[i])
    && forall j :: 0 <= j < |dirs| && RootLike(dirs[j]) ==>
         |dirs[j].ents| <= |dirs[i].ents| && (j < i ==> |dirs[j].ents| < |dirs[i].ents|)
  }

  datatype Place = Found(off: int, length: Word) | NoSuchObject | IsADirectory | Uncalibrated | NotUnique(hits: seq<nat>)

  function PlaceOf(m: Memory, fragBase: map<nat, int>, paths: map<Name, Entry>, path: Name, prefix: seq<Byte>): Place {
    if path !in paths then NoSuchObject
    else
      var e := paths[path];
      var off := OffsetOf(fragBase, e);
      if e.isdir then IsADirectory
      else if off.Some? then Found(off.value, e.length)
      else if prefix == [] then Uncalibrated
      else
        var hits := Hits(m, prefix, |m|);
        if |hits| == 1 then Found(hits[0], e.length) else NotUnique(hits)
  }

  /** mmap.find for a file's first bytes */
  method FindCopy(m: Memory, prefix: seq<Byte>, idx: nat) returns (r: Option<nat>)
    requires prefix != []
    ensures r.Some? ==> idx <= r.value && CopyAt(m, prefix, r.value) && forall k :: idx <= k < r.value ==> !CopyAt(m, prefix, k)
    ensures r.None? ==> forall k :: idx <= k ==> !CopyAt(m, prefix, k)
  {
    var i := idx;
    while i + |prefix| <= |m|
      invariant idx <= i && forall k :: idx <= k < i ==> !CopyAt(m, prefix, k)
    {
      if m[i..i + |prefix|] == prefix {
        return Some(i);
      }
      i := i + 1;
    }
    r := None;
  }

  /** The search of locate: every sector-aligned copy, in order. */
  method Search(m: Memory, prefix: seq<Byte>) returns (hits: seq<nat>)
    requires prefix != []
    ensures hits == Hits(m, prefix, |m|)
  {
    hits := [];
    var idx := 0;
    while true
      invariant idx <= |m| && hits == Hits(m, prefix, idx)
      decreases |m| - idx
    {
      var found := FindCopy(m, prefix, idx);
      if found.None? {
        break;
      }
      var i := found.value;
      HitsSkip(m, prefix, idx, i);
      if i % SECTOR == 0 {
        hits := hits + [i];
      }
      idx := i + 1;
    }
    HitsSkip(m, prefix, idx, |m|);
  }

  method Names(d: Dir) returns (names: set<Name>)
    ensures forall n :: n in names <==> HasName(d, n)
  {
    names := {};
    for i := 0 to |d.ents|
      invariant forall n :: n in names <==> exists k :: 0 <= k < i && d.ents[k].name == n
    {
      names := names + {d.ents[i].name};
    }
    forall n ensures n in names <==> HasName(d, n) {
      if HasName(d, n) {
        var e :| e in d.ents && e.name == n;
        var k :| 0 <= k < |d.ents| && d.ents[k] == e;
      }
    }
  }

  /** Volume._find_root */
  method FindRoot(dirs: seq<Dir>) returns (best: Option<nat>)
    ensures best.Some? ==> IsRoot(dirs, best.value)
    ensures best.None? ==> forall i :: 0 <= i < |dirs| ==> !RootLike(dirs[i])
  {
    best := None;
    for i := 0 to |dirs|
      invariant best.Some? ==> best.value < i && IsRoot(dirs[..i], best.value)
      invariant best.None? ==> forall j :: 0 <= j < i ==> !RootLike(dirs[j])
    {
      var d := dirs[i];
      var names := Names(d);
      if d.name == ROOT && BOOT in names && APPS in names {
        if best.None? || |d.ents| > |dirs[best.value].ents| {
          best := Some(i);
        }
      }
    }
    assert dirs[..|dirs|] == dirs;
  }

  lemma IndexOne(dirs: seq<Dir>, i: nat)
    requires i < |dirs|
    ensures forall a: Word ::
              Children(dirs[..i + 1], a) == Children(dirs[..i], a) + (if dirs[i].parent == a then [dirs[i]] else [])
  {
    assert dirs[..i + 1][..i] == dirs[..i];
  }

  /** The walk from root, which will leave end, has reached s. */
  ghost predicate WalkedUpTo(dirs: seq<Dir>, root: Dir, end: State, s: State) {
    root in dirs && Bounded(dirs, root, s) && WalkFrom(dirs, root, s) == end
  }

  /** The same as a function of the state. */
  ghost function Reached(dirs: seq<Dir>, root: Dir, end: State): State -> bool {
    (s: State) => WalkedUpTo(dirs, root, end, s)
  }

  lemma StartWalk(dirs: seq<Dir>, root: Dir)
    requires root in dirs
    ensures Reached(dirs, root, Walked(dirs, root))(Start(root))
  {
    StartIsBounded(dirs, root);
  }

  lemma WalkOn(dirs: seq<Dir>, root: Dir, end: State, s: State)
    requires Reached(dirs, root, end)(s) && s.stack != []
    ensures Reached(dirs, root, end)(Turn(dirs, s))
    ensures Nearer(dirs, root, s, Turn(dirs, s))
  {
    TurnStaysBounded(dirs, root, s);
  }

  /** s' has fewer addresses to see than s, or as many and a shorter stack. */
  ghost predicate Nearer(dirs: seq<Dir>, root: Dir, s: State, s': State) {
    var left, left' := Addresses(dirs, root) - s.seen, Addresses(dirs, root) - s'.seen;
    left' < left || (left' == left && |s'.stack| < |s.stack|)
  }

  lemma WalkEnds(dirs: seq<Dir>, root: Dir, end: State, s: State)
    requires Reached(dirs, root, end)(s) && s.stack == []
    ensures s == end
  {
  }

  class Volume {
    const m: Memory
    const dirs: seq<Dir>
    var byParent: map<Word, seq<Dir>>
    var fragBase: map<nat, int>
    var paths: map<Name, Entry>

    /** by_parent gives the children of every address, in the order found. */
    ghost predicate Indexed(n: nat)
      requires n <= |dirs|
      reads this
    {
      forall a: Word :: (if a in byParent then byParent[a] else []) == Children(dirs[..n], a)
    }

    ghost predicate Valid()
      reads this
    {
      dirs == Blocks(m) && Indexed(|dirs|)
    }

    ghost function View(stack: seq<Frame>, seen: set<Word>, expanded: seq<Frame>): State
      reads this
    {
      State(stack, seen, fragBase, paths, expanded)
    }

    constructor (m: Memory)
      ensures Valid() && this.m == m && fragBase == map[] && paths == map[]
    {
      this.m := m;
      var found := Scan(m);
      this.dirs := found;
      byParent, fragBase, paths := map[], map[], map[];
      new;
      for i := 0 to |dirs|
        invariant Indexed(i) && fragBase == map[] && paths == map[]
      {
        IndexOne(dirs, i);
        File(dirs[i], i);
      }
      assert dirs[..|dirs|] == dirs;
    }

    method File(d: Dir, ghost i: nat)
      requires i < |dirs| && d == dirs[i] && Indexed(i)
      requires forall a: Word :: Children(dirs[..i + 1], a) == Children(dirs[..i], a) + (if d.parent == a then [d] else [])
      modifies this`byParent
      ensures Indexed(i + 1)
    {
      byParent := byParent[d.parent := (if d.parent in byParent then byParent[d.parent] else []) + [d]];
    }

    /** The first child of each name; a later one of the same name is not taken. */
    method Kids(addr: Word) returns (kids: map<Name, Dir>)
      requires Valid()
      ensures forall name :: name in kids <==> Kid(dirs, addr, name).Some?
      ensures forall name :: name in kids ==> kids[name] == Kid(dirs, addr, name).value
    {
      var cs := if addr in byParent then byParent[addr] else [];
      assert dirs[..|dirs|] == dirs;
      kids := map[];
      for i := 0 to |cs|
        invariant forall name :: name in kids <==> FirstNamed(cs[..i], name).Some?
        invariant forall name :: name in kids ==> kids[name] == FirstNamed(cs[..i], name).value
      {
        assert cs[..i + 1][..i] == cs[..i];
        if cs[i].name !in kids {
          kids := kids[cs[i].name := cs[i]];
        }
      }
      assert cs[..|cs|] == cs;
    }

    /** Volume._note */
    method NoteBase(ind: Word, off: int)
      modifies this`fragBase
      ensures fragBase == Note(old(fragBase), ind, off)
    {
      if Fragment(ind) !in fragBase {
        fragBase := fragBase[Fragment(ind) := off - Within(ind)];
      }
    }

    /** One entry of a directory that is being expanded. */
    method Visit(f: Frame, e: Entry, kid: Option<Dir>, stack: seq<Frame>,
                 ghost seen: set<Word>, ghost expanded: seq<Frame>)
      returns (stack': seq<Frame>)
      modifies this`fragBase, this`paths
      ensures View(stack', seen, expanded) == TakeEntry(kid, f, e, old(View(stack, seen, expanded)))
    {
      stack' := stack;
      var p := Join(f.path, e.name);
      if e.isdir {
        if kid.None? {
          return;
        }
        NoteBase(e.ind, kid.value.block);
        paths := paths[p := e];
        stack' := stack + [Frame(kid.value, e.ind, p)];
      } else {
        paths := paths[p := e];
      }
    }

    method ExpandDir(f: Frame, stack: seq<Frame>, ghost seen: set<Word>, ghost expanded: seq<Frame>)
      returns (stack': seq<Frame>)
      requires Valid()
      modifies this`fragBase, this`paths
      ensures View(stack', seen, expanded) == TakeEntries(dirs, f, |f.d.ents|, old(View(stack, seen, expanded)))
    {
      var kids := Kids(f.addr);
      stack' := stack;
      for i := 0 to |f.d.ents|
        invariant View(stack', seen, expanded) == TakeEntries(dirs, f, i, old(View(stack, seen, expanded)))
      {
        var e := f.d.ents[i];
        var kid := if e.name in kids then Some(kids[e.name]) else None;
        assert kid == Kid(dirs, f.addr, e.name);
        stack' := Visit(f, e, kid, stack', seen, expanded);
      }
    }

    /** One turn of the walk: the last directory pushed is expanded, unless its address was seen before. */
    method TakeTurn(stack: seq<Frame>, seen: set<Word>, ghost expanded: seq<Frame>)
      returns (stack': seq<Frame>, seen': set<Word>, ghost expanded': seq<Frame>)
      requires Valid() && stack != []
      modifies this`fragBase, this`paths
      ensures View(stack', seen', expanded') == Turn(dirs, old(View(stack, seen, expanded)))
    {
      var f := stack[|stack| - 1];
      stack', seen', expanded' := stack[..|stack| - 1], seen, expanded;
      if f.addr in seen {
        return;
      }
      ghost var s := View(stack, seen, expanded);
      seen', expanded' := seen + {f.addr}, expanded + [f];
      assert View(stack', seen', expanded') == Mark(f, Pop(s));
      stack' := ExpandDir(f, stack', seen', expanded');
    }

    method TakeStep(ghost root: Dir, ghost end: State, stack: seq<Frame>, seen: set<Word>, ghost expanded: seq<Frame>)
      returns (stack': seq<Frame>, seen': set<Word>, ghost expanded': seq<Frame>)
      requires Valid() && stack != [] && Reached(dirs, root, end)(View(stack, seen, expanded))
      modifies this`fragBase, this`paths
      ensures Reached(dirs, root, end)(View(stack', seen', expanded'))
      ensures Nearer(dirs, root, old(View(stack, seen, expanded)), View(stack', seen', expanded'))
    {
      WalkOn(dirs, root, end, View(stack, seen, expanded));
      stack', seen', expanded' := TakeTurn(stack, seen, expanded);
    }

    method WalkFromRoot(root: Dir, ghost end: State)
      requires Valid() && fragBase == map[] && paths == map[]
      requires Reached(dirs, root, end)(Start(root))
      modifies this`fragBase, this`paths
      ensures fragBase == end.fragBase && paths == end.paths
    {
      NoteBase(root.parent, root.block);
      var stack := [Frame(root, root.parent, ROOT)];
      var seen: set<Word> := {};
      ghost var expanded: seq<Frame> := [];
      while stack != []
        invariant Reached(dirs, root, end)(View(stack, seen, expanded))
        decreases Addresses(dirs, root) - seen, |stack|
      {
        stack, seen, expanded := TakeStep(root, end, stack, seen, expanded);
      }
      WalkEnds(dirs, root, end, View(stack, seen, expanded));
    }

    /** Volume._walk; without a root there is nothing to do but give up. */
    method WalkTree() returns (best: Option<nat>)
      requires Valid() && fragBase == map[] && paths == map[]
      modifies this`fragBase, this`paths
      ensures best.None? ==> (forall i :: 0 <= i < |dirs| ==> !RootLike(dirs[i])) && unchanged(this)
      ensures best.Some? ==> IsRoot(dirs, best.value)
                             && fragBase == Walked(dirs, dirs[best.value]).fragBase
                             && paths == Walked(dirs, dirs[best.value]).paths
    {
      best := FindRoot(dirs);
      if best.None? {
        return;
      }
      StartWalk(dirs, dirs[best.value]);
      WalkFromRoot(dirs[best.value], Walked(dirs, dirs[best.value]));
    }

    /** Volume.offset_of */
    method Offset(e: Entry) returns (off: Option<int>)
      ensures off == OffsetOf(fragBase, e)
    {
      if Fragment(e.ind) !in fragBase {
        return None;
      }
      off := Some(fragBase[Fragment(e.ind)] + Within(e.ind));
    }

    /** Volume.locate */
    method Locate(path: Name, prefix: seq<Byte>) returns (place: Place)
      ensures place == PlaceOf(m, fragBase, paths, path, prefix)
    {
      if path !in paths {
        return NoSuchObject;
      }
      var e := paths[path];
      if e.isdir {
        return IsADirectory;
      }
      var off := Offset(e);
      if off.Some? {
        return Found(off.value, e.length);
      }
      if prefix == [] {
        return Uncalibrated;
      }
      var hits := Search(m, prefix);
      if |hits| != 1 {
        return NotUnique(hits);
      }
      place := Found(hits[0], e.length);
    }
  }

  class ImageFile {
    var bytes: Memory

    constructor (bytes: Memory)
      ensures this.bytes == bytes
    {
      this.bytes := bytes;
    }

    /** patch_in_place; None is a refusal, and leaves the image alone. */
    method PatchInPlace(off: int, length: nat, body: seq<Byte>, prefix: seq<Byte>) returns (pad: Option<nat>)
      modifies this
      ensures match PatchAt(old(bytes), off, length, body, prefix)
              case Refused => pad == None && bytes == old(bytes)
              case Patched(image, n) => pad == Some(n) && bytes == image
    {
      if off < 0 {
        return None;
      }
      var cur := BytesAt(bytes, off, length);
      if prefix != [] && !StartsWith(cur, prefix) {
        return None;
      }
      var text := Unix(body, 0);
      if text == [] || text[|text| - 1] != LF {
        text := text + [LF];
      }
      if |text| > length {
        return None;
      }
      var n := length - |text|;
      if n == 1 {
        text := text + [LF];
      } else if n >= 2 {
        text := text + ([BAR] + Spaces(n - 2) + [LF]);
      }
      assert text == Slot(body, length);
      bytes := WriteOver(bytes, off, text);
      pad := Some(n);
    }
  }
}
