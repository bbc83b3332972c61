/**
 * The tool's patch command (files/rofilecore.py), from an image and a path to the patched image, and
 * what its lookups mean.
 */
module PatchTool {
  import opened Bytes
  import opened GuestMemory
  import opened BigDir
  import opened Walk
  import opened Calibration
  import opened Lookup
  import opened Patch
  import opened Volume

  /** Where the tool finds path on an image whose root is its i-th block. */
  ghost function PlaceIn(m: Memory, i: nat, path: Name, prefix: seq<Byte>): Place
    requires IsRoot(Blocks(m), i)
  {
    var s := Walked(Blocks(m), Blocks(m)[i]);
    PlaceOf(m, s.fragBase, s.paths, path, prefix)
  }

  /** Patching what a lookup has found. */
  function PatchFound(m: Memory, place: Place, body: seq<Byte>, prefix: seq<Byte>): Outcome {
    if place.Found? then PatchAt(m, place.off, place.length, body, prefix) else Refused
  }

  /** The patch command: open the image, look the file up, and overwrite it where it lies. */
  ghost function PatchIn(m: Memory, path: Name, body: seq<Byte>, prefix: seq<Byte>): Outcome {
    if exists i :: IsRoot(Blocks(m), i) then
      var i :| IsRoot(Blocks(m), i);
      PatchFound(m, PlaceIn(m, i, path, prefix), body, prefix)
    else Refused
  }

  /** There is one root at most. */
  lemma OneRoot(dirs: seq<Dir>, i: nat, j: nat)
    requires IsRoot(dirs, i) && IsRoot(dirs, j)
    ensures i == j
  {
  }

  lemma PatchInIs(m: Memory, i: nat, path: Name, body: seq<Byte>, prefix: seq<Byte>)
    requires IsRoot(Blocks(m), i)
    ensures PatchIn(m, path, body, prefix) == PatchFound(m, PlaceIn(m, i, path, prefix), body, prefix)
  {
    var j :| IsRoot(Blocks(m), j);
    OneRoot(Blocks(m), i, j);
  }

  /** The only place at a sector boundary where the prefix stands. */
  ghost predicate OnlyCopy(m: Memory, prefix: seq<Byte>, c: nat) {
    && prefix != [] && c + |prefix| <= |m| && m[c..c + |prefix|] == prefix && c % 512 == 0
    && forall i: nat :: i + |prefix| <= |m| && m[i..i + |prefix|] == prefix && i % 512 == 0 ==> i == c
  }

  lemma OnlyHit(m: Memory, prefix: seq<Byte>, c: nat)
    requires prefix != []
    ensures Hits(m, prefix, |m|) == [c] <==> OnlyCopy(m, prefix, c)
  {
    SearchIsUnique(m, prefix, |m|, c);
    if Hits(m, prefix, |m|) == [c] {
      forall i: nat | i + |prefix| <= |m| && m[i..i + |prefix|] == prefix && i % 512 == 0 ensures i == c {
        assert HitAt(m, prefix, i);
      }
    }
    if OnlyCopy(m, prefix, c) {
      assert HitAt(m, prefix, c);
    }
  }

  /**
   * A lookup finds a place exactly for a listed file that is calibrated, or whose first bytes stand
   * at one sector boundary only.
   */
  lemma FoundExactly(m: Memory, fragBase: map<nat, int>, paths: map<Name, Entry>, path: Name, prefix: seq<Byte>, place: Place)
    requires place == PlaceOf(m, fragBase, paths, path, prefix)
    ensures place.Found? <==>
              (path in paths && !paths[path].isdir
               && (paths[path].ind / 0x100 in fragBase || exists c :: OnlyCopy(m, prefix, c)))
    ensures place.Found? ==>
              (var e := paths[path];
               place.length == e.length
               && if e.ind / 0x100 in fragBase then place.off == fragBase[e.ind / 0x100] + 512 * (e.ind % 0x100)
                  else place.off >= 0 && OnlyCopy(m, prefix, place.off))
  {
    var hits := Hits(m, prefix, |m|);
    if prefix != [] {
      if |hits| == 1 {
        OnlyHit(m, prefix, hits[0]);
        assert hits == [hits[0]];
      }
      if c :| OnlyCopy(m, prefix, c) {
        OnlyHit(m, prefix, c);
      }
    }
  }

  /**
   * The command patches exactly if the path is found, its file begins with the prefix, and the
   * script fits.
   */
  lemma CommandPatchesExactly(m: Memory, i: nat, path: Name, body: seq<Byte>, prefix: seq<Byte>, place: Place)
    requires IsRoot(Blocks(m), i) && place == PlaceIn(m, i, path, prefix) && prefix != []
    ensures PatchIn(m, path, body, prefix).Patched?
       <==> (place.Found? && place.off >= 0 && place.off + |prefix| <= |m|
             && m[place.off..place.off + |prefix|] == prefix
             && |prefix| <= place.length && ScriptLength(body) <= place.length)
  {
    PatchInIs(m, i, path, body, prefix);
    if place.Found? {
      PatchedExactly(m, place.off, place.length, body, prefix);
    }
  }

  /** A file that has a position but does not begin with the prefix is not touched. */
  lemma OtherTextRefused(m: Memory, i: nat, path: Name, body: seq<Byte>, prefix: seq<Byte>, off: nat, length: Word)
    requires IsRoot(Blocks(m), i) && PlaceIn(m, i, path, prefix) == Found(off, length) && prefix != []
    requires !CopyAt(m, prefix, off)
    ensures PatchIn(m, path, body, prefix) == Refused
  {
    CommandPatchesExactly(m, i, path, body, prefix, Found(off, length));
  }

  /** main's patch command */
  method PatchPath(image: ImageFile, path: Name, body: seq<Byte>, prefix: seq<Byte>) returns (pad: Option<nat>)
    modifies image
    ensures match PatchIn(old(image.bytes), path, body, prefix)
            case Refused => pad == None && image.bytes == old(image.bytes)
            case Patched(m, n) => pad == Some(n) && image.bytes == m
  {
    var vol := new Volume(image.bytes);
    var root := vol.WalkTree();
    if root.None? {
      return None;
    }
    PatchInIs(image.bytes, root.value, path, body, prefix);
    var place := vol.Locate(path, prefix);
    if !place.Found? {
      return None;
    }
    pad := image.PatchInPlace(place.off, place.length, body, prefix);
  }

  lemma ScannedBlocksUnique(m: Memory)
    ensures BlocksUnique(Blocks(m))
  {
    forall c, d | c in Blocks(m) && d in Blocks(m) && c.block == d.block ensures c == d {
      BlocksApart(m, c, d);
    }
  }

  /**
   * From the image to the answer: on any image whose directories can be placed at all, a file whose
   * fragment holds a reachable directory is located, by its path, at its true position.
   */
  lemma LocatedTrue(m: Memory, i: nat, base: nat -> int, f: Frame, e: Entry, prefix: seq<Byte>)
    requires IsRoot(Blocks(m), i) && Placed(Blocks(m), Blocks(m)[i], base)
    requires NamesUnique(Blocks(m)) && NamesPlain(Blocks(m), Blocks(m)[i])
    requires SubdirsUnique(Blocks(m), Blocks(m)[i]) && RootOutside(Blocks(m)[i])
    requires OnTrail(Blocks(m), Blocks(m)[i], f) && e in f.d.ents && !e.isdir
    requires Last(Blocks(m), f, e.name) == Some(e) && HoldsDirectory(Blocks(m), Blocks(m)[i], e.ind / 0x100)
    ensures PlaceIn(m, i, Join(f.path, e.name), prefix) == Found(base(e.ind / 0x100) + 512 * (e.ind % 0x100), e.length)
  {
    ScannedBlocksUnique(m);
    PathLeadsToLast(Blocks(m), Blocks(m)[i], base, f, e);
    OffsetsAreTrue(Blocks(m), Blocks(m)[i], base, e);
  }

  // ---- the root ----

  /**
   * Blocks in another order give the same root and the same calibration, if the block with most
   * entries of those that look like the root is the only one with so many.
   */
  lemma BlockOrderDoesNotMatter(dirs: seq<Dir>, dirs': seq<Dir>, i: nat, j: nat, base: nat -> int)
    requires IsRoot(dirs, i) && IsRoot(dirs', j) && SameBlocks(dirs, dirs')
    requires forall d :: d in dirs && RootLike(d) && d != dirs[i] ==> |d.ents| < |dirs[i].ents|
    requires Placed(dirs, dirs[i], base) && NamesUnique(dirs) && BlocksUnique(dirs)
    ensures dirs'[j] == dirs[i]
    ensures Walked(dirs, dirs[i]).fragBase == Walked(dirs', dirs'[j]).fragBase
  {
    assert dirs'[j] in dirs;
    var k :| 0 <= k < |dirs'| && dirs'[k] == dirs[i];
    OrderDoesNotMatter(dirs, dirs', dirs[i], base);
  }

  /** Of two that tie, the one that comes first is taken. */
  lemma TiesGoToTheFirst(c: Dir, d: Dir)
    requires RootLike(c) && RootLike(d) && |c.ents| == |d.ents|
    ensures IsRoot([c, d], 0) && IsRoot([d, c], 0)
  {
  }
}
