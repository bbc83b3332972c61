/**
 * Putting both copies of a script back (hooks/host_finalizeImage.sh): the patch command is run twice,
 * and the second run opens, walks and searches the image that the first one has left.
 */
module Restore {
  import opened Bytes
  import opened GuestMemory
  import opened BigDir
  import opened Walk
  import opened Patch
  import opened PatchTool
  import opened Volume

  // ---- parsing looks at no more than a block ----

  /** The images agree from lo up to hi. */
  ghost predicate SameFrom(m: Memory, m': Memory, lo: nat, hi: nat) {
    |m| == |m'| && forall k :: lo <= k < hi && k < |m| ==> m[k] == m'[k]
  }

  lemma SameLoad(m: Memory, m': Memory, lo: nat, hi: nat, a: nat)
    requires SameFrom(m, m', lo, hi) && lo <= a && a + 4 <= hi
    ensures Load(m, a) == Load(m', a)
  {
  }

  lemma SameSlice(m: Memory, m': Memory, lo: nat, hi: nat, from: nat, to: nat)
    requires SameFrom(m, m', lo, hi) && lo <= from <= to <= hi
    ensures Slice(m, from, to) == Slice(m', from, to)
  {
  }

  /** Behind the last byte that is looked at of a block with its magic at mag; names may overrun the heap by 128. */
  function Reach(mag: nat, h: Head, accepted: bool): nat {
    if accepted then HeapBase(mag, h) + h.namesSize + 128 else mag + 24 + 64
  }

  lemma SameHead(m: Memory, m': Memory, mag: nat, hi: nat)
    requires SameFrom(m, m', mag, hi) && mag + 24 <= hi
    ensures HeadAt(m, mag) == HeadAt(m', mag)
  {
    SameLoad(m, m', mag, hi, mag + 4);
    SameLoad(m, m', mag, hi, mag + 8);
    SameLoad(m, m', mag, hi, mag + 12);
    SameLoad(m, m', mag, hi, mag + 16);
    SameLoad(m, m', mag, hi, mag + 20);
  }

  lemma SameHeadOk(m: Memory, m': Memory, mag: nat, hi: nat, h: Head)
    requires SameFrom(m, m', mag, hi) && mag + 24 + 64 <= hi
    ensures HeadOk(m, mag, h) <==> HeadOk(m', mag, h)
  {
    if h.nameLen < 64 {
      SameSlice(m, m', mag, hi, mag + 24, mag + 24 + h.nameLen);
    }
  }

  lemma SameWords(m: Memory, m': Memory, lo: nat, hi: nat, e: nat)
    requires SameFrom(m, m', lo, hi) && lo <= e && e + ENTRY <= hi
    ensures WordsAt(m, e) == WordsAt(m', e)
  {
    SameLoad(m, m', lo, hi, e);
    SameLoad(m, m', lo, hi, e + 8);
    SameLoad(m, m', lo, hi, e + 12);
    SameLoad(m, m', lo, hi, e + 16);
    SameLoad(m, m', lo, hi, e + 20);
    SameLoad(m, m', lo, hi, e + 24);
  }

  lemma SameEntryWords(m: Memory, m': Memory, lo: nat, hi: nat, heap: nat, namesSize: Word, w: Words, e: nat)
    requires SameFrom(m, m', lo, hi) && lo <= heap && heap + namesSize + 128 <= hi
    ensures EntryOk(m, heap, namesSize, w) <==> EntryOk(m', heap, namesSize, w)
    ensures EntryOk(m, heap, namesSize, w) ==> EntryOf(m, heap, w, e) == EntryOf(m', heap, w, e)
  {
    if w.nlen <= 64 && w.noff <= namesSize + 64 {
      SameSlice(m, m', lo, hi, heap + w.noff, heap + w.noff + w.nlen);
    }
  }

  lemma EntryBeforeHeap(mag: nat, h: Head, i: nat)
    requires i < h.entries
    ensures mag <= EntryBase(mag, h) + ENTRY * i && EntryBase(mag, h) + ENTRY * i + ENTRY <= HeapBase(mag, h)
  {
  }

  lemma SameEntry(m: Memory, m': Memory, mag: nat, hi: nat, h: Head, i: nat)
    requires SameFrom(m, m', mag, hi) && HeapBase(mag, h) + h.namesSize + 128 <= hi && i < h.entries
    ensures EntryOkAt(m, mag, h, i) <==> EntryOkAt(m', mag, h, i)
    ensures EntryOkAt(m, mag, h, i) ==> EntryAt(m, mag, h, i) == EntryAt(m', mag, h, i)
  {
    var e := EntryBase(mag, h) + ENTRY * i;
    EntryBeforeHeap(mag, h, i);
    SameWords(m, m', mag, hi, e);
    SameEntryWords(m, m', mag, hi, HeapBase(mag, h), h.namesSize, WordsAt(m, e), e);
  }

  lemma SameEntries(m: Memory, m': Memory, mag: nat, hi: nat, h: Head)
    requires SameFrom(m, m', mag, hi) && HeapBase(mag, h) + h.namesSize + 128 <= hi
    ensures EntriesOk(m, mag, h, h.entries) <==> EntriesOk(m', mag, h, h.entries)
    ensures EntriesOk(m, mag, h, h.entries) ==> EntriesAt(m, mag, h, h.entries) == EntriesAt(m', mag, h, h.entries)
  {
    forall i | 0 <= i < h.entries
      ensures EntryOkAt(m, mag, h, i) <==> EntryOkAt(m', mag, h, i)
      ensures EntryOkAt(m, mag, h, i) ==> EntryAt(m, mag, h, i) == EntryAt(m', mag, h, i)
    {
      SameEntry(m, m', mag, hi, h, i);
    }
  }

  lemma SameDir(m: Memory, m': Memory, mag: nat, hi: nat, h: Head)
    requires SameFrom(m, m', mag, hi) && mag + 24 + 64 <= hi
    requires HeadOk(m, mag, h) ==> HeapBase(mag, h) + h.namesSize + 128 <= hi
    ensures DirOf(m, mag, h) == DirOf(m', mag, h)
  {
    SameHeadOk(m, m', mag, hi, h);
    if HeadOk(m, mag, h) {
      SameSlice(m, m', mag, hi, mag + 24, mag + 24 + h.nameLen);
      SameEntries(m, m', mag, hi, h);
    }
  }

  /** A block is the same in two images that agree as far as it reaches. */
  lemma SameParse(m: Memory, m': Memory, mag: nat, hi: nat)
    requires SameFrom(m, m', mag, hi) && mag + 24 + 64 <= hi
    requires Reach(mag, HeadAt(m, mag), HeadOk(m, mag, HeadAt(m, mag))) <= hi
    ensures ParseAt(m, mag) == ParseAt(m', mag)
  {
    SameHead(m, m', mag, hi);
    SameDir(m, m', mag, hi, HeadAt(m, mag));
  }

  // ---- the blocks of a patched image ----

  /** The magic of a sector-aligned block. */
  predicate BlockStart(m: Memory, i: nat) {
    MagicAt(m, i) && (i - 4) % SECTOR == 0
  }

  /** No sector-aligned magic is in the slot, or before it with a block that reaches into it. */
  ghost predicate ClearOfBlocks(m: Memory, t: nat, to: nat) {
    forall i: nat :: BlockStart(m, i) && i < to ==> BlockReach(m, i) <= t
  }

  function BlockReach(m: Memory, i: nat): nat {
    var r := Reach(i, HeadAt(m, i), HeadOk(m, i, HeadAt(m, i)));
    if r < i + 24 + 64 then i + 24 + 64 else r
  }

  /** A text that brings no sector-aligned magic. */
  ghost predicate NoBlockIn(s: seq<Byte>) {
    forall i: nat :: !BlockStart(s, i)
  }

  lemma MagicElsewhere(m: Memory, t: nat, s: seq<Byte>, m': Memory, i: nat)
    requires Replaced(m, t, s, m') && (i + 4 <= t || t + |s| <= i)
    ensures MagicAt(m', i) <==> MagicAt(m, i)
  {
    CopyElsewhere(m, t, s, m', MAGIC, i);
  }

  lemma BlockStartInside(i: nat, t: nat)
    requires t % SECTOR == 0 && (i - 4) % SECTOR == 0
    ensures t < i + 4 ==> t <= i && (i - t - 4) % SECTOR == 0
  {
    var q := (i - 4) / SECTOR - t / SECTOR;
    assert i - 4 - t == SECTOR * q;
  }

  /** The slot of the new image holds no block either. */
  lemma NoBlockStartInSlot(m: Memory, t: nat, s: seq<Byte>, m': Memory, i: nat)
    requires Replaced(m, t, s, m') && t % SECTOR == 0 && s != [] && s[|s| - 1] == LF && NoBlockIn(s)
    requires t < i + 4 && i < t + |s|
    ensures !BlockStart(m', i)
  {
    if (i - 4) % SECTOR == 0 {
      BlockStartInside(i, t);
      if i + 4 <= t + |s| {
        CopyInside(m, t, s, m', MAGIC, i - t);
        assert !BlockStart(s, i - t);
      } else {
        NoCopyAcross(m, t, s, m', MAGIC, i);
      }
    }
  }

  lemma SameBefore(m: Memory, t: nat, s: seq<Byte>, m': Memory, i: nat)
    requires Replaced(m, t, s, m')
    ensures SameFrom(m, m', i, t) && SameFrom(m, m', t + |s|, |m|)
  {
  }

  lemma BlockKept(m: Memory, t: nat, s: seq<Byte>, m': Memory, i: nat)
    requires Replaced(m, t, s, m') && ClearOfBlocks(m, t, t + |s|)
    requires BlockStart(m, i) && BlockStart(m', i)
    ensures ParseAt(m, i) == ParseAt(m', i)
  {
    var hi := BlockReach(m, i);
    SameBefore(m, t, s, m', i);
    assert SameFrom(m, m', i, hi);
    SameParse(m, m', i, hi);
  }

  lemma StartKept(m: Memory, t: nat, s: seq<Byte>, m': Memory, i: nat)
    requires Replaced(m, t, s, m') && ClearOfBlocks(m, t, t + |s|)
    requires t % SECTOR == 0 && s != [] && s[|s| - 1] == LF && NoBlockIn(s)
    ensures BlockStart(m, i) <==> BlockStart(m', i)
  {
    if i + 4 <= t || t + |s| <= i {
      MagicElsewhere(m, t, s, m', i);
    } else {
      NoBlockStartInSlot(m, t, s, m', i);
      assert BlockStart(m, i) ==> BlockReach(m, i) <= t;
    }
  }

  lemma BlockAtIs(m: Memory, i: nat)
    ensures BlockAt(m, i) == if BlockStart(m, i) then ParseAt(m, i) else None
  {
  }

  lemma BlockAtKept(m: Memory, t: nat, s: seq<Byte>, m': Memory, i: nat)
    requires Replaced(m, t, s, m') && ClearOfBlocks(m, t, t + |s|)
    requires t % SECTOR == 0 && s != [] && s[|s| - 1] == LF && NoBlockIn(s)
    ensures BlockAt(m, i) == BlockAt(m', i)
  {
    BlockAtIs(m, i);
    BlockAtIs(m', i);
    StartKept(m, t, s, m', i);
    if BlockStart(m, i) {
      BlockKept(m, t, s, m', i);
    }
  }

  lemma {:induction false} CollectSame<T>(f: nat -> Option<T>, g: nat -> Option<T>, n: nat)
    requires forall i: nat :: f(i) == g(i)
    ensures Collect(f, n) == Collect(g, n)
  {
    if n > 0 {
      CollectSame(f, g, n - 1);
    }
  }

  /** Overwriting a slot that no block reaches into, with a text that brings none, leaves all blocks as they were. */
  lemma BlocksKept(m: Memory, t: nat, s: seq<Byte>, m': Memory)
    requires Replaced(m, t, s, m') && ClearOfBlocks(m, t, t + |s|)
    requires t % SECTOR == 0 && s != [] && s[|s| - 1] == LF && NoBlockIn(s)
    ensures Blocks(m') == Blocks(m)
  {
    forall i: nat ensures BlockAt(m, i) == BlockAt(m', i) {
      BlockAtKept(m, t, s, m', i);
    }
    CollectSame((k: nat) => BlockAt(m, k), (k: nat) => BlockAt(m', k), |m|);
  }

  // ---- the two runs of the tool ----

  /** The path is that of a file of that length in a fragment with a calibrated position, which puts it at off. */
  ghost predicate Calibrated(m: Memory, i: nat, path: Name, off: nat, length: nat)
    requires IsRoot(Blocks(m), i)
  {
    var s := Walked(Blocks(m), Blocks(m)[i]);
    && path in s.paths && !s.paths[path].isdir && s.paths[path].length == length
    && OffsetOf(s.fragBase, s.paths[path]) == Some(off)
  }

  /** The path is that of a file of that length in a fragment without a calibrated position. */
  ghost predicate ByContentOnly(m: Memory, i: nat, path: Name, length: nat)
    requires IsRoot(Blocks(m), i)
  {
    var s := Walked(Blocks(m), Blocks(m)[i]);
    && path in s.paths && !s.paths[path].isdir && s.paths[path].length == length
    && OffsetOf(s.fragBase, s.paths[path]) == None
  }

  /** The template at t, the other copy at c, on an image with its root at block i. */
  datatype Copies = Copies(i: nat, template: Name, t: nat, lt: nat, other: Name, c: nat, lc: nat)
  {
    ghost predicate In(m: Memory, prefix: seq<Byte>) {
      && IsRoot(Blocks(m), i)
      && Calibrated(m, i, template, t, lt) && ByContentOnly(m, i, other, lc)
      && TwoCopies(m, prefix, t, lt, c, lc)
      && ClearOfBlocks(m, t, t + lt)
    }

    /** The same as a function of the image. */
    ghost function On(prefix: seq<Byte>): Memory -> bool {
      (m: Memory) => In(m, prefix)
    }
  }

  lemma TemplateFound(m: Memory, prefix: seq<Byte>, k: Copies)
    requires k.In(m, prefix)
    ensures PlaceIn(m, k.i, k.template, prefix) == Found(k.t, k.lt)
  {
  }

  /** On a patched image the other path is looked up as before, and its content searched for anew. */
  lemma OtherLookedUp(m: Memory, prefix: seq<Byte>, k: Copies, m': Memory)
    requires k.In(m, prefix) && Blocks(m') == Blocks(m)
    ensures IsRoot(Blocks(m'), k.i)
    ensures var hits := Hits(m', prefix, |m'|);
            PlaceIn(m', k.i, k.other, prefix) == if |hits| == 1 then Found(hits[0], k.lc) else NotUnique(hits)
  {
  }

  /** The second run finds the other copy exactly if the text written by the first holds no copy. */
  lemma OtherFound(m: Memory, prefix: seq<Byte>, k: Copies, s: seq<Byte>, m': Memory)
    requires k.In(m, prefix) && Blocks(m') == Blocks(m)
    requires Replaced(m, k.t, s, m') && |s| == k.lt && s[|s| - 1] == LF
    ensures IsRoot(Blocks(m'), k.i) && CopyAt(m', prefix, k.c)
    ensures PlaceIn(m', k.i, k.other, prefix) == Found(k.c, k.lc) <==> NoCopyIn(s, prefix)
    ensures PlaceIn(m', k.i, k.other, prefix).Found? ==> PlaceIn(m', k.i, k.other, prefix) == Found(k.c, k.lc)
  {
    OtherLookedUp(m, prefix, k, m');
    HitsAfter(m, prefix, k.t, k.lt, k.c, k.lc, s, m', k.c);
    SearchAfter(m, prefix, k.t, k.lt, k.c, k.lc, s, m');
    OnlyHitIs(m', prefix, k.c);
  }

  lemma SlotEndsLine(body: seq<Byte>, length: nat)
    requires |Script(body)| <= length
    ensures var s := Slot(body, length); s != [] && s[|s| - 1] == LF
  {
    SlotIsScriptAndComment(body, length);
  }

  lemma TemplateWritten(m: Memory, prefix: seq<Byte>, k: Copies, body: seq<Byte>, o: Outcome)
    requires k.In(m, prefix) && |Script(body)| <= k.lt && NoBlockIn(Slot(body, k.lt))
    requires o == PatchAt(m, k.t, k.lt, body, prefix)
    ensures o.Patched? && o.pad == k.lt - |Script(body)|
    ensures Replaced(m, k.t, Slot(body, k.lt), o.image) && Blocks(o.image) == Blocks(m)
  {
    PatchReplaces(m, k.t, k.lt, body, prefix);
    SlotEndsLine(body, k.lt);
    BlocksKept(m, k.t, Slot(body, k.lt), o.image);
  }

  /** The first run overwrites the template and leaves the directories alone. */
  lemma TemplatePatched(m: Memory, prefix: seq<Byte>, k: Copies, body: seq<Byte>, o: Outcome)
    requires k.On(prefix)(m) && |Script(body)| <= k.lt && NoBlockIn(Slot(body, k.lt))
    requires o == PatchIn(m, k.template, body, prefix)
    ensures o.Patched? && o.pad == k.lt - |Script(body)|
    ensures Replaced(m, k.t, Slot(body, k.lt), o.image) && Blocks(o.image) == Blocks(m)
  {
    TemplateFound(m, prefix, k);
    PatchInIs(m, k.i, k.template, body, prefix);
    TemplateWritten(m, prefix, k, body, o);
  }

  lemma OtherWritten(m: Memory, prefix: seq<Byte>, k: Copies, s: seq<Byte>, m': Memory, body: seq<Byte>, o: Outcome)
    requires TwoCopies(m, prefix, k.t, k.lt, k.c, k.lc) && CopyAt(m', prefix, k.c)
    requires Replaced(m, k.t, s, m') && |s| == k.lt && |Script(body)| <= k.lc
    requires o == PatchAt(m', k.c, k.lc, body, prefix)
    ensures o.Patched? && o.pad == k.lc - |Script(body)|
    ensures BothReplaced(m, k.t, s, k.c, Slot(body, k.lc), o.image)
  {
    PatchReplaces(m', k.c, k.lc, body, prefix);
    ReplacedTwice(m, k.t, s, k.c, Slot(body, k.lc), m', o.image);
  }

  /** The second run, after a first one that has written s, patches the other copy or refuses. */
  lemma OtherPatched(m: Memory, prefix: seq<Byte>, k: Copies, s: seq<Byte>, m': Memory, body: seq<Byte>, o: Outcome)
    requires k.On(prefix)(m) && Blocks(m') == Blocks(m)
    requires Replaced(m, k.t, s, m') && |s| == k.lt && s[|s| - 1] == LF && |Script(body)| <= k.lc
    requires o == PatchIn(m', k.other, body, prefix)
    ensures o.Patched? <==> NoCopyIn(s, prefix)
    ensures o.Patched? ==> o.pad == k.lc - |Script(body)| && BothReplaced(m, k.t, s, k.c, Slot(body, k.lc), o.image)
  {
    OtherFound(m, prefix, k, s, m');
    PatchInIs(m', k.i, k.other, body, prefix);
    if NoCopyIn(s, prefix) {
      OtherWritten(m, prefix, k, s, m', body, o);
    }
  }

  /**
   * The template first, then the other copy: the first run patches the template, and the second one
   * patches the other copy exactly if the new text holds no copy itself; nothing else changes.
   */
  lemma RestoreInOrder(m: Memory, prefix: seq<Byte>, k: Copies, body: seq<Byte>, o1: Outcome, o2: Outcome)
    requires k.On(prefix)(m) && |Script(body)| <= k.lt && |Script(body)| <= k.lc
    requires NoBlockIn(Slot(body, k.lt))
    requires o1 == PatchIn(m, k.template, body, prefix)
    requires o1.Patched? ==> o2 == PatchIn(o1.image, k.other, body, prefix)
    ensures o1.Patched? && o1.pad == k.lt - |Script(body)|
    ensures o2.Patched? <==> NoCopyIn(Slot(body, k.lt), prefix)
    ensures o2.Patched? ==> o2.pad == k.lc - |Script(body)|
                            && BothReplaced(m, k.t, Slot(body, k.lt), k.c, Slot(body, k.lc), o2.image)
  {
    TemplatePatched(m, prefix, k, body, o1);
    SlotEndsLine(body, k.lt);
    OtherPatched(m, prefix, k, Slot(body, k.lt), o1.image, body, o2);
  }

  /** The saved original, of full length, is back in both places and nothing else has changed. */
  lemma OriginalsAreBack(m: Memory, prefix: seq<Byte>, k: Copies, orig: seq<Byte>, o1: Outcome, o2: Outcome)
    requires k.On(prefix)(m) && k.lt == k.lc == |orig|
    requires orig[|orig| - 1] == LF && !HasCrLf(orig) && NoCopyIn(orig, prefix) && NoBlockIn(orig)
    requires o1 == PatchIn(m, k.template, orig, prefix)
    requires o1.Patched? ==> o2 == PatchIn(o1.image, k.other, orig, prefix)
    ensures o1.Patched? && o1.pad == 0
    ensures o2.Patched? && o2.pad == 0 && BothReplaced(m, k.t, orig, k.c, orig, o2.image)
  {
    SavedIsRestored(orig);
    RestoreInOrder(m, prefix, k, orig, o1, o2);
  }

  lemma TwoHits(m: Memory, prefix: seq<Byte>, k: Copies)
    requires TwoCopies(m, prefix, k.t, k.lt, k.c, k.lc)
    ensures |Hits(m, prefix, |m|)| != 1
  {
    HitsMean(m, prefix, |m|, k.t);
    HitsMean(m, prefix, |m|, k.c);
  }

  /** The other way round there are two copies to choose from, and the tool refuses. */
  lemma OtherOrderRefused(m: Memory, prefix: seq<Byte>, k: Copies, body: seq<Byte>)
    requires k.On(prefix)(m)
    ensures PatchIn(m, k.other, body, prefix) == Refused
  {
    TwoHits(m, prefix, k);
    OtherLookedUp(m, prefix, k, m);
    PatchInIs(m, k.i, k.other, body, prefix);
  }

  /** The hook's two runs, on the image file: either both copies are restored, or it stops. */
  method RestoreBoth(image: ImageFile, k: Copies, prefix: seq<Byte>, orig: seq<Byte>) returns (ok: bool)
    requires k.On(prefix)(image.bytes) && k.lt == k.lc == |orig|
    requires orig[|orig| - 1] == LF && !HasCrLf(orig) && NoBlockIn(orig)
    modifies image
    ensures ok <==> NoCopyIn(orig, prefix)
    ensures ok ==> BothReplaced(old(image.bytes), k.t, orig, k.c, orig, image.bytes)
  {
    SavedIsRestored(orig);
    ghost var o1 := PatchIn(image.bytes, k.template, orig, prefix);
    ghost var o2 := if o1.Patched? then PatchIn(o1.image, k.other, orig, prefix) else Refused;
    RestoreInOrder(image.bytes, prefix, k, orig, o1, o2);
    var pad := PatchPath(image, k.template, orig, prefix);
    if pad.None? {
      return false;
    }
    pad := PatchPath(image, k.other, orig, prefix);
    ok := pad.Some?;
  }
}
