/**
 * Finding a file by its first bytes and overwriting it where it lies (locate and patch_in_place in
 * files/rofilecore.py), and what overwriting one of two copies does to the search for the other.
 */
module Patch {
  import opened Bytes
  import opened GuestMemory
  import opened BigDir

  const LF: Byte := 10
  const BAR: Byte := 124
  const SPACE: Byte := 32

  // ---- line ends ----

  predicate CrLfAt(s: seq<Byte>, i: nat) {
    i + 1 < |s| && s[i] == CR && s[i + 1] == LF
  }

  ghost predicate HasCrLf(s: seq<Byte>) {
    exists i: nat :: CrLfAt(s, i)
  }

  predicate CrCrLfAt(s: seq<Byte>, i: nat) {
    CrLfAt(s, i + 1) && s[i] == CR
  }

  ghost predicate HasCrCrLf(s: seq<Byte>) {
    exists i: nat :: CrCrLfAt(s, i)
  }

  /** s from i on, with each CR LF replaced by LF, left to right. */
  function Unix(s: seq<Byte>, i: nat): seq<Byte>
    decreases |s| - i
  {
    if i >= |s| then []
    else if CrLfAt(s, i) then [LF] + Unix(s, i + 2)
    else [s[i]] + Unix(s, i + 1)
  }

  lemma HasCrLfTail(b: Byte, s: seq<Byte>)
    ensures HasCrLf([b] + s) <==> (HasCrLf(s) || (b == CR && s != [] && s[0] == LF))
  {
    var t := [b] + s;
    if HasCrLf(t) {
      var i: nat :| CrLfAt(t, i);
      if i > 0 {
        assert CrLfAt(s, i - 1);
      }
    }
    if HasCrLf(s) {
      var i: nat :| CrLfAt(s, i);
      assert CrLfAt(t, i + 1);
    }
    if b == CR && s != [] && s[0] == LF {
      assert CrLfAt(t, 0);
    }
  }

  ghost predicate HasCrCrLfFrom(s: seq<Byte>, i: nat) {
    exists j: nat :: i <= j && CrCrLfAt(s, j)
  }

  lemma UnixStarts(s: seq<Byte>, i: nat)
    requires i <= |s|
    ensures Unix(s, i) != [] && Unix(s, i)[0] == LF <==> (i < |s| && s[i] == LF) || CrLfAt(s, i)
  {
  }

  lemma {:induction false} CrLfLeftFrom(s: seq<Byte>, i: nat)
    requires i <= |s|
    ensures HasCrLf(Unix(s, i)) <==> HasCrCrLfFrom(s, i)
    decreases |s| - i
  {
    if i < |s| {
      if CrLfAt(s, i) {
        CrLfLeftFrom(s, i + 2);
        HasCrLfTail(LF, Unix(s, i + 2));
        LaterCrCrLf(s, i, i + 2);
      } else {
        CrLfLeftFrom(s, i + 1);
        HasCrLfTail(s[i], Unix(s, i + 1));
        UnixStarts(s, i + 1);
        LaterCrCrLf(s, i, i + 1);
      }
    } else {
      assert !HasCrLf([]);
    }
  }

  lemma LaterCrCrLf(s: seq<Byte>, i: nat, k: nat)
    requires i < k && forall j :: i <= j < k ==> j == i || !CrCrLfAt(s, j)
    ensures HasCrCrLfFrom(s, i) <==> HasCrCrLfFrom(s, k) || CrCrLfAt(s, i)
  {
    if HasCrCrLfFrom(s, i) {
      var j: nat :| i <= j && CrCrLfAt(s, j);
      assert j == i || k <= j;
    }
  }

  /** Replacing CR LF by LF leaves a CR LF behind exactly if there was a CR CR LF. */
  lemma CrLfLeft(s: seq<Byte>)
    ensures HasCrLf(Unix(s, 0)) <==> HasCrCrLf(s)
  {
    CrLfLeftFrom(s, 0);
  }

  lemma {:induction false} UnixKeeps(s: seq<Byte>, i: nat)
    requires i <= |s| && forall j: nat :: i <= j ==> !CrLfAt(s, j)
    ensures Unix(s, i) == s[i..]
    decreases |s| - i
  {
    if i < |s| {
      UnixKeeps(s, i + 1);
    }
  }

  /** Lines with sep between them. */
  function JoinLines(lines: seq<seq<Byte>>, sep: seq<Byte>): seq<Byte> {
    if lines == [] then [] else if |lines| == 1 then lines[0] else lines[0] + sep + JoinLines(lines[1..], sep)
  }

  lemma {:induction false} UnixShift(a: seq<Byte>, b: seq<Byte>, i: nat)
    requires i <= |b|
    ensures Unix(a + b, |a| + i) == Unix(b, i)
    decreases |b| - i
  {
    if i < |b| {
      assert CrLfAt(a + b, |a| + i) <==> CrLfAt(b, i);
      if CrLfAt(b, i) {
        UnixShift(a, b, i + 2);
      } else {
        UnixShift(a, b, i + 1);
      }
    }
  }

  lemma {:induction false} UnixLine(line: seq<Byte>, rest: seq<Byte>, i: nat)
    requires i <= |line| && !HasCrLf(line)
    ensures Unix(line + [CR, LF] + rest, i) == line[i..] + [LF] + Unix(rest, 0)
    decreases |line| - i
  {
    var s := line + [CR, LF] + rest;
    if i == |line| {
      assert CrLfAt(s, i);
      UnixShift(line + [CR, LF], rest, 0);
      assert line[i..] == [];
    } else {
      assert CrLfAt(s, i) ==> CrLfAt(line, i);
      UnixLine(line, rest, i + 1);
      assert line[i..] == [line[i]] + line[i + 1..];
    }
  }

  lemma LinesHaveNoCrLf(line: seq<Byte>)
    requires !HasCrLf(line)
    ensures Unix(line, 0) == line
  {
    UnixKeeps(line, 0);
    assert line[0..] == line;
  }

  /** Lines that were parted by CR LF are parted by LF, and otherwise unchanged. */
  lemma {:induction false} LinesKept(lines: seq<seq<Byte>>)
    requires forall line :: line in lines ==> !HasCrLf(line)
    ensures Unix(JoinLines(lines, [13, 10]), 0) == JoinLines(lines, [10])
  {
    if |lines| == 1 {
      LinesHaveNoCrLf(lines[0]);
    } else if |lines| > 1 {
      LinesKept(lines[1..]);
      UnixLine(lines[0], JoinLines(lines[1..], [13, 10]), 0);
      assert lines[0][0..] == lines[0];
    }
  }

  /** How often CR LF stands in s from i on. */
  function CrLfs(s: seq<Byte>, i: nat): nat
    decreases |s| - i
  {
    if i + 1 >= |s| then 0 else (if s[i] == 13 && s[i + 1] == 10 then 1 else 0) + CrLfs(s, i + 1)
  }

  lemma {:induction false} UnixLength(s: seq<Byte>, i: nat)
    requires i <= |s|
    ensures |Unix(s, i)| + CrLfs(s, i) == |s| - i
    ensures i < |s| ==> Unix(s, i) != [] && Unix(s, i)[|Unix(s, i)| - 1] == s[|s| - 1]
    decreases |s| - i
  {
    if i < |s| {
      if CrLfAt(s, i) {
        UnixLength(s, i + 2);
        assert CrLfs(s, i + 1) == CrLfs(s, i + 2);
      } else {
        UnixLength(s, i + 1);
      }
    }
  }

  // ---- the slot ----

  function EndLine(s: seq<Byte>): (r: seq<Byte>)
    ensures r != [] && r[|r| - 1] == LF
  {
    if s != [] && s[|s| - 1] == LF then s else s + [LF]
  }

  /** What is written of a script, before padding. */
  function Script(body: seq<Byte>): (r: seq<Byte>)
    ensures r != [] && r[|r| - 1] == LF
  {
    EndLine(Unix(body, 0))
  }

  function Spaces(n: nat): (s: seq<Byte>)
    ensures |s| == n && forall i :: 0 <= i < n ==> s[i] == SPACE
  {
    seq(n, _ => SPACE)
  }

  /** n bytes that an Obey file may end with: nothing, an empty line, or a comment. */
  function Padding(n: nat): (s: seq<Byte>)
    ensures |s| == n
  {
    if n == 0 then [] else if n == 1 then [LF] else [BAR] + Spaces(n - 2) + [LF]
  }

  /** The new content of a slot of that length. */
  function Slot(body: seq<Byte>, length: nat): (s: seq<Byte>)
    requires |Script(body)| <= length
    ensures |s| == length
  {
    Script(body) + Padding(length - |Script(body)|)
  }

  /** Past the script there is at most one line, and it is empty or a comment. */
  lemma SlotIsScriptAndComment(body: seq<Byte>, length: nat)
    requires |Script(body)| <= length
    ensures var s, n := Slot(body, length), |Script(body)|;
            && s[..n] == Script(body) && s[|s| - 1] == LF
            && (forall i :: n <= i < length - 1 ==> s[i] != LF)
            && (n + 1 < length ==> s[n] == BAR)
  {
  }

  /** A script saved at its full length is written back as it was. */
  lemma SavedIsRestored(orig: seq<Byte>)
    requires orig != [] && orig[|orig| - 1] == LF && !HasCrLf(orig)
    ensures |Script(orig)| == |orig| && Slot(orig, |orig|) == orig
  {
    UnixKeeps(orig, 0);
    assert orig[0..] == orig;
  }

  datatype Outcome = Patched(image: Memory, pad: nat) | Refused

  function BytesAt(image: Memory, off: nat, n: nat): seq<Byte> {
    Slice(image, off, off + n)
  }

  predicate StartsWith(s: seq<Byte>, prefix: seq<Byte>) {
    |prefix| <= |s| && s[..|prefix|] == prefix
  }

  /** s written at off; a gap before it is zeros. */
  function WriteOver(image: Memory, off: nat, s: seq<Byte>): (image': Memory)
    ensures |image'| == if off + |s| > |image| then off + |s| else |image|
  {
    (if off <= |image| then image[..off] else image + Zeros(off - |image|))
    + s + (if off + |s| <= |image| then image[off + |s|..] else [])
  }

  /** patch_in_place; a negative offset cannot be sought. */
  function PatchAt(image: Memory, off: int, length: nat, body: seq<Byte>, prefix: seq<Byte>): Outcome {
    if off < 0 || !StartsWith(BytesAt(image, off, length), prefix) || |Script(body)| > length then Refused
    else Patched(WriteOver(image, off, Slot(body, length)), length - |Script(body)|)
  }

  lemma WriteOverMeans(image: Memory, off: nat, s: seq<Byte>)
    requires off + |s| <= |image|
    ensures var image' := WriteOver(image, off, s);
            && |image'| == |image| && image'[off..off + |s|] == s
            && image'[..off] == image[..off] && image'[off + |s|..] == image[off + |s|..]
  {
  }

  // ---- finding by content ----

  predicate CopyAt(image: Memory, prefix: seq<Byte>, i: nat) {
    i + |prefix| <= |image| && image[i..i + |prefix|] == prefix
  }

  /** A sector-aligned copy. */
  predicate HitAt(image: Memory, prefix: seq<Byte>, i: nat) {
    CopyAt(image, prefix, i) && i % SECTOR == 0
  }

  /** The aligned copies below n, in order. */
  function Hits(image: Memory, prefix: seq<Byte>, n: nat): seq<nat> {
    if n == 0 then [] else
      Hits(image, prefix, n - 1) + (if HitAt(image, prefix, n - 1) then [n - 1] else [])
  }

  lemma {:induction false} HitsMean(image: Memory, prefix: seq<Byte>, n: nat, i: nat)
    ensures i in Hits(image, prefix, n) <==> i < n && HitAt(image, prefix, i)
  {
    if n > 0 {
      HitsMean(image, prefix, n - 1, i);
    }
  }

  lemma {:induction false} HitsSkip(image: Memory, prefix: seq<Byte>, i: nat, j: nat)
    requires i <= j && forall k :: i <= k < j ==> !HitAt(image, prefix, k)
    ensures Hits(image, prefix, j) == Hits(image, prefix, i)
  {
    if i < j {
      HitsSkip(image, prefix, i, j - 1);
    }
  }

  /** locate's search finds c exactly when c is the only aligned copy. */
  lemma {:induction false} SearchIsUnique(image: Memory, prefix: seq<Byte>, n: nat, c: nat)
    ensures Hits(image, prefix, n) == [c]
       <==> (c < n && HitAt(image, prefix, c) && forall i: nat :: i < n && HitAt(image, prefix, i) ==> i == c)
  {
    var hits := Hits(image, prefix, n);
    if hits == [c] {
      forall i: nat | i < n && HitAt(image, prefix, i) ensures i == c {
        HitsMean(image, prefix, n, i);
      }
      HitsMean(image, prefix, n, c);
    } else if c < n && HitAt(image, prefix, c) && forall i: nat :: i < n && HitAt(image, prefix, i) ==> i == c {
      HitsSkip(image, prefix, 0, c);
      HitsSkip(image, prefix, c + 1, n);
    }
  }

  // ---- putting both copies back ----

  /** Two files, at t and at c, start with prefix, and nothing else on a sector boundary does. */
  ghost predicate TwoCopies(image: Memory, prefix: seq<Byte>, t: nat, lt: nat, c: nat, lc: nat) {
    && t + lt <= |image| && c + lc <= |image| && (t + lt <= c || c + lc <= t)
    && 0 < |prefix| <= lt && |prefix| <= lc && |prefix| <= SECTOR && LF !in prefix
    && HitAt(image, prefix, t) && HitAt(image, prefix, c)
    && forall i: nat :: HitAt(image, prefix, i) ==> i == t || i == c
  }

  ghost predicate NoCopyIn(s: seq<Byte>, prefix: seq<Byte>) {
    forall i: nat :: !HitAt(s, prefix, i)
  }

  /** image' is image with s at t. */
  ghost predicate Replaced(image: Memory, t: nat, s: seq<Byte>, image': Memory) {
    && |image'| == |image| && t + |s| <= |image| && image'[t..t + |s|] == s
    && forall i: nat :: i < |image| && (i < t || t + |s| <= i) ==> image'[i] == image[i]
  }

  lemma CopyElsewhere(image: Memory, t: nat, s: seq<Byte>, image': Memory, prefix: seq<Byte>, i: nat)
    requires Replaced(image, t, s, image') && (i + |prefix| <= t || t + |s| <= i)
    ensures CopyAt(image', prefix, i) <==> CopyAt(image, prefix, i)
  {
    if i + |prefix| <= |image| {
      assert image'[i..i + |prefix|] == image[i..i + |prefix|];
    }
  }

  lemma SectorsApart(i: nat, t: nat)
    requires i < t && i % SECTOR == 0 && t % SECTOR == 0
    ensures i + SECTOR <= t
  {
  }

  lemma SectorsFrom(i: nat, t: nat)
    requires t <= i && t % SECTOR == 0
    ensures (i - t) % SECTOR == 0 <==> i % SECTOR == 0
  {
    var q := i / SECTOR - t / SECTOR;
    assert i - t == SECTOR * q + i % SECTOR;
  }

  lemma CopyInside(image: Memory, t: nat, s: seq<Byte>, image': Memory, prefix: seq<Byte>, i: nat)
    requires Replaced(image, t, s, image') && i + |prefix| <= |s|
    ensures CopyAt(image', prefix, t + i) <==> CopyAt(s, prefix, i)
  {
    SliceOfSlice(image', t, t + |s|, i, i + |prefix|);
  }

  /** A copy of a prefix without line ends cannot run out of a slot that ends with one. */
  lemma NoCopyAcross(image: Memory, t: nat, s: seq<Byte>, image': Memory, prefix: seq<Byte>, i: nat)
    requires Replaced(image, t, s, image') && s != [] && s[|s| - 1] == LF && LF !in prefix
    requires i < t + |s| < i + |prefix|
    ensures !CopyAt(image', prefix, i)
  {
    var e := t + |s| - 1;
    assert image'[e] == image'[t..t + |s|][|s| - 1];
    if i + |prefix| <= |image'| {
      assert image'[i..i + |prefix|][e - i] == LF;
    }
  }

  lemma HitsInside(t: nat, s: seq<Byte>, image: Memory, image': Memory, prefix: seq<Byte>, i: nat)
    requires Replaced(image, t, s, image') && s != [] && s[|s| - 1] == LF && LF !in prefix
    requires t % SECTOR == 0 && t <= i < t + |s|
    ensures HitAt(image', prefix, i) <==> HitAt(s, prefix, i - t)
  {
    SectorsFrom(i, t);
    if i + |prefix| <= t + |s| {
      CopyInside(image, t, s, image', prefix, i - t);
    } else {
      NoCopyAcross(image, t, s, image', prefix, i);
      assert !CopyAt(s, prefix, i - t);
    }
  }

  lemma HitsAfter(image: Memory, prefix: seq<Byte>, t: nat, lt: nat, c: nat, lc: nat,
                  s: seq<Byte>, image': Memory, i: nat)
    requires TwoCopies(image, prefix, t, lt, c, lc) && Replaced(image, t, s, image')
    requires |s| == lt && s[|s| - 1] == LF
    ensures HitAt(image', prefix, i) <==> i == c || (t <= i && HitAt(s, prefix, i - t))
  {
    if t <= i < t + lt {
      HitsInside(t, s, image, image', prefix, i);
    } else {
      assert !(t <= i && HitAt(s, prefix, i - t));
      if i % SECTOR == 0 {
        if i < t {
          SectorsApart(i, t);
        }
        CopyElsewhere(image, t, s, image', prefix, i);
        assert HitAt(image', prefix, i) <==> HitAt(image, prefix, i);
      }
    }
  }

  /** Once the copy at t is overwritten, the search finds the one at c exactly if the new text holds no copy. */
  lemma SearchAfter(image: Memory, prefix: seq<Byte>, t: nat, lt: nat, c: nat, lc: nat,
                    s: seq<Byte>, image': Memory)
    requires TwoCopies(image, prefix, t, lt, c, lc) && Replaced(image, t, s, image')
    requires |s| == lt && s[|s| - 1] == LF
    ensures Hits(image', prefix, |image'|) == [c] <==> NoCopyIn(s, prefix)
  {
    SearchIsUnique(image', prefix, |image'|, c);
    HitsAfter(image, prefix, t, lt, c, lc, s, image', c);
    if NoCopyIn(s, prefix) {
      forall i: nat | HitAt(image', prefix, i) ensures i == c {
        HitsAfter(image, prefix, t, lt, c, lc, s, image', i);
      }
    } else {
      var i: nat :| HitAt(s, prefix, i);
      HitsAfter(image, prefix, t, lt, c, lc, s, image', t + i);
    }
  }

  lemma OnlyHitIs(image: Memory, prefix: seq<Byte>, c: nat)
    requires HitAt(image, prefix, c) && prefix != []
    ensures |Hits(image, prefix, |image|)| == 1 <==> Hits(image, prefix, |image|) == [c]
  {
    HitsMean(image, prefix, |image|, c);
  }

  lemma PatchReplaces(image: Memory, off: nat, length: nat, body: seq<Byte>, prefix: seq<Byte>)
    requires off + length <= |image| && |prefix| <= length && CopyAt(image, prefix, off)
    requires |Script(body)| <= length
    ensures var o := PatchAt(image, off, length, body, prefix);
            o.Patched? && Replaced(image, off, Slot(body, length), o.image)
  {
    var s := BytesAt(image, off, length);
    assert s == image[off..off + length] && s[..|prefix|] == image[off..off + |prefix|];
    WriteOverMeans(image, off, Slot(body, length));
    OutsideKept(image, off, off + length, WriteOver(image, off, Slot(body, length)));
  }

  lemma OutsideKept(image: Memory, from: nat, to: nat, image': Memory)
    requires from <= to <= |image| == |image'| && image'[..from] == image[..from] && image'[to..] == image[to..]
    ensures forall i: nat :: i < |image| && (i < from || to <= i) ==> image'[i] == image[i]
  {
    forall i: nat | i < |image| && (i < from || to <= i) ensures image'[i] == image[i] {
      if i < from {
        assert image'[..from][i] == image[..from][i];
      } else {
        assert image'[to..][i - to] == image[to..][i - to];
      }
    }
  }

  /** Both slots hold the script, each at its own length, and every other byte is as it was. */
  ghost predicate BothReplaced(image: Memory, t: nat, s: seq<Byte>, c: nat, s': seq<Byte>, image': Memory) {
    && |image'| == |image| && t + |s| <= |image| && c + |s'| <= |image|
    && image'[t..t + |s|] == s && image'[c..c + |s'|] == s'
    && forall i: nat :: i < |image| && (i < t || t + |s| <= i) && (i < c || c + |s'| <= i) ==> image'[i] == image[i]
  }

  lemma ReplacedTwice(image: Memory, t: nat, s: seq<Byte>, c: nat, s': seq<Byte>, image1: Memory, image2: Memory)
    requires Replaced(image, t, s, image1) && Replaced(image1, c, s', image2)
    requires t + |s| <= c || c + |s'| <= t
    ensures BothReplaced(image, t, s, c, s', image2)
  {
    assert image2[t..t + |s|] == image1[t..t + |s|];
  }

  /** The length of a script: a byte less for each CR LF, one more if it does not end its last line. */
  function ScriptLength(body: seq<Byte>): int {
    |body| - CrLfs(body, 0) + if body != [] && body[|body| - 1] == 10 then 0 else 1
  }

  lemma ScriptLengthIs(body: seq<Byte>)
    ensures |Script(body)| == ScriptLength(body)
  {
    UnixLength(body, 0);
  }

  /**
   * A patch is made exactly if the file is there, begins with the prefix, and the script fits into
   * it; otherwise it is refused.
   */
  lemma PatchedExactly(image: Memory, off: int, length: nat, body: seq<Byte>, prefix: seq<Byte>)
    requires prefix != []
    ensures PatchAt(image, off, length, body, prefix).Patched?
       <==> (off >= 0 && off + |prefix| <= |image| && image[off..off + |prefix|] == prefix
             && |prefix| <= length && ScriptLength(body) <= length)
  {
    ScriptLengthIs(body);
    if off >= 0 {
      SlotBegins(image, off, length, prefix);
    }
  }

  lemma SlotBegins(image: Memory, off: nat, length: nat, prefix: seq<Byte>)
    requires prefix != []
    ensures StartsWith(BytesAt(image, off, length), prefix)
       <==> (off + |prefix| <= |image| && image[off..off + |prefix|] == prefix && |prefix| <= length)
  {
    if off < |image| {
      var to := if off + length < |image| then off + length else |image|;
      assert BytesAt(image, off, length) == image[off..to];
      if |prefix| <= to - off {
        SliceOfSlice(image, off, to, 0, |prefix|);
      }
    }
  }
}
