/**
 * FileCore directory blocks (files/rofilecore.py): the layout a block has on the disc, the parser
 * that reads it back out of an image, and the scan that finds every block.
 */
module BigDir {
  import opened Bytes
  import opened GuestMemory

  const SECTOR := 512
  const ENTRY := 28
  const MAGIC: seq<Byte> := [83, 66, 80, 114] // "SBPr"
  const CR: Byte := 13

  function Align4(n: nat): (r: nat)
    ensures n <= r <= n + 3 && r % 4 == 0
  {
    (n + 3) / 4 * 4
  }

  predicate Printable(s: seq<Byte>) {
    forall i :: 0 <= i < |s| ==> 32 <= s[i] < 127
  }

  /** m[from:to], as Python cuts it. */
  function Slice(m: Memory, from: nat, to: nat): (s: seq<Byte>)
    requires from <= to
  {
    if from >= |m| then [] else if to >= |m| then m[from..] else m[from..to]
  }

  /** A directory entry as the parser gives it; attr is the low byte. */
  datatype Entry = Entry(
    name: seq<Byte>, load: Word, length: Word, ind: Word, attr: Byte, isdir: bool, entryOff: nat)

  datatype Dir = Dir(mag: nat, block: int, name: seq<Byte>, parent: Word, ents: seq<Entry>)

  // ---- the parser ----

  /** The fixed part of the block at mag. */
  datatype Head = Head(nameLen: Word, size: Word, entries: Word, namesSize: Word, parent: Word)

  function HeadAt(m: Memory, mag: nat): Head {
    Head(Load(m, mag + 4), Load(m, mag + 8), Load(m, mag + 12), Load(m, mag + 16), Load(m, mag + 20))
  }

  function EntryBase(mag: nat, h: Head): nat {
    mag + 24 + Align4(h.nameLen + 1)
  }

  function HeapBase(mag: nat, h: Head): nat {
    EntryBase(mag, h) + ENTRY * h.entries
  }

  predicate HeadOk(m: Memory, mag: nat, h: Head) {
    && mag + 24 <= |m|
    && 0 < h.nameLen < 64 && 0 < h.entries < 4000 && 0 < h.size <= 0x40_0000
    && Printable(Slice(m, mag + 24, mag + 24 + h.nameLen))
    && HeapBase(mag, h) + h.namesSize <= |m|
  }

  /** The words of an entry that are kept. */
  datatype Words = Words(load: Word, length: Word, ind: Word, attr: Word, nlen: Word, noff: Word)

  function WordsAt(m: Memory, e: nat): Words {
    Words(Load(m, e), Load(m, e + 8), Load(m, e + 12), Load(m, e + 16), Load(m, e + 20), Load(m, e + 24))
  }

  function NameOf(m: Memory, heap: nat, w: Words): seq<Byte> {
    Slice(m, heap + w.noff, heap + w.noff + w.nlen)
  }

  predicate EntryOk(m: Memory, heap: nat, namesSize: Word, w: Words) {
    w.nlen <= 64 && w.noff <= namesSize + 64 && Printable(NameOf(m, heap, w))
  }

  function EntryOf(m: Memory, heap: nat, w: Words, e: nat): Entry {
    Entry(NameOf(m, heap, w), w.load, w.length, w.ind, w.attr % 0x100, w.attr / 8 % 2 == 1, e)
  }

  predicate EntryOkAt(m: Memory, mag: nat, h: Head, i: nat) {
    EntryOk(m, HeapBase(mag, h), h.namesSize, WordsAt(m, EntryBase(mag, h) + ENTRY * i))
  }

  function EntryAt(m: Memory, mag: nat, h: Head, i: nat): Entry {
    var e := EntryBase(mag, h) + ENTRY * i;
    EntryOf(m, HeapBase(mag, h), WordsAt(m, e), e)
  }

  function EntriesAt(m: Memory, mag: nat, h: Head, n: nat): (ents: seq<Entry>)
    ensures |ents| == n
  {
    seq(n, i requires 0 <= i => EntryAt(m, mag, h, i))
  }

  predicate EntriesOk(m: Memory, mag: nat, h: Head, n: nat) {
    forall i :: 0 <= i < n ==> EntryOkAt(m, mag, h, i)
  }

  function DirOf(m: Memory, mag: nat, h: Head): Option<Dir> {
    if HeadOk(m, mag, h) && EntriesOk(m, mag, h, h.entries) then
      Some(Dir(mag, mag - 4, Slice(m, mag + 24, mag + 24 + h.nameLen), h.parent, EntriesAt(m, mag, h, h.entries)))
    else None
  }

  function ParseAt(m: Memory, mag: nat): Option<Dir> {
    DirOf(m, mag, HeadAt(m, mag))
  }

  /** struct.unpack_from, one word of it; it must lie inside the mapping. */
  method Unpack(m: Memory, a: nat) returns (w: Word)
    requires a + 4 <= |m|
    ensures w == Load(m, a)
  {
    w := (m[a] as int) + 0x100 * (m[a + 1] as int) + 0x1_0000 * (m[a + 2] as int) + 0x100_0000 * (m[a + 3] as int);
  }

  method CheckPrintable(s: seq<Byte>) returns (ok: bool)
    ensures ok == Printable(s)
  {
    for i := 0 to |s|
      invariant Printable(s[..i])
    {
      if !(32 <= s[i] < 127) {
        return false;
      }
      assert s[..i + 1] == s[..i] + [s[i]];
    }
    assert s[..|s|] == s;
    ok := true;
  }

  method ParseEntry(m: Memory, heap: nat, namesSize: Word, e: nat) returns (r: Option<Entry>)
    requires e + ENTRY <= |m|
    ensures var w := WordsAt(m, e);
            r == if EntryOk(m, heap, namesSize, w) then Some(EntryOf(m, heap, w, e)) else None
  {
    var load := Unpack(m, e);
    var length := Unpack(m, e + 8);
    var ind := Unpack(m, e + 12);
    var attr := Unpack(m, e + 16);
    var nlen := Unpack(m, e + 20);
    var noff := Unpack(m, e + 24);
    if nlen > 64 || noff > namesSize + 64 {
      return None;
    }
    var nm := Slice(m, heap + noff, heap + noff + nlen);
    var ok := CheckPrintable(nm);
    if !ok {
      return None;
    }
    r := Some(Entry(nm, load, length, ind, attr % 0x100, attr / 8 % 2 == 1, e));
  }

  method ParseHead(m: Memory, mag: nat) returns (h: Head)
    requires mag + 24 <= |m|
    ensures h == HeadAt(m, mag)
  {
    var nameLen := Unpack(m, mag + 4);
    var size := Unpack(m, mag + 8);
    var entries := Unpack(m, mag + 12);
    var namesSize := Unpack(m, mag + 16);
    var parent := Unpack(m, mag + 20);
    h := Head(nameLen, size, entries, namesSize, parent);
  }

  /** The checks on the fixed part and the name. */
  method CheckHead(m: Memory, mag: nat, h: Head) returns (ok: bool)
    requires mag + 24 <= |m|
    ensures ok == HeadOk(m, mag, h)
  {
    if !(0 < h.nameLen < 64) || !(0 < h.entries < 4000) {
      return false;
    }
    if !(0 < h.size <= 0x40_0000) {
      return false;
    }
    ok := CheckPrintable(Slice(m, mag + 24, mag + 24 + h.nameLen));
    ok := ok && HeapBase(mag, h) + h.namesSize <= |m|;
  }

  lemma MoreEntries(m: Memory, mag: nat, h: Head, n: nat)
    ensures EntriesAt(m, mag, h, n + 1) == EntriesAt(m, mag, h, n) + [EntryAt(m, mag, h, n)]
  {
  }

  method ParseEntries(m: Memory, mag: nat, h: Head) returns (r: Option<seq<Entry>>)
    requires HeadOk(m, mag, h)
    ensures r == if EntriesOk(m, mag, h, h.entries) then Some(EntriesAt(m, mag, h, h.entries)) else None
  {
    var ents := [];
    for i := 0 to h.entries
      invariant EntriesOk(m, mag, h, i) && ents == EntriesAt(m, mag, h, i)
    {
      var entry := ParseEntry(m, HeapBase(mag, h), h.namesSize, EntryBase(mag, h) + ENTRY * i);
      if entry.None? {
        assert !EntryOkAt(m, mag, h, i);
        return None;
      }
      MoreEntries(m, mag, h, i);
      ents := ents + [entry.value];
    }
    r := Some(ents);
  }

  /** _parse_at: every word it reads lies inside the mapping, whatever the bytes are. */
  method Parse(m: Memory, mag: nat) returns (r: Option<Dir>)
    ensures r == ParseAt(m, mag)
  {
    if mag + 24 > |m| {
      return None;
    }
    var h := ParseHead(m, mag);
    var ok := CheckHead(m, mag, h);
    if !ok {
      return None;
    }
    var ents := ParseEntries(m, mag, h);
    if ents.None? {
      return None;
    }
    r := Some(Dir(mag, mag - 4, Slice(m, mag + 24, mag + 24 + h.nameLen), h.parent, ents.value));
  }

  // ---- what it accepts, on arbitrary bytes ----

  lemma EntryInside(m: Memory, mag: nat, h: Head, i: nat)
    requires HeadOk(m, mag, h) && EntriesOk(m, mag, h, h.entries) && i < h.entries
    ensures var e := EntryAt(m, mag, h, i);
            && e.entryOff == EntryBase(mag, h) + ENTRY * i && e.entryOff + ENTRY <= |m|
            && |e.name| <= 64 && Printable(e.name) && e.isdir == (e.attr / 8 % 2 == 1)
  {
    assert EntryOkAt(m, mag, h, i);
    LowByteKeepsBit3(WordsAt(m, EntryBase(mag, h) + ENTRY * i).attr);
  }

  lemma LowByteKeepsBit3(w: Word)
    ensures w % 0x100 / 8 % 2 == w / 8 % 2
  {
    var q, r := w / 0x100, w % 0x100;
    assert w == 8 * (32 * q) + r;
    assert w / 8 == 2 * (16 * q) + r / 8;
  }

  lemma NameInside(m: Memory, mag: nat, h: Head)
    requires HeadOk(m, mag, h)
    ensures |Slice(m, mag + 24, mag + 24 + h.nameLen)| == h.nameLen
    ensures mag + 24 + h.nameLen < EntryBase(mag, h)
  {
  }

  /**
   * Every entry of a parsed directory lies inside the mapping, behind the name and one after the
   * other, and its own name is short and printable.
   */
  lemma ParsedInside(m: Memory, mag: nat, d: Dir, i: nat)
    requires ParseAt(m, mag) == Some(d) && i < |d.ents|
    ensures var e := d.ents[i];
            && 0 < |d.name| < 64 && Printable(d.name) && |d.ents| < 4000 && mag + 24 + |d.name| < d.ents[0].entryOff
            && e.entryOff == d.ents[0].entryOff + ENTRY * i && e.entryOff + ENTRY <= |m|
            && |e.name| <= 64 && Printable(e.name) && e.isdir == (e.attr / 8 % 2 == 1)
  {
    DirInside(m, mag, HeadAt(m, mag), d, i);
  }

  lemma DirInside(m: Memory, mag: nat, h: Head, d: Dir, i: nat)
    requires DirOf(m, mag, h) == Some(d) && i < |d.ents|
    ensures var e := d.ents[i];
            && 0 < |d.name| < 64 && Printable(d.name) && |d.ents| < 4000 && mag + 24 + |d.name| < d.ents[0].entryOff
            && e.entryOff == d.ents[0].entryOff + ENTRY * i && e.entryOff + ENTRY <= |m|
            && |e.name| <= 64 && Printable(e.name) && e.isdir == (e.attr / 8 % 2 == 1)
  {
    EntryInside(m, mag, h, i);
    EntryInside(m, mag, h, 0);
    NameInside(m, mag, h);
  }

  /** What a parsed directory's fixed part says, word by word, and where its heap ends. */
  lemma ParsedHead(m: Memory, mag: nat, d: Dir)
    requires ParseAt(m, mag) == Some(d)
    ensures Load(m, mag + 4) == |d.name| && 0 < Load(m, mag + 8) <= 0x40_0000
    ensures Load(m, mag + 12) == |d.ents| && Load(m, mag + 20) == d.parent
    ensures mag + 24 + |d.name| <= |m| && m[mag + 24..mag + 24 + |d.name|] == d.name
    ensures |d.ents| > 0 && d.ents[0].entryOff + 28 * |d.ents| + Load(m, mag + 16) <= |m|
  {
    NameInside(m, mag, HeadAt(m, mag));
    EntryInside(m, mag, HeadAt(m, mag), 0);
  }

  // ---- the layout ----

  /** What a directory says of an object, and where in the heap its name is; attr is the whole word. */
  datatype Record = Record(
    name: seq<Byte>, load: Word, exec: Word, length: Word, ind: Word, attr: Word, noff: Word)

  datatype Listing = Listing(name: seq<Byte>, parent: Word, size: Word, records: seq<Record>, heap: seq<Byte>)

  function RecordBytes(r: Record): (s: seq<Byte>)
    requires |r.name| <= 64
    ensures |s| == ENTRY
  {
    WordBytes(r.load) + (WordBytes(r.exec) + (WordBytes(r.length) + (WordBytes(r.ind)
      + (WordBytes(r.attr) + (WordBytes(|r.name|) + WordBytes(r.noff))))))
  }

  function RecordsBytes(rs: seq<Record>): (s: seq<Byte>)
    requires forall r :: r in rs ==> |r.name| <= 64
    ensures |s| == ENTRY * |rs|
  {
    if rs == [] then [] else RecordsBytes(rs[..|rs| - 1]) + RecordBytes(rs[|rs| - 1])
  }

  predicate NameInHeap(r: Record, heap: seq<Byte>) {
    && |r.name| <= 64 && Printable(r.name)
    && r.noff + |r.name| <= |heap| && heap[r.noff..r.noff + |r.name|] == r.name
  }

  predicate WellFormed(d: Listing) {
    && 0 < |d.name| < 64 && Printable(d.name)
    && 0 < d.size <= 0x40_0000 && 0 < |d.records| < 4000 && |d.heap| < TWO32
    && forall r :: r in d.records ==> NameInHeap(r, d.heap)
  }

  /** The name, its CR, and zeros up to a whole word. */
  function NameField(name: seq<Byte>): (s: seq<Byte>)
    ensures |s| == Align4(|name| + 1)
  {
    name + [13] + Zeros(Align4(|name| + 1) - |name| - 1)
  }

  /** A directory block from its magic on. */
  function Serialise(d: Listing): seq<Byte>
    requires WellFormed(d)
  {
    [83, 66, 80, 114] + (WordBytes(|d.name|) + (WordBytes(d.size) + (WordBytes(|d.records|) + (WordBytes(|d.heap|)
      + (WordBytes(d.parent) + (NameField(d.name) + (RecordsBytes(d.records) + d.heap)))))))
  }

  // ---- reading the layout back ----

  /** The image has s at a. */
  ghost predicate Holds(m: Memory, a: nat, s: seq<Byte>) {
    a + |s| <= |m| && m[a..a + |s|] == s
  }

  lemma HoldsParts(m: Memory, a: nat, s: seq<Byte>, t: seq<Byte>)
    requires Holds(m, a, s + t)
    ensures Holds(m, a, s) && Holds(m, a + |s|, t)
  {
    var w := m[a..a + |s + t|];
    assert w[..|s|] == s && w[|s|..] == t;
    assert m[a..a + |s|] == w[..|s|];
    assert m[a + |s|..a + |s| + |t|] == w[|s|..];
  }

  lemma HoldsWord(m: Memory, a: nat, w: Word)
    requires Holds(m, a, WordBytes(w))
    ensures Load(m, a) == w
  {
    var s := m[a..a + 4];
    assert s[0] == m[a] && s[1] == m[a + 1] && s[2] == m[a + 2] && s[3] == m[a + 3];
    assert Load(m, a) == WordAt(s, 0);
    WordReadBack(w);
  }

  lemma HoldsWordThen(m: Memory, a: nat, w: Word, t: seq<Byte>)
    requires Holds(m, a, WordBytes(w) + t)
    ensures Load(m, a) == w && Holds(m, a + 4, t)
  {
    HoldsParts(m, a, WordBytes(w), t);
    HoldsWord(m, a, w);
  }

  lemma HoldsSlice(m: Memory, a: nat, s: seq<Byte>)
    requires Holds(m, a, s)
    ensures Slice(m, a, a + |s|) == s
  {
  }

  /** What the words of a record are read back as. */
  lemma RecordReadBack(m: Memory, e: nat, r: Record)
    requires |r.name| <= 64 && Holds(m, e, RecordBytes(r))
    ensures WordsAt(m, e) == Words(r.load, r.length, r.ind, r.attr, |r.name|, r.noff)
  {
    var t6 := WordBytes(r.noff);
    var t5 := WordBytes(|r.name|) + t6;
    var t4 := WordBytes(r.attr) + t5;
    var t3 := WordBytes(r.ind) + t4;
    var t2 := WordBytes(r.length) + t3;
    var t1 := WordBytes(r.exec) + t2;
    HoldsWordThen(m, e, r.load, t1);
    HoldsWordThen(m, e + 4, r.exec, t2);
    HoldsWordThen(m, e + 8, r.length, t3);
    HoldsWordThen(m, e + 12, r.ind, t4);
    HoldsWordThen(m, e + 16, r.attr, t5);
    HoldsWordThen(m, e + 20, |r.name|, t6);
    HoldsWord(m, e + 24, r.noff);
  }

  lemma {:induction false} RecordHeld(m: Memory, a: nat, rs: seq<Record>, i: nat)
    requires forall r :: r in rs ==> |r.name| <= 64
    requires Holds(m, a, RecordsBytes(rs)) && i < |rs|
    ensures Holds(m, a + ENTRY * i, RecordBytes(rs[i]))
  {
    var n := |rs| - 1;
    HoldsParts(m, a, RecordsBytes(rs[..n]), RecordBytes(rs[n]));
    if i < n {
      RecordHeld(m, a, rs[..n], i);
    }
  }

  /** The entry a record stands for: the low byte of its attributes, whatever the rest holds. */
  function EntryFor(r: Record, at: nat): Entry {
    Entry(r.name, r.load, r.length, r.ind, r.attr % 0x100, r.attr / 8 % 2 == 1, at)
  }

  lemma NameReadBack(m: Memory, heap: nat, names: seq<Byte>, r: Record)
    requires Holds(m, heap, names) && NameInHeap(r, names)
    ensures Slice(m, heap + r.noff, heap + r.noff + |r.name|) == r.name
  {
    var at, to := heap + r.noff, heap + r.noff + |r.name|;
    forall k | 0 <= k < |r.name| ensures m[at..to][k] == r.name[k] {
      assert m[heap..heap + |names|][r.noff + k] == names[r.noff + k] == names[r.noff..r.noff + |r.name|][k];
    }
    HoldsSlice(m, at, r.name);
  }

  lemma EntryReadBack(m: Memory, heap: nat, names: seq<Byte>, namesSize: Word, w: Words, e: nat, r: Record)
    requires NameInHeap(r, names) && |names| == namesSize && Holds(m, heap, names)
    requires w == Words(r.load, r.length, r.ind, r.attr, |r.name|, r.noff)
    ensures EntryOk(m, heap, namesSize, w) && EntryOf(m, heap, w, e) == EntryFor(r, e)
  {
    NameReadBack(m, heap, names, r);
  }

  lemma HeadReadBack(m: Memory, mag: nat, d: Listing)
    requires WellFormed(d) && Holds(m, mag, Serialise(d))
    ensures HeadAt(m, mag) == Head(|d.name|, d.size, |d.records|, |d.heap|, d.parent)
    ensures Holds(m, mag + 24, d.name)
    ensures Holds(m, mag + 24 + Align4(|d.name| + 1), RecordsBytes(d.records) + d.heap)
  {
    var t6 := RecordsBytes(d.records) + d.heap;
    var t5 := NameField(d.name) + t6;
    var t4 := WordBytes(d.parent) + t5;
    var t3 := WordBytes(|d.heap|) + t4;
    var t2 := WordBytes(|d.records|) + t3;
    var t1 := WordBytes(d.size) + t2;
    HoldsParts(m, mag, MAGIC, WordBytes(|d.name|) + t1);
    HoldsWordThen(m, mag + 4, |d.name|, t1);
    HoldsWordThen(m, mag + 8, d.size, t2);
    HoldsWordThen(m, mag + 12, |d.records|, t3);
    HoldsWordThen(m, mag + 16, |d.heap|, t4);
    HoldsWordThen(m, mag + 20, d.parent, t5);
    NameHeld(m, mag + 24, d.name, t6);
  }

  lemma NameHeld(m: Memory, a: nat, name: seq<Byte>, t: seq<Byte>)
    requires Holds(m, a, NameField(name) + t)
    ensures Holds(m, a, name) && Holds(m, a + Align4(|name| + 1), t)
  {
    var pad := Zeros(Align4(|name| + 1) - |name| - 1);
    HoldsParts(m, a, NameField(name), t);
    Assoc(name, [CR], pad);
    HoldsParts(m, a, name, [CR] + pad);
  }

  /** The directory a listing stands for when it lies at mag. */
  function DirFor(d: Listing, mag: nat): Dir {
    var base := mag + 24 + Align4(|d.name| + 1);
    Dir(mag, mag - 4, d.name, d.parent,
        seq(|d.records|, i requires 0 <= i < |d.records| => EntryFor(d.records[i], base + ENTRY * i)))
  }

  lemma OneRecordReadBack(m: Memory, mag: nat, d: Listing, h: Head, i: nat)
    requires WellFormed(d) && h == Head(|d.name|, d.size, |d.records|, |d.heap|, d.parent) && i < |d.records|
    requires Holds(m, EntryBase(mag, h), RecordsBytes(d.records)) && Holds(m, HeapBase(mag, h), d.heap)
    ensures EntryOkAt(m, mag, h, i) && EntryAt(m, mag, h, i) == EntryFor(d.records[i], EntryBase(mag, h) + ENTRY * i)
  {
    var e := EntryBase(mag, h) + ENTRY * i;
    assert NameInHeap(d.records[i], d.heap);
    RecordHeld(m, EntryBase(mag, h), d.records, i);
    RecordReadBack(m, e, d.records[i]);
    EntryReadBack(m, HeapBase(mag, h), d.heap, h.namesSize, WordsAt(m, e), e, d.records[i]);
  }

  lemma HeldApart(m: Memory, mag: nat, d: Listing, h: Head)
    requires WellFormed(d) && h == Head(|d.name|, d.size, |d.records|, |d.heap|, d.parent)
    requires Holds(m, EntryBase(mag, h), RecordsBytes(d.records) + d.heap)
    ensures Holds(m, EntryBase(mag, h), RecordsBytes(d.records)) && Holds(m, HeapBase(mag, h), d.heap)
  {
    HoldsParts(m, EntryBase(mag, h), RecordsBytes(d.records), d.heap);
  }

  /** The entries a listing stands for. */
  ghost predicate EntriesFor(d: Listing, base: nat, ents: seq<Entry>) {
    |ents| == |d.records| && forall i :: 0 <= i < |ents| ==> ents[i] == EntryFor(d.records[i], base + ENTRY * i)
  }

  lemma DirIs(m: Memory, mag: nat, d: Listing, h: Head, ents: seq<Entry>)
    requires h.parent == d.parent && HeadOk(m, mag, h) && Slice(m, mag + 24, mag + 24 + h.nameLen) == d.name
    requires EntriesOk(m, mag, h, h.entries) && EntriesAt(m, mag, h, h.entries) == ents
    ensures DirOf(m, mag, h) == Some(Dir(mag, mag - 4, d.name, d.parent, ents))
  {
  }

  lemma RecordsReadBack(m: Memory, mag: nat, d: Listing, h: Head, ents: seq<Entry>)
    requires WellFormed(d) && h == Head(|d.name|, d.size, |d.records|, |d.heap|, d.parent)
    requires Holds(m, mag + 24, d.name) && Holds(m, EntryBase(mag, h), RecordsBytes(d.records) + d.heap)
    requires EntriesFor(d, EntryBase(mag, h), ents)
    ensures DirOf(m, mag, h) == Some(Dir(mag, mag - 4, d.name, d.parent, ents))
  {
    HeldApart(m, mag, d, h);
    HeadAccepted(m, mag, d, h);
    EntriesReadBack(m, mag, d, h, ents);
    DirIs(m, mag, d, h, ents);
  }

  lemma HeadAccepted(m: Memory, mag: nat, d: Listing, h: Head)
    requires WellFormed(d) && h == Head(|d.name|, d.size, |d.records|, |d.heap|, d.parent)
    requires Holds(m, mag + 24, d.name) && Holds(m, HeapBase(mag, h), d.heap)
    ensures HeadOk(m, mag, h) && Slice(m, mag + 24, mag + 24 + h.nameLen) == d.name
  {
    HoldsSlice(m, mag + 24, d.name);
  }

  lemma EntriesReadBack(m: Memory, mag: nat, d: Listing, h: Head, ents: seq<Entry>)
    requires WellFormed(d) && h == Head(|d.name|, d.size, |d.records|, |d.heap|, d.parent)
    requires Holds(m, EntryBase(mag, h), RecordsBytes(d.records)) && Holds(m, HeapBase(mag, h), d.heap)
    requires EntriesFor(d, EntryBase(mag, h), ents)
    ensures EntriesOk(m, mag, h, h.entries) && EntriesAt(m, mag, h, h.entries) == ents
  {
    forall i | 0 <= i < |d.records| ensures EntryOkAt(m, mag, h, i) && EntryAt(m, mag, h, i) == ents[i] {
      OneRecordReadBack(m, mag, d, h, i);
    }
  }

  lemma ListingEntries(d: Listing, mag: nat)
    ensures EntriesFor(d, mag + 24 + Align4(|d.name| + 1), DirFor(d, mag).ents)
    ensures DirFor(d, mag) == Dir(mag, mag - 4, d.name, d.parent, DirFor(d, mag).ents)
  {
  }

  lemma BlockReadBack(m: Memory, mag: nat, d: Listing, h: Head, dir: Dir)
    requires WellFormed(d) && h == Head(|d.name|, d.size, |d.records|, |d.heap|, d.parent)
    requires Holds(m, mag + 24, d.name) && Holds(m, mag + 24 + Align4(|d.name| + 1), RecordsBytes(d.records) + d.heap)
    requires EntriesFor(d, mag + 24 + Align4(|d.name| + 1), dir.ents)
    requires dir == Dir(mag, mag - 4, d.name, d.parent, dir.ents)
    ensures DirOf(m, mag, h) == Some(dir)
  {
    RecordsReadBack(m, mag, d, h, dir.ents);
  }

  /** Parsing undoes serialising, wherever in an image the block is. */
  lemma ParseInverts(m: Memory, mag: nat, d: Listing)
    requires WellFormed(d) && Holds(m, mag, Serialise(d))
    ensures ParseAt(m, mag) == Some(DirFor(d, mag))
  {
    HeadReadBack(m, mag, d);
    ListingEntries(d, mag);
    BlockReadBack(m, mag, d, HeadAt(m, mag), DirFor(d, mag));
  }

  // ---- the scan ----

  predicate MagicAt(m: Memory, i: nat) {
    i + 4 <= |m| && m[i..i + 4] == MAGIC
  }

  /** The block whose magic is at i, if one is to be listed. */
  function BlockAt(m: Memory, i: nat): (d: Option<Dir>)
    ensures d.Some? ==> d.value.mag == i && d.value.block == i - 4
  {
    var d := ParseAt(m, i);
    if MagicAt(m, i) && d.Some? && d.value.block % SECTOR == 0 then d else None
  }

  /** What f gives for the numbers below n, in order. */
  function Collect<T>(f: nat -> Option<T>, n: nat): seq<T> {
    if n == 0 then [] else Collect(f, n - 1) + (if f(n - 1).Some? then [f(n - 1).value] else [])
  }

  lemma {:induction false} CollectNothing<T>(f: nat -> Option<T>, i: nat, j: nat)
    requires i <= j && forall k :: i <= k < j ==> f(k).None?
    ensures Collect(f, j) == Collect(f, i)
  {
    if i < j {
      CollectNothing(f, i, j - 1);
    }
  }

  lemma {:induction false} Collected<T>(f: nat -> Option<T>, i: nat, n: nat)
    requires f(i).Some? && i < n
    ensures f(i).value in Collect(f, n)
  {
    if i < n - 1 {
      Collected(f, i, n - 1);
    }
  }

  /** Every block of the image, in order. */
  function Blocks(m: Memory): seq<Dir> {
    Collect((k: nat) => BlockAt(m, k), |m|)
  }

  /** mmap.find for the magic */
  method FindMagic(m: Memory, idx: nat) returns (r: Option<nat>)
    requires idx <= |m|
    ensures r.Some? ==> idx <= r.value && MagicAt(m, r.value) && forall k :: idx <= k < r.value ==> !MagicAt(m, k)
    ensures r.None? ==> forall k :: idx <= k ==> !MagicAt(m, k)
  {
    var i := idx;
    while i + 4 <= |m|
      invariant idx <= i && forall k :: idx <= k < i ==> !MagicAt(m, k)
    {
      if m[i..i + 4] == MAGIC {
        return Some(i);
      }
      i := i + 1;
    }
    r := None;
  }

  ghost predicate ScannedUpTo(m: Memory, dirs: seq<Dir>, idx: nat) {
    dirs == Collect((k: nat) => BlockAt(m, k), idx)
  }

  lemma StartScan(m: Memory)
    ensures ScannedUpTo(m, [], 0)
  {
  }

  lemma ScanTo(m: Memory, dirs: seq<Dir>, i: nat, j: nat)
    requires ScannedUpTo(m, dirs, i) && i <= j && forall k :: i <= k < j ==> !MagicAt(m, k)
    ensures ScannedUpTo(m, dirs, j)
  {
    CollectNothing((k: nat) => BlockAt(m, k), i, j);
  }

  lemma ScanOne(m: Memory, dirs: seq<Dir>, i: nat, d: Option<Dir>)
    requires ScannedUpTo(m, dirs, i) && MagicAt(m, i) && d == ParseAt(m, i)
    ensures ScannedUpTo(m, if d.Some? && d.value.block % SECTOR == 0 then dirs + [d.value] else dirs, i + 1)
  {
    assert BlockAt(m, i) == if d.Some? && d.value.block % SECTOR == 0 then d else None;
  }

  method TakeBlock(m: Memory, dirs: seq<Dir>, i: nat) returns (dirs': seq<Dir>)
    requires ScannedUpTo(m, dirs, i) && MagicAt(m, i)
    ensures ScannedUpTo(m, dirs', i + 1)
  {
    var d := Parse(m, i);
    ScanOne(m, dirs, i, d);
    dirs' := if d.Some? && d.value.block % SECTOR == 0 then dirs + [d.value] else dirs;
  }

  /** The first part of Volume.__init__ */
  method Scan(m: Memory) returns (dirs: seq<Dir>)
    ensures dirs == Blocks(m)
  {
    dirs := [];
    var idx := 0;
    StartScan(m);
    while true
      invariant idx <= |m| && ScannedUpTo(m, dirs, idx)
      decreases |m| - idx
    {
      var found := FindMagic(m, idx);
      if found.None? {
        break;
      }
      var i := found.value;
      ScanTo(m, dirs, idx, i);
      dirs := TakeBlock(m, dirs, i);
      idx := i + 1;
    }
    ScanTo(m, dirs, idx, |m|);
  }

  /** What has been collected below n is what its own number gives, and numbers do not repeat. */
  ghost predicate InOrder<T>(f: nat -> Option<T>, key: T -> nat, n: nat, xs: seq<T>) {
    && (forall k :: 0 <= k < |xs| ==> key(xs[k]) < n && f(key(xs[k])) == Some(xs[k]))
    && (forall j, k :: 0 <= j < k < |xs| ==> key(xs[j]) < key(xs[k]))
  }

  lemma {:induction false} CollectedInOrder<T>(f: nat -> Option<T>, key: T -> nat, n: nat)
    requires forall k: nat :: f(k).Some? ==> key(f(k).value) == k
    ensures InOrder(f, key, n, Collect(f, n))
  {
    if n > 0 {
      CollectedInOrder(f, key, n - 1);
    }
  }

  /** Every block found has its magic where it says, is sector aligned, and parses. */
  lemma FoundBlocks(m: Memory, d: Dir)
    requires d in Blocks(m)
    ensures d.mag + 4 <= |m| && m[d.mag..d.mag + 4] == [83, 66, 80, 114]
    ensures (d.mag - 4) % 512 == 0 && d.block == d.mag - 4 && ParseAt(m, d.mag) == Some(d)
  {
    var f := (k: nat) => BlockAt(m, k);
    var key := (x: Dir) => x.mag;
    forall k: nat ensures f(k).Some? ==> key(f(k).value) == k {
      BlockAtIsThere(m, k);
    }
    CollectedInOrder(f, key, |m|);
    assert f(key(d)) == Some(d);
    BlockAtIsThere(m, d.mag);
    assert BlockAt(m, d.mag) == ParseAt(m, d.mag);
  }

  lemma BlockAtIsThere(m: Memory, i: nat)
    ensures BlockAt(m, i).Some? ==> BlockAt(m, i).value.mag == i && BlockAt(m, i).value.block == i - 4
  {
  }

  /** No two of the blocks found lie at the same place. */
  lemma BlocksApart(m: Memory, c: Dir, d: Dir)
    requires c in Blocks(m) && d in Blocks(m) && c.block == d.block
    ensures c == d
  {
    var f := (k: nat) => BlockAt(m, k);
    var key := (x: Dir) => x.mag;
    forall k: nat ensures f(k).Some? ==> key(f(k).value) == k {
      BlockAtIsThere(m, k);
    }
    CollectedInOrder(f, key, |m|);
    assert Collect(f, |m|) == Blocks(m);
    assert f(key(c)) == Some(c) && f(key(d)) == Some(d);
    BlockAtIsThere(m, c.mag);
    BlockAtIsThere(m, d.mag);
  }

  /** A serialised directory whose block is sector aligned is found by the scan. */
  lemma ScanFinds(m: Memory, d: Listing, mag: nat)
    requires WellFormed(d) && Holds(m, mag, Serialise(d)) && (mag - 4) % SECTOR == 0
    ensures DirFor(d, mag) in Blocks(m)
  {
    ParseInverts(m, mag, d);
    MagicHeld(m, mag, d);
    Collected((k: nat) => BlockAt(m, k), mag, |m|);
  }

  lemma MagicHeld(m: Memory, mag: nat, d: Listing)
    requires WellFormed(d) && Holds(m, mag, Serialise(d))
    ensures MagicAt(m, mag)
  {
    var t := Serialise(d)[4..];
    assert Serialise(d) == MAGIC + t;
    HoldsParts(m, mag, MAGIC, t);
  }
}
