/** Guest memory as the devices reach it: bytes, little-endian words, 32-bit addresses. */
module GuestMemory {
  import opened Bytes

  const TWO32 := 0x1_0000_0000

  type Memory = seq<Byte>

  /** What a word load gives at every address. */
  type Reads = int -> Word

  function Add(a: Word, b: Word): Word {
    (a + b) % TWO32
  }

  function Mul(a: Word, b: Word): Word {
    (a * b) % TWO32
  }

  function Sub(a: Word, b: Word): Word {
    (a - b) % TWO32
  }

  lemma AddFits(a: Word, b: Word)
    requires a + b < TWO32
    ensures Add(a, b) == a + b
  {
  }

  lemma MulFits(a: Word, b: Word)
    requires a * b < TWO32
    ensures Mul(a, b) == a * b
  {
  }

  /** Beyond the end of memory loads give 0 and stores are lost. */
  function Load(m: Memory, a: int): Word {
    if 0 <= a && a + 4 <= |m| then
      (m[a] as int) + 0x100 * (m[a + 1] as int) + 0x1_0000 * (m[a + 2] as int) + 0x100_0000 * (m[a + 3] as int)
    else 0
  }

  /** The n low bytes of v, lowest first, from a on. */
  function StoreBytes(m: Memory, a: nat, n: nat, v: nat): (m': Memory)
    requires a + n <= |m|
    ensures |m'| == |m|
    decreases n
  {
    if n == 0 then m else StoreBytes(m[a := v % 0x100], a + 1, n - 1, v / 0x100)
  }

  function Store(m: Memory, a: int, w: Word): (m': Memory)
    ensures |m'| == |m|
  {
    if 0 <= a && a + 4 <= |m| then StoreBytes(m, a, 4, w) else m
  }

  function ReadsOf(m: Memory): Reads {
    (a: int) => Load(m, a)
  }

  /** The words at a and b share no byte. */
  predicate Far(a: int, b: int) {
    a + 4 <= b || b + 4 <= a
  }

  /** r' is r after w has been stored at a; words that overlap a are anything. */
  ghost predicate Stored(r: Reads, a: int, w: Word, r': Reads) {
    r'(a) == w && forall b: int :: Far(a, b) ==> r'(b) == r(b)
  }

  lemma {:induction false} StoreBytesElsewhere(m: Memory, a: nat, n: nat, v: nat, b: nat)
    requires a + n <= |m| && b < |m| && (b < a || a + n <= b)
    ensures StoreBytes(m, a, n, v)[b] == m[b]
    decreases n
  {
    if n > 0 {
      StoreBytesElsewhere(m[a := v % 0x100], a + 1, n - 1, v / 0x100, b);
    }
  }

  lemma StoreBytesFirst(m: Memory, a: nat, n: nat, v: nat)
    requires 0 < n && a + n <= |m|
    ensures StoreBytes(m, a, n, v)[a] == v % 0x100
  {
    StoreBytesElsewhere(m[a := v % 0x100], a + 1, n - 1, v / 0x100, a);
  }

  lemma StoreWordBytes(m: Memory, a: nat, w: Word)
    requires a + 4 <= |m|
    ensures var m' := StoreBytes(m, a, 4, w);
            && m'[a] == w % 0x100 && m'[a + 1] == w / 0x100 % 0x100
            && m'[a + 2] == w / 0x100 / 0x100 % 0x100 && m'[a + 3] == w / 0x100 / 0x100 / 0x100 % 0x100
  {
    var m1 := m[a := w % 0x100];
    var m2 := m1[a + 1 := w / 0x100 % 0x100];
    var m3 := m2[a + 2 := w / 0x100 / 0x100 % 0x100];
    StoreBytesFirst(m, a, 4, w);
    StoreBytesFirst(m1, a + 1, 3, w / 0x100);
    StoreBytesFirst(m2, a + 2, 2, w / 0x100 / 0x100);
    StoreBytesFirst(m3, a + 3, 1, w / 0x100 / 0x100 / 0x100);
    assert StoreBytes(m, a, 4, w) == StoreBytes(m1, a + 1, 3, w / 0x100);
    assert StoreBytes(m1, a + 1, 3, w / 0x100) == StoreBytes(m2, a + 2, 2, w / 0x100 / 0x100);
    assert StoreBytes(m2, a + 2, 2, w / 0x100 / 0x100) == StoreBytes(m3, a + 3, 1, w / 0x100 / 0x100 / 0x100);
  }

  lemma StoreIsSeen(m: Memory, a: int, w: Word)
    requires 0 <= a && a + 4 <= |m|
    ensures Stored(ReadsOf(m), a, w, ReadsOf(Store(m, a, w)))
  {
    var m' := Store(m, a, w);
    StoreWordBytes(m, a, w);
    BytesOfWord(w);
    assert Load(m', a) == w;
    forall b: int | Far(a, b) ensures Load(m', b) == Load(m, b) {
      if 0 <= b && b + 4 <= |m| {
        StoreBytesElsewhere(m, a, 4, w, b);
        StoreBytesElsewhere(m, a, 4, w, b + 1);
        StoreBytesElsewhere(m, a, 4, w, b + 2);
        StoreBytesElsewhere(m, a, 4, w, b + 3);
      }
    }
  }

  /** r' is r with a message header stored at a, and after it the stream's position at pub. */
  ghost predicate HeaderStored(r: Reads, a: int, id: Word, size: Word, pub: int, pos: Word, r': Reads) {
    && r'(a) == id && r'(a + 4) == size && r'(pub) == pos
    && forall b: int {:trigger r'(b)} :: Far(b, a) && Far(b, a + 4) && Far(b, pub) ==> r'(b) == r(b)
  }

  lemma StoredInTurn(
      r: Reads, r1: Reads, r2: Reads, r3: Reads, a: int, id: Word, size: Word, pub: int, pos: Word)
    requires pub + 4 <= a
    requires Stored(r, a, id, r1) && Stored(r1, a + 4, size, r2) && Stored(r2, pub, pos, r3)
    ensures HeaderStored(r, a, id, size, pub, pos, r3)
  {
  }

  /** The three stores with which either side appends a message. */
  lemma ThreeStores(mem: Memory, a: int, id: Word, size: Word, pub: int, pos: Word, mem': Memory)
    requires 0 <= pub && pub + 4 <= a && a + 8 <= |mem|
    requires mem' == Store(Store(Store(mem, a, id), a + 4, size), pub, pos)
    ensures |mem'| == |mem| && HeaderStored(ReadsOf(mem), a, id, size, pub, pos, ReadsOf(mem'))
  {
    var m1 := Store(mem, a, id);
    var m2 := Store(m1, a + 4, size);
    StoreIsSeen(mem, a, id);
    StoreIsSeen(m1, a + 4, size);
    StoreIsSeen(m2, pub, pos);
    StoredInTurn(ReadsOf(mem), ReadsOf(m1), ReadsOf(m2), ReadsOf(mem'), a, id, size, pub, pos);
  }

  /** Each word at its address, in turn. */
  function StoreAll(mem: Memory, ws: seq<(nat, Word)>): (mem': Memory)
    ensures |mem'| == |mem|
  {
    if ws == [] then mem
    else Store(StoreAll(mem, ws[..|ws| - 1]), ws[|ws| - 1].0, ws[|ws| - 1].1)
  }

  /** Words stored at addresses that do not overlap are all read back. */
  lemma {:induction false} StoredAll(mem: Memory, ws: seq<(nat, Word)>, i: nat)
    requires i < |ws| && forall j :: 0 <= j < |ws| ==> ws[j].0 + 4 <= |mem|
    requires forall j, k :: 0 <= j < k < |ws| ==> Far(ws[j].0, ws[k].0)
    ensures Load(StoreAll(mem, ws), ws[i].0) == ws[i].1
  {
    var n := |ws| - 1;
    var m := StoreAll(mem, ws[..n]);
    StoreIsSeen(m, ws[n].0, ws[n].1);
    assert ReadsOf(Store(m, ws[n].0, ws[n].1))(ws[i].0) == Load(StoreAll(mem, ws), ws[i].0);
    if i < n {
      StoredAll(mem, ws[..n], i);
      assert ReadsOf(m)(ws[i].0) == Load(m, ws[i].0);
    }
  }
}
