/**
 * The row copy of the DMA controller (bcm2835_dma_update, in files/qemu-riscos-raspi.patch):
 * words, then the odd tail as bytes, against copying one byte at a time.
 */
module Dma {
  import opened Bytes
  import opened GuestMemory

  /** The transfer information flags the row copy looks at. */
  datatype Mode = Mode(srcIgnore: bool, srcInc: bool, dstIgnore: bool, dstInc: bool)

  const COPY: Mode := Mode(false, true, false, true)

  datatype Row = Row(mem: Memory, source: Word, dest: Word, left: Word)

  /** Where there is no memory reads give 0. */
  function Peek(mem: Memory, a: nat): Byte {
    if a < |mem| then mem[a] else 0
  }

  function PeekAll(mem: Memory, a: nat, n: nat): (s: seq<Byte>)
    ensures |s| == n
  {
    seq<Byte>(n, i requires 0 <= i => Peek(mem, a + i))
  }

  /** Where there is no memory writes are lost. */
  function Put(mem: Memory, a: nat, s: seq<Byte>): (mem': Memory)
    ensures |mem'| == |mem|
  {
    seq(|mem|, j requires 0 <= j < |mem| => if a <= j < a + |s| then s[j - a] else mem[j])
  }

  function Chunk(left: Word): (n: Word)
    ensures n <= left && n <= 4 && (left > 0 ==> n > 0)
  {
    if left < 4 then left else 4
  }

  /** One round of the loop */
  function Round(mode: Mode, r: Row): Row {
    var n := Chunk(r.left);
    var buf := if mode.srcIgnore then Zeros(n) else PeekAll(r.mem, r.source, n);
    Row(if mode.dstIgnore then r.mem else Put(r.mem, r.dest, buf),
        if mode.srcInc then Add(r.source, n) else r.source,
        if mode.dstInc then Add(r.dest, n) else r.dest,
        r.left - n)
  }

  function CopyRow(mode: Mode, r: Row): (r': Row)
    ensures |r'.mem| == |r.mem| && r'.left == 0
    decreases r.left
  {
    if r.left == 0 then r else CopyRow(mode, Round(mode, r))
  }

  // ---- every mode: where it writes, where it ends, how long it takes ----

  /** The addresses move by exactly the length, whatever it is, or not at all. */
  lemma {:induction false} AddressesAdvance(mode: Mode, r: Row)
    ensures CopyRow(mode, r).source == if mode.srcInc then Add(r.source, r.left) else r.source
    ensures CopyRow(mode, r).dest == if mode.dstInc then Add(r.dest, r.left) else r.dest
    decreases r.left
  {
    if r.left > 0 {
      AddressesAdvance(mode, Round(mode, r));
      AddTwice(r.source, Chunk(r.left), r.left);
      AddTwice(r.dest, Chunk(r.left), r.left);
    }
  }

  lemma AddTwice(a: Word, n: Word, left: Word)
    requires n <= left
    ensures Add(Add(a, n), left - n) == Add(a, left)
  {
  }

  /** How many bytes from dest on a row of that length may write. */
  function Reach(mode: Mode, left: Word): nat {
    if mode.dstIgnore then 0 else if mode.dstInc then left else Chunk(left)
  }

  lemma {:induction false} NothingElseWritten(mode: Mode, r: Row, a: nat)
    requires a < |r.mem| && r.dest + r.left <= TWO32
    requires a < r.dest || r.dest + Reach(mode, r.left) <= a
    ensures CopyRow(mode, r).mem[a] == r.mem[a]
    decreases r.left
  {
    if r.left > 0 {
      var r1 := Round(mode, r);
      assert r1.mem[a] == r.mem[a];
      if r1.left > 0 {
        DestStaysNear(mode, r);
        NothingElseWritten(mode, r1, a);
      }
    }
  }

  lemma DestStaysNear(mode: Mode, r: Row)
    requires r.left > Chunk(r.left) && r.dest + r.left <= TWO32
    ensures Round(mode, r).dest == if mode.dstInc then r.dest + Chunk(r.left) else r.dest
  {
  }

  /** What the first round writes is not written again. */
  lemma StaysWritten(mode: Mode, r: Row, a: nat)
    requires r.left > 0 && r.dest + r.left <= TWO32 && mode.dstInc
    requires a < |r.mem| && a < r.dest + Chunk(r.left)
    ensures CopyRow(mode, r).mem[a] == Round(mode, r).mem[a]
  {
    var r1 := Round(mode, r);
    if r1.left > 0 {
      DestStaysNear(mode, r);
      NothingElseWritten(mode, r1, a);
    }
  }

  /** With reads ignored and the destination moving, the row is cleared. */
  lemma {:induction false} ClearsTheRow(mode: Mode, r: Row, i: nat, mem: Memory)
    requires mode.srcIgnore && !mode.dstIgnore && mode.dstInc && mem == CopyRow(mode, r).mem
    requires r.dest + r.left <= TWO32 && i < r.left && r.dest + i < |r.mem|
    ensures mem[r.dest + i] == 0
    decreases r.left
  {
    if i < Chunk(r.left) {
      RoundClears(mode, r, i);
      StaysWritten(mode, r, r.dest + i);
    } else {
      DestStaysNear(mode, r);
      ClearsTheRow(mode, Round(mode, r), i - Chunk(r.left), mem);
    }
  }

  lemma RoundClears(mode: Mode, r: Row, i: nat)
    requires mode.srcIgnore && !mode.dstIgnore && i < Chunk(r.left) && r.dest + i < |r.mem|
    ensures Round(mode, r).mem[r.dest + i] == 0
  {
  }

  /** With a source that stays put, away from the row, the row is filled with copies of its word. */
  lemma {:induction false} FillsTheRow(mode: Mode, r: Row, i: nat, mem: Memory)
    requires mode == Mode(false, false, false, true) && mem == CopyRow(mode, r).mem
    requires r.dest + r.left <= TWO32 && i < r.left && r.dest + i < |r.mem|
    requires r.source + 4 <= r.dest || r.dest + r.left <= r.source
    ensures mem[r.dest + i] == Peek(r.mem, r.source + i % 4)
    decreases r.left
  {
    if i < Chunk(r.left) {
      RoundWrites(mode, r, i);
      StaysWritten(mode, r, r.dest + i);
    } else {
      DestStaysNear(mode, r);
      FillsTheRow(mode, Round(mode, r), i - 4, mem);
      SourceUntouched(mode, r, i);
    }
  }

  lemma RoundWrites(mode: Mode, r: Row, i: nat)
    requires !mode.srcIgnore && !mode.dstIgnore && i < Chunk(r.left) && r.dest + i < |r.mem|
    ensures Round(mode, r).mem[r.dest + i] == Peek(r.mem, r.source + i)
  {
  }

  lemma SourceUntouched(mode: Mode, r: Row, i: nat)
    requires 4 <= i && Chunk(r.left) == 4
    requires r.source + 4 <= r.dest || r.dest + r.left <= r.source
    ensures Peek(Round(mode, r).mem, r.source + (i - 4) % 4) == Peek(r.mem, r.source + i % 4)
  {
    assert (i - 4) % 4 == i % 4;
  }

  // ---- a copy, against copying byte by byte ----

  /** n bytes copied one at a time, upwards. */
  function ByteCopy(mem: Memory, source: nat, dest: nat, n: nat): (mem': Memory)
    ensures |mem'| == |mem|
    decreases n
  {
    if n == 0 then mem else ByteCopy(Put(mem, dest, [Peek(mem, source)]), source + 1, dest + 1, n - 1)
  }

  /** n bytes copied as if at one stroke. */
  function Move(mem: Memory, source: nat, dest: nat, n: nat): Memory {
    Put(mem, dest, PeekAll(mem, source, n))
  }

  lemma {:induction false} ByteCopyInTwo(mem: Memory, source: nat, dest: nat, n: nat, k: nat)
    ensures ByteCopy(mem, source, dest, n + k)
         == ByteCopy(ByteCopy(mem, source, dest, n), source + n, dest + n, k)
    decreases n
  {
    if n > 0 {
      ByteCopyInTwo(Put(mem, dest, [Peek(mem, source)]), source + 1, dest + 1, n - 1, k);
    }
  }

  lemma {:induction false} ByteCopyElsewhere(mem: Memory, source: nat, dest: nat, n: nat, a: nat)
    requires a < |mem| && (a < dest || dest + n <= a)
    ensures ByteCopy(mem, source, dest, n)[a] == mem[a]
    decreases n
  {
    if n > 0 {
      ByteCopyElsewhere(Put(mem, dest, [Peek(mem, source)]), source + 1, dest + 1, n - 1, a);
    }
  }

  /** Byte by byte is at one stroke when the destination is not inside what is still to be read. */
  lemma {:induction false} ByteCopyMoves(mem: Memory, source: nat, dest: nat, n: nat)
    requires dest <= source || source + n <= dest
    ensures ByteCopy(mem, source, dest, n) == Move(mem, source, dest, n)
    decreases n
  {
    if n > 0 {
      var mem1 := Put(mem, dest, [Peek(mem, source)]);
      ByteCopyMoves(mem1, source + 1, dest + 1, n - 1);
      forall j | 0 <= j < |mem|
        ensures Move(mem1, source + 1, dest + 1, n - 1)[j] == Move(mem, source, dest, n)[j]
      {
        if dest + 1 <= j < dest + n {
          assert Peek(mem1, source + 1 + (j - dest - 1)) == Peek(mem, source + (j - dest));
        }
      }
    } else {
      assert Move(mem, source, dest, n) == mem;
    }
  }

  /** A destination a little ahead of the source repeats what is at the source. */
  lemma ByteCopyRepeats(mem: Memory, source: nat, d: nat, n: nat)
    requires 0 < d < n && source + d + n <= |mem|
    ensures ByteCopy(mem, source, source + d, n)[source + d + d] == mem[source]
  {
    var dest := source + d;
    var mem1 := ByteCopy(mem, source, dest, d);
    ByteCopyInTwo(mem, source, dest, d, n - d);
    ByteCopyMoves(mem, source, dest, d);
    assert mem1[dest] == mem[source];
    var mem2 := Put(mem1, dest + d, [Peek(mem1, dest)]);
    ByteCopyElsewhere(mem2, dest + 1, dest + d + 1, n - d - 1, dest + d);
  }

  /** The destination is a little ahead of the source, inside the same word, and the row goes on past it. */
  predicate Smears(source: Word, dest: Word, left: Word) {
    source < dest < source + 4 && dest < source + left
  }

  lemma RoundCopies(r: Row)
    requires r.left > 0 && r.source + r.left <= TWO32 && r.dest + r.left <= TWO32
    requires !Smears(r.source, r.dest, r.left)
    ensures Round(COPY, r).mem == ByteCopy(r.mem, r.source, r.dest, Chunk(r.left))
  {
    ByteCopyMoves(r.mem, r.source, r.dest, Chunk(r.left));
  }

  lemma JoinCopies(mem: Memory, source: nat, dest: nat, left: nat, n: nat, mem1: Memory, mem2: Memory)
    requires n <= left
    requires mem1 == ByteCopy(mem, source, dest, n) && mem2 == ByteCopy(mem1, source + n, dest + n, left - n)
    ensures mem2 == ByteCopy(mem, source, dest, left)
  {
    ByteCopyInTwo(mem, source, dest, n, left - n);
  }

  lemma LastRound(r: Row)
    requires r.left <= 4 && r.source + r.left <= TWO32 && r.dest + r.left <= TWO32
    requires !Smears(r.source, r.dest, r.left)
    ensures CopyRow(COPY, r).mem == ByteCopy(r.mem, r.source, r.dest, r.left)
  {
    if r.left > 0 {
      RoundCopies(r);
    }
  }

  lemma FirstRound(r: Row, r1: Row, n: nat)
    requires r1 == Round(COPY, r) && n == Chunk(r.left) < r.left
    requires r.source + r.left <= TWO32 && r.dest + r.left <= TWO32 && !Smears(r.source, r.dest, r.left)
    ensures r1.mem == ByteCopy(r.mem, r.source, r.dest, n)
    ensures r1.source == r.source + n && r1.dest == r.dest + n && r1.left == r.left - n
  {
    RoundCopies(r);
    RoundAdvances(r);
  }

  /** What holds from the second round on holds from the first. */
  lemma CopyTurn(r: Row, r1: Row, n: nat, mem: Memory)
    requires r1 == Round(COPY, r) && n == Chunk(r.left) < r.left
    requires r.source + r.left <= TWO32 && r.dest + r.left <= TWO32 && !Smears(r.source, r.dest, r.left)
    requires mem == ByteCopy(r1.mem, r1.source, r1.dest, r1.left)
    ensures mem == ByteCopy(r.mem, r.source, r.dest, r.left)
  {
    FirstRound(r, r1, n);
    JoinCopies(r.mem, r.source, r.dest, r.left, n, r1.mem, mem);
  }

  lemma Unroll(mode: Mode, r: Row, r1: Row)
    requires r.left > 0 && r1 == Round(mode, r)
    ensures CopyRow(mode, r) == CopyRow(mode, r1)
  {
  }

  lemma {:induction false} CopiesBytes(r: Row)
    requires r.source + r.left <= TWO32 && r.dest + r.left <= TWO32
    requires !Smears(r.source, r.dest, r.left)
    ensures CopyRow(COPY, r).mem == ByteCopy(r.mem, r.source, r.dest, r.left)
    decreases r.left
  {
    if r.left <= 4 {
      LastRound(r);
    } else {
      var r1 := Round(COPY, r);
      RoundAdvances(r);
      CopiesBytes(r1);
      Unroll(COPY, r, r1);
      CopyTurn(r, r1, Chunk(r.left), CopyRow(COPY, r1).mem);
    }
  }

  lemma RoundAdvances(r: Row)
    requires r.source + r.left <= TWO32 && r.dest + r.left <= TWO32 && Chunk(r.left) < r.left
    ensures Round(COPY, r).source == r.source + Chunk(r.left) && Round(COPY, r).dest == r.dest + Chunk(r.left)
  {
  }

  /** All zero, but for a 1 at a. */
  function Mark(size: nat, a: nat): (mem: Memory)
    requires a < size
    ensures |mem| == size && mem[a] == 1 && forall j :: 0 <= j < size && j != a ==> mem[j] == 0
  {
    seq(size, j => if j == a then 1 else 0)
  }

  /**
   * Where no address wraps round, copying by words is copying byte by byte on every memory exactly
   * when the destination is not 1 to 3 bytes ahead of the source with the row longer than that.
   */
  lemma WordCopyIsByteCopy(source: Word, dest: Word, left: Word)
    requires source + left <= TWO32 && dest + left <= TWO32
    ensures (forall mem: Memory :: CopyRow(COPY, Row(mem, source, dest, left)).mem == ByteCopy(mem, source, dest, left))
       <==> !Smears(source, dest, left)
  {
    if Smears(source, dest, left) {
      var d, mem := dest - source, Mark(dest + left, source);
      var r := Row(mem, source, dest, left);
      ByteCopyRepeats(mem, source, d, left);
      StaysWritten(COPY, r, dest + d);
      assert Round(COPY, r).mem[dest + d] == Peek(mem, source + d) == 0;
      assert CopyRow(COPY, r).mem != ByteCopy(mem, source, dest, left);
    } else {
      forall mem: Memory
        ensures CopyRow(COPY, Row(mem, source, dest, left)).mem == ByteCopy(mem, source, dest, left)
      {
        CopiesBytes(Row(mem, source, dest, left));
      }
    }
  }

  /** The destination lies ahead of the source inside the row, and one word does not do. */
  predicate Overlaps(source: Word, dest: Word, left: Word) {
    source < dest < source + left && left > 4
  }

  lemma OneWordMoves(r: Row)
    requires r.left <= 4
    ensures CopyRow(COPY, r).mem == Move(r.mem, r.source, r.dest, r.left)
  {
    if r.left == 0 {
      assert Move(r.mem, r.source, r.dest, 0) == r.mem;
    }
  }

  /** The second round rereads what the first one wrote. */
  lemma SecondWordSmears(r: Row, d: nat)
    requires 0 < d < 4 < r.left && r.dest == r.source + d && r.dest + r.left <= TWO32
    requires r.dest + r.left == |r.mem|
    ensures CopyRow(COPY, r).mem[r.dest + 4] == r.mem[r.source + 4 - d]
  {
    var r1 := Round(COPY, r);
    RoundAdvances(r);
    RoundWrites(COPY, r, 4 - d);
    RoundWrites(COPY, r1, 0);
    StaysWritten(COPY, r1, r.dest + 4);
  }

  lemma MoveAt(mem: Memory, source: nat, dest: nat, n: nat, i: nat)
    requires i < n && dest + i < |mem|
    ensures Move(mem, source, dest, n)[dest + i] == Peek(mem, source + i)
  {
  }

  lemma NearOverlapShows(source: Word, dest: Word, left: Word, mem: Memory)
    requires source + left <= TWO32 && dest + left <= TWO32 && Overlaps(source, dest, left) && dest - source < 4
    requires mem == Mark(dest + left, 2 * source + 4 - dest)
    ensures CopyRow(COPY, Row(mem, source, dest, left)).mem[dest + 4] == 1
    ensures Move(mem, source, dest, left)[dest + 4] == 0
  {
    SecondWordSmears(Row(mem, source, dest, left), dest - source);
    MoveAt(mem, source, dest, left, 4);
  }

  lemma FarBytesShow(source: Word, dest: Word, left: Word, mem: Memory)
    requires Overlaps(source, dest, left) && mem == Mark(dest + left, source)
    ensures ByteCopy(mem, source, dest, left)[2 * dest - source] == 1
    ensures Move(mem, source, dest, left)[2 * dest - source] == 0
  {
    var d := dest - source;
    ByteCopyRepeats(mem, source, d, left);
    MoveAt(mem, source, dest, left, d);
    assert Peek(mem, dest) == 0;
  }

  lemma FarOverlapShows(source: Word, dest: Word, left: Word, mem: Memory)
    requires source + left <= TWO32 && dest + left <= TWO32 && Overlaps(source, dest, left) && dest - source >= 4
    requires mem == Mark(dest + left, source)
    ensures CopyRow(COPY, Row(mem, source, dest, left)).mem[2 * dest - source] == 1
    ensures Move(mem, source, dest, left)[2 * dest - source] == 0
  {
    CopiesBytes(Row(mem, source, dest, left));
    FarBytesShow(source, dest, left, mem);
  }

  lemma OverlapShows(source: Word, dest: Word, left: Word) returns (mem: Memory)
    requires source + left <= TWO32 && dest + left <= TWO32 && Overlaps(source, dest, left)
    ensures CopyRow(COPY, Row(mem, source, dest, left)).mem != Move(mem, source, dest, left)
  {
    if dest - source < 4 {
      mem := Mark(dest + left, 2 * source + 4 - dest);
      NearOverlapShows(source, dest, left, mem);
    } else {
      mem := Mark(dest + left, source);
      FarOverlapShows(source, dest, left, mem);
    }
  }

  /**
   * Where no address wraps round, the copy is as if at one stroke on every memory exactly when the
   * destination is not ahead of the source inside the row, or the row is at most one word.
   */
  lemma WordCopyIsMove(source: Word, dest: Word, left: Word)
    requires source + left <= TWO32 && dest + left <= TWO32
    ensures (forall mem: Memory :: CopyRow(COPY, Row(mem, source, dest, left)).mem == Move(mem, source, dest, left))
       <==> !Overlaps(source, dest, left)
  {
    if Overlaps(source, dest, left) {
      var mem := OverlapShows(source, dest, left);
    } else {
      forall mem: Memory
        ensures CopyRow(COPY, Row(mem, source, dest, left)).mem == Move(mem, source, dest, left)
      {
        if left <= 4 {
          OneWordMoves(Row(mem, source, dest, left));
        } else {
          CopiesBytes(Row(mem, source, dest, left));
          ByteCopyMoves(mem, source, dest, left);
        }
      }
    }
  }

  // ---- the channel ----

  class Channel {
    const ram: array<Byte>
    var source: Word
    var dest: Word
    var txfrLen: Word

    constructor (ram: array<Byte>, source: Word, dest: Word, txfrLen: Word)
      ensures this.ram == ram && this.source == source && this.dest == dest && this.txfrLen == txfrLen
    {
      this.ram, this.source, this.dest, this.txfrLen := ram, source, dest, txfrLen;
    }

    ghost function View(): Row
      reads this, ram
    {
      Row(ram[..], source, dest, txfrLen)
    }

    method Fetch(buf: array<Byte>, a: Word, n: nat)
      requires n <= buf.Length && buf != ram
      modifies buf
      ensures buf[..n] == PeekAll(ram[..], a, n)
    {
      for i := 0 to n
        invariant buf[..i] == PeekAll(ram[..], a, i)
      {
        assert PeekAll(ram[..], a, i + 1) == PeekAll(ram[..], a, i) + [Peek(ram[..], a + i)];
        buf[i] := if a + i < ram.Length then ram[a + i] else 0;
      }
    }

    method Deposit(buf: array<Byte>, a: Word, n: nat)
      requires n <= buf.Length && buf != ram
      modifies ram
      ensures ram[..] == Put(old(ram[..]), a, buf[..n])
    {
      for i := 0 to n
        invariant ram[..] == Put(old(ram[..]), a, buf[..i])
      {
        if a + i < ram.Length {
          ram[a + i] := buf[i];
        }
      }
    }

    method OneRound(mode: Mode, xlen: Word) returns (left: Word)
      requires xlen == txfrLen > 0
      modifies this, ram
      ensures View() == Round(mode, old(View())) && left == txfrLen
    {
      var chunk := if xlen < 4 then xlen else 4;
      var buf := new Byte[4](_ => 0);
      if !mode.srcIgnore {
        Fetch(buf, source, chunk);
      }
      assert buf[..chunk] == if mode.srcIgnore then Zeros(chunk) else PeekAll(ram[..], source, chunk);
      if mode.srcInc {
        source := Add(source, chunk);
      }
      if !mode.dstIgnore {
        Deposit(buf, dest, chunk);
      }
      if mode.dstInc {
        dest := Add(dest, chunk);
      }
      left := xlen - chunk;
      txfrLen := left;
    }

    /** A row of txfrLen bytes, in as many rounds as it has words, the last one maybe short. */
    method Transfer(mode: Mode) returns (rounds: nat)
      modifies this, ram
      ensures View() == CopyRow(mode, old(View())) && txfrLen == 0
      ensures 4 * rounds >= old(txfrLen) && 4 * rounds < old(txfrLen) + 4
    {
      var xlen := txfrLen;
      rounds := 0;
      while xlen != 0
        invariant xlen == txfrLen && CopyRow(mode, View()) == CopyRow(mode, old(View()))
        invariant if xlen == 0 then old(txfrLen) <= 4 * rounds < old(txfrLen) + 4
                  else 4 * rounds + xlen == old(txfrLen)
        decreases xlen
      {
        xlen := OneRound(mode, xlen);
        rounds := rounds + 1;
      }
    }
  }
}
