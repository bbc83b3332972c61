/**
 * The transmit side of the SMSC95xx NIC (smsc_bulk_out in files/qemu-riscos-raspi.patch): command
 * headers, blocks, and the reassembly of frames from USB packets in one bounded buffer.
 */
module SmscTx {
  import opened Bytes

  type Frame = seq<Byte>

  const BUF_SIZE := 16384 + 2048
  const MIN_FRAME := 14
  const MAX_FRAME := 1514
  const RUNT_PAD := 60
  const MAX_PACKET := 16384
  const MAX_LEFT := 1556

  // ---- the command header ----

  function DataOffset(cmdA: Word): (n: nat)
    ensures n <= 31
  {
    cmdA / 0x1_0000 % 32
  }

  function FrameLength(cmdB: Word): (n: nat)
    ensures n < 2048
  {
    cmdB % 2048
  }

  function ChecksumPrefix(cmdB: Word): (n: nat)
    ensures n == 0 || n == 4
  {
    if cmdB / 0x4000 % 2 == 1 then 4 else 0
  }

  predicate PaddingDisabled(cmdB: Word) {
    cmdB / 0x1000 % 2 == 1
  }

  datatype Header = Header(offset: nat, length: nat, csum: nat, noPadding: bool) {
    predicate Plausible() {
      MIN_FRAME <= length <= MAX_FRAME + 4
    }

    /** Bytes up to the end of the frame, and up to the word boundary after it. */
    function Need(): nat {
      8 + offset + length
    }

    function BlockSize(): nat {
      (Need() + 3) / 4 * 4
    }
  }

  function HeaderOf(cmdA: Word, cmdB: Word): (h: Header)
    ensures h.offset <= 31 && (h.csum == 0 || h.csum == 4)
  {
    Header(DataOffset(cmdA), FrameLength(cmdB), ChecksumPrefix(cmdB), PaddingDisabled(cmdB))
  }

  /** Short frames are filled up with zeros unless the header forbids it. */
  function OnWire(frame: Frame, noPadding: bool): Frame {
    if |frame| < RUNT_PAD && !noPadding then frame + Zeros(RUNT_PAD - |frame|) else frame
  }

  // ---- what one buffer full of bytes means ----

  datatype Verdict = Waiting | OutOfStep | Overrun

  datatype Transmitted = Transmitted(frames: seq<Frame>, left: seq<Byte>, verdict: Verdict) {
    function After(earlier: seq<Frame>): Transmitted {
      Transmitted(earlier + frames, left, verdict)
    }
  }

  function Head(s: seq<Byte>): (h: Header)
    requires |s| >= 8
    ensures h.offset <= 31 && (h.csum == 0 || h.csum == 4)
  {
    HeaderOf(WordAt(s, 0), WordAt(s, 4))
  }

  function FrameIn(s: seq<Byte>, h: Header): Frame
    requires h.Plausible() && h.csum <= 4 && h.Need() <= |s|
  {
    OnWire(s[8 + h.offset + h.csum..h.Need()], h.noPadding)
  }

  /**
   * The frames that parsing s sends and what stays in the buffer. A block whose frame is all there
   * but whose padding is not is an overrun: the position moves past the end of the buffer.
   */
  function Transmit(s: seq<Byte>, on: bool): Transmitted {
    if |s| < 8 then Transmitted([], s, Waiting)
    else
      var h := Head(s);
      if !h.Plausible() then Transmitted([], [], OutOfStep)
      else if |s| < h.Need() then Transmitted([], s, Waiting)
      else
        var frames := if on then [FrameIn(s, h)] else [];
        if |s| < h.BlockSize() then Transmitted(frames, s, Overrun)
        else Transmit(s[h.BlockSize()..], on).After(frames)
  }

  /** Parsing one whole block. */
  lemma OneBlock(s: seq<Byte>, on: bool, h: Header)
    requires |s| >= 8 && h == Head(s) && h.Plausible() && h.Need() <= |s|
    requires Transmit(s, on).verdict != Overrun
    ensures h.BlockSize() <= |s|
    ensures Transmit(s, on) == Transmit(s[h.BlockSize()..], on).After(if on then [FrameIn(s, h)] else [])
  {
  }

  lemma HeadIgnoresWhatFollows(a: seq<Byte>, b: seq<Byte>)
    requires |a| >= 8
    ensures Head(a + b) == Head(a)
    ensures var h := Head(a);
            h.Plausible() && h.Need() <= |a| ==> FrameIn(a + b, h) == FrameIn(a, h)
  {
    var h := Head(a);
    if h.Plausible() && h.Need() <= |a| {
      assert (a + b)[8 + h.offset + h.csum..h.Need()] == a[8 + h.offset + h.csum..h.Need()];
    }
  }

  lemma AfterTwice(t: Transmitted, p: seq<Frame>, q: seq<Frame>)
    ensures t.After(q).After(p) == t.After(p + q)
  {
    Assoc(p, q, t.frames);
  }

  /** Parsing may stop anywhere that leaves it waiting and go on when more bytes have come. */
  lemma {:induction false} TransmitInTwo(a: seq<Byte>, b: seq<Byte>, on: bool)
    requires Transmit(a, on).verdict == Waiting
    ensures Transmit(a + b, on) == Transmit(Transmit(a, on).left + b, on).After(Transmit(a, on).frames)
    decreases |a|
  {
    if |a| >= 8 && Head(a).Need() <= |a| {
      var n := Head(a).BlockSize();
      HeadIgnoresWhatFollows(a, b);
      assert (a + b)[n..] == a[n..] + b;
      TransmitInTwo(a[n..], b, on);
      var rest := Transmit(a[n..], on);
      AfterTwice(Transmit(rest.left + b, on), if on then [FrameIn(a, Head(a))] else [], rest.frames);
    }
  }

  /** A buffer that would wait with more bytes behind it was waiting, or stands inside padding. */
  lemma {:induction false} StartOfWaiting(a: seq<Byte>, b: seq<Byte>, on: bool)
    requires Transmit(a + b, on).verdict != OutOfStep
    ensures Transmit(a, on).verdict != OutOfStep
    decreases |a|
  {
    if |a| >= 8 && Head(a).Need() <= |a| {
      HeadIgnoresWhatFollows(a, b);
      var n := Head(a).BlockSize();
      if n <= |a| {
        assert (a + b)[n..] == a[n..] + b;
        StartOfWaiting(a[n..], b, on);
      }
    } else if |a| >= 8 {
      HeadIgnoresWhatFollows(a, b);
    }
  }

  // ---- the unsigned loop test, and the slack in the buffer ----

  /** With a whole number of words buffered the position never passes the end. */
  lemma {:induction false} WholeWordsNeverOverrun(s: seq<Byte>, on: bool)
    requires |s| % 4 == 0
    ensures Transmit(s, on).verdict != Overrun && |Transmit(s, on).left| % 4 == 0
    decreases |s|
  {
    if |s| >= 8 && Head(s).Plausible() && Head(s).Need() <= |s| {
      WholeWordsNeverOverrun(s[Head(s).BlockSize()..], on);
    }
  }

  /** Whatever the headers say, what is left is less than the longest block that can be incomplete. */
  lemma {:induction false} LeftoverIsShort(s: seq<Byte>, on: bool)
    requires Transmit(s, on).verdict != Overrun
    ensures |Transmit(s, on).left| <= MAX_LEFT
    decreases |s|
  {
    if |s| >= 8 && Head(s).Plausible() && Head(s).Need() <= |s| {
      LeftoverIsShort(s[Head(s).BlockSize()..], on);
    }
  }

  lemma WordsInFront(a: seq<Byte>, b: seq<Byte>, rest: seq<Byte>)
    requires |a| == |b| == 4
    ensures var s := a + b + rest;
            WordAt(s, 0) == WordAt(a, 0) && WordAt(s, 4) == WordAt(b, 0) && s[8..] == rest
  {
    var s := a + b + rest;
    assert forall i :: 0 <= i < 4 ==> s[i] == a[i] && s[i + 4] == b[i];
  }

  lemma HeadOfWords(cmdA: Word, cmdB: Word, rest: seq<Byte>)
    ensures var s := WordBytes(cmdA) + WordBytes(cmdB) + rest;
            Head(s) == HeaderOf(cmdA, cmdB) && s[8..] == rest
  {
    var a, b := WordBytes(cmdA), WordBytes(cmdB);
    WordReadBack(cmdA);
    WordReadBack(cmdB);
    WordsInFront(a, b, rest);
  }

  /** A block with no gap, no checksum prefix and the given frame length in its header. */
  function PlainBlock(length: Word, rest: seq<Byte>): seq<Byte> {
    WordBytes(0) + WordBytes(length) + rest
  }

  lemma PlainHeader(length: Word)
    requires length < 2048
    ensures HeaderOf(0, length) == Header(0, length, 0, false)
  {
  }

  lemma PlainHead(length: Word, rest: seq<Byte>)
    requires length < 2048
    ensures Head(PlainBlock(length, rest)) == Header(0, length, 0, false)
    ensures PlainBlock(length, rest)[8..] == rest
  {
    PlainHeader(length);
    HeadOfWords(0, length, rest);
  }

  lemma ShortBlockFirst(rest: seq<Byte>, on: bool)
    ensures Transmit(PlainBlock(16, Zeros(16) + rest), on).verdict == Transmit(rest, on).verdict
  {
    var s := PlainBlock(16, Zeros(16) + rest);
    PlainHead(16, Zeros(16) + rest);
    ShortBlockTail(rest);
    PassWhole(s, on, Header(0, 16, 0, false), 24);
  }

  lemma PassWhole(s: seq<Byte>, on: bool, h: Header, n: nat)
    requires |s| >= 8 && h == Head(s) && h.Plausible() && h.Need() <= |s|
    requires n == h.BlockSize() <= |s|
    ensures Transmit(s, on).verdict == Transmit(s[n..], on).verdict
  {
  }

  lemma ShortBlockTail(rest: seq<Byte>)
    ensures PlainBlock(16, Zeros(16) + rest)[24..] == rest
  {
    Assoc(WordBytes(0) + WordBytes(16), Zeros(16), rest);
  }

  /** n bytes that overrun: 24-byte blocks, then one whose frame ends where the bytes do. */
  lemma {:induction false} SomeBytesOverrun(n: nat, on: bool) returns (s: seq<Byte>)
    requires n >= 22 && n % 4 != 0
    ensures |s| == n && Transmit(s, on).verdict == Overrun
  {
    if n < 46 {
      s := PlainBlock(n - 8, Zeros(n - 8));
      PlainHead(n - 8, Zeros(n - 8));
    } else {
      var rest := SomeBytesOverrun(n - 24, on);
      s := PlainBlock(16, Zeros(16) + rest);
      ShortBlockFirst(rest, on);
    }
  }

  /** Exactly for which buffered lengths no contents can carry the position past the end. */
  lemma SafeLengths(n: nat, on: bool)
    ensures (forall s: seq<Byte> :: |s| == n ==> Transmit(s, on).verdict != Overrun)
            <==> n % 4 == 0 || n < 22
  {
    if n % 4 == 0 || n < 22 {
      forall s: seq<Byte> | |s| == n ensures Transmit(s, on).verdict != Overrun {
        if n % 4 == 0 { WholeWordsNeverOverrun(s, on); }
      }
    } else {
      var s := SomeBytesOverrun(n, on);
    }
  }

  // ---- runs of packets ----

  /** One OUT packet against what is left from before; bytes beyond the buffer are not taken. */
  function OutPacket(left: seq<Byte>, p: seq<Byte>, on: bool): Transmitted
    requires |left| <= BUF_SIZE
  {
    var room := BUF_SIZE - |left|;
    Transmit(left + if |p| < room then p else p[..room], on)
  }

  predicate WordPackets(ps: seq<seq<Byte>>) {
    forall i :: 0 <= i < |ps| ==> |ps[i]| % 4 == 0 && |ps[i]| <= MAX_PACKET
  }

  lemma NotCut(left: seq<Byte>, p: seq<Byte>, on: bool)
    requires |left| <= MAX_LEFT && |p| <= MAX_PACKET
    ensures OutPacket(left, p, on) == Transmit(left + p, on)
  {
    assert |p| < BUF_SIZE - |left|;
  }

  /** On whole words no packet is cut, and the bound on what is left is kept for ever. */
  lemma SlackSuffices(left: seq<Byte>, p: seq<Byte>, on: bool)
    requires |left| <= MAX_LEFT && |left| % 4 == 0 && |p| % 4 == 0 && |p| <= MAX_PACKET
    ensures OutPacket(left, p, on) == Transmit(left + p, on)
    ensures var r := OutPacket(left, p, on);
            r.verdict != Overrun && |r.left| <= MAX_LEFT && |r.left| % 4 == 0
  {
    NotCut(left, p, on);
    WholeWords(|left|, |p|);
    WholeWordsNeverOverrun(left + p, on);
    LeftoverIsShort(left + p, on);
  }

  lemma WholeWords(m: nat, n: nat)
    requires m % 4 == 0 && n % 4 == 0
    ensures (m + n) % 4 == 0
  {
    var j, k := m / 4, n / 4;
    assert m + n == 4 * (j + k);
  }

  /** A run of OUT packets, transmit enabled or not throughout. */
  function RunOut(left: seq<Byte>, ps: seq<seq<Byte>>, on: bool): Transmitted
    requires |left| <= MAX_LEFT && |left| % 4 == 0 && WordPackets(ps)
    decreases ps
  {
    if ps == [] then Transmitted([], left, Waiting)
    else
      SlackSuffices(left, ps[0], on);
      var r := OutPacket(left, ps[0], on);
      RunOut(r.left, ps[1..], on).After(r.frames)
  }

  /** How the bytes were cut into packets does not matter as long as the stream stays in step. */
  lemma {:induction false} PacketsDoNotMatter(left: seq<Byte>, ps: seq<seq<Byte>>, on: bool)
    requires |left| <= MAX_LEFT && |left| % 4 == 0 && WordPackets(ps)
    requires Transmit(left, on) == Transmitted([], left, Waiting)
    requires Transmit(left + Concat(ps), on).verdict == Waiting
    ensures RunOut(left, ps, on) == Transmit(left + Concat(ps), on)
    decreases ps
  {
    if ps == [] {
      assert left + [] == left;
    } else {
      var p, rest := ps[0], ps[1..];
      SlackSuffices(left, p, on);
      var r := OutPacket(left, p, on);
      Assoc(left, p, Concat(rest));
      StartOfWaiting(left + p, Concat(rest), on);
      TransmitInTwo(left + p, Concat(rest), on);
      LeftWaits(left + p, on);
      PacketsDoNotMatter(r.left, rest, on);
    }
  }

  lemma {:induction false} LeftWaits(s: seq<Byte>, on: bool)
    requires Transmit(s, on).verdict == Waiting
    ensures var left := Transmit(s, on).left; Transmit(left, on) == Transmitted([], left, Waiting)
    decreases |s|
  {
    if |s| >= 8 && Head(s).Need() <= |s| {
      LeftWaits(s[Head(s).BlockSize()..], on);
    }
  }

  // ---- blocks as a driver builds them ----

  datatype Block = Block(
    cmdA: Word, cmdB: Word, gap: seq<Byte>, csum: seq<Byte>, frame: Frame, pad: seq<Byte>)
  {
    predicate Valid() {
      && |gap| == DataOffset(cmdA)
      && |csum| == ChecksumPrefix(cmdB)
      && |csum| + |frame| == FrameLength(cmdB)
      && MIN_FRAME <= |csum| + |frame| <= MAX_FRAME + 4
      && |pad| < 4 && (8 + |gap| + |csum| + |frame| + |pad|) % 4 == 0
    }

    function Prelude(): seq<Byte> {
      WordBytes(cmdA) + WordBytes(cmdB) + (gap + csum)
    }

    function Bytes(): seq<Byte> {
      Prelude() + frame + pad
    }
  }

  function Stream(bs: seq<Block>): seq<Byte> {
    if bs == [] then [] else bs[0].Bytes() + Stream(bs[1..])
  }

  function Frames(bs: seq<Block>): seq<Frame> {
    if bs == [] then [] else [OnWire(bs[0].frame, PaddingDisabled(bs[0].cmdB))] + Frames(bs[1..])
  }

  lemma BlockHead(b: Block, rest: seq<Byte>)
    requires b.Valid()
    ensures var s := b.Bytes() + rest;
            && Head(s) == HeaderOf(b.cmdA, b.cmdB)
            && Head(s).BlockSize() == |b.Bytes()|
            && s[|b.Bytes()|..] == rest
            && FrameIn(s, Head(s)) == OnWire(b.frame, PaddingDisabled(b.cmdB))
  {
    var s := b.Bytes() + rest;
    Assoc(b.Prelude() + b.frame, b.pad, rest);
    Assoc(b.Prelude(), b.frame, b.pad + rest);
    PreludeHead(b, b.frame + (b.pad + rest));
    assert s[|b.Prelude()|..|b.Prelude()| + |b.frame|] == b.frame;
  }

  lemma PreludeHead(b: Block, rest: seq<Byte>)
    ensures Head(b.Prelude() + rest) == HeaderOf(b.cmdA, b.cmdB)
  {
    Assoc(WordBytes(b.cmdA) + WordBytes(b.cmdB), b.gap + b.csum, rest);
    HeadOfWords(b.cmdA, b.cmdB, (b.gap + b.csum) + rest);
  }

  lemma {:induction false} StreamTransmits(bs: seq<Block>)
    requires forall b :: b in bs ==> b.Valid()
    ensures Transmit(Stream(bs), true) == Transmitted(Frames(bs), [], Waiting)
  {
    if bs != [] {
      BlockHead(bs[0], Stream(bs[1..]));
      StreamTransmits(bs[1..]);
    }
  }

  /**
   * However a driver's blocks are cut into OUT packets of whole words, the device sends exactly
   * their frames, in order, and ends with an empty buffer.
   */
  lemma Packetisation(bs: seq<Block>, ps: seq<seq<Byte>>)
    requires forall b :: b in bs ==> b.Valid()
    requires WordPackets(ps) && Concat(ps) == Stream(bs)
    ensures RunOut([], ps, true) == Transmitted(Frames(bs), [], Waiting)
  {
    StreamTransmits(bs);
    assert [] + Concat(ps) == Concat(ps);
    PacketsDoNotMatter([], ps, true);
  }
}
