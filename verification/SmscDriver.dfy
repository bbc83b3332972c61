/**
 * The NIC from its users' side (files/qemu-riscos-raspi.patch): what a driver reads out of the bulk IN
 * stream, what it writes into the bulk OUT stream, and which frames the address filter lets through.
 */
module SmscDriver {
  import opened Bytes
  import opened SmscTx
  import opened SmscNic

  // ---- what a driver reads ----

  /**
   * The frames that a driver finds in received bytes: the length field of the status word counts the
   * frame and its FCS, and the next status word is at the word boundary behind them.
   */
  function ReadFrames(s: seq<Byte>): seq<Frame>
    decreases |s|
  {
    if |s| < 4 then []
    else
      var word := (s[0] as int) + 0x100 * (s[1] as int) + 0x1_0000 * (s[2] as int) + 0x100_0000 * (s[3] as int);
      var length := word / 0x1_0000 % 0x4000;
      var next := 4 + (length + 3) / 4 * 4;
      if length < 4 || |s| < next then [] else [s[4..length]] + ReadFrames(s[next..])
  }

  lemma StatusWord(n: nat)
    requires n < 0x4000
    ensures var w := n * 0x1_0000 % 0x1_0000_0000; w == n * 0x1_0000 && w / 0x1_0000 % 0x4000 == n
  {
  }

  lemma WordInFront(w: Word, rest: seq<Byte>)
    ensures var s := WordBytes(w) + rest;
            (s[0] as int) + 0x100 * (s[1] as int) + 0x1_0000 * (s[2] as int) + 0x100_0000 * (s[3] as int) == w
  {
    WordReadBack(w);
  }

  lemma BlockParts(f: Frame, rest: seq<Byte>)
    ensures var s := RxBlock(f) + rest; var n := 4 + (|f| + 7) / 4 * 4;
            && s == WordBytes((|f| + 4) * 0x1_0000 % 0x1_0000_0000) + s[4..]
            && s[4..4 + |f|] == f && s[n..] == rest
  {
  }

  lemma ReadFirst(s: seq<Byte>, length: nat, next: nat)
    requires |s| >= 4 && 4 <= length && next == 4 + (length + 3) / 4 * 4 <= |s|
    requires var word := (s[0] as int) + 0x100 * (s[1] as int) + 0x1_0000 * (s[2] as int) + 0x100_0000 * (s[3] as int);
             word / 0x1_0000 % 0x4000 == length
    ensures ReadFrames(s) == [s[4..length]] + ReadFrames(s[next..])
  {
  }

  lemma BlockRead(s: seq<Byte>, f: Frame, rest: seq<Byte>, next: nat)
    requires 14 <= |f| <= 1514 && s == RxBlock(f) + rest && next == 4 + (|f| + 7) / 4 * 4
    ensures next <= |s| && s[4..4 + |f|] == f && s[next..] == rest
    ensures var word := (s[0] as int) + 0x100 * (s[1] as int) + 0x1_0000 * (s[2] as int) + 0x100_0000 * (s[3] as int);
            word / 0x1_0000 % 0x4000 == |f| + 4
  {
    BlockParts(f, rest);
    StatusWord(|f| + 4);
    WordInFront((|f| + 4) * 0x1_0000 % 0x1_0000_0000, s[4..]);
  }

  lemma ReadOne(f: Frame, rest: seq<Byte>)
    requires 14 <= |f| <= 1514
    ensures ReadFrames(RxBlock(f) + rest) == [f] + ReadFrames(rest)
  {
    var s, next := RxBlock(f) + rest, 4 + (|f| + 7) / 4 * 4;
    BlockRead(s, f, rest, next);
    ReadFirst(s, |f| + 4, next);
  }

  lemma {:induction false} ReadBlocks(fs: seq<Frame>, rest: seq<Byte>)
    requires AllProper(fs)
    ensures ReadFrames(Blocks(fs) + rest) == fs + ReadFrames(rest)
    decreases |fs|
  {
    if fs == [] {
      assert Blocks(fs) + rest == rest;
    } else {
      var init, last := fs[..|fs| - 1], fs[|fs| - 1];
      Assoc(Blocks(init), RxBlock(last), rest);
      ReadBlocks(init, RxBlock(last) + rest);
      ReadOne(last, rest);
      Assoc(init, [last], ReadFrames(rest));
      assert fs == init + [last];
    }
  }

  /** A driver that reads what it has been sent and what is still to come finds the accepted frames. */
  lemma DriverReads(s: Rx)
    requires Sound(s)
    ensures ReadFrames(s.delivered + s.buf[s.ptr..]) == s.accepted
  {
    ReadBlocks(s.accepted, []);
    assert Blocks(s.accepted) + [] == Blocks(s.accepted);
    assert s.accepted + [] == s.accepted;
  }

  /** So it does after every run that does not strand a frame, on whatever the run has accepted since the last reset. */
  lemma DriverReadsRun(configured: bool, mps: PacketSize, es: seq<Event>)
    requires Kept(Fresh(configured, mps)) && AllPossible(es) && NeverStrands(Fresh(configured, mps), es)
    ensures var rx := Run(Fresh(configured, mps), es).rx;
            ReadFrames(rx.delivered + rx.buf[rx.ptr..]) == rx.accepted
  {
    DriverReads(Run(Fresh(configured, mps), es).rx);
  }

  // ---- the address filter ----

  /** The six octets a station is addressed by, as the two address registers hold them, lowest first. */
  ghost predicate Programmed(reg: seq<Word>, mac: seq<Byte>)
    requires |reg| == 128
  {
    && |mac| == 6
    && reg[66] == mac[0] + 0x100 * (mac[1] as int) + 0x1_0000 * (mac[2] as int) + 0x100_0000 * (mac[3] as int)
    && reg[65] % 0x1_0000 == mac[4] + 0x100 * (mac[5] as int)
  }

  lemma LowHalf(hi: Word)
    ensures hi % 0x1_0000 == hi % 0x100 + 0x100 * (hi / 0x100 % 0x100)
  {
    var h, q := hi / 0x100, hi / 0x100 / 0x100;
    assert hi == (hi % 0x100 + 0x100 * (h % 0x100)) + 0x1_0000 * q;
  }

  lemma SamePair(a: Byte, b: Byte, c: Byte, d: Byte)
    ensures a + 0x100 * b == c + 0x100 * (d as int) <==> a == c && b == d
  {
  }

  lemma TwoBytes(hi: Word, mac: seq<Byte>)
    requires |mac| == 2
    ensures mac == WordBytes(hi)[..2] <==> hi % 0x1_0000 == mac[0] + 0x100 * (mac[1] as int)
  {
    var s := WordBytes(hi)[..2];
    LowHalf(hi);
    SamePair(s[0], s[1], mac[0], mac[1]);
  }

  lemma AddressBytes(lo: Word, hi: Word, mac: seq<Byte>)
    requires |mac| == 6
    ensures mac == WordBytes(lo) + WordBytes(hi)[..2]
       <==> (lo == WordAt(mac[..4], 0) && hi % 0x1_0000 == mac[4] + 0x100 * (mac[5] as int))
  {
    var low, high := mac[..4], mac[4..];
    WordReadBack(lo);
    SameWord(WordBytes(lo), low);
    TwoBytes(hi, high);
    var a := WordBytes(lo) + WordBytes(hi)[..2];
    assert mac == low + high && a[..4] == WordBytes(lo) && a[4..] == WordBytes(hi)[..2];
  }

  lemma SameWord(a: seq<Byte>, b: seq<Byte>)
    requires |a| == |b| == 4
    ensures WordAt(a, 0) == WordAt(b, 0) <==> a == b
  {
    BytesReadBack(a);
    BytesReadBack(b);
  }

  /**
   * A frame passes the filter if the guest takes all frames, if it is a broadcast, if it is a group
   * frame and the guest takes those, or if it is for the address the guest has programmed.
   */
  lemma FilterPasses(reg: seq<Word>, f: Frame)
    requires |reg| == 128 && |f| >= 14
    ensures Accepts(reg, f) <==>
              (|| reg[64] / 0x4_0000 % 2 == 1
               || f[..6] == [255, 255, 255, 255, 255, 255]
               || (f[0] % 2 == 1 && reg[64] / 0x8_0000 % 2 == 1)
               || (f[0] % 2 == 0 && Programmed(reg, f[..6])))
  {
    AddressBytes(reg[66], reg[65], f[..6]);
    assert f[..6][0] == f[0];
  }

  /** A NIC that can receive takes every frame of proper size that passes, and no other. */
  lemma TakenExactly(s: Nic, f: Frame)
    requires s.WellFormed() && CanReceive(s)
    ensures Receive(s, f).1 == |f| <==> 14 <= |f| <= 1514 && Accepts(s.reg, f)
    ensures Receive(s, f).1 != |f| ==> Receive(s, f) == (s, -1)
  {
  }

  // ---- what a driver sends ----

  /** A frame as a driver hands it over, with the fields of its two header words and their other bits. */
  datatype Request = Request(
    offset: nat, lowA: nat, highA: nat,
    csum: bool, noPadding: bool, bit11: bool, bit13: bool, highB: nat,
    gap: seq<Byte>, prefix: seq<Byte>, frame: Frame, pad: seq<Byte>)
  {
    function Length(): nat {
      |prefix| + |frame|
    }

    predicate Valid() {
      && offset < 32 && lowA < 0x1_0000 && highA < 0x800 && highB < 0x2_0000
      && |gap| == offset && |prefix| == (if csum then 4 else 0)
      && 14 <= Length() <= 1518
      && |pad| < 4 && (8 + offset + Length() + |pad|) % 4 == 0
    }

    function HeaderA(): nat {
      lowA + 0x1_0000 * offset + 0x20_0000 * highA
    }

    function HeaderB(): nat {
      Length() + 0x800 * One(bit11) + 0x1000 * One(noPadding) + 0x2000 * One(bit13) + 0x4000 * One(csum) + 0x8000 * highB
    }

    function Bytes(): seq<Byte>
      requires Valid()
    {
      HeadersFit(this);
      WordBytes(HeaderA()) + WordBytes(HeaderB()) + (gap + prefix) + frame + pad
    }

    /** What goes on the wire for it: the frame, and zeros up to 60 bytes unless padding is forbidden. */
    ghost predicate SentAs(f: Frame) {
      && |f| == (if |frame| < 60 && !noPadding then 60 else |frame|)
      && f[..|frame|] == frame
      && forall i :: |frame| <= i < |f| ==> f[i] == 0
    }
  }

  function One(b: bool): nat {
    if b then 1 else 0
  }

  lemma HeadersFit(r: Request)
    requires r.Valid()
    ensures r.HeaderA() < 0x1_0000_0000 && r.HeaderB() < 0x1_0000_0000
  {
  }

  lemma HeaderAFields(r: Request)
    requires r.Valid()
    ensures r.HeaderA() < 0x1_0000_0000 && DataOffset(r.HeaderA()) == r.offset
  {
    HeadersFit(r);
    assert r.HeaderA() / 0x1_0000 == r.offset + 32 * r.highA;
  }

  lemma LowestBit(flag: bool, high: nat)
    ensures (One(flag) + 2 * high) % 2 == One(flag)
  {
  }

  lemma RemainderOf(low: nat, q: nat)
    requires low < 2048
    ensures (low + 2048 * q) % 2048 == low
  {
  }

  lemma HeaderBLength(r: Request)
    requires r.Valid()
    ensures r.HeaderB() < 0x1_0000_0000 && FrameLength(r.HeaderB()) == r.Length()
  {
    HeadersFit(r);
    var q := One(r.bit11) + 2 * One(r.noPadding) + 4 * One(r.bit13) + 8 * One(r.csum) + 16 * r.highB;
    assert r.HeaderB() == r.Length() + 2048 * q;
    RemainderOf(r.Length(), q);
  }

  lemma HeaderBPadding(r: Request)
    requires r.Valid()
    ensures r.HeaderB() < 0x1_0000_0000 && PaddingDisabled(r.HeaderB()) == r.noPadding
  {
    HeadersFit(r);
    var low := r.Length() + 0x800 * One(r.bit11);
    var high := One(r.bit13) + 2 * One(r.csum) + 4 * r.highB;
    LowestBit(r.noPadding, high);
    assert r.HeaderB() == low + 0x1000 * (One(r.noPadding) + 2 * high);
    assert r.HeaderB() / 0x1000 == One(r.noPadding) + 2 * high;
  }

  lemma HeaderBChecksum(r: Request)
    requires r.Valid()
    ensures r.HeaderB() < 0x1_0000_0000 && ChecksumPrefix(r.HeaderB()) == if r.csum then 4 else 0
  {
    HeadersFit(r);
    var low := r.Length() + 0x800 * One(r.bit11) + 0x1000 * One(r.noPadding) + 0x2000 * One(r.bit13);
    LowestBit(r.csum, r.highB);
    assert r.HeaderB() == low + 0x4000 * (One(r.csum) + 2 * r.highB);
    assert r.HeaderB() / 0x4000 == One(r.csum) + 2 * r.highB;
  }

  function AsBlock(r: Request): Block
    requires r.Valid()
  {
    HeadersFit(r);
    Block(r.HeaderA(), r.HeaderB(), r.gap, r.prefix, r.frame, r.pad)
  }

  lemma RequestIsBlock(r: Request)
    requires r.Valid()
    ensures AsBlock(r).Valid() && AsBlock(r).Bytes() == r.Bytes()
    ensures r.SentAs(OnWire(r.frame, PaddingDisabled(AsBlock(r).cmdB)))
  {
    HeaderAFields(r);
    HeaderBLength(r);
    HeaderBPadding(r);
    HeaderBChecksum(r);
  }

  function RequestStream(rs: seq<Request>): seq<Byte>
    requires forall r :: r in rs ==> r.Valid()
  {
    if rs == [] then [] else rs[0].Bytes() + RequestStream(rs[1..])
  }

  ghost predicate AllSentAs(rs: seq<Request>, fs: seq<Frame>) {
    |fs| == |rs| && forall i :: 0 <= i < |rs| ==> rs[i].SentAs(fs[i])
  }

  lemma {:induction false} RequestsAreBlocks(rs: seq<Request>) returns (bs: seq<Block>)
    requires forall r :: r in rs ==> r.Valid()
    ensures (forall b :: b in bs ==> b.Valid()) && Stream(bs) == RequestStream(rs) && AllSentAs(rs, Frames(bs))
  {
    bs := [];
    if rs != [] {
      var more := RequestsAreBlocks(rs[1..]);
      RequestIsBlock(rs[0]);
      bs := [AsBlock(rs[0])] + more;
      assert bs[1..] == more;
      var fs := Frames(bs);
      forall i | 0 <= i < |rs| ensures rs[i].SentAs(fs[i]) {
        assert i > 0 ==> rs[1..][i - 1].SentAs(Frames(more)[i - 1]);
      }
    }
  }

  /**
   * However a driver's stream is cut into OUT packets of whole words, each of its frames is sent, in
   * order: padded with zeros to 60 bytes exactly if it is shorter and padding is not forbidden.
   */
  lemma RequestsAreSent(rs: seq<Request>, ps: seq<seq<Byte>>)
    requires forall r :: r in rs ==> r.Valid()
    requires WordPackets(ps) && Concat(ps) == RequestStream(rs)
    ensures var t := RunOut([], ps, true);
            t.left == [] && t.verdict == Waiting && AllSentAs(rs, t.frames)
  {
    var bs := RequestsAreBlocks(rs);
    Packetisation(bs, ps);
  }

  lemma {:induction false} DisabledDrops(s: seq<Byte>)
    ensures Transmit(s, false) == Transmit(s, true).(frames := [])
    decreases |s|
  {
    if |s| >= 8 && Head(s).Plausible() && Head(s).BlockSize() <= |s| {
      DisabledDrops(s[Head(s).BlockSize()..]);
    }
  }

  /**
   * A driver's stream is sent exactly while both the transmitter and its MAC are on; otherwise it is
   * taken, and dropped, all the same.
   */
  lemma SentWhileEnabled(s: Nic, rs: seq<Request>, p: seq<Byte>)
    requires s.WellFormed() && s.out == [] && (forall r :: r in rs ==> r.Valid())
    requires |p| % 4 == 0 && |p| <= MAX_PACKET && p == RequestStream(rs)
    ensures var s1 := HandleOut(s, p);
            && s1.out == [] && s.sent <= s1.sent
            && if s.reg[4] / 4 % 2 == 1 && s.reg[64] / 8 % 2 == 1 then AllSentAs(rs, s1.sent[|s.sent|..])
               else s1.sent == s.sent
  {
    var bs := RequestsAreBlocks(rs);
    StreamTransmits(bs);
    DisabledDrops(p);
    SlackSuffices([], p, s.TxOn());
    assert [] + p == p;
  }

  // ---- resets ----

  /** After a bus reset the NIC is as made but for its address; what was sent or waits in the backend is not its own. */
  lemma BusResetIsFresh(s: Nic, lo: Word, hi: Word)
    requires s.WellFormed()
    ensures BusReset(s, lo, hi)
         == Fresh(s.configured, s.mps).(reg := seq(128, i => if i == 66 then lo else if i == 65 then hi else 0),
                                        sent := s.sent, queue := s.queue, held := s.held)
  {
  }

  /** After a soft reset nothing is left of either stream: the next frames go out as from a NIC just made. */
  lemma SoftResetStartsOver(s: Nic, rs: seq<Request>, ps: seq<seq<Byte>>)
    requires s.WellFormed() && (forall r :: r in rs ==> r.Valid())
    requires WordPackets(ps) && Concat(ps) == RequestStream(rs)
    ensures var s1 := LiteReset(s);
            && s1.out == [] && AllSentAs(rs, RunOut(s1.out, ps, true).frames)
            && s1.rx.buf == [] && s1.rx.parked == s.rx.parked && !s1.RxOn() && !s1.TxOn()
  {
    RequestsAreSent(rs, ps);
  }
}
