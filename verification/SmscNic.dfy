/**
 * The whole SMSC95xx NIC as a state machine over its USB, register and network events
 * (files/qemu-riscos-raspi.patch), together with the network backend's queue.
 *
 * The backend is an environment: it queues a frame while the NIC cannot receive or after the NIC
 * has answered 0, and when flushed it delivers queued frames until the NIC answers 0.
 */
module SmscNic {
  import opened Bytes
  import opened SmscTx

  const INT_STS := 0x008
  const TX_CFG := 0x010
  const HW_CFG := 0x014
  const PM_CTRL := 0x020
  const E2P_CMD := 0x030
  const E2P_DATA := 0x034
  const BURST_CAP := 0x038
  const MAC_CR := 0x100
  const ADDRH := 0x104
  const ADDRL := 0x108
  const MII_ADDR := 0x114
  const MII_DATA := 0x118
  const WINDOW := 0x200

  predicate Bit(w: Word, weight: nat)
    requires weight > 0
  {
    w / weight % 2 == 1
  }

  // ---- the receive buffer ----

  /** A USB packet offered on the bulk IN endpoint, and what becomes of it. */
  datatype Packet = Packet(id: nat, size: nat)

  datatype Reply = Done(bytes: seq<Byte>) | Async | Nak

  /** The packet size of the bulk endpoints: 64 at full speed, 512 at high speed. */
  type PacketSize = n: nat | n == 64 || n == 512 witness 64

  /** delivered and accepted log, since the last reset, the bytes sent on and the frames taken in. */
  datatype Rx = Rx(
    buf: seq<Byte>, ptr: nat, parked: Option<Packet>, flushRx: bool,
    delivered: seq<Byte>, accepted: seq<Frame>)

  /** Status word, frame, four zero bytes for the FCS and zeros up to the word boundary. */
  function RxBlock(f: Frame): (block: seq<Byte>)
    ensures |block| == 4 + (|f| + 4 + 3) / 4 * 4
  {
    WordBytes((|f| + 4) * 0x1_0000 % 0x1_0000_0000) + f + Zeros((|f| + 4 + 3) / 4 * 4 - |f|)
  }

  function ResetIn(s: Rx): Rx {
    s.(buf := [], ptr := 0, flushRx := true)
  }

  /** The next n buffered bytes go into an IN packet. */
  function CopyOut(s: Rx, n: nat): Rx
    requires s.ptr + n <= |s.buf|
  {
    s.(ptr := s.ptr + n, delivered := s.delivered + s.buf[s.ptr..s.ptr + n])
  }

  /** A packet of n bytes was the last of its block: the block is used up, and the host can tell. */
  predicate EndsBlock(s: Rx, mps: PacketSize, n: nat) {
    s.ptr >= |s.buf| && (|s.buf| % mps != 0 || n == 0)
  }

  function BulkIn(s: Rx, mps: PacketSize, p: Packet): (r: (Rx, Reply)) {
    var s0 := if s.ptr > |s.buf| then ResetIn(s) else s;
    if s0.buf == [] then
      if s0.parked.Some? then (s0, Nak) else (s0.(parked := Some(p)), Async)
    else
      var n := if |s0.buf| - s0.ptr > p.size then p.size else |s0.buf| - s0.ptr;
      var s1 := CopyOut(s0, n);
      (if EndsBlock(s1, mps, n) then ResetIn(s1) else s1, Done(s0.buf[s0.ptr..s0.ptr + n]))
  }

  function Blocks(fs: seq<Frame>): seq<Byte> {
    if fs == [] then [] else Blocks(fs[..|fs| - 1]) + RxBlock(fs[|fs| - 1])
  }

  /** All the frames are of proper size. */
  ghost predicate AllProper(fs: seq<Frame>) {
    forall f :: f in fs ==> 14 <= |f| <= 1514
  }

  /**
   * Nothing received is lost or invented: the bytes copied to IN packets and those still buffered
   * are the blocks of the accepted frames, all of which are of proper size. A request is parked only
   * while there is nothing to send.
   */
  ghost predicate Sound(s: Rx) {
    && s.ptr <= |s.buf|
    && AllProper(s.accepted)
    && (s.parked.Some? ==> s.buf == [])
    && s.delivered + s.buf[s.ptr..] == Blocks(s.accepted)
  }

  lemma SliceFacts(buf: seq<Byte>, ptr: nat, n: nat)
    requires ptr + n <= |buf|
    ensures buf[ptr..][..n] == buf[ptr..ptr + n] && buf[ptr..][n..] == buf[ptr + n..]
  {
  }

  lemma CopyOutSound(s: Rx, n: nat)
    requires Sound(s) && s.ptr + n <= |s.buf|
    ensures Sound(CopyOut(s, n))
  {
    MoveOver(s.delivered, s.buf, s.ptr, n);
  }

  lemma MoveOver(delivered: seq<Byte>, buf: seq<Byte>, ptr: nat, n: nat)
    requires ptr + n <= |buf|
    ensures delivered + buf[ptr..ptr + n] + buf[ptr + n..] == delivered + buf[ptr..]
  {
    SliceFacts(buf, ptr, n);
    JoinTail(delivered, buf[ptr..], n);
  }

  lemma JoinTail(delivered: seq<Byte>, rest: seq<Byte>, n: nat)
    requires n <= |rest|
    ensures (delivered + rest[..n]) + rest[n..] == delivered + rest
  {
    assert rest == rest[..n] + rest[n..];
  }

  lemma ResetInSound(s: Rx)
    requires Sound(s) && s.ptr == |s.buf|
    ensures Sound(ResetIn(s))
  {
    assert s.buf[s.ptr..] == [];
  }

  lemma BulkInSound(s: Rx, mps: PacketSize, p: Packet)
    requires Sound(s)
    ensures Sound(BulkIn(s, mps, p).0)
  {
    if s.buf != [] {
      var n := if |s.buf| - s.ptr > p.size then p.size else |s.buf| - s.ptr;
      CopyOutSound(s, n);
      if EndsBlock(CopyOut(s, n), mps, n) {
        ResetInSound(CopyOut(s, n));
      }
    }
  }

  /** What an IN packet is given, and nothing else, counts as delivered. */
  lemma BulkInDelivers(s: Rx, mps: PacketSize, p: Packet)
    requires Sound(s)
    ensures var (s1, reply) := BulkIn(s, mps, p);
            && s1.accepted == s.accepted
            && s1.delivered == (if reply.Done? then s.delivered + reply.bytes else s.delivered)
            && (reply.Done? ==> |reply.bytes| <= p.size && reply.bytes <= s.buf[s.ptr..])
  {
  }

  /** An IN packet either leaves the buffer occupied as it was, or frees it and asks for a flush. */
  lemma BulkInFrees(s: Rx, mps: PacketSize, p: Packet)
    requires Sound(s)
    ensures var s1 := BulkIn(s, mps, p).0;
            (s1.flushRx == s.flushRx && s1.buf == s.buf) || (s1.flushRx && s1.buf == [])
  {
  }

  /** A frame goes into the free buffer, and straight on into a packet parked for it. */
  function TakeIn(s: Rx, mps: PacketSize, f: Frame): Rx {
    var s1 := s.(buf := RxBlock(f), ptr := 0, accepted := s.accepted + [f], parked := None);
    if s.parked.Some? then BulkIn(s1, mps, s.parked.value).0 else s1
  }

  lemma MoreBlocks(fs: seq<Frame>, f: Frame)
    ensures Blocks(fs + [f]) == Blocks(fs) + RxBlock(f)
  {
    assert (fs + [f])[..|fs|] == fs;
  }

  lemma StoredSound(s: Rx, f: Frame, s1: Rx)
    requires Sound(s) && s.buf == [] && 14 <= |f| <= 1514
    requires s1 == s.(buf := RxBlock(f), ptr := 0, accepted := s.accepted + [f], parked := None)
    ensures Sound(s1)
  {
    MoreBlocks(s.accepted, f);
    assert s.delivered + s.buf[s.ptr..] == s.delivered;
    assert s1.buf[0..] == s1.buf;
  }

  lemma TakeInSound(s: Rx, mps: PacketSize, f: Frame)
    requires Sound(s) && s.buf == [] && 14 <= |f| <= 1514
    ensures Sound(TakeIn(s, mps, f))
  {
    var s1 := s.(buf := RxBlock(f), ptr := 0, accepted := s.accepted + [f], parked := None);
    StoredSound(s, f, s1);
    if s.parked.Some? {
      BulkInSound(s1, mps, s.parked.value);
    }
  }

  /** What k successive IN packets of the endpoint's size bring, and what they leave. */
  function PollReplies(s: Rx, mps: PacketSize, k: nat): seq<Reply>
    decreases k
  {
    if k == 0 then []
    else
      var (s1, r) := BulkIn(s, mps, Packet(0, mps));
      [r] + PollReplies(s1, mps, k - 1)
  }

  function AfterPolls(s: Rx, mps: PacketSize, k: nat): Rx
    decreases k
  {
    if k == 0 then s else AfterPolls(BulkIn(s, mps, Packet(0, mps)).0, mps, k - 1)
  }

  /** A block in pieces of mps bytes, ended by a piece that is short or empty. */
  function Pieces(block: seq<Byte>, mps: PacketSize): seq<Reply> {
    if |block| < mps then [Done(block)] else [Done(block[..mps])] + Pieces(block[mps..], mps)
  }

  function PacketCount(n: nat, mps: PacketSize): nat {
    n / mps + 1
  }

  lemma {:induction false} PieceCount(block: seq<Byte>, mps: PacketSize)
    ensures |Pieces(block, mps)| == PacketCount(|block|, mps)
  {
    if |block| >= mps {
      PieceCount(block[mps..], mps);
      if mps == 64 {
        assert |block| / 64 == (|block| - 64) / 64 + 1;
      } else {
        assert |block| / 512 == (|block| - 512) / 512 + 1;
      }
    } else {
      if mps == 64 {
        assert |block| / 64 == 0;
      } else {
        assert |block| / 512 == 0;
      }
    }
  }

  lemma RemainderIs64(n: nat, r: nat)
    requires r < 64 && n % 64 == 0
    ensures (n + r) % 64 == r && (n + 64) % 64 == 0
  {
  }

  lemma RemainderIs512(n: nat, r: nat)
    requires r < 512 && n % 512 == 0
    ensures (n + r) % 512 == r && (n + 512) % 512 == 0
  {
  }

  lemma RemainderIs(n: nat, r: nat, mps: PacketSize)
    requires r < mps && n % mps == 0
    ensures (n + r) % mps == r && (n + mps) % mps == 0
  {
    if mps == 64 {
      RemainderIs64(n, r);
    } else {
      RemainderIs512(n, r);
    }
  }

  lemma FullPacket(s: Rx, mps: PacketSize)
    requires Sound(s) && s.ptr % mps == 0 && s.ptr + mps <= |s.buf|
    ensures BulkIn(s, mps, Packet(0, mps)) == (CopyOut(s, mps), Done(s.buf[s.ptr..s.ptr + mps]))
  {
    RemainderIs(s.ptr, 0, mps);
  }

  lemma LastPacket(s: Rx, mps: PacketSize)
    requires Sound(s) && s.buf != [] && s.ptr % mps == 0 && |s.buf| - s.ptr < mps
    ensures BulkIn(s, mps, Packet(0, mps)) == (ResetIn(CopyOut(s, |s.buf| - s.ptr)), Done(s.buf[s.ptr..]))
  {
    RemainderIs(s.ptr, |s.buf| - s.ptr, mps);
    assert s.buf[s.ptr..|s.buf|] == s.buf[s.ptr..];
  }

  /** One full packet on the way through a block. */
  lemma OnePiece(s: Rx, mps: PacketSize)
    requires Sound(s) && s.ptr % mps == 0 && s.ptr + mps <= |s.buf|
    ensures var s1 := CopyOut(s, mps);
            && BulkIn(s, mps, Packet(0, mps)) == (s1, Done(s.buf[s.ptr..][..mps]))
            && Sound(s1) && s1.ptr % mps == 0 && s1.buf[s1.ptr..] == s.buf[s.ptr..][mps..]
  {
    FullPacket(s, mps);
    CopyOutSound(s, mps);
    RemainderIs(s.ptr, 0, mps);
    SliceFacts(s.buf, s.ptr, mps);
  }

  lemma FirstPiece(block: seq<Byte>, mps: PacketSize)
    requires |block| >= mps
    ensures Pieces(block, mps) == [Done(block[..mps])] + Pieces(block[mps..], mps)
  {
  }

  lemma FirstPoll(s: Rx, mps: PacketSize, n: nat, s1: Rx, r: Reply)
    requires BulkIn(s, mps, Packet(0, mps)) == (s1, r)
    ensures PollReplies(s, mps, n + 1) == [r] + PollReplies(s1, mps, n)
  {
  }

  lemma PollsJoin(s: Rx, mps: PacketSize, s1: Rx, r: Reply, more: seq<Reply>, pieces: seq<Reply>)
    requires BulkIn(s, mps, Packet(0, mps)) == (s1, r)
    requires PollReplies(s1, mps, |more|) == more && pieces == [r] + more
    ensures PollReplies(s, mps, |pieces|) == pieces
  {
    FirstPoll(s, mps, |more|, s1, r);
  }

  /** A block goes out in full packets and then one that is short or empty. */
  lemma {:induction false} BlockTakesItsPieces(s: Rx, mps: PacketSize)
    requires Sound(s) && s.buf != [] && s.ptr % mps == 0
    ensures var pieces := Pieces(s.buf[s.ptr..], mps);
            PollReplies(s, mps, |pieces|) == pieces
    decreases |s.buf| - s.ptr
  {
    var block := s.buf[s.ptr..];
    if s.ptr + mps <= |s.buf| {
      var s1 := CopyOut(s, mps);
      OnePiece(s, mps);
      BlockTakesItsPieces(s1, mps);
      FirstPiece(block, mps);
      PollsJoin(s, mps, s1, Done(block[..mps]), Pieces(block[mps..], mps), Pieces(block, mps));
    } else {
      var s1 := ResetIn(CopyOut(s, |s.buf| - s.ptr));
      LastPacket(s, mps);
      PollsJoin(s, mps, s1, Done(block), [], Pieces(block, mps));
    }
  }

  lemma OneMorePiece(block: seq<Byte>, mps: PacketSize)
    ensures |Pieces(block, mps)| == if |block| >= mps then 1 + |Pieces(block[mps..], mps)| else 1
  {
  }

  lemma PollOn(s: Rx, mps: PacketSize, k: nat, s1: Rx)
    requires BulkIn(s, mps, Packet(0, mps)).0 == s1
    ensures AfterPolls(s, mps, k + 1) == AfterPolls(s1, mps, k)
  {
  }

  /** The last of those packets, and none before it, frees the buffer and asks for a flush. */
  lemma {:induction false} LastPieceFrees(s: Rx, mps: PacketSize, k: nat)
    requires Sound(s) && s.buf != [] && s.ptr % mps == 0
    requires k <= |Pieces(s.buf[s.ptr..], mps)|
    ensures var t := AfterPolls(s, mps, k);
            if k < |Pieces(s.buf[s.ptr..], mps)| then t.buf == s.buf else t.buf == [] && t.flushRx
    decreases k
  {
    OneMorePiece(s.buf[s.ptr..], mps);
    if k > 0 {
      if s.ptr + mps <= |s.buf| {
        var s1 := CopyOut(s, mps);
        OnePiece(s, mps);
        LastPieceFrees(s1, mps, k - 1);
        PollOn(s, mps, k - 1, s1);
      } else {
        LastPacket(s, mps);
        PollOn(s, mps, k - 1, ResetIn(CopyOut(s, |s.buf| - s.ptr)));
      }
    }
  }

  // ---- the NIC and its backend ----

  datatype Nic = Nic(
    configured: bool, mps: PacketSize, reg: seq<Word>,
    out: seq<Byte>, sent: seq<Frame>, rx: Rx,
    queue: seq<Frame>, held: bool)
  {
    predicate WellFormed() {
      |reg| == WINDOW / 4 && |out| <= BUF_SIZE
    }

    predicate RxOn()
      requires WellFormed()
    {
      Bit(reg[MAC_CR / 4], 0x4)
    }

    predicate TxOn()
      requires WellFormed()
    {
      Bit(reg[TX_CFG / 4], 0x4) && Bit(reg[MAC_CR / 4], 0x8)
    }
  }

  predicate Accepts(reg: seq<Word>, f: Frame)
    requires |reg| == WINDOW / 4 && |f| >= MIN_FRAME
  {
    var macCr := reg[MAC_CR / 4];
    if Bit(macCr, 0x4_0000) then true
    else if f[0] % 2 == 1 then
      f[..6] == [255, 255, 255, 255, 255, 255] || Bit(macCr, 0x8_0000)
    else
      f[..6] == WordBytes(reg[ADDRL / 4]) + WordBytes(reg[ADDRH / 4])[..2]
  }

  predicate Refuses(s: Nic, f: Frame)
    requires s.WellFormed()
  {
    || !s.configured || !s.RxOn()
    || |f| < MIN_FRAME || |f| > MAX_FRAME || !Accepts(s.reg, f)
  }

  /** -1 for a frame that is dropped, 0 for one to be offered again, else its size. */
  function Receive(s: Nic, f: Frame): (r: (Nic, int))
    requires s.WellFormed()
  {
    if Refuses(s, f) then (s, -1)
    else if s.rx.buf != [] || |RxBlock(f)| > BUF_SIZE then (s, 0)
    else (s.(rx := TakeIn(s.rx, s.mps, f)), |f|)
  }

  predicate CanReceive(s: Nic)
    requires s.WellFormed()
  {
    s.configured && s.RxOn() && s.rx.buf == []
  }

  function Drain(s: Nic): Nic
    requires s.WellFormed()
    decreases |s.queue|
  {
    if s.queue == [] then s
    else
      var (s1, ret) := Receive(s, s.queue[0]);
      if ret == 0 then s1.(held := true) else Drain(s1.(queue := s.queue[1..]))
  }

  /** qemu_flush_queued_packets */
  function Flush(s: Nic): Nic
    requires s.WellFormed()
  {
    Drain(s.(held := false))
  }

  /** A frame comes in from the network; a NIC that can receive does not answer 0. */
  function Arrive(s: Nic, f: Frame): Nic
    requires s.WellFormed()
  {
    if s.held || !CanReceive(s) then s.(queue := s.queue + [f]) else Drain(Receive(s, f).0)
  }

  function HandleIn(s: Nic, p: Packet): Nic
    requires s.WellFormed()
  {
    var rx1 := BulkIn(s.rx, s.mps, p).0;
    if rx1.flushRx then Flush(s.(rx := rx1.(flushRx := false))) else s.(rx := rx1)
  }

  function HandleOut(s: Nic, p: seq<Byte>): Nic
    requires s.WellFormed()
  {
    var t := OutPacket(s.out, p, s.TxOn());
    s.(out := t.left, sent := s.sent + t.frames)
  }

  function LiteReset(s: Nic): Nic
    requires s.WellFormed()
  {
    s.(reg := s.reg[HW_CFG / 4 := 0][TX_CFG / 4 := 0][MAC_CR / 4 := 0][INT_STS / 4 := 0],
       out := [], rx := s.rx.(buf := [], ptr := 0, delivered := [], accepted := []))
  }

  function BusReset(s: Nic, addrl: Word, addrh: Word): Nic
    requires s.WellFormed()
  {
    s.(reg := seq(WINDOW / 4, _ => 0)[ADDRL / 4 := addrl][ADDRH / 4 := addrh],
       out := [], rx := Rx([], 0, None, false, [], []))
  }

  function Clear(w: Word, weight: nat): Word
    requires weight > 0
  {
    if Bit(w, weight) && w >= weight then w - weight else w
  }

  /** What a register holds after a write; the EEPROM and MDIO registers live outside reg. */
  function Stored(prior: Word, off: nat, val: Word): Word {
    if off == PM_CTRL then Clear(val, 0x10)
    else if off == E2P_CMD || off == E2P_DATA || off == MII_ADDR || off == MII_DATA then prior
    else if off == TX_CFG then (if Bit(val, 0x2) then Clear(val, 0x4) else val)
    else if off == BURST_CAP then val % 0x100
    else if off == INT_STS then BitAndIsSmaller(prior, val); prior - BitAnd(prior, val)
    else val
  }

  function WriteReg(s: Nic, off: nat, val: Word): Nic
    requires s.WellFormed() && off < WINDOW
  {
    if off == HW_CFG && Bit(val, 0x8) then LiteReset(s)
    else
      var s1 := s.(reg := s.reg[off / 4 := Stored(s.reg[off / 4], off, val)]);
      if off == MAC_CR && Bit(val, 0x4) then Flush(s1) else s1
  }

  function Cancel(s: Nic, id: nat): Nic {
    if s.rx.parked.Some? && s.rx.parked.value.id == id then s.(rx := s.rx.(parked := None)) else s
  }

  // ---- what every event keeps ----

  /** If frames wait in the backend, something is still to come that will flush them. */
  predicate NotStranded(s: Nic)
    requires s.WellFormed()
  {
    s.configured ==> (s.queue == [] && !s.held) || s.rx.buf != [] || s.rx.flushRx || !s.RxOn()
  }

  ghost predicate Kept(s: Nic) {
    && s.WellFormed() && Sound(s.rx) && NotStranded(s)
    && |s.out| <= MAX_LEFT && |s.out| % 4 == 0
  }

  /** Only the receive buffer and the backend differ. */
  ghost predicate SameElse(s: Nic, s1: Nic) {
    s1.configured == s.configured && s1.mps == s.mps && s1.reg == s.reg && s1.out == s.out && s1.sent == s.sent
  }

  lemma ReceiveSound(s: Nic, f: Frame)
    requires s.WellFormed() && Sound(s.rx)
    ensures var (s1, ret) := Receive(s, f);
            && Sound(s1.rx) && SameElse(s, s1) && s1.queue == s.queue && s1.held == s.held
            && (ret == 0 ==> s1 == s && s.rx.buf != [])
  {
    if !Refuses(s, f) && s.rx.buf == [] {
      TakeInSound(s.rx, s.mps, f);
    }
  }

  /** After a flush the queue is empty, or the NIC has a block to send. */
  lemma {:induction false} DrainSound(s: Nic)
    requires s.WellFormed() && Sound(s.rx) && !s.held
    ensures var s1 := Drain(s);
            && Sound(s1.rx) && SameElse(s, s1)
            && ((s1.queue == [] && !s1.held) || s1.rx.buf != [])
    decreases |s.queue|
  {
    if s.queue != [] {
      ReceiveSound(s, s.queue[0]);
      var (s1, ret) := Receive(s, s.queue[0]);
      if ret != 0 {
        DrainSound(s1.(queue := s.queue[1..]));
      }
    }
  }

  lemma FlushSound(s: Nic)
    requires s.WellFormed() && Sound(s.rx)
    ensures var s1 := Flush(s);
            && Sound(s1.rx) && SameElse(s, s1)
            && ((s1.queue == [] && !s1.held) || s1.rx.buf != [])
  {
    DrainSound(s.(held := false));
  }

  datatype Event =
    | Out(data: seq<Byte>)
    | In(p: Packet)
    | CancelIn(id: nat)
    | Network(f: Frame)
    | Write(off: nat, val: Word)
    | Reset(addrl: Word, addrh: Word)

  /** What the buses can deliver: whole words out, registers inside the window. */
  predicate Possible(e: Event) {
    match e
    case Out(data) => |data| % 4 == 0 && |data| <= MAX_PACKET
    case Write(off, _) => off < WINDOW
    case _ => true
  }

  function Step(s: Nic, e: Event): Nic
    requires s.WellFormed() && Possible(e)
  {
    match e
    case Out(data) => HandleOut(s, data)
    case In(p) => HandleIn(s, p)
    case CancelIn(id) => Cancel(s, id)
    case Network(f) => Arrive(s, f)
    case Write(off, val) => WriteReg(s, off, val)
    case Reset(addrl, addrh) => BusReset(s, addrl, addrh)
  }

  /** A register write that reaches MAC_CR past the code for MAC_CR and turns reception on. */
  predicate SilentRxOn(e: Event) {
    e.Write? && e.off / 4 == MAC_CR / 4 && e.off != MAC_CR && Bit(e.val, 0x4)
  }

  /** Frames are waiting and only reception being off keeps them from being stranded. */
  predicate OnlyRxOff(s: Nic) {
    s.configured && (s.queue != [] || s.held) && s.rx.buf == [] && !s.rx.flushRx
  }

  lemma InKeeps(s: Nic, p: Packet)
    requires Kept(s)
    ensures Kept(HandleIn(s, p))
  {
    BulkInSound(s.rx, s.mps, p);
    BulkInFrees(s.rx, s.mps, p);
    var rx1 := BulkIn(s.rx, s.mps, p).0;
    if rx1.flushRx {
      FlushSound(s.(rx := rx1.(flushRx := false)));
    }
  }

  lemma CanReceiveTakes(s: Nic, f: Frame)
    requires s.WellFormed() && CanReceive(s)
    ensures Receive(s, f).1 != 0
  {
  }

  lemma NetworkKeeps(s: Nic, f: Frame)
    requires Kept(s)
    ensures Kept(Arrive(s, f))
  {
    if !s.held && CanReceive(s) {
      ReceiveSound(s, f);
      DrainSound(Receive(s, f).0);
    }
  }

  /** Writing MAC_CR's word without a flush strands waiting frames exactly when it turns reception on. */
  lemma RegisterKeeps(s: Nic, i: nat, v: Word)
    requires Kept(s) && i < WINDOW / 4
    ensures NotStranded(s.(reg := s.reg[i := v]))
            <==> !(i == MAC_CR / 4 && Bit(v, 0x4) && OnlyRxOff(s))
  {
    var s1 := s.(reg := s.reg[i := v]);
    if i == MAC_CR / 4 {
      assert s1.RxOn() <==> Bit(v, 0x4);
    } else {
      assert s1.RxOn() <==> s.RxOn();
    }
  }

  lemma MacCrKeeps(s: Nic, val: Word)
    requires Kept(s)
    ensures Kept(WriteReg(s, MAC_CR, val))
  {
    RegisterKeeps(s, MAC_CR / 4, val);
    if Bit(val, 0x4) {
      FlushSound(s.(reg := s.reg[MAC_CR / 4 := val]));
    }
  }

  lemma LiteResetKeeps(s: Nic)
    requires Kept(s)
    ensures Kept(LiteReset(s))
  {
    assert LiteReset(s).reg[MAC_CR / 4] == 0;
  }

  lemma WriteKeeps(s: Nic, off: nat, val: Word)
    requires Kept(s) && off < WINDOW
    ensures Kept(WriteReg(s, off, val)) <==> !(SilentRxOn(Write(off, val)) && OnlyRxOff(s))
  {
    if off == MAC_CR {
      MacCrKeeps(s, val);
    } else if off == HW_CFG && Bit(val, 0x8) {
      LiteResetKeeps(s);
    } else {
      RegisterKeeps(s, off / 4, Stored(s.reg[off / 4], off, val));
    }
  }

  lemma OutKeeps(s: Nic, data: seq<Byte>)
    requires Kept(s) && Possible(Out(data))
    ensures Kept(HandleOut(s, data))
  {
    SlackSuffices(s.out, data, s.TxOn());
  }

  /**
   * Every event keeps the receive bytes conserved and the transmit buffer within its slack. It also
   * keeps a waiting frame from being stranded, with one exception: a write to one of the three
   * unaligned indices that share MAC_CR's word turns reception on without flushing the backend.
   */
  lemma EveryEventKeeps(s: Nic, e: Event)
    requires Kept(s) && Possible(e)
    ensures Kept(Step(s, e)) <==> !(SilentRxOn(e) && OnlyRxOff(s))
  {
    match e
    case Out(data) => OutKeeps(s, data);
    case In(p) => InKeeps(s, p);
    case CancelIn(id) =>
    case Network(f) => NetworkKeeps(s, f);
    case Write(off, val) => WriteKeeps(s, off, val);
    case Reset(_, _) =>
  }

  // ---- runs ----

  /** A NIC as it is made: registers and buffers clear, nothing sent or waiting. */
  function Fresh(configured: bool, mps: PacketSize): (s: Nic)
    ensures s.WellFormed()
  {
    Nic(configured, mps, seq(WINDOW / 4, _ => 0), [], [], Rx([], 0, None, false, [], []), [], false)
  }

  lemma FreshIsKept(configured: bool, mps: PacketSize)
    ensures Kept(Fresh(configured, mps))
  {
    assert Blocks([]) == [];
  }

  lemma SilentWriteStrands(s: Nic, off: nat, val: Word)
    requires Kept(s) && off < WINDOW && SilentRxOn(Write(off, val)) && OnlyRxOff(s)
    ensures !NotStranded(WriteReg(s, off, val))
  {
    RegisterKeeps(s, off / 4, val);
  }

  lemma FreshHoldsBack(s: Nic, mps: PacketSize, f: Frame)
    requires s == Fresh(true, mps)
    ensures Kept(Arrive(s, f)) && OnlyRxOff(Arrive(s, f))
  {
    FreshIsKept(true, mps);
    NetworkKeeps(s, f);
    assert !CanReceive(s);
  }

  /**
   * The exception is within reach: a frame that comes in before reception is on waits in the
   * backend, and turning reception on through index 0x101 leaves it there with nothing to flush it.
   */
  lemma StrandingIsReachable(s: Nic, mps: PacketSize, f: Frame, val: Word)
    requires s == Fresh(true, mps) && val == 0x4
    ensures Kept(Arrive(s, f)) && !NotStranded(WriteReg(Arrive(s, f), MAC_CR + 1, val))
  {
    FreshHoldsBack(s, mps, f);
    SilentWriteStrands(Arrive(s, f), MAC_CR + 1, val);
  }

  predicate AllPossible(es: seq<Event>) {
    forall e :: e in es ==> Possible(e)
  }

  /** No event of the run turns reception on silently while frames wait. */
  ghost predicate NeverStrands(s: Nic, es: seq<Event>)
    requires Kept(s) && AllPossible(es)
    decreases es
  {
    es == [] ||
      (!(SilentRxOn(es[0]) && OnlyRxOff(s)) &&
        (EveryEventKeeps(s, es[0]);
         NeverStrands(Step(s, es[0]), es[1..])))
  }

  /** What every event keeps holds in every state of the run. */
  ghost predicate KeptThroughout(s: Nic, es: seq<Event>)
    requires AllPossible(es)
    decreases es
  {
    Kept(s) && (es == [] || KeptThroughout(Step(s, es[0]), es[1..]))
  }

  /** A run keeps received bytes, transmit slack and waiting frames throughout exactly if it never strands. */
  lemma {:induction false} RunsKeep(s: Nic, es: seq<Event>)
    requires Kept(s) && AllPossible(es)
    ensures KeptThroughout(s, es) <==> NeverStrands(s, es)
    decreases es
  {
    if es != [] {
      EveryEventKeeps(s, es[0]);
      if Kept(Step(s, es[0])) {
        RunsKeep(Step(s, es[0]), es[1..]);
      }
    }
  }

  function Run(s: Nic, es: seq<Event>): (t: Nic)
    requires Kept(s) && AllPossible(es) && NeverStrands(s, es)
    ensures Kept(t)
    decreases es
  {
    if es == [] then s
    else
      EveryEventKeeps(s, es[0]);
      Run(Step(s, es[0]), es[1..])
  }
}
