/**
 * The NIC as it works in place: SMSCState with its buffers, registers and parked packet
 * (files/qemu-riscos-raspi.patch). Every method is one step of the machine in SmscNic.
 */
module SmscDevice {
  import opened Bytes
  import opened SmscTx
  import opened SmscNic

  /** Subtraction of unsigned 32-bit counters. */
  function SubWord(a: Word, b: Word): Word {
    if a >= b then a - b else a - b + 0x1_0000_0000
  }

  /** Parsing s has reached pos: what it sends in all is what has been sent and what the rest sends. */
  ghost predicate ParsedUpTo(s: seq<Byte>, on: bool, pos: nat, before: seq<Frame>, sent: seq<Frame>) {
    pos <= |s| && Transmit(s, on).After(before) == Transmit(s[pos..], on).After(sent)
  }

  /** Parsing s is over, with left remaining. */
  ghost predicate Parsed(s: seq<Byte>, on: bool, left: seq<Byte>, before: seq<Frame>, sent: seq<Frame>) {
    sent == before + Transmit(s, on).frames && left == Transmit(s, on).left
  }

  lemma StartParsing(s: seq<Byte>, on: bool, before: seq<Frame>)
    ensures ParsedUpTo(s, on, 0, before, before)
  {
    assert s[0..] == s;
  }

  /** What the block at pos sends. */
  function SentAt(s: seq<Byte>, on: bool, pos: nat, h: Header): seq<Frame>
    requires h.csum <= h.length && pos + h.Need() <= |s|
  {
    if on then [OnWire(s[pos + 8 + h.offset + h.csum..pos + h.Need()], h.noPadding)] else []
  }

  lemma NotOverrun(whole: Transmitted, rest: Transmitted, before: seq<Frame>, sent: seq<Frame>)
    requires whole.After(before) == rest.After(sent) && whole.verdict != Overrun
    ensures rest.verdict != Overrun
  {
  }

  lemma PassBlock(s: seq<Byte>, on: bool, pos: nat, before: seq<Frame>, sent: seq<Frame>, h: Header)
    requires ParsedUpTo(s, on, pos, before, sent) && |s| - pos >= 8
    requires Transmit(s, on).verdict != Overrun
    requires h == Head(s[pos..]) && h.Plausible() && pos + h.Need() <= |s|
    ensures pos + h.BlockSize() <= |s|
    ensures ParsedUpTo(s, on, pos + h.BlockSize(), before, sent + SentAt(s, on, pos, h))
  {
    NotOverrun(Transmit(s, on), Transmit(s[pos..], on), before, sent);
    OneBlockAt(s, on, pos, h);
    Chain(Transmit(s, on), Transmit(s[pos..], on), Transmit(s[pos + h.BlockSize()..], on),
          before, sent, SentAt(s, on, pos, h));
  }

  lemma OneBlockTo(rest: seq<Byte>, on: bool, h: Header, next: seq<Byte>, now: seq<Frame>)
    requires |rest| >= 8 && h == Head(rest) && h.Plausible() && h.Need() <= |rest|
    requires h.BlockSize() <= |rest| && next == rest[h.BlockSize()..]
    requires now == if on then [FrameIn(rest, h)] else []
    ensures Transmit(rest, on) == Transmit(next, on).After(now)
  {
  }

  lemma BlockFits(rest: seq<Byte>, on: bool, h: Header)
    requires |rest| >= 8 && h == Head(rest) && h.Plausible() && h.Need() <= |rest|
    requires Transmit(rest, on).verdict != Overrun
    ensures h.BlockSize() <= |rest|
  {
  }

  lemma OneBlockAt(s: seq<Byte>, on: bool, pos: nat, h: Header)
    requires |s| - pos >= 8 && h == Head(s[pos..]) && h.Plausible() && pos + h.Need() <= |s|
    requires Transmit(s[pos..], on).verdict != Overrun
    ensures pos + h.BlockSize() <= |s|
    ensures Transmit(s[pos..], on) == Transmit(s[pos + h.BlockSize()..], on).After(SentAt(s, on, pos, h))
  {
    BlockFits(s[pos..], on, h);
    SentAtIs(s, on, pos, h);
    SliceOfRest(s, pos, h.BlockSize(), |s| - pos);
    OneBlockTo(s[pos..], on, h, s[pos + h.BlockSize()..], SentAt(s, on, pos, h));
  }

  lemma Chain(whole: Transmitted, rest: Transmitted, next: Transmitted,
              before: seq<Frame>, sent: seq<Frame>, now: seq<Frame>)
    requires whole.After(before) == rest.After(sent) && rest == next.After(now)
    ensures whole.After(before) == next.After(sent + now)
  {
    AfterTwice(next, sent, now);
  }

  lemma SentAtIs(s: seq<Byte>, on: bool, pos: nat, h: Header)
    requires h.csum <= 4 && h.Plausible() && pos + h.Need() <= |s|
    ensures SentAt(s, on, pos, h) == if on then [FrameIn(s[pos..], h)] else []
  {
    SliceOfRest(s, pos, 8 + h.offset + h.csum, h.Need());
  }

  lemma SliceOfRest(s: seq<Byte>, pos: nat, from: nat, to: nat)
    requires from <= to && pos + to <= |s|
    ensures s[pos..][from..to] == s[pos + from..pos + to]
    ensures pos + to == |s| ==> s[pos..][from..] == s[pos + from..]
  {
  }

  lemma StopParsing(s: seq<Byte>, on: bool, pos: nat, before: seq<Frame>, sent: seq<Frame>)
    requires ParsedUpTo(s, on, pos, before, sent)
    requires |s| - pos >= 8 ==> Head(s[pos..]).Plausible() && |s| - pos < Head(s[pos..]).Need()
    ensures Parsed(s, on, s[pos..], before, sent)
  {
    assert sent + [] == sent;
  }

  lemma WaitForRest(s: seq<Byte>, on: bool, pos: nat, before: seq<Frame>, sent: seq<Frame>, h: Header)
    requires ParsedUpTo(s, on, pos, before, sent) && |s| - pos >= 8 && h == Head(s[pos..])
    requires h.Plausible() && |s| - pos < h.Need()
    ensures Parsed(s, on, s[pos..], before, sent)
  {
    StopParsing(s, on, pos, before, sent);
  }

  lemma DropAll(s: seq<Byte>, on: bool, pos: nat, before: seq<Frame>, sent: seq<Frame>, h: Header)
    requires ParsedUpTo(s, on, pos, before, sent) && |s| - pos >= 8 && h == Head(s[pos..]) && !h.Plausible()
    ensures Parsed(s, on, [], before, sent)
  {
    assert sent + [] == sent;
  }

  lemma HeadAt(s: seq<Byte>, pos: nat)
    requires pos + 8 <= |s|
    ensures Head(s[pos..]) == HeaderOf(WordAt(s, pos), WordAt(s, pos + 4))
  {
  }

  lemma BlocksAdvance(h: Header)
    ensures h.BlockSize() >= 8
  {
  }

  datatype Turn = Next(pos: nat) | Rest | Drop

  class Smsc {
    const configured: bool
    const mps: PacketSize
    const reg: array<Word>
    const outBuf: array<Byte>
    const inBuf: array<Byte>
    var outLen: Word
    var inLen: Word
    var inPtr: Word
    var inPkt: Option<Packet>
    var flushRx: bool
    // the network backend: frames it was given, frames it still holds
    var sent: seq<Frame>
    var queue: seq<Frame>
    var held: bool
    ghost var delivered: seq<Byte>
    ghost var accepted: seq<Frame>

    ghost predicate Valid()
      reads this
    {
      && reg.Length == WINDOW / 4 && outBuf.Length == BUF_SIZE && inBuf.Length == BUF_SIZE
      && outBuf != inBuf && outLen <= BUF_SIZE && inLen <= BUF_SIZE
    }

    ghost function View(): Nic
      requires Valid()
      reads this, reg, outBuf, inBuf
    {
      Nic(configured, mps, reg[..], outBuf[..outLen], sent,
          Rx(inBuf[..inLen], inPtr, inPkt, flushRx, delivered, accepted), queue, held)
    }

    constructor (configured: bool, mps: PacketSize)
      ensures Valid() && fresh(reg) && fresh(outBuf) && fresh(inBuf)
      ensures View() == Fresh(configured, mps)
    {
      this.configured, this.mps := configured, mps;
      reg := new Word[WINDOW / 4](_ => 0);
      outBuf := new Byte[BUF_SIZE](_ => 0);
      inBuf := new Byte[BUF_SIZE](_ => 0);
      outLen, inLen, inPtr, inPkt, flushRx := 0, 0, 0, None, false;
      sent, queue, held := [], [], false;
      delivered, accepted := [], [];
    }

    method TxEnabled() returns (on: bool)
      requires Valid()
      ensures on == View().TxOn()
    {
      on := Bit(reg[TX_CFG / 4], 0x4) && Bit(reg[MAC_CR / 4], 0x8);
    }

    method ReadOut(pos: nat) returns (w: Word)
      requires Valid() && pos + 4 <= outLen
      ensures w == WordAt(outBuf[..outLen], pos)
    {
      w := (outBuf[pos] as int) + 0x100 * (outBuf[pos + 1] as int)
           + 0x1_0000 * (outBuf[pos + 2] as int) + 0x100_0000 * (outBuf[pos + 3] as int);
    }

    /** smsc_bulk_out, for contents that do not carry the position past the end. */
    method BulkOut(p: seq<Byte>)
      requires Valid()
      requires OutPacket(View().out, p, View().TxOn()).verdict != Overrun
      modifies this`outLen, this`sent, outBuf
      ensures Valid() && View() == HandleOut(old(View()), p)
    {
      ghost var room := BUF_SIZE - outLen;
      ghost var taken := if |p| < room then p else p[..room];
      var on := TxEnabled();
      Append(p);
      Parse(on);
    }

    /** As much of a packet as fits goes behind what is buffered. */
    method Append(p: seq<Byte>)
      requires Valid()
      modifies this`outLen, outBuf
      ensures Valid()
      ensures var room := BUF_SIZE - old(outLen);
              outBuf[..outLen] == old(outBuf[..outLen]) + if |p| < room then p else p[..room]
    {
      var sz := BUF_SIZE - outLen;
      if sz > |p| {
        sz := |p|;
      }
      forall i | 0 <= i < sz {
        outBuf[outLen + i] := p[i];
      }
      outLen := outLen + sz;
    }

    /** The frame at pos, as it goes on the wire. */
    method FrameFrom(start: nat, end: nat, noPadding: bool) returns (frame: Frame)
      requires Valid() && start <= end <= outLen
      ensures frame == OnWire(outBuf[..outLen][start..end], noPadding)
    {
      frame := outBuf[start..end];
      assert frame == outBuf[..outLen][start..end];
      if |frame| < RUNT_PAD && !noPadding {
        frame := frame + Zeros(RUNT_PAD - |frame|);
      }
    }

    method HeaderAt(pos: nat) returns (h: Header)
      requires Valid() && pos + 8 <= outLen
      ensures h == Head(outBuf[..outLen][pos..])
    {
      var cmdA := ReadOut(pos);
      var cmdB := ReadOut(pos + 4);
      HeadAt(outBuf[..outLen], pos);
      h := HeaderOf(cmdA, cmdB);
    }

    method SendBlock(pos: nat, h: Header, on: bool)
      requires Valid() && h.Plausible() && h.csum <= 4 && pos + h.Need() <= outLen
      modifies this`sent
      ensures sent == old(sent) + SentAt(outBuf[..outLen], on, pos, h)
    {
      if h.length > h.csum && on {
        var frame := FrameFrom(pos + 8 + h.offset + h.csum, pos + 8 + h.offset + h.length, h.noPadding);
        sent := sent + [frame];
      }
    }

    method PassOver(pos: nat, h: Header, on: bool, ghost before: seq<Frame>)
      requires Valid() && pos + 8 <= outLen
      requires h == Head(outBuf[..outLen][pos..]) && h.Plausible() && pos + h.Need() <= outLen
      requires ParsedUpTo(outBuf[..outLen], on, pos, before, sent)
      requires Transmit(outBuf[..outLen], on).verdict != Overrun
      modifies this`sent
      ensures pos < pos + h.BlockSize() <= outLen
      ensures ParsedUpTo(outBuf[..outLen], on, pos + h.BlockSize(), before, sent)
    {
      BlocksAdvance(h);
      PassBlock(outBuf[..outLen], on, pos, before, sent, h);
      SendBlock(pos, h, on);
    }

    /** What the header at pos calls for: give the buffer up, wait for the rest, or pass the block. */
    method Judge(pos: nat, h: Header) returns (turn: Turn)
      requires Valid() && pos + 8 <= outLen
      ensures match turn
              case Drop => !h.Plausible()
              case Rest => h.Plausible() && outLen - pos < h.Need()
              case Next(p) => h.Plausible() && pos + h.Need() <= outLen && p == pos + h.BlockSize()
    {
      if h.length < MIN_FRAME || h.length > MAX_FRAME + 4 {
        return Drop;
      }
      if SubWord(outLen, pos) < 8 + h.offset + h.length {
        return Rest;
      }
      turn := Next(pos + h.BlockSize());
    }

    /** One turn of the parsing loop: send the block at pos, wait for its rest, or give up. */
    method TakeBlock(pos: nat, on: bool, ghost before: seq<Frame>) returns (turn: Turn)
      requires Valid() && pos + 8 <= outLen
      requires ParsedUpTo(outBuf[..outLen], on, pos, before, sent)
      requires Transmit(outBuf[..outLen], on).verdict != Overrun
      modifies this`sent
      ensures var s := outBuf[..outLen];
              match turn
              case Next(p) => pos < p <= outLen && ParsedUpTo(s, on, p, before, sent)
              case Rest => Parsed(s, on, s[pos..], before, sent)
              case Drop => Parsed(s, on, [], before, sent)
    {
      ghost var s := outBuf[..outLen];
      var h := HeaderAt(pos);
      turn := Judge(pos, h);
      match turn
      case Drop => DropAll(s, on, pos, before, sent, h);
      case Rest => WaitForRest(s, on, pos, before, sent, h);
      case Next(_) => PassOver(pos, h, on, before);
    }

    /** Parse and send whole blocks, and move the remainder to the front of the buffer. */
    method Parse(on: bool)
      requires Valid()
      requires Transmit(outBuf[..outLen], on).verdict != Overrun
      modifies this`outLen, this`sent, outBuf
      ensures Valid()
      ensures Parsed(old(outBuf[..outLen]), on, outBuf[..outLen], old(sent), sent)
    {
      ghost var s := outBuf[..outLen];
      var pos: Word, turn := 0, Next(0);
      StartParsing(s, on, sent);
      while turn.Next? && SubWord(outLen, pos) >= 8
        invariant pos <= outLen && outBuf[..outLen] == s
        invariant match turn
                  case Next(_) => ParsedUpTo(s, on, pos, old(sent), sent)
                  case Rest => Parsed(s, on, s[pos..], old(sent), sent)
                  case Drop => Parsed(s, on, [], old(sent), sent)
        decreases turn.Next?, outLen - pos
        modifies this`sent
      {
        turn := TakeBlock(pos, on, old(sent));
        if turn.Next? {
          pos := turn.pos;
        }
      }
      if turn.Drop? {
        outLen := 0;
      } else {
        if turn.Next? {
          StopParsing(s, on, pos, old(sent), sent);
        }
        MoveDown(pos);
      }
    }

    method MoveDown(pos: Word)
      requires Valid() && pos <= outLen
      modifies this`outLen, outBuf
      ensures Valid() && outBuf[..outLen] == old(outBuf[..outLen])[pos..]
    {
      if pos != 0 {
        outLen := outLen - pos;
        forall i | 0 <= i < outLen {
          outBuf[i] := outBuf[pos + i];
        }
      }
    }

    // ---- receive ----

    ghost function RxView(): Rx
      requires Valid()
      reads this, inBuf
    {
      Rx(inBuf[..inLen], inPtr, inPkt, flushRx, delivered, accepted)
    }

    method ResetBuffer()
      requires Valid()
      modifies this`inLen, this`inPtr, this`flushRx
      ensures Valid() && RxView() == ResetIn(old(RxView()))
    {
      inLen := 0;
      inPtr := 0;
      flushRx := true;
    }

    /** smsc_bulk_in */
    method ServeIn(p: Packet) returns (reply: Reply)
      requires Valid()
      modifies this`inLen, this`inPtr, this`inPkt, this`flushRx, this`delivered
      ensures Valid() && (RxView(), reply) == BulkIn(old(RxView()), mps, p)
    {
      if inPtr > inLen {
        ResetBuffer();
      }
      if inLen == 0 {
        if inPkt.Some? {
          reply := Nak;
        } else {
          inPkt := Some(p);
          reply := Async;
        }
        return;
      }
      var len := inLen - inPtr;
      if len > p.size {
        len := p.size;
      }
      var bytes := inBuf[inPtr..inPtr + len];
      SliceOfSlice(inBuf[..], 0, inLen, inPtr, inPtr + len);
      assert inBuf[..][0..inLen] == inBuf[..inLen];
      reply := Done(bytes);
      delivered := delivered + bytes;
      inPtr := inPtr + len;
      if inPtr >= inLen && (inLen % mps != 0 || len == 0) {
        ResetBuffer();
      }
    }

    /** Status word, frame and zeros into the free receive buffer. */
    method StoreBlock(f: Frame)
      requires Valid() && |f| <= MAX_FRAME
      modifies this`inLen, this`inPtr, inBuf
      ensures Valid() && inBuf[..inLen] == RxBlock(f) && inPtr == 0
    {
      var block := 4 + (|f| + 4 + 3) / 4 * 4;
      var status := WordBytes((|f| + 4) * 0x1_0000 % 0x1_0000_0000);
      forall i | 0 <= i < 4 {
        inBuf[i] := status[i];
      }
      forall i | 0 <= i < |f| {
        inBuf[4 + i] := f[i];
      }
      forall i | 4 + |f| <= i < block {
        inBuf[i] := 0;
      }
      inLen := block;
      inPtr := 0;
    }

    /** smsc_receive */
    method ReceiveFrame(f: Frame) returns (ret: int)
      requires Valid()
      modifies this`inLen, this`inPtr, this`inPkt, this`flushRx, this`delivered, this`accepted, inBuf
      ensures Valid() && (View(), ret) == Receive(old(View()), f)
    {
      if !configured || !Bit(reg[MAC_CR / 4], 0x4) {
        return -1;
      }
      if |f| < MIN_FRAME || |f| > MAX_FRAME {
        return -1;
      }
      if !Accepts(reg[..], f) {
        return -1;
      }
      var block := 4 + (|f| + 4 + 3) / 4 * 4;
      if inLen != 0 || block > BUF_SIZE {
        return 0;
      }
      AcceptFrame(f);
      return |f|;
    }

    /** The frame goes into the free buffer, and on into the parked packet if there is one. */
    method AcceptFrame(f: Frame)
      requires Valid() && inLen == 0 && |f| <= MAX_FRAME
      modifies this`inLen, this`inPtr, this`inPkt, this`flushRx, this`delivered, this`accepted, inBuf
      ensures Valid() && RxView() == TakeIn(old(RxView()), mps, f)
    {
      StoreBlock(f);
      accepted := accepted + [f];
      if inPkt.Some? {
        var p := inPkt.value;
        inPkt := None;
        var _ := ServeIn(p);
      }
    }

    // ---- the backend ----

    /** qemu_flush_queued_packets: deliver queued frames until the NIC answers 0. */
    method FlushQueue()
      requires Valid()
      modifies this, inBuf
      ensures Valid() && View() == Flush(old(View()))
    {
      held := false;
      DrainQueue();
    }

    method DrainQueue()
      requires Valid()
      modifies this, inBuf
      ensures Valid() && View() == Drain(old(View()))
    {
      while queue != []
        invariant Valid()
        invariant Drain(View()) == Drain(old(View()))
        decreases |queue|
      {
        var ret := ReceiveFrame(queue[0]);
        if ret == 0 {
          held := true;
          return;
        }
        queue := queue[1..];
      }
    }

    method FrameArrives(f: Frame)
      requires Valid()
      modifies this, inBuf
      ensures Valid() && View() == Arrive(old(View()), f)
    {
      if held || !(configured && Bit(reg[MAC_CR / 4], 0x4) && inLen == 0) {
        queue := queue + [f];
        return;
      }
      var ret := ReceiveFrame(f);
      DrainQueue();
    }

    // ---- tokens, registers and resets ----

    /** smsc_handle_data for an IN token on endpoint 1 */
    method HandleInToken(p: Packet) returns (reply: Reply)
      requires Valid()
      modifies this, inBuf
      ensures Valid() && View() == HandleIn(old(View()), p)
      ensures reply == BulkIn(old(RxView()), mps, p).1
    {
      reply := ServeIn(p);
      if flushRx {
        flushRx := false;
        FlushQueue();
      }
    }

    method CancelPacket(id: nat)
      requires Valid()
      modifies this`inPkt
      ensures Valid() && View() == Cancel(old(View()), id)
    {
      if inPkt.Some? && inPkt.value.id == id {
        inPkt := None;
      }
    }

    /** smsc_lite_reset */
    method SoftReset()
      requires Valid()
      modifies this, reg
      ensures Valid() && View() == LiteReset(old(View()))
    {
      reg[HW_CFG / 4] := 0;
      reg[TX_CFG / 4] := 0;
      reg[MAC_CR / 4] := 0;
      reg[INT_STS / 4] := 0;
      outLen, inLen, inPtr := 0, 0, 0;
      delivered, accepted := [], [];
    }

    method ClearRegisters()
      requires Valid()
      modifies reg
      ensures reg[..] == seq(WINDOW / 4, _ => 0)
    {
      forall i | 0 <= i < reg.Length {
        reg[i] := 0;
      }
    }

    /** smsc_handle_reset */
    method UsbReset(addrl: Word, addrh: Word)
      requires Valid()
      modifies this, reg
      ensures Valid() && View() == BusReset(old(View()), addrl, addrh)
    {
      ClearRegisters();
      inPkt := None;
      flushRx := false;
      outLen, inLen, inPtr := 0, 0, 0;
      delivered, accepted := [], [];
      reg[ADDRL / 4] := addrl;
      reg[ADDRH / 4] := addrh;
    }

    /** smsc_reg_write */
    method WriteRegister(off: nat, val: Word)
      requires Valid() && off < WINDOW
      modifies this, reg, inBuf
      ensures Valid() && View() == WriteReg(old(View()), off, val)
    {
      if off == HW_CFG && Bit(val, 0x8) {
        SoftReset();
        return;
      }
      reg[off / 4] := Stored(reg[off / 4], off, val);
      if off == MAC_CR && Bit(val, 0x4) {
        FlushQueue();
      }
    }
  }
}
