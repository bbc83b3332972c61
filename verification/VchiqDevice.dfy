/**
 * The VCHIQ peer as it works in place: BCM2835MboxVchiqState and the guest memory it shares
 * (files/qemu-riscos-raspi.patch). Every method is one step of the model in Vchiq.
 */
module VchiqDevice {
  import opened Bytes
  import opened GuestMemory
  import opened Vchiq

  const MBOX_AS_DATA := 0
  const DBELL_VC_TO_ARM := 0
  const DBELL_ARM_TO_VC := 8

  /** Draining from w0 has consumed n messages and reached w: what is left to do gives the whole. */
  ghost predicate DrainedUpTo(w0: World, tx: Word, limit: nat, w: World, replied: bool, n: nat) {
    n <= limit &&
      var r := DrainFrom(DEVICE, w, tx, limit - n);
      DrainFrom(DEVICE, w0, tx, limit) == Drained(r.w, replied || r.replied, n + r.count)
  }

  /** The drain loop is over. */
  ghost predicate DrainedAll(w0: World, tx: Word, limit: nat, w: World, replied: bool, n: nat) {
    DrainFrom(DEVICE, w0, tx, limit) == Drained(w, replied, n)
  }

  ghost predicate Stuck(w: World) {
    IsOpen(NextMsg(w)) && !HasRoom(w.d, 0)
  }

  lemma StartDraining(w: World, tx: Word, limit: nat)
    ensures DrainedUpTo(w, tx, limit, w, false, 0)
  {
  }

  lemma TakeOne(w0: World, tx: Word, limit: nat, w: World, replied: bool, n: nat)
    requires DrainedUpTo(w0, tx, limit, w, replied, n) && w.d.rxPos != tx && n < limit && !Stuck(w)
    ensures DrainedUpTo(w0, tx, limit, Consume(w, NextMsg(w)), replied || IsOpen(NextMsg(w)), n + 1)
  {
  }

  lemma StopDraining(w0: World, tx: Word, limit: nat, w: World, replied: bool, n: nat)
    requires DrainedUpTo(w0, tx, limit, w, replied, n) && (w.d.rxPos == tx || n == limit || Stuck(w))
    ensures DrainedAll(w0, tx, limit, w, replied, n)
  {
  }

  /** Filling the master's queue has reached entry i. */
  ghost predicate FilledUpTo(mem0: Memory, g: Geometry, i: nat, mem: Memory)
    requires g.slotLast < TWO32 - 1
  {
    FillQueue(mem0, g, 0) == FillQueue(mem, g, i)
  }

  lemma StoreIsFourBytes(mem: Memory, a: nat, w: Word, mem': Memory)
    requires a + 4 <= |mem| == |mem'|
    requires forall b :: 0 <= b < |mem| && (b < a || a + 4 <= b) ==> mem'[b] == mem[b]
    requires mem'[a] == w % 0x100 && mem'[a + 1] == w / 0x100 % 0x100
    requires mem'[a + 2] == w / 0x100 / 0x100 % 0x100 && mem'[a + 3] == w / 0x100 / 0x100 / 0x100 % 0x100
    ensures mem' == Store(mem, a, w)
  {
    StoreWordBytes(mem, a, w);
    forall b | 0 <= b < |mem| ensures mem'[b] == Store(mem, a, w)[b] {
      if b < a || a + 4 <= b {
        StoreBytesElsewhere(mem, a, 4, w, b);
      }
    }
  }

  class Peer {
    var active: bool
    var slotZero: Word
    var perSide: Word
    var master: Word
    var slave: Word
    var slotFirst: Word
    var slotLast: Word
    var txPos: Word
    var rxPos: Word
    var doorbell: Word
    var irq: bool
    const ram: array<Byte>

    ghost function Shape(): Geometry
      reads this
    {
      Geometry(slotZero, perSide, master, slave, slotFirst, slotLast)
    }

    ghost function View(): World
      reads this, ram
    {
      World(Dev(active, Shape(), txPos, rxPos, doorbell), ram[..])
    }

    constructor (ram: array<Byte>)
      ensures this.ram == ram && View() == World(RESET_DEV, ram[..])
    {
      this.ram := ram;
      active, slotZero, perSide, master, slave, slotFirst, slotLast := false, 0, 0, 0, 0, 0, 0;
      txPos, rxPos, doorbell, irq := 0, 0, 0, false;
    }

    /** bcm2835_mbox_vchiq_reset: everything but the interrupt line and the memory */
    method Reset()
      modifies this
      ensures View() == World(RESET_DEV, old(ram[..])) && irq == old(irq)
    {
      active, slotZero, perSide, master, slave, slotFirst, slotLast := false, 0, 0, 0, 0, 0, 0;
      txPos, rxPos, doorbell := 0, 0, 0;
    }

    method Ldl(addr: Word) returns (w: Word)
      ensures w == Load(ram[..], addr)
    {
      if addr + 4 <= ram.Length {
        w := (ram[addr] as int) + 0x100 * (ram[addr + 1] as int)
             + 0x1_0000 * (ram[addr + 2] as int) + 0x100_0000 * (ram[addr + 3] as int);
      } else {
        w := 0;
      }
    }

    method Stl(addr: Word, w: Word)
      modifies ram
      ensures ram[..] == Store(old(ram[..]), addr, w)
    {
      if addr + 4 <= ram.Length {
        ghost var mem := ram[..];
        ram[addr], ram[addr + 1] := w % 0x100, w / 0x100 % 0x100;
        ram[addr + 2], ram[addr + 3] := w / 0x100 / 0x100 % 0x100, w / 0x100 / 0x100 / 0x100 % 0x100;
        StoreIsFourBytes(mem, addr, w, ram[..]);
      }
    }

    /** Position pos of the stream whose shared state is at state, through the side's slot queue. */
    method Locate(state: Word, pos: Word) returns (header: Word)
      ensures header == HeaderAt(Shape(), ram[..], state, pos)
    {
      var index := Index(pos / SLOT_SIZE, perSide);
      var slot := Ldl(Add(state, (SS_SLOT_QUEUE + 4 * index) % TWO32));
      header := Add(Add(slotZero, Mul(slot, SLOT_SIZE)), pos % SLOT_SIZE);
    }

    /** vchiq_queue_message */
    method QueueMessage(id: Word, size: Word) returns (ok: bool)
      modifies this`txPos, ram
      ensures ok == HasRoom(old(View()).d, size)
      ensures View() == if ok then Queue(old(View()), id, size) else old(View())
    {
      var streamSlot, offset := txPos / SLOT_SIZE, txPos % SLOT_SIZE;
      if Add(offset, Stride(size)) > SLOT_SIZE {
        return false;
      }
      if Add(slotFirst, streamSlot) > slotLast {
        return false;
      }
      var header := Locate(master, txPos);
      Stl(header, id);
      Stl(Add(header, 4), size);
      txPos := Add(txPos, Stride(size));
      Stl(Add(master, SS_TX_POS), txPos);
      ok := true;
    }

    /** vchiq_ring_arm_doorbell */
    method RingArm()
      modifies this`doorbell, this`irq, ram
      ensures View() == Ring(old(View())) && irq
    {
      Stl(Add(slave, SS_TRIGGER_FIRED), 1);
      if doorbell / HAVE_MESSAGES % 2 == 0 {
        doorbell := doorbell + HAVE_MESSAGES;
      }
      irq := true;
    }

    /** One turn of the drain loop; it stops at an OPEN there is no room to refuse. */
    method TakeMessage() returns (go: bool, replied: bool)
      modifies this`txPos, this`rxPos, ram
      ensures go == !Stuck(old(View())) && replied == (go && IsOpen(NextMsg(old(View()))))
      ensures View() == if go then Consume(old(View()), NextMsg(old(View()))) else old(View())
    {
      var header := Locate(slave, rxPos);
      var id := Ldl(header);
      var size := Ldl(Add(header, 4));
      assert Msg(id, size) == NextMsg(View());
      replied := MsgType(id) == MSG_OPEN;
      if replied {
        var ok := QueueMessage(MakeMsg(MSG_CLOSE, 0, SourcePort(id)), 0);
        if !ok {
          return false, false;
        }
      }
      rxPos := Add(rxPos, Stride(size));
      go := true;
    }

    method DrainLoop(slaveTx: Word, limit: nat) returns (replied: bool, ghost n: nat)
      modifies this`txPos, this`rxPos, ram
      ensures DrainedAll(old(View()), slaveTx, limit, View(), replied, n)
    {
      var guard := 0;
      replied, n := false, 0;
      StartDraining(View(), slaveTx, limit);
      while rxPos != slaveTx
        invariant guard == n <= limit
        invariant DrainedUpTo(old(View()), slaveTx, limit, View(), replied, n)
        decreases limit - guard
      {
        guard := guard + 1;
        if guard > limit {
          break;
        }
        ghost var w := View();
        var go, answered := TakeMessage();
        if !go {
          break;
        }
        TakeOne(old(View()), slaveTx, limit, w, replied, n);
        n := n + 1;
        replied := replied || answered;
      }
      StopDraining(old(View()), slaveTx, limit, View(), replied, n);
    }

    /** vchiq_drain: whatever memory holds, at most limit messages are consumed */
    method DrainUpTo(limit: nat)
      modifies this`txPos, this`rxPos, this`doorbell, this`irq, ram
      ensures View() == if active then Drain(DEVICE, old(View()), limit).w else old(View())
      ensures irq == (old(irq) || (active && Drain(DEVICE, old(View()), limit).replied))
    {
      if !active {
        return;
      }
      Stl(Add(master, SS_TRIGGER_FIRED), 0);
      ghost var w := View();
      var slaveTx := Ldl(Add(slave, SS_TX_POS));
      assert slaveTx == Published(w);
      var replied, n := DrainLoop(slaveTx, limit);
      if replied {
        RingArm();
      }
    }

    /** bcm2835_vchiq_dbell_write */
    method WriteDoorbell(offset: nat)
      modifies this`txPos, this`rxPos, this`doorbell, this`irq, ram
      ensures View() == if active && offset == DBELL_ARM_TO_VC
                        then Drain(DEVICE, old(View()), MAX_MESSAGES).w else old(View())
      ensures irq == (old(irq) || (active && offset == DBELL_ARM_TO_VC
                                   && Drain(DEVICE, old(View()), MAX_MESSAGES).replied))
    {
      if offset == DBELL_ARM_TO_VC {
        DrainUpTo(MAX_MESSAGES);
      }
    }

    /** bcm2835_vchiq_dbell_read: reading the VideoCore's doorbell clears it */
    method ReadDoorbell(offset: nat) returns (bits: Word)
      modifies this`doorbell, this`irq
      ensures bits == if offset == DBELL_VC_TO_ARM then old(doorbell) else 0
      ensures doorbell == (if offset == DBELL_VC_TO_ARM then 0 else old(doorbell))
      ensures irq == (old(irq) && offset != DBELL_VC_TO_ARM)
    {
      bits := 0;
      if offset == DBELL_VC_TO_ARM {
        bits, doorbell, irq := doorbell, 0, false;
      }
    }

    method FillMasterQueue()
      requires slotLast < TWO32 - 1
      modifies ram
      ensures ram[..] == FillQueue(old(ram[..]), Shape(), 0)
    {
      var i := 0;
      while slotFirst + i <= slotLast
        invariant FilledUpTo(old(ram[..]), Shape(), i, ram[..])
        decreases slotLast + 1 - slotFirst - i
      {
        Stl(Add(master, (SS_SLOT_QUEUE + 4 * i) % TWO32), slotFirst + i);
        i := i + 1;
      }
    }

    method ReadGeometry(base: Word, size: Word, perSide: Word)
      requires perSide == Load(ram[..], Add(base, SZ_MAX_SLOTS_PER_SIDE)) && size == BothStates(ram[..], base) / 2
      modifies this`slotZero, this`perSide, this`master, this`slave, this`slotFirst, this`slotLast
      ensures Shape() == GeometryAt(ram[..], base)
    {
      slotZero, this.perSide := base, perSide;
      master := Add(base, HEADER_SIZE);
      slave := Add(master, size);
      slotFirst := Ldl(Add(master, SS_SLOT_FIRST));
      slotLast := Ldl(Add(master, SS_SLOT_LAST));
    }

    /** The checks on slot zero; size is that of one shared state. */
    method CheckSlotZero(base: Word) returns (ok: bool, size: Word, perSide: Word)
      ensures ok == Plausible(ram[..], base)
      ensures ok ==> size == BothStates(ram[..], base) / 2
      ensures ok ==> perSide == Load(ram[..], Add(base, SZ_MAX_SLOTS_PER_SIDE))
    {
      ok, size, perSide := false, 0, 0;
      var magic := Ldl(base);
      if magic != MAGIC {
        return;
      }
      var zeroSize := Ldl(Add(base, SZ_SLOT_ZERO_SIZE));
      var slotSize := Ldl(Add(base, SZ_SLOT_SIZE));
      var maxSlots := Ldl(Add(base, SZ_MAX_SLOTS));
      perSide := Ldl(Add(base, SZ_MAX_SLOTS_PER_SIDE));
      if slotSize != SLOT_SIZE || perSide == 0 || perSide > maxSlots
         || zeroSize < Add(HEADER_SIZE, Mul(SLOT_INFO_SIZE, maxSlots)) {
        return;
      }
      size := Sub(Sub(zeroSize, HEADER_SIZE), Mul(SLOT_INFO_SIZE, maxSlots));
      if size % 2 == 1 {
        return;
      }
      size := size / 2;
      ok := size >= Add(SS_SLOT_QUEUE, Mul(4, perSide));
    }

    /** The last part of vchiq_handover: the master's half is filled in and the CONNECT sent. */
    method OpenChannel()
      requires slotFirst <= slotLast < TWO32 - 1
      modifies this`active, this`txPos, this`rxPos, this`doorbell, this`irq, ram
      ensures View() == Connect(World(Dev(true, Shape(), 0, 0, old(doorbell)),
                                      Arm(FillQueue(old(ram[..]), Shape(), 0), Shape())))
      ensures irq
    {
      FillMasterQueue();
      Stl(Add(master, SS_TRIGGER_ARMED), 1);
      Stl(Add(master, SS_RECYCLE_ARMED), 1);
      Stl(Add(master, SS_INITIALISED), 1);
      txPos, rxPos, active := 0, 0, true;
      var ok := QueueMessage(CONNECT, 0);
      if ok {
        RingArm();
      }
    }

    /** vchiq_handover, where its loop ends */
    method TakeHandover(base: Word)
      requires HandoverEnds(View(), base)
      modifies this, ram
      ensures View() == Handover(old(View()), base)
      ensures irq == (old(irq) || Accepts(old(View()), base))
    {
      if active {
        return;
      }
      var ok, size, slots := CheckSlotZero(base);
      if !ok {
        return;
      }
      ReadGeometry(base, size, slots);
      if slotLast < slotFirst || slotLast - slotFirst >= perSide {
        return;
      }
      OpenChannel();
    }

    /** bcm2835_mbox_vchiq_write: the low four bits are the channel number */
    method WriteMailbox(offset: nat, value: Word)
      requires offset == MBOX_AS_DATA ==> HandoverEnds(View(), value / 16 * 16)
      modifies this, ram
      ensures View() == if offset == MBOX_AS_DATA then Handover(old(View()), value / 16 * 16) else old(View())
      ensures irq == (old(irq) || (offset == MBOX_AS_DATA && Accepts(old(View()), value / 16 * 16)))
    {
      if offset == MBOX_AS_DATA {
        TakeHandover(value / 16 * 16);
      }
    }
  }
}
