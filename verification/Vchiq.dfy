/**
 * The VCHIQ peer (bcm2835_mbox_vchiq.c in files/qemu-riscos-raspi.patch): handover of slot zero,
 * the device's message stream, and the draining of the guest's stream over shared memory.
 */
module Vchiq {
  import opened Bytes
  import opened GuestMemory

  const MAGIC := 0x56434849
  const SLOT_SIZE := 4096
  const MSG_CONNECT := 1
  const MSG_OPEN := 2
  const MSG_CLOSE := 4
  const HEADER_SIZE := 32
  const SLOT_INFO_SIZE := 4
  const SS_INITIALISED := 0
  const SS_SLOT_FIRST := 4
  const SS_SLOT_LAST := 8
  const SS_TRIGGER_ARMED := 16
  const SS_TRIGGER_FIRED := 20
  const SS_TX_POS := 28
  const SS_RECYCLE_ARMED := 32
  const SS_SLOT_QUEUE := 72
  const HAVE_MESSAGES := 4
  const MAX_MESSAGES := 256

  // ---- messages ----

  datatype Msg = Msg(id: Word, size: Word)

  function MsgType(id: Word): nat {
    id / 0x100_0000
  }

  function SourcePort(id: Word): nat {
    id / 0x1000 % 0x1000
  }

  function MakeMsg(kind: nat, src: nat, dst: nat): Word
    requires kind < 0x100 && src < 0x1000 && dst < 0x1000
  {
    kind * 0x100_0000 + src * 0x1000 + dst
  }

  /** Type, source and destination can be read back from a message id. */
  lemma MsgFields(kind: nat, src: nat, dst: nat)
    requires kind < 0x100 && src < 0x1000 && dst < 0x1000
    ensures var id := MakeMsg(kind, src, dst);
            MsgType(id) == kind && SourcePort(id) == src && id % 0x1000 == dst
  {
  }

  const CONNECT: Word := MakeMsg(MSG_CONNECT, 0, 0)

  predicate IsOpen(m: Msg) {
    MsgType(m.id) == MSG_OPEN
  }

  /** The refusal of an OPEN: a CLOSE to the port it came from. */
  function CloseFor(m: Msg): Word {
    MakeMsg(MSG_CLOSE, 0, SourcePort(m.id))
  }

  /** Header and payload, rounded up to 8, in 32-bit arithmetic. */
  function Stride(size: Word): Word {
    (size + 15) % TWO32 / 8 * 8
  }

  lemma StrideOfSmall(size: Word)
    requires size < TWO32 - 15
    ensures size + 8 <= Stride(size) <= size + 15 && Stride(size) % 8 == 0
  {
  }

  // ---- the circular index ----

  /** The slot queue index of the k-th slot of a stream, as both sides compute it. */
  function Index(k: nat, perSide: Word): nat {
    BitAnd(k, if perSide == 0 then TWO32 - 1 else perSide - 1)
  }

  predicate PowerOfTwo(n: nat) {
    n == 1 || (n > 1 && n % 2 == 0 && PowerOfTwo(n / 2))
  }

  /** Masking with n - 1 is the identity on every index below n exactly when n is a power of two. */
  lemma {:induction false} MaskIsIndex(n: Word)
    requires n >= 1
    ensures (forall k: nat :: k < n ==> Index(k, n) == k) <==> PowerOfTwo(n)
  {
    if PowerOfTwo(n) {
      forall k: nat | k < n ensures Index(k, n) == k { MaskKeeps(k, n); }
    } else {
      assert n > 1;
      if n % 2 == 1 {
        assert (n - 1) % 2 == 0 && BitAnd(1 / 2, (n - 1) / 2) == 0;
        assert Index(1, n) != 1;
      } else {
        MaskIsIndex(n / 2);
        var k: nat :| k < n / 2 && Index(k, n / 2) != k;
        assert (2 * k) / 2 == k && (n - 1) / 2 == n / 2 - 1;
        assert Index(2 * k, n) != 2 * k;
      }
    }
  }

  lemma {:induction false} MaskKeeps(k: nat, n: Word)
    requires PowerOfTwo(n) && k < n
    ensures Index(k, n) == k
    decreases n
  {
    if n > 1 && k > 0 {
      assert (n - 1) / 2 == n / 2 - 1;
      MaskKeeps(k / 2, n / 2);
    }
  }

  // ---- the device ----

  /** Where the guest's handover put things; slot_size is never anything but SLOT_SIZE. */
  datatype Geometry = Geometry(
    slotZero: Word, perSide: Word, master: Word, slave: Word, slotFirst: Word, slotLast: Word)

  datatype Dev = Dev(active: bool, g: Geometry, txPos: Word, rxPos: Word, doorbell: Word)

  const RESET_DEV: Dev := Dev(false, Geometry(0, 0, 0, 0, 0, 0), 0, 0, 0)

  datatype World = World(d: Dev, mem: Memory)

  /** The word of a slot queue that belongs to position pos of its stream. */
  function QueueEntry(state: Word, perSide: Word, pos: Word): Word {
    Add(state, (SS_SLOT_QUEUE + 4 * Index(pos / SLOT_SIZE, perSide)) % TWO32)
  }

  /** Where position pos of a stream lies, going through its side's slot queue. */
  function HeaderAt(g: Geometry, mem: Memory, state: Word, pos: Word): Word {
    Add(Add(g.slotZero, Mul(Load(mem, QueueEntry(state, g.perSide, pos)), SLOT_SIZE)), pos % SLOT_SIZE)
  }

  predicate HasRoom(d: Dev, size: Word) {
    && Add(d.txPos % SLOT_SIZE, Stride(size)) <= SLOT_SIZE
    && Add(d.g.slotFirst, d.txPos / SLOT_SIZE) <= d.g.slotLast
  }

  /** vchiq_queue_message, when it does not refuse */
  function Queue(w: World, id: Word, size: Word): World {
    var h := HeaderAt(w.d.g, w.mem, w.d.g.master, w.d.txPos);
    var tx := Add(w.d.txPos, Stride(size));
    World(w.d.(txPos := tx),
          Store(Store(Store(w.mem, h, id), Add(h, 4), size), Add(w.d.g.master, SS_TX_POS), tx))
  }

  function Ring(w: World): World {
    World(
      w.d.(doorbell := if w.d.doorbell / HAVE_MESSAGES % 2 == 1 then w.d.doorbell else w.d.doorbell + HAVE_MESSAGES),
      Store(w.mem, Add(w.d.g.slave, SS_TRIGGER_FIRED), 1))
  }

  // ---- draining the guest's stream ----

  function NextMsg(w: World): Msg {
    var h := HeaderAt(w.d.g, w.mem, w.d.g.slave, w.d.rxPos);
    Msg(Load(w.mem, h), Load(w.mem, Add(h, 4)))
  }

  /** One message is answered if it is an OPEN, and passed over. */
  function Consume(w: World, m: Msg): World {
    var w1 := if IsOpen(m) then Queue(w, CloseFor(m), 0) else w;
    World(w1.d.(rxPos := Add(w1.d.rxPos, Stride(m.size))), w1.mem)
  }

  /** The guest's flag is cleared. */
  function Acknowledge(w: World): World {
    World(w.d, Store(w.mem, Add(w.d.g.master, SS_TRIGGER_FIRED), 0))
  }

  /** How far the guest says its stream goes. */
  function Published(w: World): Word {
    Load(w.mem, Add(w.d.g.slave, SS_TX_POS))
  }

  /** What a drain does with a world, step by step, as functions of it. */
  datatype Ops = Ops(
    ack: World -> World, published: World -> Word,
    next: World -> Msg, room: World -> bool, consume: (World, Msg) -> World,
    ring: World -> World)

  const DEVICE: Ops := Ops(Acknowledge, Published, NextMsg, (w: World) => HasRoom(w.d, 0), Consume, Ring)

  /** What a drain leaves, whether it answered anything, and how many messages it consumed. */
  datatype Drained = Drained(w: World, replied: bool, count: nat)

  /** The drain loop with fuel messages to go, looking at the stream up to slaveTx. */
  function DrainFrom(ops: Ops, w: World, slaveTx: Word, fuel: nat): (r: Drained)
    ensures r.count <= fuel
    decreases fuel
  {
    if w.d.rxPos == slaveTx || fuel == 0 then Drained(w, false, 0)
    else
      var m := ops.next(w);
      if IsOpen(m) && !ops.room(w) then Drained(w, false, 0)
      else
        var r := DrainFrom(ops, ops.consume(w, m), slaveTx, fuel - 1);
        Drained(r.w, IsOpen(m) || r.replied, 1 + r.count)
  }

  /** vchiq_drain on an active device, with its limit of messages per call */
  function Drain(ops: Ops, w: World, limit: nat): (r: Drained)
    ensures r.count <= limit
  {
    var w1 := ops.ack(w);
    var r := DrainFrom(ops, w1, ops.published(w1), limit);
    if r.replied then Drained(ops.ring(r.w), true, r.count) else r
  }

  // ---- handover ----

  const SZ_SLOT_ZERO_SIZE := 8
  const SZ_SLOT_SIZE := 12
  const SZ_MAX_SLOTS := 16
  const SZ_MAX_SLOTS_PER_SIDE := 20

  /** Half of what slot zero's size leaves beside its header and slot infos, before halving. */
  function BothStates(mem: Memory, base: Word): Word {
    var infos := Mul(SLOT_INFO_SIZE, Load(mem, Add(base, SZ_MAX_SLOTS)));
    Sub(Sub(Load(mem, Add(base, SZ_SLOT_ZERO_SIZE)), HEADER_SIZE), infos)
  }

  /** The checks on the magic number and the sizes that slot zero states. */
  predicate Plausible(mem: Memory, base: Word) {
    var zeroSize := Load(mem, Add(base, SZ_SLOT_ZERO_SIZE));
    var maxSlots := Load(mem, Add(base, SZ_MAX_SLOTS));
    var perSide := Load(mem, Add(base, SZ_MAX_SLOTS_PER_SIDE));
    && Load(mem, base) == MAGIC
    && Load(mem, Add(base, SZ_SLOT_SIZE)) == SLOT_SIZE
    && perSide != 0 && perSide <= maxSlots
    && zeroSize >= Add(HEADER_SIZE, Mul(SLOT_INFO_SIZE, maxSlots))
    && BothStates(mem, base) % 2 == 0
    && BothStates(mem, base) / 2 >= Add(SS_SLOT_QUEUE, Mul(4, perSide))
  }

  function GeometryAt(mem: Memory, base: Word): Geometry {
    var master := Add(base, HEADER_SIZE);
    Geometry(base, Load(mem, Add(base, SZ_MAX_SLOTS_PER_SIDE)), master, Add(master, BothStates(mem, base) / 2),
             Load(mem, Add(master, SS_SLOT_FIRST)), Load(mem, Add(master, SS_SLOT_LAST)))
  }

  predicate RangeOk(g: Geometry) {
    g.slotFirst <= g.slotLast && g.slotLast - g.slotFirst < g.perSide
  }

  /** The loop test slotFirst + i <= slotLast, in 32-bit arithmetic, fails for some i unless slotLast is the last word. */
  lemma FillLoopEnds(first: Word, last: Word)
    requires first <= last
    ensures (exists i: Word :: Add(first, i) > last) <==> last != TWO32 - 1
  {
    if last != TWO32 - 1 {
      AddFits(first, last - first + 1);
      assert Add(first, last - first + 1) > last;
    }
  }

  /** The master's slot queue from entry i on. */
  function FillQueue(mem: Memory, g: Geometry, i: nat): (mem': Memory)
    requires g.slotLast < TWO32 - 1
    ensures |mem'| == |mem|
    decreases g.slotLast + 1 - g.slotFirst - i
  {
    if g.slotFirst + i > g.slotLast then mem
    else FillQueue(Store(mem, Add(g.master, (SS_SLOT_QUEUE + 4 * i) % TWO32), g.slotFirst + i), g, i + 1)
  }

  function Arm(mem: Memory, g: Geometry): Memory {
    Store(Store(Store(mem, Add(g.master, SS_TRIGGER_ARMED), 1),
                Add(g.master, SS_RECYCLE_ARMED), 1),
          Add(g.master, SS_INITIALISED), 1)
  }

  /** The CONNECT is delivered at once, and the guest is rung. */
  function Connect(w: World): World {
    if HasRoom(w.d, 0) then Ring(Queue(w, CONNECT, 0)) else w
  }

  /** The device is free and takes the slot zero at base. */
  predicate Accepts(w: World, base: Word) {
    !w.d.active && Plausible(w.mem, base) && RangeOk(GeometryAt(w.mem, base))
  }

  /** A handover that is refused, or whose last slot is not the last 32-bit word. */
  predicate HandoverEnds(w: World, base: Word) {
    Accepts(w, base) ==> GeometryAt(w.mem, base).slotLast < TWO32 - 1
  }

  /** vchiq_handover ends exactly then: its loop is left for some 32-bit i, or not reached. */
  lemma HandoverEndsExactly(w: World, base: Word)
    ensures var g := GeometryAt(w.mem, base);
            HandoverEnds(w, base) <==> (Accepts(w, base) ==> exists i: Word :: Add(g.slotFirst, i) > g.slotLast)
  {
    var g := GeometryAt(w.mem, base);
    if Accepts(w, base) {
      FillLoopEnds(g.slotFirst, g.slotLast);
    }
  }

  /** A slot zero at 0 with one slot per side, whose only master slot is the last 32-bit word. */
  function LastSlotFields(): seq<(nat, Word)> {
    [(0, MAGIC), (SZ_SLOT_ZERO_SIZE, 188), (SZ_SLOT_SIZE, SLOT_SIZE), (SZ_MAX_SLOTS, 1), (SZ_MAX_SLOTS_PER_SIDE, 1),
     (HEADER_SIZE + SS_SLOT_FIRST, TWO32 - 1), (HEADER_SIZE + SS_SLOT_LAST, TWO32 - 1)]
  }

  function LastSlotHandover(): Memory {
    StoreAll(Zeros(12288), LastSlotFields())
  }

  lemma LastSlotWords()
    ensures var m := LastSlotHandover();
            && Load(m, 0) == MAGIC && Load(m, SZ_SLOT_ZERO_SIZE) == 188 && Load(m, SZ_SLOT_SIZE) == SLOT_SIZE
            && Load(m, SZ_MAX_SLOTS) == 1 && Load(m, SZ_MAX_SLOTS_PER_SIDE) == 1
            && Load(m, HEADER_SIZE + SS_SLOT_FIRST) == TWO32 - 1 && Load(m, HEADER_SIZE + SS_SLOT_LAST) == TWO32 - 1
  {
    var ws := LastSlotFields();
    forall i | 0 <= i < |ws| ensures Load(LastSlotHandover(), ws[i].0) == ws[i].1 {
      StoredAll(Zeros(12288), ws, i);
    }
    assert ws[0].0 == 0 && ws[1].0 == 8 && ws[2].0 == 12 && ws[3].0 == 16 && ws[4].0 == 20;
    assert ws[5].0 == 36 && ws[6].0 == 40;
  }

  lemma LastSlotAccepted(m: Memory)
    requires Load(m, 0) == MAGIC && Load(m, SZ_SLOT_ZERO_SIZE) == 188 && Load(m, SZ_SLOT_SIZE) == SLOT_SIZE
    requires Load(m, SZ_MAX_SLOTS) == 1 && Load(m, SZ_MAX_SLOTS_PER_SIDE) == 1
    requires Load(m, HEADER_SIZE + SS_SLOT_FIRST) == TWO32 - 1 && Load(m, HEADER_SIZE + SS_SLOT_LAST) == TWO32 - 1
    ensures Accepts(World(RESET_DEV, m), 0) && !HandoverEnds(World(RESET_DEV, m), 0)
  {
  }

  /** The device accepts that handover, and its loop never ends. */
  lemma EndlessHandover()
    ensures var w := World(RESET_DEV, LastSlotHandover());
            Accepts(w, 0) && !HandoverEnds(w, 0)
  {
    LastSlotWords();
    LastSlotAccepted(LastSlotHandover());
  }

  /** vchiq_handover */
  function Handover(w: World, base: Word): World
    requires HandoverEnds(w, base)
  {
    var g := GeometryAt(w.mem, base);
    if w.d.active || !Plausible(w.mem, base) then w
    else if !RangeOk(g) then World(w.d.(g := g), w.mem)
    else Connect(World(Dev(true, g, 0, 0, w.d.doorbell), Arm(FillQueue(w.mem, g, 0), g)))
  }
}
