/**
 * The VCHIQ channel from the guest's side (files/qemu-riscos-raspi.patch): what it finds in shared
 * memory, word by word, and what a slot zero it lays out means to the device.
 */
module VchiqGuest {
  import opened Bytes
  import opened GuestMemory
  import opened Vchiq
  import opened VchiqProtocol

  // ---- the master's stream ----

  /** The OPENs among the first k messages: those of type 2. */
  function Opens(sent: seq<Msg>, k: nat): seq<Msg>
    requires k <= |sent|
  {
    if k == 0 then []
    else Opens(sent, k - 1) + if sent[k - 1].id / 0x100_0000 == 2 then [sent[k - 1]] else []
  }

  /** A word that closes the port a message came from: type 4, from port 0, to that port. */
  predicate Closes(id: Word, m: Msg) {
    id / 0x100_0000 == 4 && id / 0x1000 % 0x1000 == 0 && id % 0x1000 == m.id / 0x1000 % 0x1000
  }

  lemma CloseCloses(m: Msg)
    ensures Closes(CloseFor(m), m)
  {
    MsgFields(4, 0, SourcePort(m.id));
  }

  lemma {:induction false} RepliesAreCloses(sent: seq<Msg>, k: nat)
    requires k <= |sent|
    ensures |Replies(sent, k)| == 1 + |Opens(sent, k)| && Replies(sent, k)[0] == CONNECT
    ensures forall j :: 0 <= j < |Opens(sent, k)| ==> Closes(Replies(sent, k)[j + 1], Opens(sent, k)[j])
  {
    if k > 0 {
      RepliesAreCloses(sent, k - 1);
      CloseCloses(sent[k - 1]);
      var before := Replies(sent, k - 1);
      forall j | 0 <= j < |Opens(sent, k)| ensures Closes(Replies(sent, k)[j + 1], Opens(sent, k)[j]) {
        if j < |Opens(sent, k - 1)| {
          assert Replies(sent, k)[j + 1] == before[j + 1] && Opens(sent, k)[j] == Opens(sent, k - 1)[j];
        }
      }
    }
  }

  /** The i-th message word of the master's stream, and the size behind it. */
  function MasterWord(mem: Memory, g: Geometry, i: nat): Word {
    Load(mem, g.slotZero + 4096 * g.slotFirst + 8 * i)
  }

  function MasterSize(mem: Memory, g: Geometry, i: nat): Word {
    Load(mem, g.slotZero + 4096 * g.slotFirst + 8 * i + 4)
  }

  /**
   * What the guest reads: the master's slots in its slot queue, a CONNECT, and then a CLOSE for each OPEN the device has consumed, in
   * order, each for the port it came from; no more of them than that, up to the published position.
   */
  ghost predicate ReadsBack(x: Session, g: Geometry)
    requires x.k <= |x.sent|
  {
    var opens := Opens(x.sent, x.k);
    && Load(x.w.mem, g.master + 28) == x.w.d.txPos == 8 * (1 + |opens|)
    && (forall i :: 0 <= i <= g.slotLast - g.slotFirst ==> Load(x.w.mem, g.master + 72 + 4 * i) == g.slotFirst + i)
    && MasterWord(x.w.mem, g, 0) == 0x100_0000 && MasterSize(x.w.mem, g, 0) == 0
    && forall j :: 0 <= j < |opens| ==>
         Closes(MasterWord(x.w.mem, g, j + 1), opens[j]) && MasterSize(x.w.mem, g, j + 1) == 0
  }

  lemma QueuedRead(b: Ground, mem: Memory, queued: seq<Word>, i: nat)
    requires HoldsQueued(b.g, ReadsOf(mem), queued) && i < |queued|
    ensures MasterWord(mem, b.g, i) == queued[i] && MasterSize(mem, b.g, i) == 0
  {
    assert ReadsOf(mem)(MasterAddr(b.g, i)) == queued[i];
  }

  lemma OpenReadsBack(b: Ground, x: Session)
    requires Open(b, x)
    ensures x.k <= |x.sent| && ReadsBack(x, b.g)
  {
    var queued := Replies(x.sent, x.k);
    RepliesAreCloses(x.sent, x.k);
    assert MasterSide(b.g, x.w.d.txPos, ReadsOf(x.w.mem), queued);
    forall i | 0 <= i <= b.g.slotLast - b.g.slotFirst
      ensures Load(x.w.mem, b.g.master + 72 + 4 * i) == b.g.slotFirst + i
    {
      assert ReadsOf(x.w.mem)(Entry(b.g.master, i)) == MasterSlots(b.g)[i];
    }
    forall i | 0 <= i < |queued|
      ensures MasterWord(x.w.mem, b.g, i) == queued[i] && MasterSize(x.w.mem, b.g, i) == 0
    {
      QueuedRead(b, x.w.mem, queued, i);
    }
  }

  /** So it is after every interleaving of the two sides' steps. */
  lemma EveryRunReadsBack(b: Ground, limit: nat, x: Session, es: seq<Event>)
    requires Open(b, x) && AllowedRun(b, limit, x, es)
    ensures var y := After(b, limit, x, es);
            y.k <= |y.sent| && ReadsBack(y, b.g)
  {
    EveryRun(b, limit, x, es);
    OpenReadsBack(b, After(b, limit, x, es));
  }

  // ---- the handover ----

  /** A slot zero as a guest lays it out: where it is, and what it says; shared is the size of one shared state. */
  datatype SlotZero = SlotZero(
    base: Word, maxSlots: Word, perSide: Word, shared: Word, slotFirst: Word, slotLast: Word)
  {
    /** The sizes are consistent and nothing wraps. */
    predicate Sized() {
      && 32 + 4 * maxSlots + 2 * shared < TWO32 && base + 32 + 2 * shared < TWO32
      && 0 < perSide <= maxSlots && 72 + 4 * perSide <= shared
      && slotFirst <= slotLast < TWO32 - 1 && slotLast - slotFirst < perSide
    }

    /** Header, and the range of the master's slots in the first of the two shared states behind it. */
    predicate In(mem: Memory) {
      && Load(mem, base) == 0x56434849
      && Load(mem, base + 8) == 32 + 4 * maxSlots + 2 * shared
      && Load(mem, base + 12) == 4096
      && Load(mem, base + 16) == maxSlots
      && Load(mem, base + 20) == perSide
      && Load(mem, base + 36) == slotFirst
      && Load(mem, base + 40) == slotLast
    }

    function Shape(): Geometry
      requires Sized()
    {
      Geometry(base, perSide, base + 32, base + 32 + shared, slotFirst, slotLast)
    }
  }

  lemma FieldAddrsOf(base: Word)
    requires base + 44 < TWO32
    ensures Add(base, SZ_SLOT_ZERO_SIZE) == base + 8 && Add(base, SZ_SLOT_SIZE) == base + 12
    ensures Add(base, SZ_MAX_SLOTS) == base + 16 && Add(base, SZ_MAX_SLOTS_PER_SIDE) == base + 20
    ensures Add(base, HEADER_SIZE) == base + 32
    ensures Add(base + 32, SS_SLOT_FIRST) == base + 36 && Add(base + 32, SS_SLOT_LAST) == base + 40
  {
    AddFits(base, 8);
    AddFits(base, 12);
    AddFits(base, 16);
    AddFits(base, 20);
    AddFits(base, 32);
    AddFits(base + 32, 4);
    AddFits(base + 32, 8);
  }

  lemma SubFits(a: Word, b: Word)
    requires b <= a
    ensures Sub(a, b) == a - b
  {
  }

  lemma SharedSize(z: SlotZero, mem: Memory)
    requires z.Sized() && z.In(mem)
    ensures BothStates(mem, z.base) == 2 * z.shared
  {
    var size, infos := 32 + 4 * z.maxSlots + 2 * z.shared, 4 * z.maxSlots;
    FieldAddrsOf(z.base);
    MulFits(SLOT_INFO_SIZE, z.maxSlots);
    SubFits(size, HEADER_SIZE);
    SubFits(size - HEADER_SIZE, infos);
    assert BothStates(mem, z.base) == Sub(Sub(size, HEADER_SIZE), infos);
  }

  lemma SizesPass(z: SlotZero)
    requires z.Sized()
    ensures 32 + 4 * z.maxSlots + 2 * z.shared >= Add(HEADER_SIZE, Mul(SLOT_INFO_SIZE, z.maxSlots))
    ensures z.shared >= Add(SS_SLOT_QUEUE, Mul(4, z.perSide))
  {
    MulFits(SLOT_INFO_SIZE, z.maxSlots);
    MulFits(4, z.perSide);
    AddFits(HEADER_SIZE, 4 * z.maxSlots);
    AddFits(SS_SLOT_QUEUE, 4 * z.perSide);
  }

  lemma GeometryRead(z: SlotZero, mem: Memory)
    requires z.Sized() && z.In(mem)
    ensures GeometryAt(mem, z.base) == z.Shape()
  {
    FieldAddrsOf(z.base);
    SharedSize(z, mem);
    AddFits(z.base + 32, z.shared);
  }

  /** A free device takes such a slot zero, reads out of it what the guest meant, and gets done. */
  lemma SlotZeroTaken(w: World, z: SlotZero)
    requires !w.d.active && z.Sized() && z.In(w.mem)
    ensures Accepts(w, z.base) && HandoverEnds(w, z.base) && GeometryAt(w.mem, z.base) == z.Shape()
  {
    FieldAddrsOf(z.base);
    SharedSize(z, w.mem);
    SizesPass(z);
    GeometryRead(z, w.mem);
  }

  /** The slot zero that the device makes out at base. */
  function Found(mem: Memory, base: Word): SlotZero {
    var g := GeometryAt(mem, base);
    SlotZero(base, Load(mem, Add(base, SZ_MAX_SLOTS)), g.perSide, BothStates(mem, base) / 2, g.slotFirst, g.slotLast)
  }

  /** What it states about itself does not wrap. */
  predicate Unwrapped(mem: Memory, base: Word) {
    && base + 44 < TWO32
    && base + Load(mem, base + 8) < TWO32
    && 32 + 4 * Load(mem, base + 16) < TWO32 && 72 + 4 * Load(mem, base + 20) < TWO32
  }

  lemma StatesSize(mem: Memory, base: Word)
    requires Unwrapped(mem, base) && Plausible(mem, base)
    ensures Load(mem, base + 8) == 32 + 4 * Load(mem, base + 16) + BothStates(mem, base)
    ensures BothStates(mem, base) / 2 >= 72 + 4 * Load(mem, base + 20)
  {
    var size, slots, perSide := Load(mem, base + 8), Load(mem, base + 16), Load(mem, base + 20);
    FieldAddrsOf(base);
    MulFits(SLOT_INFO_SIZE, slots);
    AddFits(HEADER_SIZE, 4 * slots);
    SubFits(size, HEADER_SIZE);
    SubFits(size - HEADER_SIZE, 4 * slots);
    MulFits(4, perSide);
    AddFits(SS_SLOT_QUEUE, 4 * perSide);
  }

  /** Conversely, a slot zero that is taken is one so laid out, as long as what it states does not wrap. */
  lemma TakenIsSlotZero(w: World, base: Word)
    requires Unwrapped(w.mem, base) && Accepts(w, base) && HandoverEnds(w, base)
    ensures !w.d.active && Found(w.mem, base).Sized() && Found(w.mem, base).In(w.mem)
  {
    FieldAddrsOf(base);
    StatesSize(w.mem, base);
  }

  /** The master's side is initialised, and both its events are armed. */
  ghost predicate Armed(g: Geometry, r: Reads) {
    r(g.master) == 1 && r(g.master + 16) == 1 && r(g.master + 32) == 1
  }

  lemma StoredOnce(mem: Memory, b: Ground, a: int, mem': Memory)
    requires |mem| == b.size && Flag(b.g, a) && mem' == Store(mem, a, 1)
    ensures |mem'| == b.size && Stored(ReadsOf(mem), a, 1, ReadsOf(mem'))
  {
    StateAddr(b, b.g.master, 0);
    StateAddr(b, b.g.slave, 0);
    StoreIsSeen(mem, a, 1);
  }

  lemma ArmArms(mem: Memory, b: Ground)
    requires |mem| == b.size
    ensures |Arm(mem, b.g)| == b.size && Armed(b.g, ReadsOf(Arm(mem, b.g)))
  {
    var m := b.g.master;
    var mem1 := Store(mem, m + SS_TRIGGER_ARMED, 1);
    var mem2 := Store(mem1, m + SS_RECYCLE_ARMED, 1);
    ArmIs(mem, b, mem1, mem2);
    StoredOnce(mem, b, m + SS_TRIGGER_ARMED, mem1);
    StoredOnce(mem1, b, m + SS_RECYCLE_ARMED, mem2);
    StoredOnce(mem2, b, m + SS_INITIALISED, Arm(mem, b.g));
  }

  lemma AppendedArmed(b: Ground, r: Reads, n: nat, id: Word, r': Reads)
    requires Armed(b.g, r) && Appended(b.g, r, n, id, r') && n < Capacity(b.g)
    ensures Armed(b.g, r')
  {
  }

  /** The guest's event is signalled too once the CONNECT is there. */
  lemma RingSignals(w: World, b: Ground)
    requires w.d.g == b.g && |w.mem| == b.size && Armed(b.g, ReadsOf(w.mem))
    ensures Load(Ring(w).mem, b.g.slave + 20) == 1 && Armed(b.g, ReadsOf(Ring(w).mem))
  {
    StateAddr(b, b.g.slave, 0);
    StoredOnce(w.mem, b, b.g.slave + SS_TRIGGER_FIRED, Ring(w).mem);
    assert ReadsOf(Ring(w).mem)(b.g.slave + 20) == 1;
  }

  /** What the guest waits for after a handover, beside the CONNECT. */
  ghost predicate Ready(w: World, g: Geometry) {
    && Load(w.mem, g.master) == 1 && Load(w.mem, g.master + 16) == 1 && Load(w.mem, g.master + 32) == 1
    && Load(w.mem, g.slave + 20) == 1 && w.d.doorbell / 4 % 2 == 1
  }

  lemma ConnectReady(w: World, b: Ground, sent: seq<Msg>)
    requires Agrees(w, b, sent, 0, []) && Armed(b.g, ReadsOf(w.mem))
    ensures Ready(Connect(w), b.g)
  {
    RoomIsCapacity(b, w.d, ReadsOf(w.mem), []);
    var w1 := Queue(w, CONNECT, 0);
    QueueAppends(w, b, [], CONNECT, w1);
    AppendedArmed(b, ReadsOf(w.mem), 0, CONNECT, ReadsOf(w1.mem));
    RingSignals(w1, b);
    RingIsHeard(w1);
    ArmedRead(b.g, Connect(w));
  }

  lemma ArmedRead(g: Geometry, w: World)
    requires Armed(g, ReadsOf(w.mem))
    ensures Load(w.mem, g.master) == 1 && Load(w.mem, g.master + 16) == 1 && Load(w.mem, g.master + 32) == 1
  {
  }

  /**
   * The handover of a slot zero that a sane guest has laid out opens the channel: flags and events
   * are set, the guest is rung, it reads the CONNECT, and what it had sent before is still to come.
   */
  lemma SlotZeroOpens(w: World, z: SlotZero, b: Ground, sent: seq<Msg>)
    requires !w.d.active && z.Sized() && z.In(w.mem)
    requires |w.mem| == b.size && b.g == z.Shape() && GuestSide(b, 0, ReadsOf(w.mem), sent, 0)
    ensures HandoverEnds(w, z.base)
    ensures var x := Session(Handover(w, z.base), sent, 0);
            Open(b, x) && ReadsBack(x, b.g) && Ready(x.w, b.g)
  {
    SlotZeroTaken(w, z);
    HandoverOpens(w, z.base, b, sent);
    OpenReadsBack(b, Session(Handover(w, z.base), sent, 0));
    var mem' := Arm(FillQueue(w.mem, b.g, 0), b.g);
    ArmedAgrees(w.mem, b, sent, mem');
    ArmArms(FillQueue(w.mem, b.g, 0), b);
    ConnectReady(World(Dev(true, b.g, 0, 0, w.d.doorbell), mem'), b, sent);
  }

  /** A drain first clears the event with which the guest has signalled it. */
  lemma AcknowledgeClears(w: World, b: Ground)
    requires w.d.g == b.g && |w.mem| == b.size
    ensures Load(Acknowledge(w).mem, b.g.master + 20) == 0
  {
    StateAddr(b, b.g.master, 0);
    AddFits(b.g.master, SS_TRIGGER_FIRED);
    StoreIsSeen(w.mem, b.g.master + 20, 0);
    assert ReadsOf(Acknowledge(w).mem)(b.g.master + 20) == 0;
  }
}
