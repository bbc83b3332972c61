/**
 * Both sides of the VCHIQ channel at once. What the two streams hold is tied to what the guest has
 * appended and what the device has queued, through the words of shared memory.
 */
module VchiqProtocol {
  import opened Bytes
  import opened GuestMemory
  import opened Vchiq

  // ---- where things are ----

  /** Entry i of the slot queue of one side's shared state. */
  function Entry(state: int, i: int): int {
    state + SS_SLOT_QUEUE + 4 * i
  }

  /** The i-th message of the master's stream; its slots are consecutive. */
  function MasterAddr(g: Geometry, i: int): int {
    g.slotZero + SLOT_SIZE * g.slotFirst + 8 * i
  }

  function Slots(g: Geometry): int {
    g.slotLast - g.slotFirst + 1
  }

  /** How many messages of size 0 the master's slots hold. */
  function Capacity(g: Geometry): int {
    512 * Slots(g)
  }

  /** Position pos of the guest's stream, whose k-th slot is guestSlots[k]. */
  function GuestAddr(g: Geometry, guestSlots: seq<Word>, pos: nat): int
    requires pos / SLOT_SIZE < |guestSlots|
  {
    g.slotZero + SLOT_SIZE * guestSlots[pos / SLOT_SIZE] + pos % SLOT_SIZE
  }

  /** A guest's handover: the geometry, the size of a shared state, the guest's own slots, memory size. */
  datatype AnyGround = Ground(g: Geometry, shared: nat, guestSlots: seq<Word>, size: nat) {
    /**
     * What a guest guarantees besides the checks the device makes: a power of two of slots per
     * side, shared states and slots that do not overlap, addresses that fit memory and 32 bits.
     */
    ghost predicate Sane() {
      && size <= TWO32
      && PowerOfTwo(g.perSide)
      && g.slotFirst <= g.slotLast && Slots(g) <= g.perSide
      && g.master == g.slotZero + HEADER_SIZE && g.slave == g.master + shared
      && SS_SLOT_QUEUE + 4 * g.perSide <= shared
      && g.slave + shared <= g.slotZero + SLOT_SIZE * g.slotFirst
      && g.slotZero + SLOT_SIZE * g.slotLast + SLOT_SIZE <= size
      && |guestSlots| <= g.perSide && SLOT_SIZE * |guestSlots| < TWO32
      && forall k :: 0 <= k < |guestSlots| ==> SlotFits(k)
    }

    ghost predicate SlotFits(k: nat)
      requires k < |guestSlots|
    {
      && g.slave + shared <= g.slotZero + SLOT_SIZE * guestSlots[k]
      && g.slotZero + SLOT_SIZE * guestSlots[k] + SLOT_SIZE <= size
      && !(g.slotFirst <= guestSlots[k] <= g.slotLast)
      && forall j :: 0 <= j < k ==> guestSlots[j] != guestSlots[k]
    }
  }

  type Ground = b: AnyGround | b.Sane() ghost witness SMALLEST_GROUND

  ghost const SMALLEST_GROUND: AnyGround := Ground(Geometry(0, 1, 32, 108, 1, 1), 76, [], 8192)

  // ---- what the two sides hold ----

  ghost predicate QueueHolds(r: Reads, state: int, slots: seq<Word>) {
    forall i :: 0 <= i < |slots| ==> r(Entry(state, i)) == slots[i]
  }

  function MasterSlots(g: Geometry): seq<Word>
    requires g.slotFirst <= g.slotLast
  {
    seq(Slots(g), i requires 0 <= i < Slots(g) => g.slotFirst + i)
  }

  ghost predicate HoldsQueued(g: Geometry, r: Reads, queued: seq<Word>) {
    forall i :: 0 <= i < |queued| ==> r(MasterAddr(g, i)) == queued[i] && r(MasterAddr(g, i) + 4) == 0
  }

  /** The slot queue is filled in, and the queued messages are stored below the published position. */
  ghost predicate MasterSide(g: Geometry, tx: Word, r: Reads, queued: seq<Word>)
    requires g.slotFirst <= g.slotLast
  {
    && tx == 8 * |queued| && |queued| <= Capacity(g)
    && (queued != [] ==> r(g.master + SS_TX_POS) == tx)
    && QueueHolds(r, g.master, MasterSlots(g))
    && HoldsQueued(g, r, queued)
  }

  /** Where the i-th message of the guest's stream starts. */
  function Pos(sent: seq<Msg>, i: nat): nat
    requires i <= |sent|
  {
    if i == 0 then 0 else Pos(sent, i - 1) + Stride(sent[i - 1].size)
  }

  /** A message does not cross a slot boundary, and lies in one of the guest's slots. */
  predicate Fits(guestSlots: seq<Word>, pos: nat, m: Msg) {
    && pos / SLOT_SIZE < |guestSlots|
    && m.size <= SLOT_SIZE && pos % SLOT_SIZE + Stride(m.size) <= SLOT_SIZE
  }

  predicate PlacedAt(guestSlots: seq<Word>, sent: seq<Msg>, i: nat)
    requires i < |sent|
  {
    Fits(guestSlots, Pos(sent, i), sent[i])
  }

  ghost predicate Placed(guestSlots: seq<Word>, sent: seq<Msg>) {
    forall i :: 0 <= i < |sent| ==> PlacedAt(guestSlots, sent, i)
  }

  ghost predicate HoldsMsg(g: Geometry, r: Reads, guestSlots: seq<Word>, pos: nat, m: Msg) {
    && Fits(guestSlots, pos, m)
    && r(GuestAddr(g, guestSlots, pos)) == m.id && r(GuestAddr(g, guestSlots, pos) + 4) == m.size
  }

  ghost predicate HoldsSent(g: Geometry, r: Reads, guestSlots: seq<Word>, sent: seq<Msg>, i: nat)
    requires i < |sent|
  {
    HoldsMsg(g, r, guestSlots, Pos(sent, i), sent[i])
  }

  ghost predicate HoldsPending(g: Geometry, r: Reads, guestSlots: seq<Word>, sent: seq<Msg>, k: nat) {
    forall i :: k <= i < |sent| ==> HoldsSent(g, r, guestSlots, sent, i)
  }

  /** The guest has published sent, of which the device has consumed the first k messages. */
  ghost predicate GuestSide(b: Ground, rx: Word, r: Reads, sent: seq<Msg>, k: nat) {
    && k <= |sent| && rx == Pos(sent, k)
    && r(b.g.slave + SS_TX_POS) == Pos(sent, |sent|)
    && QueueHolds(r, b.g.slave, b.guestSlots)
    && Placed(b.guestSlots, sent)
    && HoldsPending(b.g, r, b.guestSlots, sent, k)
  }

  /** The CLOSE queued when m is consumed, if it is an OPEN. */
  function Answer(m: Msg): seq<Word> {
    if IsOpen(m) then [CloseFor(m)] else []
  }

  /** What the device has queued when k messages are consumed: CONNECT and one CLOSE per OPEN, in order. */
  function Replies(sent: seq<Msg>, k: nat): seq<Word>
    requires k <= |sent|
  {
    if k == 0 then [CONNECT] else Replies(sent, k - 1) + Answer(sent[k - 1])
  }

  /** Shared memory and the device's positions agree on both streams. */
  ghost predicate Agrees(w: World, b: Ground, sent: seq<Msg>, k: nat, queued: seq<Word>) {
    && w.d.active && w.d.g == b.g && |w.mem| == b.size
    && MasterSide(b.g, w.d.txPos, ReadsOf(w.mem), queued)
    && GuestSide(b, w.d.rxPos, ReadsOf(w.mem), sent, k)
  }

  /** The same as a function of the world. */
  ghost function AgreesAt(b: Ground, sent: seq<Msg>, k: nat, queued: seq<Word>): World -> bool {
    (w: World) => Agrees(w, b, sent, k, queued)
  }

  /**
   * The whole channel: the guest has sent some messages and the device has consumed k of them; what
   * the device has queued is the CONNECT and one CLOSE for each OPEN among those k.
   */
  ghost predicate Channel(w: World, b: Ground, sent: seq<Msg>, k: nat) {
    k <= |sent| && Agrees(w, b, sent, k, Replies(sent, k))
  }

  // ---- stores that touch only part of the channel ----

  /** Words of the shared states that belong to neither stream: flags and events. */
  predicate Flag(g: Geometry, a: int) {
    || g.master <= a <= g.master + SS_TX_POS - 4 || g.master + SS_TX_POS + 4 <= a <= g.master + SS_SLOT_QUEUE - 4
    || g.slave <= a <= g.slave + SS_TX_POS - 4 || g.slave + SS_TX_POS + 4 <= a <= g.slave + SS_SLOT_QUEUE - 4
  }

  /** A guest message lies beyond the shared states and outside the master's slots. */
  lemma GuestAddrApart(b: Ground, pos: nat)
    requires pos / SLOT_SIZE < |b.guestSlots| && pos % SLOT_SIZE + 8 <= SLOT_SIZE
    ensures var a := GuestAddr(b.g, b.guestSlots, pos);
            && b.g.slave + b.shared <= a && a + 8 <= b.size
            && (a + 8 <= MasterAddr(b.g, 0) || MasterAddr(b.g, Capacity(b.g)) <= a)
  {
    assert b.SlotFits(pos / SLOT_SIZE);
  }

  /** r' differs from r at most in flags, the master's position and the master's slots. */
  ghost predicate GuestWordsKept(b: Ground, r: Reads, r': Reads) {
    forall a: int {:trigger r'(a)} ::
      || (b.g.slave + SS_TX_POS == a)
      || (b.g.slave + SS_SLOT_QUEUE <= a && a + 4 <= b.g.slave + b.shared)
      || (b.g.slave + b.shared <= a && (a + 4 <= MasterAddr(b.g, 0) || MasterAddr(b.g, Capacity(b.g)) <= a))
      ==> r'(a) == r(a)
  }

  lemma QueueKept(b: Ground, r: Reads, r': Reads)
    requires GuestWordsKept(b, r, r') && QueueHolds(r, b.g.slave, b.guestSlots)
    ensures QueueHolds(r', b.g.slave, b.guestSlots)
  {
  }

  lemma MsgKept(b: Ground, r: Reads, r': Reads, pos: nat, m: Msg)
    requires GuestWordsKept(b, r, r') && HoldsMsg(b.g, r, b.guestSlots, pos, m)
    ensures HoldsMsg(b.g, r', b.guestSlots, pos, m)
  {
    StrideOfSmall(m.size);
    GuestAddrApart(b, pos);
  }

  lemma GuestSideKept(b: Ground, rx: Word, r: Reads, r': Reads, sent: seq<Msg>, k: nat)
    requires GuestWordsKept(b, r, r') && GuestSide(b, rx, r, sent, k)
    ensures GuestSide(b, rx, r', sent, k)
  {
    QueueKept(b, r, r');
    forall i | k <= i < |sent| ensures HoldsSent(b.g, r', b.guestSlots, sent, i) {
      assert HoldsSent(b.g, r, b.guestSlots, sent, i);
      MsgKept(b, r, r', Pos(sent, i), sent[i]);
    }
    assert r'(b.g.slave + SS_TX_POS) == r(b.g.slave + SS_TX_POS);
  }

  /** r' differs from r at most in flags, the slave's words and the guest's slots. */
  ghost predicate MasterWordsKept(b: Ground, r: Reads, r': Reads) {
    forall a: int {:trigger r'(a)} ::
      || (b.g.master + SS_TX_POS == a)
      || (b.g.master + SS_SLOT_QUEUE <= a && a + 4 <= b.g.slave)
      || (MasterAddr(b.g, 0) <= a && a + 4 <= MasterAddr(b.g, Capacity(b.g)))
      ==> r'(a) == r(a)
  }

  lemma MasterSideKept(b: Ground, tx: Word, r: Reads, r': Reads, queued: seq<Word>)
    requires MasterWordsKept(b, r, r') && MasterSide(b.g, tx, r, queued)
    ensures MasterSide(b.g, tx, r', queued)
  {
    assert r'(b.g.master + SS_TX_POS) == r(b.g.master + SS_TX_POS);
  }

  /** Storing a flag disturbs neither stream. */
  lemma FlagsAreApart(b: Ground, r: Reads, a: int, w: Word, r': Reads)
    requires Flag(b.g, a) && Stored(r, a, w, r')
    ensures MasterWordsKept(b, r, r') && GuestWordsKept(b, r, r')
  {
  }

  // ---- the device queues a message ----

  lemma Quarter(n: nat)
    ensures 8 * n / SLOT_SIZE == n / 512 && 8 * n % SLOT_SIZE == 8 * (n % 512)
  {
  }

  /** A message without payload never crosses a slot boundary, so that refusal never happens. */
  lemma BoundaryNeverCrossed(g: Geometry, tx: Word, r: Reads, queued: seq<Word>)
    requires g.slotFirst <= g.slotLast && MasterSide(g, tx, r, queued)
    ensures Add(tx % SLOT_SIZE, Stride(0)) <= SLOT_SIZE
  {
    Quarter(|queued|);
  }

  /** There is room for exactly Capacity messages, the CONNECT included. */
  lemma RoomIsCapacity(b: Ground, d: Dev, r: Reads, queued: seq<Word>)
    requires d.g == b.g && MasterSide(b.g, d.txPos, r, queued)
    ensures HasRoom(d, 0) <==> |queued| < Capacity(b.g)
  {
    BoundaryNeverCrossed(b.g, d.txPos, r, queued);
    Quarter(|queued|);
    AddFits(b.g.slotFirst, |queued| / 512);
  }

  /** Shared-state addresses do not wrap. */
  lemma StateAddr(b: Ground, state: Word, i: nat)
    requires (state == b.g.master || state == b.g.slave) && i < b.g.perSide
    ensures Add(state, (SS_SLOT_QUEUE + 4 * i) % TWO32) == Entry(state, i)
    ensures Add(state, SS_TX_POS) == state + SS_TX_POS
    ensures Add(state, SS_TRIGGER_FIRED) == state + SS_TRIGGER_FIRED
    ensures Entry(state, i) + 4 <= b.g.slave + b.shared < b.size
  {
    assert SS_SLOT_QUEUE + 4 * i + 4 <= b.shared;
    AddFits(state, SS_SLOT_QUEUE + 4 * i);
  }

  lemma HeaderAddr(zero: Word, slot: Word, offset: Word)
    requires offset + 8 <= SLOT_SIZE && zero + SLOT_SIZE * slot + SLOT_SIZE <= TWO32
    ensures Add(Add(zero, Mul(slot, SLOT_SIZE)), offset) == zero + SLOT_SIZE * slot + offset
    ensures Add(zero + SLOT_SIZE * slot + offset, 4) == zero + SLOT_SIZE * slot + offset + 4
  {
    MulFits(slot, SLOT_SIZE);
  }

  /** Going through a slot queue that holds slots leads to the slot of the position. */
  lemma ThroughTheQueue(b: Ground, mem: Memory, state: Word, slots: seq<Word>, pos: Word)
    requires (state == b.g.master || state == b.g.slave) && QueueHolds(ReadsOf(mem), state, slots)
    requires pos / SLOT_SIZE < |slots| <= b.g.perSide && pos % SLOT_SIZE + 8 <= SLOT_SIZE
    requires b.g.slotZero + SLOT_SIZE * slots[pos / SLOT_SIZE] + SLOT_SIZE <= b.size
    ensures var h := b.g.slotZero + SLOT_SIZE * slots[pos / SLOT_SIZE] + pos % SLOT_SIZE;
            HeaderAt(b.g, mem, state, pos) == h && Add(h, 4) == h + 4
  {
    var k := pos / SLOT_SIZE;
    MaskKeeps(k, b.g.perSide);
    StateAddr(b, state, k);
    assert ReadsOf(mem)(Entry(state, k)) == slots[k];
    HeaderAddr(b.g.slotZero, slots[k], pos % SLOT_SIZE);
  }

  lemma MasterHeader(b: Ground, tx: Word, mem: Memory, queued: seq<Word>)
    requires MasterSide(b.g, tx, ReadsOf(mem), queued) && |queued| < Capacity(b.g)
    ensures HeaderAt(b.g, mem, b.g.master, tx) == MasterAddr(b.g, |queued|)
    ensures Add(MasterAddr(b.g, |queued|), 4) == MasterAddr(b.g, |queued|) + 4
    ensures MasterAddr(b.g, |queued|) + 8 <= b.size
  {
    Quarter(|queued|);
    ThroughTheQueue(b, mem, b.g.master, MasterSlots(b.g), tx);
  }

  /** r' is r with a message of size 0 stored as the n-th of the master's stream, and published. */
  ghost predicate Appended(g: Geometry, r: Reads, n: nat, id: Word, r': Reads) {
    var h, pub := MasterAddr(g, n), g.master + SS_TX_POS;
    && r'(h) == id && r'(h + 4) == 0 && r'(pub) == 8 * n + 8
    && forall a: int {:trigger r'(a)} :: Far(a, h) && Far(a, h + 4) && Far(a, pub) ==> r'(a) == r(a)
  }

  /** The three stores of vchiq_queue_message, for the n-th message. */
  ghost predicate StoredThrice(mem: Memory, g: Geometry, n: nat, id: Word, mem': Memory) {
    var h, pub := MasterAddr(g, n), g.master + SS_TX_POS;
    && pub + 4 <= h && h + 8 <= |mem| && 8 * n + 8 < TWO32
    && mem' == Store(Store(Store(mem, h, id), h + 4, 0), pub, 8 * n + 8)
  }

  lemma QueueStores(mem: Memory, g: Geometry, n: nat, id: Word, mem': Memory)
    requires StoredThrice(mem, g, n, id, mem')
    ensures |mem'| == |mem| && Appended(g, ReadsOf(mem), n, id, ReadsOf(mem'))
  {
    ThreeStores(mem, MasterAddr(g, n), id, 0, g.master + SS_TX_POS, 8 * n + 8, mem');
  }

  /** The addresses and the position vchiq_queue_message computes on a channel with room. */
  lemma QueueParts(b: Ground, tx: Word, mem: Memory, queued: seq<Word>)
    requires MasterSide(b.g, tx, ReadsOf(mem), queued) && |queued| < Capacity(b.g)
    ensures var h, pub := MasterAddr(b.g, |queued|), b.g.master + SS_TX_POS;
            && HeaderAt(b.g, mem, b.g.master, tx) == h && Add(h, 4) == h + 4
            && Add(b.g.master, SS_TX_POS) == pub && pub + 4 <= h && h + 8 <= b.size
    ensures tx == 8 * |queued| && tx + 8 < TWO32 && Add(tx, Stride(0)) == tx + 8
  {
    MasterHeader(b, tx, mem, queued);
    StateAddr(b, b.g.master, 0);
    AddFits(tx, 8);
  }

  /** What vchiq_queue_message stores on a channel with room. */
  lemma QueueIs(w: World, b: Ground, queued: seq<Word>, id: Word, w1: World)
    requires w.d.g == b.g && |w.mem| == b.size && |queued| < Capacity(b.g)
    requires MasterSide(b.g, w.d.txPos, ReadsOf(w.mem), queued)
    requires w1 == Queue(w, id, 0)
    ensures w.d.txPos + 8 < TWO32 && w1.d == w.d.(txPos := w.d.txPos + 8)
    ensures StoredThrice(w.mem, b.g, |queued|, id, w1.mem)
  {
    QueueParts(b, w.d.txPos, w.mem, queued);
  }

  /** The effect of vchiq_queue_message on a channel with room. */
  lemma QueueAppends(w: World, b: Ground, queued: seq<Word>, id: Word, w1: World)
    requires w.d.g == b.g && |w.mem| == b.size && |queued| < Capacity(b.g)
    requires MasterSide(b.g, w.d.txPos, ReadsOf(w.mem), queued)
    requires w1 == Queue(w, id, 0)
    ensures w.d.txPos + 8 < TWO32
    ensures w1.d == w.d.(txPos := w.d.txPos + 8) && |w1.mem| == |w.mem|
    ensures Appended(b.g, ReadsOf(w.mem), |queued|, id, ReadsOf(w1.mem))
  {
    QueueIs(w, b, queued, id, w1);
    QueueStores(w.mem, b.g, |queued|, id, w1.mem);
  }

  lemma AppendedMaster(b: Ground, tx: Word, r: Reads, queued: seq<Word>, id: Word, r': Reads)
    requires MasterSide(b.g, tx, r, queued) && |queued| < Capacity(b.g) && tx + 8 < TWO32
    requires Appended(b.g, r, |queued|, id, r')
    ensures MasterSide(b.g, tx + 8, r', queued + [id])
  {
  }

  lemma AppendedGuest(b: Ground, r: Reads, n: nat, id: Word, r': Reads)
    requires n < Capacity(b.g) && Appended(b.g, r, n, id, r')
    ensures GuestWordsKept(b, r, r')
  {
  }

  // ---- the device drains the guest's stream ----

  /** Every message advances the stream by at least its header and stays inside the guest's slots. */
  lemma NextPos(guestSlots: seq<Word>, pos: nat, m: Msg)
    requires Fits(guestSlots, pos, m)
    ensures pos + 8 <= pos + Stride(m.size) <= SLOT_SIZE * |guestSlots|
  {
    StrideOfSmall(m.size);
  }

  lemma PosInside(sent: seq<Msg>, guestSlots: seq<Word>, i: nat)
    requires i <= |sent| && Placed(guestSlots, sent)
    ensures Pos(sent, i) <= SLOT_SIZE * |guestSlots|
  {
    if i > 0 {
      assert PlacedAt(guestSlots, sent, i - 1);
      NextPos(guestSlots, Pos(sent, i - 1), sent[i - 1]);
    }
  }

  lemma {:induction false} PosGrows(sent: seq<Msg>, guestSlots: seq<Word>, i: nat, j: nat)
    requires i < j <= |sent| && Placed(guestSlots, sent)
    ensures Pos(sent, i) + 8 <= Pos(sent, j)
    decreases j
  {
    assert PlacedAt(guestSlots, sent, j - 1);
    NextPos(guestSlots, Pos(sent, j - 1), sent[j - 1]);
    if i < j - 1 {
      PosGrows(sent, guestSlots, i, j - 1);
    }
  }

  lemma GuestHeader(b: Ground, pos: Word, mem: Memory, m: Msg)
    requires QueueHolds(ReadsOf(mem), b.g.slave, b.guestSlots)
    requires HoldsMsg(b.g, ReadsOf(mem), b.guestSlots, pos, m)
    ensures var h := HeaderAt(b.g, mem, b.g.slave, pos);
            Load(mem, h) == m.id && Load(mem, Add(h, 4)) == m.size
  {
    StrideOfSmall(m.size);
    assert b.SlotFits(pos / SLOT_SIZE);
    ThroughTheQueue(b, mem, b.g.slave, b.guestSlots, pos);
    var a := GuestAddr(b.g, b.guestSlots, pos);
    assert ReadsOf(mem)(a) == m.id && ReadsOf(mem)(a + 4) == m.size;
  }

  /** The device reads the guest's messages as they were sent. */
  lemma NextMsgIsSent(w: World, b: Ground, sent: seq<Msg>, k: nat)
    requires w.d.g == b.g && |w.mem| == b.size && GuestSide(b, w.d.rxPos, ReadsOf(w.mem), sent, k)
    requires k < |sent|
    ensures NextMsg(w) == sent[k]
  {
    assert HoldsSent(b.g, ReadsOf(w.mem), b.guestSlots, sent, k);
    GuestHeader(b, w.d.rxPos, w.mem, sent[k]);
  }

  /** How many messages from the k-th on a drain with that room for replies and that fuel consumes. */
  function Consumed(sent: seq<Msg>, k: nat, room: nat, fuel: nat): (n: nat)
    requires k <= |sent|
    ensures k + n <= |sent| && n <= fuel
    decreases fuel
  {
    if k == |sent| || fuel == 0 then 0
    else if !IsOpen(sent[k]) then 1 + Consumed(sent, k + 1, room, fuel - 1)
    else if room == 0 then 0
    else 1 + Consumed(sent, k + 1, room - 1, fuel - 1)
  }

  /** A run of messages has been consumed as far as it goes: to the end, to the limit, or to an OPEN without room. */
  ghost predicate StopsAt(sent: seq<Msg>, k: nat, n: nat, limit: nat, capacity: int) {
    && k + n <= |sent|
    && (k + n == |sent| || n == limit || (IsOpen(sent[k + n]) && |Replies(sent, k + n)| == capacity))
  }

  /**
   * What a drain consumes leaves messages behind only at its limit, or at an OPEN whose refusal has
   * no slot left: the CONNECT and the CLOSEs then fill the capacity.
   */
  lemma {:induction false} ConsumedStops(sent: seq<Msg>, k: nat, capacity: nat, fuel: nat)
    requires k <= |sent| && |Replies(sent, k)| <= capacity
    ensures StopsAt(sent, k, Consumed(sent, k, capacity - |Replies(sent, k)|, fuel), fuel, capacity)
    decreases fuel
  {
    var room := capacity - |Replies(sent, k)|;
    if k < |sent| && fuel > 0 && (!IsOpen(sent[k]) || room > 0) {
      MoreReplies(sent, k);
      ConsumedStops(sent, k + 1, capacity, fuel - 1);
      var n := Consumed(sent, k + 1, capacity - |Replies(sent, k + 1)|, fuel - 1);
      ConsumesOn(sent, k, room, fuel, n);
      StopsLater(sent, k, n, fuel, capacity);
    } else {
      StopsHere(sent, k, room, fuel, capacity);
    }
  }

  lemma MoreReplies(sent: seq<Msg>, k: nat)
    requires k < |sent|
    ensures |Replies(sent, k + 1)| == |Replies(sent, k)| + if IsOpen(sent[k]) then 1 else 0
  {
  }

  lemma ConsumesOn(sent: seq<Msg>, k: nat, room: nat, fuel: nat, n: nat)
    requires k < |sent| && fuel > 0 && (!IsOpen(sent[k]) || room > 0)
    requires n == Consumed(sent, k + 1, if IsOpen(sent[k]) then room - 1 else room, fuel - 1)
    ensures Consumed(sent, k, room, fuel) == n + 1
  {
  }

  lemma StopsHere(sent: seq<Msg>, k: nat, room: nat, fuel: nat, capacity: nat)
    requires k <= |sent| && room + |Replies(sent, k)| == capacity
    requires k == |sent| || fuel == 0 || (IsOpen(sent[k]) && room == 0)
    ensures StopsAt(sent, k, Consumed(sent, k, room, fuel), fuel, capacity)
  {
  }

  lemma StopsLater(sent: seq<Msg>, k: nat, n: nat, fuel: nat, capacity: int)
    requires fuel > 0 && StopsAt(sent, k + 1, n, fuel - 1, capacity)
    ensures StopsAt(sent, k, n + 1, fuel, capacity)
  {
  }

  lemma PassOver(b: Ground, rx: Word, r: Reads, sent: seq<Msg>, k: nat)
    requires GuestSide(b, rx, r, sent, k) && k < |sent|
    ensures GuestSide(b, Add(rx, Stride(sent[k].size)), r, sent, k + 1)
  {
    PosInside(sent, b.guestSlots, k + 1);
    AddFits(rx, Stride(sent[k].size));
  }

  /** What consuming m makes of a world, a reply being appended where an OPEN is answered. */
  ghost predicate ConsumedInto(w: World, b: Ground, m: Msg, n: nat, w': World) {
    && |w'.mem| == |w.mem|
    && if IsOpen(m) then
         && w.d.txPos + 8 < TWO32
         && w'.d == w.d.(txPos := w.d.txPos + 8, rxPos := Add(w.d.rxPos, Stride(m.size)))
         && Appended(b.g, ReadsOf(w.mem), n, CloseFor(m), ReadsOf(w'.mem))
       else w' == World(w.d.(rxPos := Add(w.d.rxPos, Stride(m.size))), w.mem)
  }

  lemma ConsumeIs(w: World, b: Ground, sent: seq<Msg>, k: nat, queued: seq<Word>, m: Msg)
    requires AgreesAt(b, sent, k, queued)(w)
    requires IsOpen(m) ==> |queued| < Capacity(b.g)
    ensures ConsumedInto(w, b, m, |queued|, Consume(w, m))
  {
    if IsOpen(m) {
      QueueAppends(w, b, queued, CloseFor(m), Queue(w, CloseFor(m), 0));
    }
  }

  /** An OPEN is answered and passed over. */
  lemma OpenKeeps(b: Ground, tx: Word, rx: Word, r: Reads, r': Reads, sent: seq<Msg>, k: nat, queued: seq<Word>)
    requires MasterSide(b.g, tx, r, queued) && |queued| < Capacity(b.g) && tx + 8 < TWO32
    requires GuestSide(b, rx, r, sent, k) && k < |sent|
    requires Appended(b.g, r, |queued|, CloseFor(sent[k]), r')
    ensures MasterSide(b.g, tx + 8, r', queued + [CloseFor(sent[k])])
    ensures GuestSide(b, Add(rx, Stride(sent[k].size)), r', sent, k + 1)
  {
    AppendedMaster(b, tx, r, queued, CloseFor(sent[k]), r');
    AppendedGuest(b, r, |queued|, CloseFor(sent[k]), r');
    GuestSideKept(b, rx, r, r', sent, k);
    PassOver(b, rx, r', sent, k);
  }

  /** Consuming one message: an OPEN is answered first, anything else just passed over. */
  lemma OneMessage(w: World, b: Ground, sent: seq<Msg>, k: nat, queued: seq<Word>, w': World)
    requires AgreesAt(b, sent, k, queued)(w) && k < |sent|
    requires IsOpen(sent[k]) ==> |queued| < Capacity(b.g)
    requires ConsumedInto(w, b, sent[k], |queued|, w')
    ensures AgreesAt(b, sent, k + 1, queued + Answer(sent[k]))(w')
  {
    if IsOpen(sent[k]) {
      OpenKeeps(b, w.d.txPos, w.d.rxPos, ReadsOf(w.mem), ReadsOf(w'.mem), sent, k, queued);
    } else {
      assert queued + [] == queued;
      PassOver(b, w.d.rxPos, ReadsOf(w.mem), sent, k);
    }
  }

  // ---- the drain loop, for any state of affairs that its steps keep ----

  /** inv(w, k): k messages are consumed. */
  type Inv = (World, nat) -> bool

  /** What the steps of a drain do with a world of which inv holds. */
  ghost predicate Serves(ops: Ops, inv: Inv, sent: seq<Msg>, tx: Word, capacity: nat, w: World, k: nat) {
    inv(w, k) ==>
      && k <= |sent| && |Replies(sent, k)| <= capacity
      && inv(ops.ack(w), k) && ops.published(w) == tx && inv(ops.ring(w), k)
      && (w.d.rxPos == tx <==> k == |sent|)
      && (k < |sent| ==>
            && ops.next(w) == sent[k]
            && (ops.room(w) <==> |Replies(sent, k)| < capacity)
            && (!IsOpen(sent[k]) || |Replies(sent, k)| < capacity ==> inv(ops.consume(w, sent[k]), k + 1)))
  }

  ghost predicate ServesAll(ops: Ops, inv: Inv, sent: seq<Msg>, tx: Word, capacity: nat) {
    forall w: World, k: nat :: Serves(ops, inv, sent, tx, capacity, w, k)
  }

  /** One turn of the loop. */
  lemma LoopTurn(ops: Ops, inv: Inv, sent: seq<Msg>, tx: Word, capacity: nat, w: World, k: nat, fuel: nat)
    requires Serves(ops, inv, sent, tx, capacity, w, k) && inv(w, k)
    ensures k <= |sent| && |Replies(sent, k)| <= capacity
    ensures var stop := k == |sent| || fuel == 0 || (IsOpen(sent[k]) && |Replies(sent, k)| == capacity);
            if stop then
              DrainFrom(ops, w, tx, fuel) == Drained(w, false, 0)
              && Consumed(sent, k, capacity - |Replies(sent, k)|, fuel) == 0
            else
              var w' := ops.consume(w, sent[k]);
              var r := DrainFrom(ops, w', tx, fuel - 1);
              && inv(w', k + 1) && |Replies(sent, k + 1)| <= capacity
              && DrainFrom(ops, w, tx, fuel) == Drained(r.w, IsOpen(sent[k]) || r.replied, 1 + r.count)
              && Consumed(sent, k, capacity - |Replies(sent, k)|, fuel)
                 == 1 + Consumed(sent, k + 1, capacity - |Replies(sent, k + 1)|, fuel - 1)
  {
  }

  /** The loop keeps inv and consumes exactly what room and fuel allow. */
  lemma {:induction false} LoopKeeps(
      ops: Ops, inv: Inv, sent: seq<Msg>, tx: Word, capacity: nat, w: World, k: nat, fuel: nat)
    requires ServesAll(ops, inv, sent, tx, capacity)
    requires inv(w, k)
    ensures k <= |sent| && |Replies(sent, k)| <= capacity
    ensures var r := DrainFrom(ops, w, tx, fuel);
            && r.count == Consumed(sent, k, capacity - |Replies(sent, k)|, fuel)
            && inv(r.w, k + r.count)
    decreases fuel
  {
    assert Serves(ops, inv, sent, tx, capacity, w, k);
    LoopTurn(ops, inv, sent, tx, capacity, w, k, fuel);
    if !(k == |sent| || fuel == 0 || (IsOpen(sent[k]) && |Replies(sent, k)| == capacity)) {
      LoopKeeps(ops, inv, sent, tx, capacity, ops.consume(w, sent[k]), k + 1, fuel - 1);
    }
  }

  /** The loop has replied exactly if the messages it consumed call for more replies. */
  lemma {:induction false} LoopReplies(
      ops: Ops, inv: Inv, sent: seq<Msg>, tx: Word, capacity: nat, w: World, k: nat, fuel: nat)
    requires ServesAll(ops, inv, sent, tx, capacity)
    requires inv(w, k)
    ensures var r := DrainFrom(ops, w, tx, fuel);
            k + r.count <= |sent| && (r.replied <==> |Replies(sent, k + r.count)| > |Replies(sent, k)|)
    decreases fuel
  {
    assert Serves(ops, inv, sent, tx, capacity, w, k);
    LoopTurn(ops, inv, sent, tx, capacity, w, k, fuel);
    if !(k == |sent| || fuel == 0 || (IsOpen(sent[k]) && |Replies(sent, k)| == capacity)) {
      LoopReplies(ops, inv, sent, tx, capacity, ops.consume(w, sent[k]), k + 1, fuel - 1);
      RepliesGrow(sent, k + 1, k + 1 + DrainFrom(ops, ops.consume(w, sent[k]), tx, fuel - 1).count);
    }
  }

  /** A whole drain: what it consumes, what it leaves, and whether it rings back. */
  lemma DrainServes(ops: Ops, inv: Inv, sent: seq<Msg>, tx: Word, capacity: nat, w: World, k: nat, limit: nat)
    requires ServesAll(ops, inv, sent, tx, capacity)
    requires inv(w, k)
    ensures k <= |sent| && |Replies(sent, k)| <= capacity
    ensures var r := Drain(ops, w, limit);
            && r.count == Consumed(sent, k, capacity - |Replies(sent, k)|, limit)
            && inv(r.w, k + r.count)
            && (r.replied <==> |Replies(sent, k + r.count)| > |Replies(sent, k)|)
  {
    assert Serves(ops, inv, sent, tx, capacity, w, k);
    var w1 := ops.ack(w);
    assert Serves(ops, inv, sent, tx, capacity, w1, k);
    LoopKeeps(ops, inv, sent, tx, capacity, w1, k, limit);
    LoopReplies(ops, inv, sent, tx, capacity, w1, k, limit);
    var r := DrainFrom(ops, w1, tx, limit);
    assert Serves(ops, inv, sent, tx, capacity, r.w, k + r.count);
  }

  /**
   * What a drain r of up to limit messages has done when k were consumed before: how many more it
   * has consumed, and why no more than that; that inv holds again; and that it has rung back exactly
   * if there was more to reply.
   */
  ghost predicate DrainedTo(inv: Inv, sent: seq<Msg>, capacity: int, k: nat, limit: nat, r: Drained) {
    && k <= |sent| && |Replies(sent, k)| <= capacity
    && r.count == Consumed(sent, k, capacity - |Replies(sent, k)|, limit)
    && StopsAt(sent, k, r.count, limit, capacity)
    && inv(r.w, k + r.count)
    && (r.replied <==> |Replies(sent, k + r.count)| > |Replies(sent, k)|)
  }

  ghost function Draining(inv: Inv, sent: seq<Msg>, capacity: int, k: nat, limit: nat): Drained -> bool {
    (r: Drained) => DrainedTo(inv, sent, capacity, k, limit, r)
  }

  lemma Drains(inv: Inv, sent: seq<Msg>, capacity: int, k: nat, limit: nat, r: Drained)
    ensures Draining(inv, sent, capacity, k, limit)(r) <==> DrainedTo(inv, sent, capacity, k, limit, r)
  {
  }

  lemma DrainsOn(inv: Inv, sent: seq<Msg>, capacity: int, k: nat, limit: nat, r: Drained)
    requires Draining(inv, sent, capacity, k, limit)(r)
    ensures inv(r.w, k + r.count)
  {
  }

  lemma DrainServesSo(ops: Ops, inv: Inv, sent: seq<Msg>, tx: Word, capacity: nat, w: World, k: nat, limit: nat)
    requires ServesAll(ops, inv, sent, tx, capacity) && inv(w, k)
    ensures Draining(inv, sent, capacity, k, limit)(Drain(ops, w, limit))
  {
    DrainServes(ops, inv, sent, tx, capacity, w, k, limit);
    ConsumedStops(sent, k, capacity, limit);
    Drains(inv, sent, capacity, k, limit, Drain(ops, w, limit));
  }

  lemma {:induction false} RepliesGrow(sent: seq<Msg>, i: nat, j: nat)
    requires i <= j <= |sent|
    ensures |Replies(sent, i)| <= |Replies(sent, j)|
    decreases j
  {
    if i < j {
      RepliesGrow(sent, i, j - 1);
    }
  }

  lemma {:induction false} RepliesOfPrefix(sent: seq<Msg>, m: Msg, k: nat)
    requires k <= |sent|
    ensures Replies(sent + [m], k) == Replies(sent, k)
  {
    if k > 0 {
      RepliesOfPrefix(sent, m, k - 1);
    }
  }

  // ---- the device's loop ----

  ghost function ChannelAt(b: Ground, sent: seq<Msg>): Inv {
    (w: World, k: nat) => Channel(w, b, sent, k)
  }

  lemma AtTheEnd(b: Ground, sent: seq<Msg>, k: nat)
    requires k <= |sent| && Placed(b.guestSlots, sent)
    ensures Pos(sent, k) == Pos(sent, |sent|) <==> k == |sent|
  {
    if k < |sent| {
      PosGrows(sent, b.guestSlots, k, |sent|);
    }
  }

  lemma ServesBounds(b: Ground, sent: seq<Msg>, tx: Word, w: World, k: nat)
    requires tx == Pos(sent, |sent|) && Channel(w, b, sent, k)
    ensures k <= |sent| && |Replies(sent, k)| <= Capacity(b.g)
    ensures w.d.rxPos == tx <==> k == |sent|
  {
    AtTheEnd(b, sent, k);
  }

  lemma ServesNext(b: Ground, sent: seq<Msg>, w: World, k: nat)
    requires Channel(w, b, sent, k) && k < |sent|
    ensures DEVICE.next(w) == sent[k]
    ensures DEVICE.room(w) <==> |Replies(sent, k)| < Capacity(b.g)
  {
    NextMsgIsSent(w, b, sent, k);
    RoomIsCapacity(b, w.d, ReadsOf(w.mem), Replies(sent, k));
  }

  lemma MessageTaken(w: World, b: Ground, sent: seq<Msg>, k: nat, queued: seq<Word>, w': World)
    requires AgreesAt(b, sent, k, queued)(w) && k < |sent|
    requires IsOpen(sent[k]) ==> |queued| < Capacity(b.g)
    requires w' == Consume(w, sent[k])
    ensures AgreesAt(b, sent, k + 1, queued + Answer(sent[k]))(w')
  {
    ConsumeIs(w, b, sent, k, queued, sent[k]);
    OneMessage(w, b, sent, k, queued, w');
  }

  /** The channel is in order exactly if the two sides agree on what should be queued by now. */
  lemma ChannelAgrees(b: Ground, sent: seq<Msg>, w: World, k: nat)
    requires k <= |sent|
    ensures ChannelAt(b, sent)(w, k) <==> AgreesAt(b, sent, k, Replies(sent, k))(w)
  {
  }

  lemma ConsumeStays(b: Ground, sent: seq<Msg>, w: World, k: nat, w': World)
    requires ChannelAt(b, sent)(w, k) && k < |sent|
    requires !IsOpen(sent[k]) || |Replies(sent, k)| < Capacity(b.g)
    requires w' == Consume(w, sent[k])
    ensures ChannelAt(b, sent)(w', k + 1)
  {
    ChannelAgrees(b, sent, w, k);
    MessageTaken(w, b, sent, k, Replies(sent, k), w');
    ChannelAgrees(b, sent, w', k + 1);
  }

  lemma ServesConsume(b: Ground, sent: seq<Msg>, w: World, k: nat)
    requires ChannelAt(b, sent)(w, k) && k < |sent|
    requires !IsOpen(sent[k]) || |Replies(sent, k)| < Capacity(b.g)
    ensures ChannelAt(b, sent)(DEVICE.consume(w, sent[k]), k + 1)
  {
    ConsumeStays(b, sent, w, k, DEVICE.consume(w, sent[k]));
  }

  lemma FlagKeeps(w: World, b: Ground, sent: seq<Msg>, k: nat, a: int, v: Word, w': World)
    requires Channel(w, b, sent, k) && Flag(b.g, a)
    requires w'.mem == Store(w.mem, a, v) && w'.d == w.d.(doorbell := w'.d.doorbell)
    ensures Channel(w', b, sent, k)
  {
    StateAddr(b, b.g.master, 0);
    StoreIsSeen(w.mem, a, v);
    var r, r' := ReadsOf(w.mem), ReadsOf(w'.mem);
    FlagsAreApart(b, r, a, v, r');
    MasterSideKept(b, w.d.txPos, r, r', Replies(sent, k));
    GuestSideKept(b, w.d.rxPos, r, r', sent, k);
  }

  lemma ServesAck(w: World, b: Ground, sent: seq<Msg>, k: nat)
    requires Channel(w, b, sent, k)
    ensures ChannelAt(b, sent)(DEVICE.ack(w), k)
  {
    StateAddr(b, b.g.master, 0);
    FlagKeeps(w, b, sent, k, b.g.master + SS_TRIGGER_FIRED, 0, Acknowledge(w));
  }

  lemma ServesPublished(w: World, b: Ground, sent: seq<Msg>, k: nat)
    requires Channel(w, b, sent, k)
    ensures DEVICE.published(w) == Pos(sent, |sent|)
  {
    StateAddr(b, b.g.slave, 0);
    assert ReadsOf(w.mem)(b.g.slave + SS_TX_POS) == Pos(sent, |sent|);
  }

  lemma ServesRing(w: World, b: Ground, sent: seq<Msg>, k: nat)
    requires Channel(w, b, sent, k)
    ensures ChannelAt(b, sent)(DEVICE.ring(w), k)
  {
    StateAddr(b, b.g.slave, 0);
    FlagKeeps(w, b, sent, k, b.g.slave + SS_TRIGGER_FIRED, 1, Ring(w));
  }

  lemma DeviceServes(b: Ground, sent: seq<Msg>, tx: Word, w: World, k: nat)
    requires tx == Pos(sent, |sent|)
    ensures Serves(DEVICE, ChannelAt(b, sent), sent, tx, Capacity(b.g), w, k)
  {
    if Channel(w, b, sent, k) {
      ServesBounds(b, sent, tx, w, k);
      ServesAck(w, b, sent, k);
      ServesPublished(w, b, sent, k);
      ServesRing(w, b, sent, k);
      if k < |sent| {
        ServesNext(b, sent, w, k);
        if !IsOpen(sent[k]) || |Replies(sent, k)| < Capacity(b.g) {
          ServesConsume(b, sent, w, k);
        }
      }
    }
  }

  /** While the channel is in order the device's steps serve it, up to the position published. */
  lemma DeviceServesAll(w: World, b: Ground, sent: seq<Msg>, k: nat) returns (tx: Word)
    requires ChannelAt(b, sent)(w, k)
    ensures ServesAll(DEVICE, ChannelAt(b, sent), sent, tx, Capacity(b.g))
  {
    PosInside(sent, b.guestSlots, |sent|);
    tx := Pos(sent, |sent|);
    forall w: World, k: nat ensures Serves(DEVICE, ChannelAt(b, sent), sent, tx, Capacity(b.g), w, k) {
      DeviceServes(b, sent, tx, w, k);
    }
  }

  /**
   * A doorbell from the guest: the device consumes as many messages as its slots and its limit
   * allow, and has then queued one CLOSE per OPEN consumed, in order, each to the OPEN's port. It
   * rings back exactly if it queued anything.
   */
  lemma DrainKeeps(w: World, b: Ground, sent: seq<Msg>, k: nat, limit: nat)
    requires ChannelAt(b, sent)(w, k)
    ensures Draining(ChannelAt(b, sent), sent, Capacity(b.g), k, limit)(Drain(DEVICE, w, limit))
  {
    var tx := DeviceServesAll(w, b, sent, k);
    DrainServesSo(DEVICE, ChannelAt(b, sent), sent, tx, Capacity(b.g), w, k, limit);
  }

  /** Ringing back sets the bit the guest tests. */
  lemma RingIsHeard(w: World)
    ensures DEVICE.ring(w).d.doorbell / HAVE_MESSAGES % 2 == 1
  {
  }

  // ---- the guest appends a message ----

  /** The guest stores a message's header at pos, and then publishes the position behind it. */
  function Append(w: World, b: AnyGround, pos: Word, m: Msg): World
    requires Fits(b.guestSlots, pos, m)
  {
    var a := GuestAddr(b.g, b.guestSlots, pos);
    World(w.d, Store(Store(Store(w.mem, a, m.id), a + 4, m.size), b.g.slave + SS_TX_POS, Add(pos, Stride(m.size))))
  }

  /** Two messages of the guest's stream occupy different words. */
  lemma MessagesApart(b: Ground, p: nat, q: nat)
    requires p + 8 <= q && p / SLOT_SIZE < |b.guestSlots| && q / SLOT_SIZE < |b.guestSlots|
    requires p % SLOT_SIZE + 8 <= SLOT_SIZE && q % SLOT_SIZE + 8 <= SLOT_SIZE
    ensures var x, y := GuestAddr(b.g, b.guestSlots, p), GuestAddr(b.g, b.guestSlots, q);
            x + 8 <= y || y + 8 <= x
  {
    var i, j := p / SLOT_SIZE, q / SLOT_SIZE;
    assert b.SlotFits(j);
    if i < j {
      assert b.guestSlots[i] != b.guestSlots[j];
    } else {
      assert i == j;
    }
  }

  /** r' is r with a message stored at position pos of the guest's stream, and published. */
  ghost predicate Sent(b: AnyGround, r: Reads, pos: nat, m: Msg, r': Reads)
    requires pos / SLOT_SIZE < |b.guestSlots|
  {
    var a, pub := GuestAddr(b.g, b.guestSlots, pos), b.g.slave + SS_TX_POS;
    && r'(a) == m.id && r'(a + 4) == m.size && r'(pub) == pos + Stride(m.size)
    && forall x: int {:trigger r'(x)} :: Far(x, a) && Far(x, a + 4) && Far(x, pub) ==> r'(x) == r(x)
  }

  lemma SentMaster(b: Ground, r: Reads, pos: nat, m: Msg, r': Reads)
    requires Fits(b.guestSlots, pos, m) && Sent(b, r, pos, m, r')
    ensures MasterWordsKept(b, r, r')
  {
    StrideOfSmall(m.size);
    GuestAddrApart(b, pos);
  }

  lemma SentEarlier(b: Ground, r: Reads, pos: nat, m: Msg, r': Reads, p: nat, e: Msg)
    requires Fits(b.guestSlots, pos, m) && Sent(b, r, pos, m, r')
    requires HoldsMsg(b.g, r, b.guestSlots, p, e) && p + 8 <= pos
    ensures HoldsMsg(b.g, r', b.guestSlots, p, e)
  {
    StrideOfSmall(m.size);
    StrideOfSmall(e.size);
    MessagesApart(b, p, pos);
    GuestAddrApart(b, p);
  }

  lemma {:induction false} PosOfPrefix(sent: seq<Msg>, m: Msg, i: nat)
    requires i <= |sent|
    ensures Pos(sent + [m], i) == Pos(sent, i)
  {
    if i > 0 {
      PosOfPrefix(sent, m, i - 1);
    }
  }

  lemma SentGuest(b: Ground, rx: Word, r: Reads, sent: seq<Msg>, k: nat, m: Msg, r': Reads)
    requires GuestSide(b, rx, r, sent, k) && Fits(b.guestSlots, Pos(sent, |sent|), m)
    requires Sent(b, r, Pos(sent, |sent|), m, r')
    ensures GuestSide(b, rx, r', sent + [m], k)
  {
    var pos, sent' := Pos(sent, |sent|), sent + [m];
    PosOfPrefix(sent, m, |sent|);
    PosOfPrefix(sent, m, k);
    SentQueue(b, r, pos, m, r');
    forall i | 0 <= i < |sent'| ensures PlacedAt(b.guestSlots, sent', i) {
      PosOfPrefix(sent, m, i);
      if i < |sent| { assert PlacedAt(b.guestSlots, sent, i); }
    }
    forall i | k <= i < |sent'| ensures HoldsSent(b.g, r', b.guestSlots, sent', i) {
      PosOfPrefix(sent, m, i);
      if i < |sent| {
        assert HoldsSent(b.g, r, b.guestSlots, sent, i);
        PosGrows(sent, b.guestSlots, i, |sent|);
        SentEarlier(b, r, pos, m, r', Pos(sent, i), sent[i]);
      }
    }
  }

  lemma SentQueue(b: Ground, r: Reads, pos: nat, m: Msg, r': Reads)
    requires Fits(b.guestSlots, pos, m) && Sent(b, r, pos, m, r') && QueueHolds(r, b.g.slave, b.guestSlots)
    ensures QueueHolds(r', b.g.slave, b.guestSlots)
  {
    StrideOfSmall(m.size);
    GuestAddrApart(b, pos);
  }

  /** The three stores of the guest's append. */
  ghost predicate AppendedAt(mem: Memory, b: AnyGround, pos: nat, m: Msg, mem': Memory)
    requires pos / SLOT_SIZE < |b.guestSlots|
  {
    var a, pub := GuestAddr(b.g, b.guestSlots, pos), b.g.slave + SS_TX_POS;
    && pub + 4 <= a && a + 8 <= |mem| && pos + Stride(m.size) < TWO32
    && mem' == Store(Store(Store(mem, a, m.id), a + 4, m.size), pub, pos + Stride(m.size))
  }

  lemma AppendStores(mem: Memory, b: AnyGround, pos: nat, m: Msg, mem': Memory)
    requires pos / SLOT_SIZE < |b.guestSlots| && AppendedAt(mem, b, pos, m, mem')
    ensures |mem'| == |mem| && Sent(b, ReadsOf(mem), pos, m, ReadsOf(mem'))
  {
    ThreeStores(mem, GuestAddr(b.g, b.guestSlots, pos), m.id, m.size, b.g.slave + SS_TX_POS,
                pos + Stride(m.size), mem');
  }

  lemma AppendIs(w: World, b: Ground, pos: Word, m: Msg, w': World)
    requires |w.mem| == b.size && Fits(b.guestSlots, pos, m)
    requires w' == Append(w, b, pos, m)
    ensures AppendedAt(w.mem, b, pos, m, w'.mem)
  {
    AppendParts(b, pos, m);
  }

  lemma AppendParts(b: Ground, pos: Word, m: Msg)
    requires Fits(b.guestSlots, pos, m)
    ensures pos + Stride(m.size) < TWO32 && Add(pos, Stride(m.size)) == pos + Stride(m.size)
    ensures var a := GuestAddr(b.g, b.guestSlots, pos);
            b.g.slave + SS_TX_POS + 4 <= a && a + 8 <= b.size
  {
    StrideOfSmall(m.size);
    GuestAddrApart(b, pos);
    NextPos(b.guestSlots, pos, m);
    AddFits(pos, Stride(m.size));
  }

  lemma AppendKeeps(w: World, b: Ground, sent: seq<Msg>, k: nat, pos: Word, m: Msg)
    requires Channel(w, b, sent, k) && pos == Pos(sent, |sent|) && Fits(b.guestSlots, pos, m)
    ensures ChannelAt(b, sent + [m])(Append(w, b, pos, m), k)
  {
    var w' := Append(w, b, pos, m);
    var r, r' := ReadsOf(w.mem), ReadsOf(w'.mem);
    AppendIs(w, b, pos, m, w');
    AppendStores(w.mem, b, pos, m, w'.mem);
    SentMaster(b, r, pos, m, r');
    SentGuest(b, w.d.rxPos, r, sent, k, m, r');
    RepliesOfPrefix(sent, m, k);
    MasterSideKept(b, w.d.txPos, r, r', Replies(sent, k));
  }

  // ---- the handover opens the channel ----

  /** The first n entries of the master's queue are filled in, and nothing else has changed. */
  ghost predicate Filled(b: AnyGround, r: Reads, n: nat, r': Reads) {
    && (forall i :: 0 <= i < n ==> r'(Entry(b.g.master, i)) == b.g.slotFirst + i)
    && (forall a: int {:trigger r'(a)} ::
          a + 4 <= Entry(b.g.master, 0) || b.g.slave <= a ==> r'(a) == r(a))
  }

  lemma FillOne(b: Ground, r: Reads, n: nat, r': Reads, r'': Reads)
    requires n < Slots(b.g) && Filled(b, r, n, r') && Stored(r', Entry(b.g.master, n), b.g.slotFirst + n, r'')
    ensures Filled(b, r, n + 1, r'')
  {
    assert Entry(b.g.master, n) + 4 <= b.g.slave;
  }

  lemma FillTurn(mem: Memory, b: Ground, n: nat, mem': Memory)
    requires |mem| == b.size && n < Slots(b.g) && b.g.slotLast < TWO32 - 1
    requires mem' == Store(mem, Entry(b.g.master, n), b.g.slotFirst + n)
    ensures FillQueue(mem, b.g, n) == FillQueue(mem', b.g, n + 1)
    ensures Stored(ReadsOf(mem), Entry(b.g.master, n), b.g.slotFirst + n, ReadsOf(mem'))
  {
    StateAddr(b, b.g.master, n);
    StoreIsSeen(mem, Entry(b.g.master, n), b.g.slotFirst + n);
  }

  lemma {:induction false} FillIsSeen(mem: Memory, b: Ground, r: Reads, n: nat)
    requires |mem| == b.size && n <= Slots(b.g) && b.g.slotLast < TWO32 - 1
    requires Filled(b, r, n, ReadsOf(mem))
    ensures Filled(b, r, Slots(b.g), ReadsOf(FillQueue(mem, b.g, n)))
    decreases Slots(b.g) - n
  {
    if n < Slots(b.g) {
      var mem' := Store(mem, Entry(b.g.master, n), b.g.slotFirst + n);
      FillTurn(mem, b, n, mem');
      FillOne(b, r, n, ReadsOf(mem), ReadsOf(mem'));
      FillIsSeen(mem', b, r, n + 1);
    }
  }

  lemma FilledKeeps(b: Ground, r: Reads, r': Reads)
    requires Filled(b, r, Slots(b.g), r')
    ensures QueueHolds(r', b.g.master, MasterSlots(b.g)) && GuestWordsKept(b, r, r')
  {
  }

  lemma ArmOne(mem: Memory, b: Ground, r: Reads, a: int, mem': Memory)
    requires |mem| == b.size && Flag(b.g, a) && mem' == Store(mem, a, 1)
    requires MasterWordsKept(b, r, ReadsOf(mem)) && GuestWordsKept(b, r, ReadsOf(mem))
    ensures MasterWordsKept(b, r, ReadsOf(mem')) && GuestWordsKept(b, r, ReadsOf(mem'))
  {
    StateAddr(b, b.g.master, 0);
    StoreIsSeen(mem, a, 1);
    FlagsAreApart(b, ReadsOf(mem), a, 1, ReadsOf(mem'));
  }

  lemma ArmIs(mem: Memory, b: Ground, mem1: Memory, mem2: Memory)
    requires mem1 == Store(mem, b.g.master + SS_TRIGGER_ARMED, 1)
    requires mem2 == Store(mem1, b.g.master + SS_RECYCLE_ARMED, 1)
    ensures Arm(mem, b.g) == Store(mem2, b.g.master + SS_INITIALISED, 1)
  {
    FlagAddrs(b);
  }

  lemma ArmKeeps(mem: Memory, b: Ground)
    requires |mem| == b.size
    ensures MasterWordsKept(b, ReadsOf(mem), ReadsOf(Arm(mem, b.g)))
    ensures GuestWordsKept(b, ReadsOf(mem), ReadsOf(Arm(mem, b.g)))
  {
    var m, r := b.g.master, ReadsOf(mem);
    var mem1 := Store(mem, m + SS_TRIGGER_ARMED, 1);
    var mem2 := Store(mem1, m + SS_RECYCLE_ARMED, 1);
    ArmIs(mem, b, mem1, mem2);
    ArmOne(mem, b, r, m + SS_TRIGGER_ARMED, mem1);
    ArmOne(mem1, b, r, m + SS_RECYCLE_ARMED, mem2);
    ArmOne(mem2, b, r, m + SS_INITIALISED, Arm(mem, b.g));
  }

  lemma FlagAddrs(b: Ground)
    ensures Add(b.g.master, SS_TRIGGER_ARMED) == b.g.master + SS_TRIGGER_ARMED
    ensures Add(b.g.master, SS_RECYCLE_ARMED) == b.g.master + SS_RECYCLE_ARMED
    ensures Add(b.g.master, SS_INITIALISED) == b.g.master + SS_INITIALISED
  {
    StateAddr(b, b.g.master, 0);
  }

  /** With the queue filled and the flags armed both sides are as they should be before the CONNECT. */
  lemma ArmedAgrees(mem: Memory, b: Ground, sent: seq<Msg>, mem': Memory)
    requires |mem| == b.size && b.g.slotLast < TWO32 - 1 && GuestSide(b, 0, ReadsOf(mem), sent, 0)
    requires mem' == Arm(FillQueue(mem, b.g, 0), b.g)
    ensures |mem'| == b.size
    ensures MasterSide(b.g, 0, ReadsOf(mem'), []) && GuestSide(b, 0, ReadsOf(mem'), sent, 0)
  {
    var mem1 := FillQueue(mem, b.g, 0);
    FillIsSeen(mem, b, ReadsOf(mem), 0);
    FilledKeeps(b, ReadsOf(mem), ReadsOf(mem1));
    GuestSideKept(b, 0, ReadsOf(mem), ReadsOf(mem1), sent, 0);
    ArmKeeps(mem1, b);
    GuestSideKept(b, 0, ReadsOf(mem1), ReadsOf(mem'), sent, 0);
    QueueArmed(b, ReadsOf(mem1), ReadsOf(mem'));
  }

  lemma QueueArmed(b: Ground, r: Reads, r': Reads)
    requires QueueHolds(r, b.g.master, MasterSlots(b.g)) && MasterWordsKept(b, r, r')
    ensures QueueHolds(r', b.g.master, MasterSlots(b.g))
  {
  }

  /** The CONNECT is the first message of the master's stream. */
  lemma ConnectOpens(w: World, b: Ground, sent: seq<Msg>)
    requires Agrees(w, b, sent, 0, [])
    ensures HasRoom(w.d, 0) && ChannelAt(b, sent)(Connect(w), 0)
  {
    RoomIsCapacity(b, w.d, ReadsOf(w.mem), []);
    var w1 := Queue(w, CONNECT, 0);
    QueueAppends(w, b, [], CONNECT, w1);
    AppendedMaster(b, w.d.txPos, ReadsOf(w.mem), [], CONNECT, ReadsOf(w1.mem));
    AppendedGuest(b, ReadsOf(w.mem), 0, CONNECT, ReadsOf(w1.mem));
    GuestSideKept(b, w.d.rxPos, ReadsOf(w.mem), ReadsOf(w1.mem), sent, 0);
    assert [] + [CONNECT] == Replies(sent, 0);
    assert Channel(w1, b, sent, 0);
    ServesRing(w1, b, sent, 0);
  }

  /**
   * A handover the device accepts, on a sane guest, opens the channel: the master's queue is filled,
   * the CONNECT is stored and published, and whatever the guest had already sent is still to come.
   */
  lemma HandoverOpens(w: World, base: Word, b: Ground, sent: seq<Msg>)
    requires !w.d.active && Plausible(w.mem, base)
    requires |w.mem| == b.size && b.g == GeometryAt(w.mem, base) && b.g.slotLast < TWO32 - 1
    requires GuestSide(b, 0, ReadsOf(w.mem), sent, 0)
    ensures ChannelAt(b, sent)(Handover(w, base), 0)
  {
    var mem' := Arm(FillQueue(w.mem, b.g, 0), b.g);
    ArmedAgrees(w.mem, b, sent, mem');
    ConnectOpens(World(Dev(true, b.g, 0, 0, w.d.doorbell), mem'), b, sent);
  }

  // ---- every interleaving ----

  /** A run so far: the world, what the guest has sent, and how much of it is consumed. */
  datatype Session = Session(w: World, sent: seq<Msg>, k: nat)

  datatype Event =
    | Send(m: Msg)           // the guest appends a message
    | Doorbell               // the guest writes the device's doorbell
    | ReadDoorbell           // the guest reads, and so clears, its own
    | Again(base: Word)      // another handover; an active device ignores it
    | Elsewhere(mem: Memory) // the guest writes words outside both streams

  ghost predicate HeaderKept(b: AnyGround, r: Reads, r': Reads, sent: seq<Msg>, i: nat)
    requires i < |sent|
  {
    PlacedAt(b.guestSlots, sent, i) ==>
      var a := GuestAddr(b.g, b.guestSlots, Pos(sent, i));
      r'(a) == r(a) && r'(a + 4) == r(a + 4)
  }

  /** The guest leaves its slot queue, its position and the headers still to be consumed alone. */
  ghost predicate GuestOwnKept(b: AnyGround, r: Reads, r': Reads, sent: seq<Msg>, k: nat) {
    && r'(b.g.slave + SS_TX_POS) == r(b.g.slave + SS_TX_POS)
    && (forall i :: 0 <= i < |b.guestSlots| ==> r'(Entry(b.g.slave, i)) == r(Entry(b.g.slave, i)))
    && (forall i :: k <= i < |sent| ==> HeaderKept(b, r, r', sent, i))
  }

  ghost predicate Allowed(b: Ground, x: Session, e: Event) {
    match e
    case Send(m) => Fits(b.guestSlots, Pos(x.sent, |x.sent|), m)
    case Elsewhere(mem) =>
      && |mem| == |x.w.mem|
      && MasterWordsKept(b, ReadsOf(x.w.mem), ReadsOf(mem))
      && GuestOwnKept(b, ReadsOf(x.w.mem), ReadsOf(mem), x.sent, x.k)
    case Again(base) => HandoverEnds(x.w, base)
    case _ => true
  }

  ghost function Step(b: Ground, limit: nat, x: Session, e: Event): Session
    requires Allowed(b, x, e)
  {
    match e
    case Send(m) => Session(Append(x.w, b, Pos(x.sent, |x.sent|), m), x.sent + [m], x.k)
    case Doorbell => var r := Drain(DEVICE, x.w, limit); Session(r.w, x.sent, x.k + r.count)
    case ReadDoorbell => x.(w := World(x.w.d.(doorbell := 0), x.w.mem))
    case Again(base) => x.(w := Vchiq.Handover(x.w, base))
    case Elsewhere(mem) => x.(w := World(x.w.d, mem))
  }

  lemma OwnWordsKeepSide(b: Ground, rx: Word, r: Reads, r': Reads, sent: seq<Msg>, k: nat)
    requires GuestSide(b, rx, r, sent, k) && GuestOwnKept(b, r, r', sent, k)
    ensures GuestSide(b, rx, r', sent, k)
  {
    forall i | k <= i < |sent| ensures HoldsSent(b.g, r', b.guestSlots, sent, i) {
      assert HoldsSent(b.g, r, b.guestSlots, sent, i);
      assert HeaderKept(b, r, r', sent, i);
    }
  }

  lemma ElsewhereKeeps(w: World, b: Ground, sent: seq<Msg>, k: nat, mem: Memory)
    requires ChannelAt(b, sent)(w, k) && |mem| == |w.mem|
    requires MasterWordsKept(b, ReadsOf(w.mem), ReadsOf(mem))
    requires GuestOwnKept(b, ReadsOf(w.mem), ReadsOf(mem), sent, k)
    ensures ChannelAt(b, sent)(World(w.d, mem), k)
  {
    MasterSideKept(b, w.d.txPos, ReadsOf(w.mem), ReadsOf(mem), Replies(sent, k));
    OwnWordsKeepSide(b, w.d.rxPos, ReadsOf(w.mem), ReadsOf(mem), sent, k);
  }

  ghost predicate Open(b: Ground, x: Session) {
    ChannelAt(b, x.sent)(x.w, x.k)
  }

  lemma SendKeeps(b: Ground, x: Session, m: Msg, limit: nat)
    requires Open(b, x) && Allowed(b, x, Send(m))
    ensures Open(b, Step(b, limit, x, Send(m)))
  {
    AppendKeeps(x.w, b, x.sent, x.k, Pos(x.sent, |x.sent|), m);
  }

  lemma StillKeeps(b: Ground, x: Session, e: Event, limit: nat)
    requires Open(b, x) && Allowed(b, x, e) && (e.ReadDoorbell? || e.Again?)
    ensures Open(b, Step(b, limit, x, e))
  {
  }

  lemma DoorbellKeeps(b: Ground, x: Session, limit: nat)
    requires Open(b, x)
    ensures Open(b, Step(b, limit, x, Doorbell))
  {
    DrainKeeps(x.w, b, x.sent, x.k, limit);
    DrainsOn(ChannelAt(b, x.sent), x.sent, Capacity(b.g), x.k, limit, Drain(DEVICE, x.w, limit));
  }

  lemma StepKeeps(b: Ground, limit: nat, x: Session, e: Event)
    requires Open(b, x) && Allowed(b, x, e)
    ensures Open(b, Step(b, limit, x, e))
  {
    match e
    case Send(m) => SendKeeps(b, x, m, limit);
    case Doorbell => DoorbellKeeps(b, x, limit);
    case Elsewhere(mem) => ElsewhereKeeps(x.w, b, x.sent, x.k, mem);
    case _ => StillKeeps(b, x, e, limit);
  }

  ghost predicate AllowedRun(b: Ground, limit: nat, x: Session, es: seq<Event>)
    decreases es
  {
    es == [] || (Allowed(b, x, es[0]) && AllowedRun(b, limit, Step(b, limit, x, es[0]), es[1..]))
  }

  ghost function After(b: Ground, limit: nat, x: Session, es: seq<Event>): Session
    requires AllowedRun(b, limit, x, es)
    decreases es
  {
    if es == [] then x else After(b, limit, Step(b, limit, x, es[0]), es[1..])
  }

  /**
   * Over every interleaving the master's stream in shared memory is the CONNECT and then, in order,
   * one CLOSE for each OPEN among the messages consumed, addressed to the port that sent it.
   */
  lemma {:induction false} EveryRun(b: Ground, limit: nat, x: Session, es: seq<Event>)
    requires Open(b, x) && AllowedRun(b, limit, x, es)
    ensures Open(b, After(b, limit, x, es))
    decreases es
  {
    if es != [] {
      StepKeeps(b, limit, x, es[0]);
      EveryRun(b, limit, Step(b, limit, x, es[0]), es[1..]);
    }
  }
}
