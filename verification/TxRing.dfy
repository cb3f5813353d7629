/**
 * The transmit ring: what `eth_tx`, one pass of the reclaim loop and the DMA engine do to the
 * shared descriptors, and the proof that in every interleaving the ring is a bounded FIFO queue
 * between the driver and the wire.
 *
 * The driver walks the ring by index through its pointer table and wraps where the descriptor it
 * holds says "end of ring". The DMA engine walks by address, 16 bytes at a time, and wraps on the
 * same bit.
 */
module TxRing {
  import opened Common
  import opened EthDesc
  import Ring

  type Frame = seq<byte>

  /** A frame the operating system hands to `eth_tx`: what the platform copies into the buffer and
      the length it reports. The buffers hold 2048 bytes. */
  datatype Packet = Packet(data: Frame, length: bv32) {
    ghost predicate Fits() {
      length <= 2048 && |data| == length as nat <= BUF_SIZE
    }
  }

  datatype TxState = TxState(
    base: nat,                  // address of the descriptor table
    ptr: seq<nat>,              // TxDesc: where descriptor i is
    buf: seq<nat>,              // TxBuffer: where buffer i is
    desc: seq<DmaDesc>,         // the descriptors in memory
    ram: map<nat, seq<byte>>,   // the buffers in memory, by physical address
    busy: nat,                  // TxBusy
    next: nat,                  // TxNext
    cur: nat,                   // address of the descriptor the DMA engine looks at
    packets: nat, errors: nat, bytes: nat)
  {
    /** The descriptor at an address. */
    function Slot(addr: nat): int {
      if addr < base then -1 else (addr - base) / 16
    }

    /** Where the hardware's descriptor table, buffers and end-of-ring bits are. */
    ghost predicate WellFormed() {
      && 1 <= |desc| == |ptr| == |buf|
      && busy < |desc| && next < |desc|
      && (forall i | 0 <= i < |desc| :: ptr[i] == base + 16 * i)
      && (forall i | 0 <= i < |desc| :: IsLastTx(desc[i]) <==> i == |desc| - 1)
      && (forall i, j | 0 <= i < j < |desc| :: VirtToPhys(buf[i]) != VirtToPhys(buf[j]))
      && (forall i | 0 <= i < |desc| :: VirtToPhys(buf[i]) in ram && |ram[VirtToPhys(buf[i])]| == BUF_SIZE)
      && base <= cur && cur == base + 16 * Slot(cur) && Slot(cur) < |desc|
      && (forall i | 0 <= i < |desc| && Owned(desc[i]) ::
            && desc[i].buffer1 == VirtToPhys(buf[i]) && desc[i].buffer2 == 0 && WholeFrame(desc[i].status)
            && Size1(desc[i].length) <= BUF_SIZE && NoSecondBuffer(desc[i].length))
    }

    /** What the DMA engine would send from slot `i`. */
    function FrameAt(i: nat): Frame
      requires i < |desc|
    {
      Fetch(ram, desc[i].buffer1, Size1(desc[i].length))
    }

    /** The ring as the DMA engine sees it: a slot it owns holds the frame it would send. */
    ghost function Queue(): Ring.Ring<Frame>
      requires WellFormed()
    {
      Ring.Ring(
        seq(|desc|, i requires 0 <= i < |desc| => if Owned(desc[i]) then Some(FrameAt(i)) else None),
        Slot(cur), next)
    }

    ghost predicate Inv() {
      WellFormed() && Queue().Valid()
    }

    /** The frames accepted by `eth_tx` and not sent yet, oldest first. */
    ghost function Pending(): (q: seq<Frame>)
      requires Inv()
      ensures |q| <= |desc|
    {
      Queue().Contents()
    }
  }

  function Fetch(ram: map<nat, seq<byte>>, addr: nat, n: nat): Frame {
    if addr in ram && n <= |ram[addr]| then ram[addr][..n] else []
  }

  /** `eth_handle_tx_buffer`: the frame overwrites the start of the buffer. */
  function Overlay(data: seq<byte>, old_: seq<byte>): seq<byte> {
    if |data| <= |old_| then data + old_[|data|..] else data
  }

  /** Where the driver and the DMA engine find descriptors and buffers. */
  lemma Bounds(s: TxState)
    requires s.WellFormed()
    ensures |s.ptr| == |s.buf| == |s.desc| && s.next < |s.desc| && s.busy < |s.desc|
    ensures 0 <= s.Slot(s.cur) < |s.desc| && s.base <= s.cur && s.Slot(s.cur) == (s.cur - s.base) / 16
  {
    hide Owned, IsLastTx, IsEmpty, Size1, NoSecondBuffer, WholeFrame, VirtToPhys;
  }

  lemma Lookup(s: TxState, i: nat)
    requires s.WellFormed() && i < |s.desc|
    ensures |s.ptr| == |s.buf| == |s.desc|
    ensures s.Slot(s.ptr[i]) == i && s.base <= s.ptr[i] && (s.ptr[i] - s.base) / 16 == i
    ensures VirtToPhys(s.buf[i]) in s.ram
  {
    hide Owned, IsLastTx, IsEmpty, Size1, NoSecondBuffer, WholeFrame, VirtToPhys;
  }

  // ---- the steps ----

  datatype TxAction =
    | Submit(packet: Packet)   // eth_tx
    | Complete(report: bv32)   // the DMA engine sends a frame and writes its report
    | Reclaim                  // one pass of the loop of eth_handle_tx_over

  datatype TxOutput =
    | Accepted | Refused
    | Sent(frame: Frame, report: bv32) | Idle
    | Internal(more: bool)   // the reclaim pass took a descriptor, or found none

  function EthTx(s: TxState, p: Packet): (TxState, TxOutput)
    requires s.WellFormed() && p.Fits()
  {
    var i := s.next;
    var d := s.desc[s.Slot(s.ptr[i])];
    if Owned(d) then (s, Refused)
    else (Fill(s, PublishedDesc(d, p.length, VirtToPhys(s.buf[i])), p.data), Accepted)
  }

  function PublishedDesc(d: DmaDesc, length: bv32, dma: nat): DmaDesc {
    DmaDesc(TxStatus(d.status), (length << 0) & DESC_SIZE1_MASK, dma, 0)
  }

  /** The frame is in the buffer of slot TxNext, the descriptor `d` in its place, TxNext moves on. */
  function Fill(s: TxState, d: DmaDesc, data: Frame): TxState
    requires s.WellFormed() && d.buffer1 == VirtToPhys(s.buf[s.next])
  {
    var i := s.next;
    s.(desc := s.desc[s.Slot(s.ptr[i]) := d],
       ram := s.ram[d.buffer1 := Overlay(data, s.ram[d.buffer1])],
       next := if IsLastTx(s.desc[s.Slot(s.ptr[i])]) then 0 else i + 1)
  }

  /** What `eth_tx` does to an index it finds free, spelled out. */
  lemma EthTxAt(s: TxState, p: Packet)
    requires s.WellFormed() && p.Fits()
    ensures Owned(s.desc[s.next]) ==> EthTx(s, p) == (s, Refused)
    ensures |s.buf| == |s.desc| && VirtToPhys(s.buf[s.next]) in s.ram
    ensures !Owned(s.desc[s.next]) ==>
              var dma := VirtToPhys(s.buf[s.next]);
              EthTx(s, p) ==
              (s.(desc := s.desc[s.next := PublishedDesc(s.desc[s.next], p.length, dma)],
                  ram := s.ram[dma := Overlay(p.data, s.ram[dma])],
                  next := if IsLastTx(s.desc[s.next]) then 0 else s.next + 1), Accepted)
  {
    hide Owned, IsLastTx, IsEmpty, Size1, NoSecondBuffer, WholeFrame, VirtToPhys, TxStatus;
    Lookup(s, s.next);
  }

  function DmaTx(s: TxState, report: bv32): (TxState, TxOutput)
    requires s.WellFormed()
  {
    var i := s.Slot(s.cur);
    var d := s.desc[i];
    if !Owned(d) then (s, Idle) else
    (s.(desc := s.desc[i := d.(status := TxWriteBack(d.status, report))],
        cur := if IsLastTx(d) then s.base else s.cur + 16),
     Sent(s.FrameAt(i), report))
  }

  function ReclaimOne(s: TxState): (TxState, TxOutput)
    requires s.WellFormed()
  {
    var i := s.busy;
    var d := s.desc[s.Slot(s.ptr[i])];
    if Owned(d) || IsEmpty(d) then (s, Internal(false)) else
    var ok := NoError(d.status);
    var last := IsLastTx(d);
    (s.(packets := if ok then s.packets + 1 else s.packets,
        bytes := if ok then s.bytes + Size1(d.length) else s.bytes,
        errors := if ok then s.errors else s.errors + 1,
        desc := s.desc[s.Slot(s.ptr[i]) := DmaDesc(if last then TX_DESC_END_OF_RING else 0, 0, 0, 0)],
        busy := if last then 0 else i + 1),
     Internal(true))
  }

  /** What a pass of the reclaim loop does, spelled out. */
  lemma ReclaimAt(s: TxState)
    requires s.WellFormed()
    ensures var d := s.desc[s.busy];
            ReclaimOne(s) ==
            if Owned(d) || IsEmpty(d) then (s, Internal(false)) else
            var ok, last := NoError(d.status), IsLastTx(d);
            (s.(packets := if ok then s.packets + 1 else s.packets,
                bytes := if ok then s.bytes + Size1(d.length) else s.bytes,
                errors := if ok then s.errors else s.errors + 1,
                desc := s.desc[s.busy := DmaDesc(if last then TX_DESC_END_OF_RING else 0, 0, 0, 0)],
                busy := if last then 0 else s.busy + 1),
             Internal(true))
  {
    hide Owned, IsLastTx, IsEmpty, Size1, NoSecondBuffer, NoError, VirtToPhys;
    Lookup(s, s.busy);
  }

  // ---- the descriptors they write, in numbers ----

  /** A frame of `length` bytes at `addr` is handed over in slot `i`. */
  ghost predicate Publishes(before: seq<DmaDesc>, after: seq<DmaDesc>, i: nat, length: bv32, addr: nat) {
    && i < |before|
    && after == before[i := DmaDesc(WithFrameBits(before[i].status), length, addr % 0x1_0000_0000, 0)]
  }

  /** Slot `i` is cleared, but for the end of the ring. */
  ghost predicate Clears(before: seq<DmaDesc>, after: seq<DmaDesc>, i: nat) {
    && i < |before|
    && after == before[i := DmaDesc(if i + 1 == |before| then 0x00200000 else 0, 0, 0, 0)]
  }

  /** The OWN bit decides, and what is handed over has its length, its buffer, and no second one. */
  lemma EthTxPublishes(s: TxState, p: Packet)
    requires s.WellFormed() && p.Fits()
    ensures |s.buf| == |s.desc| && s.next < |s.desc|
    ensures EthTx(s, p).1 == Refused <==> EngineOwns(s.desc[s.next].status)
    ensures EthTx(s, p).1 != Refused ==> Publishes(s.desc, EthTx(s, p).0.desc, s.next, p.length, s.buf[s.next])
  {
    hide Owned, IsLastTx, IsEmpty, Size1, NoSecondBuffer, WholeFrame, TxState.WellFormed, PublishedDesc, EthTx, EngineOwns,
      WithFrameBits;
    Bounds(s);
    EthTxAt(s, p);
    EngineWords(s.desc[s.next]);
    PublishedIs(s.desc[s.next], p.length, VirtToPhys(s.buf[s.next]));
  }

  lemma PublishedIs(d: DmaDesc, length: bv32, dma: nat)
    requires length <= 2048
    ensures PublishedDesc(d, length, dma) == DmaDesc(WithFrameBits(d.status), length, dma, 0)
  {
    hide TxStatus, WithFrameBits;
    EngineWords(d);
    PlainSize(length);
  }

  lemma PlainSize(length: bv32)
    requires length <= 2048
    ensures (length << 0) & DESC_SIZE1_MASK == length
  {
  }

  /** A pass takes a slot exactly when OWN is 0 and a size is not, and clears it. */
  lemma ReclaimClears(s: TxState)
    requires s.WellFormed()
    ensures s.busy < |s.desc|
    ensures ReclaimOne(s).1 == Internal(true) <==>
              !EngineOwns(s.desc[s.busy].status) && s.desc[s.busy].length & 0x1FFF1FFF != 0
    ensures ReclaimOne(s).1 == Internal(true) ==> Clears(s.desc, ReclaimOne(s).0.desc, s.busy)
  {
    hide Owned, IsEmpty, Size1, NoError, NoSecondBuffer, WholeFrame, VirtToPhys, IsLastTx;
    ReclaimAt(s);
    EngineWords(s.desc[s.busy]);
    EmptyLayout(s.desc[s.busy]);
  }

  ghost predicate Possible(a: TxAction) {
    a.Submit? ==> a.packet.Fits()
  }

  function Step(s: TxState, a: TxAction): (TxState, TxOutput)
    requires s.WellFormed() && Possible(a)
  {
    match a
    case Submit(p) => EthTx(s, p)
    case Complete(report) => DmaTx(s, report)
    case Reclaim => ReclaimOne(s)
  }

  // ---- as operations on a bounded FIFO queue ----

  function Op(a: TxAction): Ring.Op<Frame> {
    match a
    case Submit(p) => Ring.Put(p.data)
    case Complete(_) => Ring.Get
    case Reclaim => Ring.Neither
  }

  /** What an observer on the two ends of the queue sees of an output. */
  function View(out: TxOutput): Ring.Outcome<Frame> {
    match out
    case Accepted => Ring.Stored
    case Refused => Ring.Full
    case Sent(frame, _) => Ring.Got(frame)
    case Idle => Ring.Empty
    case Internal(_) => Ring.Silent
  }

  /** The status word of the descriptor `eth_tx` publishes, and its size field. */
  lemma Published(d: DmaDesc, p: Packet, dma: nat)
    requires p.Fits()
    ensures Owned(PublishedDesc(d, p.length, dma))
    ensures IsLastTx(PublishedDesc(d, p.length, dma)) == IsLastTx(d)
    ensures WholeFrame(PublishedDesc(d, p.length, dma).status)
    ensures Size1(PublishedDesc(d, p.length, dma).length) == |p.data|
    ensures NoSecondBuffer(PublishedDesc(d, p.length, dma).length)
  {
    TxStatusBits(d, TxStatus(d.status));
    SizeField(p.length);
    SizeOfLength(p.length);
  }

  lemma SizeOfLength(length: bv32)
    requires length <= 2048
    ensures Size1((length << 0) & DESC_SIZE1_MASK) == length as nat
  {
    assert ((length << 0) & DESC_SIZE1_MASK) & DESC_SIZE1_MASK == length;
  }

  /** Filling the free slot at the tail with a descriptor that is owned by the DMA engine and
      points to that slot's buffer enqueues the frame. */
  lemma FillEnqueues(s: TxState, d: DmaDesc, data: Frame)
    requires s.Inv() && !Owned(s.desc[s.next]) && |data| <= BUF_SIZE
    requires Owned(d) && IsLastTx(d) == IsLastTx(s.desc[s.next])
    requires d.buffer1 == VirtToPhys(s.buf[s.next]) && Size1(d.length) == |data|
    requires d.buffer2 == 0 && NoSecondBuffer(d.length) && WholeFrame(d.status)
    ensures Fill(s, d, data).Inv()
    ensures Fill(s, d, data).Pending() == s.Pending() + [data] && |s.Pending()| < |s.desc|
  {
    hide Owned, IsLastTx, IsEmpty, NoError, Size1, NoSecondBuffer, WholeFrame, TxStatus, TxWriteBack;
    FillKeepsShape(s, d, data);
    FillPushes(s, d, data);
    Ring.PushEnqueues(s.Queue(), data);
  }

  lemma FillKeepsShape(s: TxState, d: DmaDesc, data: Frame)
    requires s.WellFormed() && |data| <= BUF_SIZE
    requires IsLastTx(d) == IsLastTx(s.desc[s.next])
    requires d.buffer1 == VirtToPhys(s.buf[s.next]) && Size1(d.length) == |data|
    requires d.buffer2 == 0 && NoSecondBuffer(d.length) && WholeFrame(d.status)
    ensures Fill(s, d, data).WellFormed()
  {
    hide Owned, IsLastTx, IsEmpty, NoError, Size1, NoSecondBuffer, WholeFrame, TxStatus, TxWriteBack;
    assert s.Slot(s.ptr[s.next]) == s.next;
  }

  lemma FillPushes(s: TxState, d: DmaDesc, data: Frame)
    requires s.WellFormed() && |data| <= BUF_SIZE
    requires Owned(d) && d.buffer1 == VirtToPhys(s.buf[s.next]) && Size1(d.length) == |data|
    requires Fill(s, d, data).WellFormed()
    ensures Fill(s, d, data).Queue() == s.Queue().Push(data)
  {
    hide Owned, IsLastTx, IsEmpty, NoError, Size1, NoSecondBuffer, WholeFrame, TxStatus, TxWriteBack;
    var s' := Fill(s, d, data);
    assert s.Slot(s.ptr[s.next]) == s.next;
    assert s'.FrameAt(s.next) == data;
    forall i | 0 <= i < |s.desc| && i != s.next && Owned(s.desc[i])
      ensures s'.FrameAt(i) == s.FrameAt(i)
    {
      assert s.desc[i].buffer1 != d.buffer1;
    }
    assert s'.Queue().slots == s.Queue().slots[s.next := Some(data)];
  }

  lemma SubmitRefines(s: TxState, p: Packet)
    requires s.Inv() && p.Fits()
    ensures EthTx(s, p).0.Inv()
    ensures (EthTx(s, p).0.Pending(), View(EthTx(s, p).1)) == Ring.FifoStep(s.Pending(), |s.desc|, Op(Submit(p)))
  {
    hide Owned, IsLastTx, IsEmpty, NoError, Size1, NoSecondBuffer, WholeFrame, TxStatus, TxWriteBack;
    var d := s.desc[s.next];
    assert s.Slot(s.ptr[s.next]) == s.next;
    if Owned(d) {
      Ring.PushEnqueues(s.Queue(), p.data);
    } else {
      var dma := VirtToPhys(s.buf[s.next]);
      Published(d, p, dma);
      FillEnqueues(s, PublishedDesc(d, p.length, dma), p.data);
    }
  }

  lemma CompleteRefines(s: TxState, report: bv32)
    requires s.Inv()
    ensures DmaTx(s, report).0.Inv()
    ensures (DmaTx(s, report).0.Pending(), View(DmaTx(s, report).1))
         == Ring.FifoStep(s.Pending(), |s.desc|, Op(Complete(report)))
    ensures DmaTx(s, report).1.Sent? ==> DmaTx(s, report).1.report == report
  {
    hide Owned, IsLastTx, IsEmpty, NoError, Size1, NoSecondBuffer, WholeFrame, TxStatus, TxWriteBack;
    var (s', out) := DmaTx(s, report);
    var i := s.Slot(s.cur);
    Ring.PopDequeues(s.Queue());
    if out.Sent? {
      TxWriteBackBits(s.desc[i], report, s'.desc[i].status);
      assert s'.Slot(s'.cur) == if i == |s.desc| - 1 then 0 else i + 1;
      assert s'.WellFormed();
      assert s'.Queue() == s.Queue().Pop();
    }
  }

  lemma ReclaimRefines(s: TxState)
    requires s.Inv()
    ensures ReclaimOne(s).0.Inv() && ReclaimOne(s).0.Pending() == s.Pending()
  {
    hide Owned, IsLastTx, IsEmpty, NoError, Size1, NoSecondBuffer, WholeFrame, TxStatus, TxWriteBack;
    var (s', out) := ReclaimOne(s);
    var i := s.busy;
    assert s.Slot(s.ptr[i]) == i;
    if out.more {
      TxClearedBits(s'.desc[i], IsLastTx(s.desc[i]));
      assert s'.WellFormed();
      assert s'.Queue() == s.Queue();
    }
  }

  lemma StepRefines(s: TxState, a: TxAction)
    requires s.Inv() && Possible(a)
    ensures Step(s, a).0.Inv() && |Step(s, a).0.desc| == |s.desc|
    ensures (Step(s, a).0.Pending(), View(Step(s, a).1)) == Ring.FifoStep(s.Pending(), |s.desc|, Op(a))
    ensures Step(s, a).1.Sent? ==> a == Complete(Step(s, a).1.report)
  {
    match a
    case Submit(p) => SubmitRefines(s, p);
    case Complete(report) => CompleteRefines(s, report);
    case Reclaim => ReclaimRefines(s);
  }

  // ---- whole runs ----

  ghost predicate PossibleRun(acts: seq<TxAction>) {
    forall a | a in acts :: Possible(a)
  }

  ghost function Run(s: TxState, acts: seq<TxAction>): (r: (TxState, seq<TxOutput>))
    decreases |acts|
    requires s.Inv() && PossibleRun(acts)
    ensures r.0.Inv() && |r.0.desc| == |s.desc| && |r.1| == |acts|
  {
    if acts == [] then (s, []) else
    StepRefines(s, acts[0]);
    var (s1, out) := Step(s, acts[0]);
    var (s2, outs) := Run(s1, acts[1..]);
    (s2, [out] + outs)
  }

  /**
   * Refinement, for every interleaving: step by step the ring accepts, refuses and sends what a
   * bounded FIFO queue of as many frames as there are descriptors does. Nothing is assumed about
   * when, or whether, reclaim runs.
   */
  lemma {:induction false} RunRefinesFifo(s: TxState, acts: seq<TxAction>)
    requires s.Inv() && PossibleRun(acts)
    ensures var (s', outs) := Run(s, acts);
            (s'.Pending(), Ring.Map(View, outs)) == Ring.FifoRun(s.Pending(), |s.desc|, Ring.Map(Op, acts))
    decreases |acts|
  {
    hide Step, TxState.WellFormed, TxState.Queue, TxState.Pending, Ring.FifoStep, View, Op;
    if acts != [] {
      StepRefines(s, acts[0]);
      RunRefinesFifo(Step(s, acts[0]).0, acts[1..]);
    }
  }

  /** The frames `eth_tx` accepted in a run, and the frames that went out. */
  function AcceptedFrames(acts: seq<TxAction>, outs: seq<TxOutput>): seq<Frame>
    requires |acts| == |outs|
  {
    Ring.Ins(Ring.Map(Op, acts), Ring.Map(View, outs))
  }

  function SentFrames(outs: seq<TxOutput>): seq<Frame> {
    Ring.Outs(Ring.Map(View, outs))
  }

  /** In every run the frames on the wire are the frames accepted, in order, none lost, repeated or
      altered; what has not been sent is still in the ring, which never holds more than its slots. */
  lemma FramesInOrder(s: TxState, acts: seq<TxAction>)
    requires s.Inv() && PossibleRun(acts)
    ensures var (s', outs) := Run(s, acts);
            && s.Pending() + AcceptedFrames(acts, outs) == SentFrames(outs) + s'.Pending()
            && |s'.Pending()| <= |s.desc|
  {
    hide Run, TxState.WellFormed, TxState.Queue, TxState.Pending;
    RunRefinesFifo(s, acts);
    Ring.FifoOrder(s.Pending(), |s.desc|, Ring.Map(Op, acts));
  }

  /** The driver never writes a descriptor, or the buffer of one, that the DMA engine owns. */
  lemma OwnedUntouched(s: TxState, a: TxAction, i: nat)
    requires s.Inv() && Possible(a) && !a.Complete?
    requires i < |s.desc| && Owned(s.desc[i])
    ensures var s' := Step(s, a).0;
            && s'.desc[i] == s.desc[i]
            && s'.ram[s.desc[i].buffer1] == s.ram[s.desc[i].buffer1]
  {
    assert s.Slot(s.ptr[s.next]) == s.next && s.Slot(s.ptr[s.busy]) == s.busy;
  }

  /** The DMA engine writes the status word of the one descriptor at its pointer, if it owns it. */
  lemma DmaWritesItsOwn(s: TxState, report: bv32, i: nat)
    requires s.Inv() && i < |s.desc|
    ensures var s' := DmaTx(s, report).0;
            && s'.ram == s.ram
            && s'.desc[i] == s.desc[i].(status := s'.desc[i].status)
            && (s'.desc[i] != s.desc[i] ==> Owned(s.desc[i]) && s.cur == s.ptr[i])
  {
  }

  // ---- counters and indices ----

  /** The ring with nothing in it, as the set-up leaves it. */
  ghost predicate Fresh(s: TxState) {
    && s.WellFormed()
    && s.busy == s.next == 0 && s.cur == s.base
    && s.packets == s.errors == s.bytes == 0
    && forall i | 0 <= i < |s.desc| ::
         s.desc[i] == DmaDesc(if i == |s.desc| - 1 then TX_DESC_END_OF_RING else 0, 0, 0, 0)
  }

  /** The set-up need not look at bits: a table of cleared descriptors is well-formed. */
  lemma FreshShape(s: TxState)
    requires 1 <= |s.desc| == |s.ptr| == |s.buf|
    requires s.busy == s.next == 0 && s.cur == s.base && s.packets == s.errors == s.bytes == 0
    requires forall i | 0 <= i < |s.desc| ::
               && s.ptr[i] == s.base + 16 * i
               && s.desc[i] == DmaDesc(if i == |s.desc| - 1 then TX_DESC_END_OF_RING else 0, 0, 0, 0)
               && VirtToPhys(s.buf[i]) in s.ram && |s.ram[VirtToPhys(s.buf[i])]| == BUF_SIZE
    requires forall i, j | 0 <= i < j < |s.desc| :: VirtToPhys(s.buf[i]) != VirtToPhys(s.buf[j])
    ensures Fresh(s)
  {
    hide Owned, IsLastTx, IsEmpty, NoError, Size1, NoSecondBuffer, WholeFrame, VirtToPhys;
    forall i | 0 <= i < |s.desc|
      ensures !Owned(s.desc[i]) && (IsLastTx(s.desc[i]) <==> i == |s.desc| - 1)
    {
      TxClearedBits(s.desc[i], i == |s.desc| - 1);
    }
  }

  lemma FreshInv(s: TxState)
    requires Fresh(s)
    ensures s.Inv() && s.Pending() == []
  {
    forall i | 0 <= i < |s.desc| ensures !Owned(s.desc[i]) {
      TxClearedBits(s.desc[i], i == |s.desc| - 1);
    }
  }

  /** The three pointers are three counters modulo the ring size. */
  ghost predicate Indexed(s: TxState, submitted: nat, completed: nat)
    requires s.WellFormed()
  {
    && s.next == submitted % |s.desc|
    && s.Slot(s.cur) == completed % |s.desc|
    && s.cur == s.ptr[completed % |s.desc|]
    && s.busy == (s.packets + s.errors) % |s.desc|
  }

  function Succ(i: nat, n: nat): nat {
    if i + 1 == n then 0 else i + 1
  }

  /** Each step moves at most its own pointer, by one slot, cyclically. */
  lemma StepMoves(s: TxState, a: TxAction)
    requires s.WellFormed() && Possible(a)
    ensures var (s', out) := Step(s, a);
            && |s'.desc| == |s.desc| && s'.ptr == s.ptr && s'.base == s.base
            && s'.next == (if out == Accepted then Succ(s.next, |s.desc|) else s.next)
            && s'.Slot(s'.cur) == (if out.Sent? then Succ(s.Slot(s.cur), |s.desc|) else s.Slot(s.cur))
            && s'.busy == (if out == Internal(true) then Succ(s.busy, |s.desc|) else s.busy)
            && s'.packets + s'.errors == s.packets + s.errors + (if out == Internal(true) then 1 else 0)
  {
    hide Owned, IsLastTx, IsEmpty, NoError, Size1, NoSecondBuffer, WholeFrame, TxStatus, TxWriteBack;
    assert s.Slot(s.ptr[s.next]) == s.next && s.Slot(s.ptr[s.busy]) == s.busy;
    match a
    case Submit(p) =>
    case Reclaim =>
    case Complete(report) =>
  }

  lemma StepIndexed(s: TxState, a: TxAction, submitted: nat, completed: nat)
    requires s.Inv() && Possible(a) && Indexed(s, submitted, completed)
    ensures var (s', out) := Step(s, a);
            s'.Inv() && Indexed(s', if out == Accepted then submitted + 1 else submitted,
                                    if out.Sent? then completed + 1 else completed)
  {
    hide Step, TxState.Queue, IsLastTx, Owned;
    StepRefines(s, a);
    StepMoves(s, a);
    var n := |s.desc|;
    Ring.NextSlot(submitted, n);
    Ring.NextSlot(completed, n);
    Ring.NextSlot(s.packets + s.errors, n);
  }

  /** However long the run, the driver's index walk and the hardware's address walk stand where
      their counters say: TxNext at submitted mod N, the DMA pointer at the address of descriptor
      completed mod N, TxBusy at reclaimed mod N. */
  lemma {:induction false} RunIndexed(s: TxState, acts: seq<TxAction>, submitted: nat, completed: nat)
    requires s.Inv() && PossibleRun(acts) && Indexed(s, submitted, completed)
    ensures var (s', outs) := Run(s, acts);
            Indexed(s', submitted + |AcceptedFrames(acts, outs)|, completed + |SentFrames(outs)|)
    decreases |acts|
  {
    hide Step, TxState.WellFormed, TxState.Queue, Indexed;
    if acts != [] {
      StepRefines(s, acts[0]);
      StepIndexed(s, acts[0], submitted, completed);
      var (s1, out) := Step(s, acts[0]);
      RunIndexed(s1, acts[1..], if out == Accepted then submitted + 1 else submitted,
                                if out.Sent? then completed + 1 else completed);
      assert Run(s, acts).1[1..] == Run(s1, acts[1..]).1;
    }
  }
}
