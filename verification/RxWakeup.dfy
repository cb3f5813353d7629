/**
 * Receive interrupts: `eth_irq` masks them and tells the operating system that frames may be ready,
 * `eth_rx` unmasks them when it finds nothing.
 *
 * The interrupt handler is taken in four steps (read and mask, acknowledge, notify, write the mask) and
 * the nothing-available path of `eth_rx` in two (look, unmask); anything may happen in between. The
 * proof that this leaves no frame waiting with nobody told, exactly unless an `eth_rx` unmasks between
 * the notification and the mask write of a handler that then masks again what it had unmasked.
 */
module RxWakeup {
  import opened Common
  import opened EthDesc
  import RxRing

  // bits of the DMA status and interrupt-enable registers
  const DMA_INT_NORMAL: bv32 := 0x00010000
  const DMA_INT_ABNORMAL: bv32 := 0x00008000
  const DMA_INT_BUS_ERROR: bv32 := 0x00002000
  const DMA_INT_RX_STOPPED: bv32 := 0x00000100
  const DMA_INT_RX_NO_BUFFER: bv32 := 0x00000080
  const DMA_INT_RX_COMPLETED: bv32 := 0x00000040
  const DMA_INT_TX_UNDERFLOW: bv32 := 0x00000020
  const DMA_INT_RCV_OVERFLOW: bv32 := 0x00000010
  const DMA_INT_TX_NO_BUFFER: bv32 := 0x00000004
  const DMA_INT_TX_STOPPED: bv32 := 0x00000002
  const DMA_INT_TX_COMPLETED: bv32 := 0x00000001

  const DMA_INT_ENABLE: bv32 :=
    DMA_INT_NORMAL | DMA_INT_ABNORMAL | DMA_INT_BUS_ERROR | DMA_INT_RX_STOPPED | DMA_INT_RX_NO_BUFFER
    | DMA_INT_RX_COMPLETED | DMA_INT_TX_UNDERFLOW | DMA_INT_RCV_OVERFLOW | DMA_INT_TX_NO_BUFFER
    | DMA_INT_TX_STOPPED | DMA_INT_TX_COMPLETED

  /** Where the interrupt handler is, with the status it read. */
  datatype Phase = Outside | Latched(seen: bv32) | Acked(seen: bv32) | Notified(seen: bv32)

  datatype Wake = Wake(
    rx: RxRing.RxState,
    mask: bv32,       // DmaInterrupt
    status: bv32,     // DmaStatus
    ready: bool,      // eth_rx_ready was issued, and no eth_rx has found nothing since
    phase: Phase,
    unmask: bool)     // an eth_rx found nothing and has not written the mask yet

  datatype WakeAction =
    | Receive(report: bv32, data: seq<byte>)
    | Raise(bits: bv32)          // the hardware sets any other status bits
    | IrqEnter | IrqAck | IrqNotify | IrqExit
    | RxLook | RxUnmask

  /** The interrupts `eth_irq` leaves enabled after seeing `seen`. */
  function IrqMask(seen: bv32): bv32 {
    var enable := DMA_INT_ENABLE;
    var enable := if seen & DMA_INT_RX_NO_BUFFER != 0 then enable & !DMA_INT_RX_NO_BUFFER else enable;
    if seen & DMA_INT_RX_COMPLETED != 0 then enable & !DMA_INT_RX_COMPLETED else enable
  }

  function With(word: bv32, bits: bv32): bv32 {
    word | bits
  }

  function Without(word: bv32, bits: bv32): bv32 {
    word & !bits
  }

  predicate HasRx(bits: bv32) {
    bits & DMA_INT_RX_NO_BUFFER != 0 || bits & DMA_INT_RX_COMPLETED != 0
  }

  predicate TxDone(bits: bv32) {
    bits & DMA_INT_TX_COMPLETED != 0
  }

  function Raised(w: Wake, bits: bv32): Wake {
    w.(status := With(w.status, bits))
  }

  /** `eth_irq` reads the status and masks everything, unless there is nothing to handle. */
  function Entered(w: Wake): Wake {
    if w.phase != Outside || w.status == 0 then w
    else w.(phase := Latched(w.status), mask := 0)
  }

  /** `eth_irq` clears the status bits it has read; a bit is cleared by writing 1 to it. */
  function Acknowledged(w: Wake): Wake {
    if !w.phase.Latched? then w
    else w.(phase := Acked(w.phase.seen), status := Without(w.status, w.phase.seen))
  }

  /** `eth_irq` issues `eth_rx_ready` for the receive interrupts it has seen. When it saw both it does so
      twice; this is the second time. */
  function Told(w: Wake): Wake {
    if !w.phase.Acked? then w
    else w.(phase := Notified(w.phase.seen), ready := w.ready || HasRx(w.phase.seen))
  }

  /** `eth_irq` enables the interrupts, but for the receive interrupts it has seen. */
  function Exited(w: Wake): Wake {
    if !w.phase.Notified? then w
    else w.(phase := Outside, mask := IrqMask(w.phase.seen))
  }

  /** The DMA engine reports the end of a frame, or that no descriptor was free. */
  function StatusAfter(status: bv32, report: bv32, filled: bool): bv32 {
    if !filled then status | 0x80
    else if EndsFrame(report) then status | 0x40
    else status
  }

  function Received(w: Wake, report: bv32, data: seq<byte>): Wake
    requires w.rx.WellFormed()
  {
    var (rx', out) := RxRing.DmaRx(w.rx, report, data);
    w.(rx := rx', status := StatusAfter(w.status, report, out == RxRing.Filled))
  }

  /** `eth_rx` looks at the descriptor at RxBusy, and takes it if it can. */
  function Looked(w: Wake): Wake
    requires w.rx.WellFormed()
  {
    var (rx', out) := RxRing.EthRx(w.rx);
    if out == RxRing.Nothing then w.(unmask := true, ready := false) else w.(rx := rx')
  }

  /** `eth_rx`, having found nothing, enables the interrupts. */
  function Unmasked(w: Wake): Wake {
    if !w.unmask then w else w.(unmask := false, mask := DMA_INT_ENABLE)
  }

  function Step(w: Wake, a: WakeAction): Wake
    requires w.rx.WellFormed()
  {
    match a
    case Receive(report, data) => Received(w, report, data)
    case Raise(bits) => Raised(w, bits)
    case IrqEnter => Entered(w)
    case IrqAck => Acknowledged(w)
    case IrqNotify => Told(w)
    case IrqExit => Exited(w)
    case RxLook => Looked(w)
    case RxUnmask => Unmasked(w)
  }

  ghost predicate Possible(a: WakeAction) {
    a.Receive? ==> RxRing.Possible(RxRing.Fill(a.report, a.data))
  }

  predicate EndsFrame(status: bv32) {
    (status >> 8) & 1 == 1
  }

  /** Some received descriptor that ends a frame waits to be taken. */
  ghost predicate FrameWaits(w: Wake)
    requires w.rx.Inv()
  {
    exists k :: 0 <= k < |w.rx.Pending()| && EndsFrame(w.rx.Pending()[k].status)
  }

  /** Among them the completion of a reception. */
  predicate Signals(bits: bv32) {
    bits & 0x40 != 0
  }

  /** The hardware interrupts the processor: a normal interrupt is pending and enabled, and so are all
      normal ones with bit 16; or an abnormal one, with bit 15. */
  predicate Delivered(status: bv32, mask: bv32) {
    || (mask & 0x00010000 != 0 && status & mask & 0x00000045 != 0)
    || (mask & 0x00008000 != 0 && status & mask & 0x000021B2 != 0)
  }

  /** It does because of `bits`. */
  predicate Delivers(status: bv32, mask: bv32, bits: bv32) {
    Delivered(status & bits, mask)
  }

  /** Only the two receive interrupts may be missing. */
  predicate MaskOk(mask: bv32) {
    mask | 0xC0 == 0x0001A1F7
  }

  /** The handler has not told the operating system yet about what it has seen. */
  predicate Untold(w: Wake) {
    (w.phase.Latched? || w.phase.Acked?) && Signals(w.phase.seen)
  }

  /** What must hold at any time. */
  ghost predicate Core(w: Wake) {
    && w.rx.Inv()
    && (w.phase == Outside ==>
          && MaskOk(w.mask)
          && (w.mask != 0x0001A1F7 ==> w.ready || w.unmask))
    && (FrameWaits(w) ==> w.ready || Signals(w.status) || Untold(w))
  }

  /** When the handler now writes the mask, what it masks is known to the operating system, or about to
      be unmasked. */
  predicate ExitSafe(w: Wake) {
    w.phase.Notified? ==> w.ready || w.unmask || !HasRx(w.phase.seen)
  }

  ghost predicate Inv(w: Wake) {
    Core(w) && ExitSafe(w)
  }

  /** An `eth_rx` that found nothing unmasks, and a handler that has notified will mask again after it. */
  predicate Overtakes(w: Wake, a: WakeAction) {
    a == RxUnmask && w.unmask && !w.ready && w.phase.Notified? && HasRx(w.phase.seen)
  }

  lemma InvShape(w: Wake)
    requires Inv(w)
    ensures w.rx.Inv() && w.rx.WellFormed()
  {
  }

  lemma ReceiveKeeps(w: Wake, report: bv32, data: seq<byte>)
    requires Inv(w) && Possible(Receive(report, data))
    ensures Inv(Step(w, Receive(report, data)))
  {
    hide RxRing.DmaRx, RxRing.RxState.WellFormed, RxRing.RxState.Queue, RxRing.RxState.Pending, RxRing.Possible;
    hide Signals, EndsFrame, MaskOk, StatusAfter, RxWriteBack, IsRxValid, RxLength;
    RxRing.FillRefines(w.rx, report, data);
    var w' := Step(w, Receive(report, data));
    StatusGrows(w.status, report, RxRing.DmaRx(w.rx, report, data).1 == RxRing.Filled);
    LastStays(report);
    if FrameWaits(w') && !Signals(w'.status) {
      var k :| 0 <= k < |w'.rx.Pending()| && EndsFrame(w'.rx.Pending()[k].status);
      assert EndsFrame(w.rx.Pending()[k].status);
    }
  }

  lemma StatusGrows(status: bv32, report: bv32, filled: bool)
    ensures Signals(status) ==> Signals(StatusAfter(status, report, filled))
    ensures filled && EndsFrame(report) ==> Signals(StatusAfter(status, report, filled))
  {
  }

  lemma LastStays(report: bv32)
    ensures EndsFrame(RxWriteBack(report)) == EndsFrame(report)
  {
  }

  lemma LookKeeps(w: Wake)
    requires Inv(w)
    ensures Inv(Step(w, RxLook))
  {
    hide RxRing.EthRx, RxRing.RxState.WellFormed, RxRing.RxState.Queue, RxRing.RxState.Pending, Signals, EndsFrame, MaskOk;
    RxRing.TakeRefines(w.rx);
    var w' := Step(w, RxLook);
    if FrameWaits(w') {
      var k :| 0 <= k < |w'.rx.Pending()| && EndsFrame(w'.rx.Pending()[k].status);
      assert w'.rx.Pending()[k] == w.rx.Pending()[k + 1];
    }
  }

  lemma IrqKeeps(w: Wake, a: WakeAction)
    requires Inv(w) && (a == IrqEnter || a == IrqAck || a == IrqNotify || a == IrqExit || a == RxUnmask || a.Raise?)
    ensures Inv(Step(w, a)) <==> !Overtakes(w, a)
  {
    hide RxRing.EthRx, RxRing.DmaRx, RxRing.RxState.WellFormed, RxRing.RxState.Queue, RxRing.RxState.Pending, EndsFrame;
    var w' := Step(w, a);
    assert FrameWaits(w') <==> FrameWaits(w);
  }

  /** Exactly one kind of step breaks the invariant. */
  lemma StepKeepsIff(w: Wake, a: WakeAction)
    requires Inv(w) && Possible(a)
    ensures Inv(Step(w, a)) <==> !Overtakes(w, a)
  {
    hide Step, Inv, Possible, HasRx;
    match a
    case Receive(report, data) => ReceiveKeeps(w, report, data);
    case RxLook => LookKeeps(w);
    case _ => IrqKeeps(w, a);
  }

  /** Exactly when the handler's last step is safe. */
  lemma ExitExact(w: Wake)
    requires Core(w) && w.phase.Notified?
    ensures Core(Step(w, IrqExit)) <==> w.ready || w.unmask || !HasRx(w.phase.seen)
  {
    hide RxRing.RxState.WellFormed, RxRing.RxState.Queue, RxRing.RxState.Pending, EndsFrame, IrqMask, HasRx;
    assert FrameWaits(Step(w, IrqExit)) <==> FrameWaits(w);
    IrqMaskBits(w.phase.seen);
  }

  // ---- whole runs ----

  ghost predicate PossibleRun(acts: seq<WakeAction>) {
    forall a | a in acts :: Possible(a)
  }

  /** The receive ring keeps its own invariant, whatever the interrupts do. */
  lemma StepRing(w: Wake, a: WakeAction)
    requires w.rx.Inv() && Possible(a)
    ensures Step(w, a).rx.Inv()
  {
    hide RxRing.DmaRx, RxRing.EthRx, RxRing.RxState.WellFormed, RxRing.RxState.Queue, RxRing.Possible, StatusAfter, IrqMask;
    match a
    case Receive(report, data) => RxRing.FillRefines(w.rx, report, data);
    case RxLook => RxRing.TakeRefines(w.rx);
    case _ =>
  }

  ghost function Run(w: Wake, acts: seq<WakeAction>): (w': Wake)
    requires w.rx.Inv() && PossibleRun(acts)
    ensures w'.rx.Inv()
    decreases |acts|
  {
    if acts == [] then w else
    StepRing(w, acts[0]);
    Run(Step(w, acts[0]), acts[1..])
  }

  /** `eth_rx_ready` is deferred: in the run no `eth_rx` overtakes a handler that has notified. */
  ghost predicate Deferred(w: Wake, acts: seq<WakeAction>)
    requires w.rx.Inv() && PossibleRun(acts)
    decreases |acts|
  {
    acts == [] ||
    (!Overtakes(w, acts[0]) && (StepRing(w, acts[0]); Deferred(Step(w, acts[0]), acts[1..])))
  }

  lemma {:induction false} RunKeeps(w: Wake, acts: seq<WakeAction>)
    requires w.rx.Inv() && Inv(w) && PossibleRun(acts) && Deferred(w, acts)
    ensures Inv(Run(w, acts))
    decreases |acts|
  {
    hide Step, Inv, Overtakes, RxRing.RxState.WellFormed, RxRing.RxState.Queue, Possible;
    if acts != [] {
      StepRing(w, acts[0]);
      StepKeepsIff(w, acts[0]);
      RunKeeps(Step(w, acts[0]), acts[1..]);
    }
  }

  /** While the handler is not running and no `eth_rx` is about to unmask: a masked receive interrupt
      means the operating system has been told; and if it has not been told while a frame waits, the
      completion of a reception interrupts the processor. */
  ghost predicate NoneUnheard(w: Wake)
    requires w.rx.Inv()
  {
    && MaskOk(w.mask)
    && (w.mask != 0x0001A1F7 ==> w.ready || w.unmask)
    && (FrameWaits(w) && !w.ready && !w.unmask ==> Delivers(w.status, w.mask, 0x40))
  }

  lemma InvMeans(w: Wake)
    requires Inv(w)
    ensures w.rx.Inv() && (w.phase == Outside ==> NoneUnheard(w))
  {
    hide RxRing.RxState.Inv, FrameWaits;
  }

  /** No lost wake-up, whatever happens before, as long as `eth_rx_ready` is deferred. */
  lemma NoLostWakeup(w: Wake, acts: seq<WakeAction>)
    requires Inv(w) && PossibleRun(acts)
    ensures w.rx.Inv()
    ensures Deferred(w, acts) && Run(w, acts).phase == Outside ==> NoneUnheard(Run(w, acts))
  {
    hide Inv, Run, Deferred, NoneUnheard, RxRing.RxState.Inv;
    InvMeans(w);
    if Deferred(w, acts) {
      RunKeeps(w, acts);
      InvMeans(Run(w, acts));
    }
  }

  /** The handler run that such a pending interrupt causes tells the operating system, even if more
      arrives between its steps. */
  lemma HandlerNotifies(w: Wake, first: bv32, second: bv32)
    requires w.phase == Outside && Signals(w.status)
    ensures var w1 := Raised(Entered(w), first);
            var w2 := Exited(Told(Raised(Acknowledged(w1), second)));
            && w2.phase == Outside && w2.ready
            && w2.status == With(Without(first, w.status), second)
            && w2.rx == w.rx && MaskOk(w2.mask)
  {
    hide Signals, MaskOk, IrqMask, HasRx, With, Without;
    AckBits(w.status, first);
    HandlerBits(w.status);
  }

  lemma AckBits(status: bv32, late: bv32)
    ensures Without(With(status, late), status) == Without(late, status)
  {
  }

  lemma HandlerBits(seen: bv32)
    ensures MaskOk(IrqMask(seen))
    ensures Signals(seen) ==> HasRx(seen) && seen != 0
  {
  }

  /** The state `eth_init` leaves. */
  lemma InitInv(w: Wake)
    requires RxRing.Fresh(w.rx) && w.phase == Outside && w.mask == DMA_INT_ENABLE
    ensures Inv(w)
  {
    hide RxRing.Fresh, RxRing.RxState.WellFormed, RxRing.RxState.Queue, RxRing.RxState.Pending;
    RxRing.FreshInv(w.rx);
  }

  // ---- what the result 0 of eth_rx means ----

  /** The frame a call of `eth_rx` hands over, if any. With none it returns 0. */
  function Handed(out: RxRing.RxOutput): Option<seq<byte>> {
    if out.Taken? && IsRxValid(out.item.status) then Some(out.item.data) else None
  }

  /** What it returns: with a frame, what `eth_handle_rx_buffer` makes of it. */
  function Result(out: RxRing.RxOutput, handle: (nat, seq<byte>) -> nat): nat {
    match Handed(out)
    case None => 0
    case Some(frame) => handle(out.buffer, frame)
  }

  /**
   * `eth_rx` returns 0 in exactly three cases: nothing waits; the oldest descriptor is bad; or it is
   * good, and the operating system gives 0 for its frame. Only in the first it unmasks the interrupts; in
   * the others a descriptor is consumed, the mask stays, and more may wait behind it.
   */
  lemma ZeroMeans(w: Wake, handle: (nat, seq<byte>) -> nat)
    requires Inv(w)
    ensures w.rx.Inv() && w.rx.busy < |w.rx.buf|
    ensures var q, out, w' := w.rx.Pending(), RxRing.EthRx(w.rx).1, Step(w, RxLook);
            && (Result(out, handle) == 0 <==>
                 q == [] || !IsRxValid(q[0].status) || handle(w.rx.buf[w.rx.busy], q[0].data) == 0)
            && (q == [] ==> w' == w.(unmask := true, ready := false))
            && (q != [] ==> w'.rx.Inv() && w'.rx.Pending() == q[1..] && w' == w.(rx := w'.rx))
  {
    InvShape(w);
    RxRing.Bounds(w.rx);
    hide RxRing.EthRx, RxRing.RxState.WellFormed, RxRing.RxState.Queue, RxRing.RxState.Pending, IsRxValid;
    RxRing.TakeRefines(w.rx);
  }

  // ---- a run in which 0 does not mean drained ----

  /** Two frames arrive, then the handler runs. */
  function TwoFrames(first: bv32, data1: seq<byte>, second: bv32, data2: seq<byte>): seq<WakeAction> {
    [Receive(first, data1)] + ([Receive(second, data2)] + ([IrqEnter] + ([IrqAck] + ([IrqNotify] + ([IrqExit] + [])))))
  }

  lemma RunCons(w: Wake, a: WakeAction, rest: seq<WakeAction>)
    requires w.rx.Inv() && Possible(a) && PossibleRun(rest)
    ensures Step(w, a).rx.Inv() && PossibleRun([a] + rest)
    ensures Run(w, [a] + rest) == Run(Step(w, a), rest)
  {
    hide Step, Possible, RxRing.RxState.Inv;
    StepRing(w, a);
    assert ([a] + rest)[1..] == rest;
  }

  lemma RunNil(w: Wake)
    requires w.rx.Inv()
    ensures Run(w, []) == w
  {
  }

  /** The state `eth_init` leaves. */
  ghost predicate Initial(w: Wake) {
    RxRing.Fresh(w.rx) && w == Wake(w.rx, DMA_INT_ENABLE, 0, false, Outside, false)
  }

  /** A whole frame arrives that fits its buffer. */
  ghost predicate Whole(report: bv32, data: seq<byte>) {
    EndsFrame(report) && Possible(Receive(report, data))
  }

  /** What the two receptions and the handler leave, on a ring of at least two descriptors. */
  lemma TwoFramesLeave(w: Wake, first: bv32, data1: seq<byte>, second: bv32, data2: seq<byte>)
    requires Initial(w) && |w.rx.desc| >= 2 && Whole(first, data1) && Whole(second, data2)
    ensures Inv(w) && w.rx.Inv() && PossibleRun(TwoFrames(first, data1, second, data2))
    ensures var w' := Run(w, TwoFrames(first, data1, second, data2));
            && w' == Wake(w'.rx, IrqMask(DMA_INT_RX_COMPLETED), 0, true, Outside, false)
            && w'.rx.Pending() == [RxRing.ItemOf(first, data1), RxRing.ItemOf(second, data2)]
  {
    hide RxRing.DmaRx, RxRing.RxState.WellFormed, RxRing.RxState.Queue, RxRing.RxState.Pending, RxRing.Fresh, Inv, Run;
    hide StatusAfter, Without, IrqMask, HasRx, IsRxValid, RxLength, RxRing.ItemOf, EndsFrame;
    RxRing.FreshInv(w.rx);
    InitInv(w);
    RxRing.FillRefines(w.rx, first, data1);
    var w1 := Step(w, Receive(first, data1));
    RxRing.FillRefines(w1.rx, second, data2);
    var w2 := Step(w1, Receive(second, data2));
    RxRing.StepRefines(w.rx, RxRing.Fill(first, data1));
    CompletedTwice(first, second);
    var w3, w4, w5 := Step(w2, IrqEnter), Step(Step(w2, IrqEnter), IrqAck), Step(Step(Step(w2, IrqEnter), IrqAck), IrqNotify);
    RunCons(w5, IrqExit, []);
    RunCons(w4, IrqNotify, [IrqExit] + []);
    RunCons(w3, IrqAck, [IrqNotify] + ([IrqExit] + []));
    RunCons(w2, IrqEnter, [IrqAck] + ([IrqNotify] + ([IrqExit] + [])));
    RunCons(w1, Receive(second, data2), [IrqEnter] + ([IrqAck] + ([IrqNotify] + ([IrqExit] + []))));
    RunCons(w, Receive(first, data1), [Receive(second, data2)] + ([IrqEnter] + ([IrqAck] + ([IrqNotify] + ([IrqExit] + [])))));
    RunNil(Step(w5, IrqExit));
  }

  lemma BadIsBad()
    ensures Whole(DESC_ERROR | DESC_RX_LAST, []) && !IsRxValid(DESC_ERROR | DESC_RX_LAST)
  {
  }

  lemma LastEnds(report: bv32)
    requires IsRxValid(report)
    ensures EndsFrame(report)
  {
  }

  lemma CompletedTwice(first: bv32, second: bv32)
    requires EndsFrame(first) && EndsFrame(second)
    ensures StatusAfter(0, first, true) == StatusAfter(StatusAfter(0, first, true), second, true) == DMA_INT_RX_COMPLETED != 0
    ensures Without(DMA_INT_RX_COMPLETED, DMA_INT_RX_COMPLETED) == 0 && HasRx(DMA_INT_RX_COMPLETED)
  {
  }

  /**
   * From the fresh ring: two frames arrive, the handler tells the operating system, and `eth_rx` takes the
   * first. The second waits; no receive interrupt is pending, and the one that will come is masked.
   */
  lemma SecondWaits(w: Wake, first: bv32, data1: seq<byte>, second: bv32, data2: seq<byte>)
    requires Initial(w) && |w.rx.desc| >= 2 && Whole(first, data1) && Whole(second, data2)
    ensures Inv(w) && w.rx.Inv() && PossibleRun(TwoFrames(first, data1, second, data2))
    ensures var w' := Run(w, TwoFrames(first, data1, second, data2));
            var w'' := Step(w', RxLook);
            && w'.rx.Pending() == [RxRing.ItemOf(first, data1), RxRing.ItemOf(second, data2)]
            && RxRing.EthRx(w'.rx).1.Taken? && RxRing.EthRx(w'.rx).1.item == RxRing.ItemOf(first, data1)
            && w''.rx.Inv() && w''.rx.Pending() == [RxRing.ItemOf(second, data2)] && FrameWaits(w'')
            && !w''.unmask && w''.status & 0xC0 == 0 && w''.mask & 0x40 == 0
  {
    hide RxRing.EthRx, RxRing.RxState.WellFormed, RxRing.RxState.Queue, RxRing.RxState.Pending, RxRing.Fresh, Inv, Run;
    hide IrqMask, IsRxValid, RxLength, EndsFrame, TwoFrames, RxWriteBack, Possible;
    LastStays(second);
    TwoFramesLeave(w, first, data1, second, data2);
    var w' := Run(w, TwoFrames(first, data1, second, data2));
    RxRing.TakeRefines(w'.rx);
    MaskedCompletion();
    var w'' := Step(w', RxLook);
    assert EndsFrame(w''.rx.Pending()[0].status);
    NothingPending(w'');
  }

  /** If the first was bad, `eth_rx` returned 0: a caller that stops at 0 leaves a good frame there. */
  lemma BadNotDrained(w: Wake, report: bv32, data: seq<byte>, handle: (nat, seq<byte>) -> nat)
    requires Initial(w) && |w.rx.desc| >= 2 && IsRxValid(report) && Possible(Receive(report, data))
    ensures var bad := DESC_ERROR | DESC_RX_LAST;
            && Inv(w) && w.rx.Inv() && PossibleRun(TwoFrames(bad, [], report, data))
            && var w' := Run(w, TwoFrames(bad, [], report, data));
               var w'' := Step(w', RxLook);
               && Result(RxRing.EthRx(w'.rx).1, handle) == 0
               && w''.rx.Inv() && w''.rx.Pending() == [RxRing.ItemOf(report, data)] && FrameWaits(w'')
               && !w''.unmask && w''.status & 0xC0 == 0 && w''.mask & 0x40 == 0
  {
    hide RxRing.EthRx, RxRing.RxState.WellFormed, RxRing.RxState.Queue, RxRing.RxState.Pending, RxRing.Fresh, Inv, Run, Step,
      IsRxValid, EndsFrame, TwoFrames, RxWriteBack, Possible, FrameWaits;
    BadIsBad();
    LastEnds(report);
    RxWriteBackBits(DmaDesc(0, 0, 0, 0), DESC_ERROR | DESC_RX_LAST, RxWriteBack(DESC_ERROR | DESC_RX_LAST));
    SecondWaits(w, DESC_ERROR | DESC_RX_LAST, [], report, data);
  }

  /** If the first was good and the operating system had no room for it, `eth_rx` returned 0 too: that
      frame is lost, and the next one left there. */
  lemma RefusedNotDrained(w: Wake, first: bv32, data1: seq<byte>, second: bv32, data2: seq<byte>)
    requires Initial(w) && |w.rx.desc| >= 2
    requires IsRxValid(first) && IsRxValid(second) && Possible(Receive(first, data1)) && Possible(Receive(second, data2))
    ensures && Inv(w) && w.rx.Inv() && PossibleRun(TwoFrames(first, data1, second, data2))
            && var w' := Run(w, TwoFrames(first, data1, second, data2));
               var w'' := Step(w', RxLook);
               && Handed(RxRing.EthRx(w'.rx).1) == Some(data1) && Result(RxRing.EthRx(w'.rx).1, (_, _) => 0) == 0
               && w''.rx.Inv() && w''.rx.Pending() == [RxRing.ItemOf(second, data2)] && FrameWaits(w'')
               && !w''.unmask && w''.status & 0xC0 == 0 && w''.mask & 0x40 == 0
  {
    hide RxRing.EthRx, RxRing.RxState.WellFormed, RxRing.RxState.Queue, RxRing.RxState.Pending, RxRing.Fresh, Inv, Run, Step,
      IsRxValid, EndsFrame, TwoFrames, RxWriteBack, Possible, FrameWaits;
    LastEnds(first);
    LastEnds(second);
    RxWriteBackBits(DmaDesc(0, 0, 0, 0), first, RxWriteBack(first));
    SecondWaits(w, first, data1, second, data2);
  }

  // ---- a run in which a wake-up is lost ----

  /** A frame arrives, and the handler is entered. */
  function Arrival(report: bv32, data: seq<byte>): seq<WakeAction> {
    [Receive(report, data)] + ([IrqEnter] + ([IrqAck] + []))
  }

  /** The operating system, told by the handler, calls `eth_rx` at once until it returns with nothing
      left; then the handler ends. */
  function DrainInside(): seq<WakeAction> {
    [IrqNotify] + ([RxLook] + ([RxLook] + ([RxUnmask] + ([IrqExit] + []))))
  }

  function Undeferred(first: bv32, data1: seq<byte>, second: bv32, data2: seq<byte>): seq<WakeAction> {
    Arrival(first, data1) + (DrainInside() + ([Receive(second, data2)] + []))
  }

  lemma {:induction false} RunAppend(w: Wake, a: seq<WakeAction>, b: seq<WakeAction>)
    requires w.rx.Inv() && PossibleRun(a) && PossibleRun(b)
    ensures Run(w, a + b) == Run(Run(w, a), b)
    decreases |a|
  {
    hide Step, RxRing.RxState.WellFormed, RxRing.RxState.Queue, Possible;
    if a == [] {
      assert a + b == b;
    } else {
      StepRing(w, a[0]);
      RunAppend(Step(w, a[0]), a[1..], b);
      assert (a + b)[1..] == a[1..] + b;
    }
  }

  lemma Arrives(w: Wake, report: bv32, data: seq<byte>)
    requires Initial(w) && Whole(report, data)
    ensures w.rx.Inv() && PossibleRun(Arrival(report, data))
    ensures var w' := Run(w, Arrival(report, data));
            && w' == Wake(w'.rx, 0, 0, false, Acked(DMA_INT_RX_COMPLETED), false)
            && w'.rx.Pending() == [RxRing.ItemOf(report, data)] && |w'.rx.desc| > 0
  {
    hide RxRing.DmaRx, RxRing.RxState.WellFormed, RxRing.RxState.Queue, RxRing.RxState.Pending, RxRing.Fresh, Run;
    hide StatusAfter, Without, RxRing.ItemOf, EndsFrame;
    RxRing.FreshInv(w.rx);
    RxRing.FreshCounters(w.rx);
    CompletedTwice(report, report);
    RxRing.StepRefines(w.rx, RxRing.Fill(report, data));
    var w1 := Step(w, Receive(report, data));
    var w2 := Step(w1, IrqEnter);
    RunCons(w, Receive(report, data), [IrqEnter] + ([IrqAck] + []));
    RunCons(w1, IrqEnter, [IrqAck] + []);
    RunCons(w2, IrqAck, []);
    RunNil(Step(w2, IrqAck));
  }

  lemma Drains(w: Wake)
    requires w.rx.Inv() && |w.rx.Pending()| == 1 && |w.rx.desc| > 0
    requires w == Wake(w.rx, 0, 0, false, Acked(DMA_INT_RX_COMPLETED), false)
    ensures PossibleRun(DrainInside())
    ensures var w' := Run(w, DrainInside());
            && w' == Wake(w'.rx, IrqMask(DMA_INT_RX_COMPLETED), 0, false, Outside, false)
            && w'.rx.Pending() == [] && |w'.rx.desc| > 0
  {
    hide RxRing.EthRx, RxRing.RxState.WellFormed, RxRing.RxState.Queue, RxRing.RxState.Pending, Run, IrqMask, HasRx;
    var w1 := Step(w, IrqNotify);
    RxRing.StepRefines(w1.rx, RxRing.Take);
    var w2 := Step(w1, RxLook);
    RxRing.StepRefines(w2.rx, RxRing.Take);
    var w3 := Step(w2, RxLook);
    var w4 := Step(w3, RxUnmask);
    assert RxRing.EthRx(w2.rx).1 == RxRing.Nothing;
    assert w3 == w2.(unmask := true, ready := false);
    RunCons(w, IrqNotify, [RxLook] + ([RxLook] + ([RxUnmask] + ([IrqExit] + []))));
    RunCons(w1, RxLook, [RxLook] + ([RxUnmask] + ([IrqExit] + [])));
    RunCons(w2, RxLook, [RxUnmask] + ([IrqExit] + []));
    RunCons(w3, RxUnmask, [IrqExit] + []);
    RunCons(w4, IrqExit, []);
    RunNil(Step(w4, IrqExit));
  }

  /** On a ring of any size the second frame then waits unheard of: nobody is told, no call is about to
      unmask, and its interrupt is masked. */
  lemma LostWakeup(w: Wake, first: bv32, data1: seq<byte>, second: bv32, data2: seq<byte>)
    requires Initial(w) && Whole(first, data1) && Whole(second, data2)
    ensures Inv(w) && w.rx.Inv() && PossibleRun(Undeferred(first, data1, second, data2))
    ensures var w' := Run(w, Undeferred(first, data1, second, data2));
            && w'.phase == Outside && w'.rx.Inv() && FrameWaits(w') && !w'.ready && !w'.unmask
            && w'.mask & 0x40 == 0 && !Delivers(w'.status, w'.mask, 0x40) && !NoneUnheard(w')
  {
    hide RxRing.DmaRx, RxRing.RxState.WellFormed, RxRing.RxState.Queue, RxRing.RxState.Pending, RxRing.Fresh, Inv, Run;
    hide StatusAfter, IrqMask, EndsFrame, RxWriteBack, MaskOk, Arrival, DrainInside;
    InitInv(w);
    Arrives(w, first, data1);
    var w1 := Run(w, Arrival(first, data1));
    Drains(w1);
    var w2 := Run(w1, DrainInside());
    RxRing.FillRefines(w2.rx, second, data2);
    var w3 := Step(w2, Receive(second, data2));
    RunCons(w2, Receive(second, data2), []);
    RunNil(w3);
    RunAppend(w1, DrainInside(), [Receive(second, data2)] + []);
    RunAppend(w, Arrival(first, data1), DrainInside() + ([Receive(second, data2)] + []));
    LastStays(second);
    assert EndsFrame(w3.rx.Pending()[0].status);
    MaskedCompletion();
    MaskedStays(w3.status, w3.mask);
  }

  lemma MaskedStays(status: bv32, mask: bv32)
    requires mask & 0x40 == 0
    ensures !Delivers(status, mask, 0x40)
  {
  }

  /** Of the two receive interrupts exactly those seen are masked. */
  predicate MaskedFor(enable: bv32, seen: bv32) {
    && (enable & DMA_INT_RX_NO_BUFFER == 0 <==> seen & DMA_INT_RX_NO_BUFFER != 0)
    && (enable & DMA_INT_RX_COMPLETED == 0 <==> seen & DMA_INT_RX_COMPLETED != 0)
  }

  /** The driver's bits are where the hardware has them. */
  lemma RegisterLayout(bits: bv32)
    ensures HasRx(bits) <==> bits & 0xC0 != 0
    ensures TxDone(bits) <==> bits & 0x1 != 0
    ensures DMA_INT_ENABLE == 0x0001A1F7 && IrqMask(bits) == 0x0001A1F7 & !(bits & 0xC0)
  {
  }

  /** A write sets the bits named and no other; an acknowledgement clears them and no other. */
  lemma WithBits(word: bv32, bits: bv32)
    ensures With(word, bits) & bits == bits
    ensures With(word, bits) & !bits == word & !bits
  {
  }

  lemma WithoutBits(word: bv32, bits: bv32)
    ensures Without(word, bits) & bits == 0
    ensures Without(word, bits) & !bits == word & !bits
  {
  }

  lemma IrqMaskBits(seen: bv32)
    ensures MaskOk(IrqMask(seen)) && MaskedFor(IrqMask(seen), seen)
    ensures IrqMask(seen) != DMA_INT_ENABLE <==> HasRx(seen)
  {
  }

  lemma MaskedCompletion()
    ensures IrqMask(DMA_INT_RX_COMPLETED) & DMA_INT_RX_COMPLETED == 0
  {
  }

  lemma NothingPending(w: Wake)
    requires w.status == 0
    ensures w.status & 0xC0 == 0
  {
  }
}
