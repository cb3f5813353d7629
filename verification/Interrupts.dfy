/**
 * The whole device: both rings, the interrupt mask and the status register, the interrupt handler and
 * the receive call, taken apart into steps that anything may come between. The proof of when no
 * interleaving leaves a received frame waiting with nobody told, or a sent frame unreclaimed with no
 * interrupt to come.
 */
module Interrupts {
  import opened Common
  import opened EthDesc
  import opened TxRing
  import opened TxAccounting
  import TxReclaim
  import RxRing
  import W = RxWakeup

  /** `looping`: the handler is in `eth_handle_tx_over`, or will be, as it has seen a completion. */
  datatype Device = Device(tx: TxState, w: W.Wake, looping: bool) {
    ghost predicate WellFormed() {
      tx.WellFormed() && w.rx.WellFormed()
    }
  }

  datatype Action =
    | Submit(packet: Packet)       // eth_tx
    | Complete(report: bv32)       // the DMA engine sends a frame
    | Pass                         // eth_irq: one pass of the reclaim loop
    | Other(action: W.WakeAction)  // the steps of RxWakeup, those of eth_irq included

  ghost predicate Possible(a: Action) {
    && (a.Submit? ==> a.packet.Fits())
    && (a.Other? ==> W.Possible(a.action))
  }

  function Step(d: Device, a: Action): Device
    requires d.WellFormed() && Possible(a)
  {
    match a
    case Submit(p) => d.(tx := EthTx(d.tx, p).0)
    case Complete(report) => Completed(d, report)
    case Pass => Passed(d)
    case Other(action) =>
      if action == W.IrqEnter then Entered(d)
      else if action == W.IrqExit && d.looping then d
      else d.(w := W.Step(d.w, action))
  }

  /** The status after a completion: the interrupt is raised if the descriptor of the frame asks for it. */
  function StatusAfter(tx: TxState, status: bv32, report: bv32): bv32
    requires tx.WellFormed()
  {
    var d := tx.desc[tx.Slot(tx.cur)];
    if DmaTx(tx, report).1.Sent? && Asks(d.status) then W.With(status, 0x1) else status
  }

  predicate Asks(status: bv32) {
    (status >> 30) & 1 == 1
  }

  function Completed(d: Device, report: bv32): Device
    requires d.tx.WellFormed()
  {
    d.(tx := DmaTx(d.tx, report).0, w := d.w.(status := StatusAfter(d.tx, d.w.status, report)))
  }

  function Passed(d: Device): Device
    requires d.tx.WellFormed()
  {
    if !d.w.phase.Notified? || !d.looping then d
    else d.(tx := ReclaimOne(d.tx).0, looping := ReclaimOne(d.tx).1 == Internal(true))
  }

  /** `eth_irq` reads the status, masks everything, and will reclaim if it saw a completion. */
  function Entered(d: Device): Device {
    if d.w.phase != W.Outside || d.w.status == 0 then d
    else d.(w := W.Entered(d.w), looping := W.TxDone(d.w.status))
  }

  /** Both rings are sound. */
  ghost predicate Sound(d: Device) {
    d.tx.Inv() && d.w.rx.Inv()
  }

  /** What is sent is reclaimed, or will be. The receive half is `RxWakeup.Inv`. */
  ghost predicate TxInv(d: Device) {
    && Synced(d.tx)
    && (d.w.phase == W.Outside ==> !d.looping)
    && (d.w.phase.Latched? ==> d.looping == W.TxDone(d.w.phase.seen))
    && (Unreclaimed(d.tx) != [] ==> W.TxDone(d.w.status) || d.looping)
  }

  /** A call of `eth_tx` only meets slots that are empty or owned. */
  ghost predicate Polite(d: Device, a: Action)
    requires d.tx.WellFormed()
  {
    a.Submit? ==> TxAccounting.Polite(d.tx, TxRing.Submit(a.packet))
  }

  /** The step of the receive side, if it is one that counts there. */
  predicate Overtakes(d: Device, a: Action) {
    a.Other? && W.Overtakes(d.w, a.action)
  }

  lemma SoundShape(d: Device)
    requires Sound(d)
    ensures d.WellFormed() && d.tx.WellFormed() && d.w.rx.WellFormed() && d.tx.Inv() && d.w.rx.Inv()
  {
  }

  lemma StepSound(d: Device, a: Action)
    requires Sound(d) && Possible(a)
    ensures d.WellFormed() && Sound(Step(d, a))
  {
    hide TxState.WellFormed, TxState.Queue, RxRing.RxState.WellFormed, RxRing.RxState.Queue, EthTx, DmaTx, ReclaimOne,
      W.Step, W.Possible, StatusAfter;
    match a
    case Submit(p) => TxRing.StepRefines(d.tx, TxRing.Submit(p));
    case Complete(report) => TxRing.StepRefines(d.tx, TxRing.Complete(report));
    case Pass => ReclaimRefines(d.tx);
    case Other(action) =>
      W.StepRing(d.w, action);
      EnteredRing(d.w);
  }

  lemma EnteredRing(w: W.Wake)
    ensures W.Entered(w).rx == w.rx
  {
  }

  // ---- every step keeps the transmit invariant ----

  lemma SubmitKeeps(d: Device, p: Packet)
    requires TxInv(d) && p.Fits() && d.tx.WellFormed() && Polite(d, Action.Submit(p))
    ensures TxInv(d.(tx := EthTx(d.tx, p).0))
  {
    hide Synced, Unreclaimed, W.TxDone, TxState.WellFormed, TxAccounting.Polite, EthTx;
    SubmitSynced(d.tx, p);
  }

  lemma CompleteKeeps(d: Device, report: bv32)
    requires TxInv(d) && d.tx.WellFormed()
    ensures TxInv(Completed(d, report))
  {
    hide Synced, Unreclaimed, W.TxDone, W.With, TxState.WellFormed, DmaTx, Asks;
    CompleteSynced(d.tx, report);
    SentAsks(d.tx, report);
    DoneRaised(d.w.status);
    StatusBits(d.w.status, 0x1);
  }

  /** What the DMA engine sends was published with the interrupt enabled. */
  lemma SentAsks(s: TxState, report: bv32)
    requires s.WellFormed()
    ensures DmaTx(s, report).1.Sent? ==> Asks(s.desc[s.Slot(s.cur)].status)
  {
    hide Owned, IsLastTx, Size1, NoSecondBuffer, VirtToPhys;
  }

  lemma DoneRaised(status: bv32)
    ensures W.TxDone(W.With(status, 0x1))
  {
  }

  lemma StatusBits(status: bv32, bits: bv32)
    ensures W.TxDone(status) ==> W.TxDone(W.With(status, bits))
    ensures W.TxDone(status) ==> W.TxDone(W.Without(status, bits)) || W.TxDone(bits)
    ensures !W.TxDone(0)
  {
  }

  lemma RaiseKeeps(w: W.Wake, bits: bv32)
    requires W.Inv(w)
    ensures W.Inv(w.(status := W.With(w.status, bits)))
  {
    hide W.Inv, W.With;
    assert w.rx.WellFormed() by { W.InvShape(w); }
    W.IrqKeeps(w, W.Raise(bits));
  }

  lemma PassKeeps(d: Device)
    requires TxInv(d) && d.tx.WellFormed()
    ensures TxInv(Passed(d))
  {
    hide Synced, Unreclaimed, W.TxDone, TxState.WellFormed, ReclaimOne;
    ReclaimSynced(d.tx);
  }

  lemma EnterKeeps(d: Device)
    requires TxInv(d)
    ensures TxInv(Entered(d))
  {
    hide W.Entered, Synced, Unreclaimed, W.TxDone, TxState.WellFormed;
    EnteredPhase(d.w);
  }

  lemma EnteredPhase(w: W.Wake)
    ensures w.phase == W.Outside && w.status != 0 ==> W.Entered(w) == w.(phase := W.Latched(w.status), mask := 0)
  {
  }

  lemma OtherKeeps(d: Device, action: W.WakeAction)
    requires TxInv(d) && d.w.rx.WellFormed() && action != W.IrqEnter && !(action == W.IrqExit && d.looping)
    ensures TxInv(d.(w := W.Step(d.w, action)))
  {
    hide W.Step, Synced, Unreclaimed, W.TxDone, W.With, W.Without, TxState.WellFormed;
    OtherBits(d.w, action);
  }

  /** What the other steps do to phase and status: a completion stays pending, until the handler that
      has seen it acknowledges it. */
  lemma OtherBits(w: W.Wake, action: W.WakeAction)
    requires w.rx.WellFormed() && action != W.IrqEnter
    ensures var w' := W.Step(w, action);
            && (W.TxDone(w.status) && !(action == W.IrqAck && w.phase.Latched? && W.TxDone(w.phase.seen)) ==> W.TxDone(w'.status))
            && (w'.phase.Latched? ==> w'.phase == w.phase)
            && (w'.phase == W.Outside ==> w.phase == W.Outside || action == W.IrqExit)
  {
    hide W.TxDone, W.With, W.Without, W.IrqMask, RxRing.DmaRx, RxRing.EthRx, RxRing.RxState.WellFormed, W.StatusAfter;
    if action.Raise? { StatusBits(w.status, action.bits); }
    if w.phase.Latched? { StatusBits(w.status, w.phase.seen); }
    if action.Receive? { ReceiveBits(w.status, action.report, RxRing.DmaRx(w.rx, action.report, action.data).1 == RxRing.Filled); }
  }

  lemma ReceiveBits(status: bv32, report: bv32, filled: bool)
    ensures W.TxDone(status) ==> W.TxDone(W.StatusAfter(status, report, filled))
  {
  }

  lemma StepKeeps(d: Device, a: Action)
    requires Sound(d) && d.WellFormed() && Possible(a)
    ensures TxInv(d) && Polite(d, a) ==> TxInv(Step(d, a))
    ensures W.Inv(d.w) && !Overtakes(d, a) ==> W.Inv(Step(d, a).w)
  {
    hide TxInv, Completed, Passed, Entered, W.Step, W.Possible, EthTx, Sound, TxState.WellFormed, RxRing.RxState.WellFormed;
    SoundShape(d);
    if TxInv(d) && Polite(d, a) {
      match a
      case Submit(p) => SubmitKeeps(d, p);
      case Complete(report) => CompleteKeeps(d, report);
      case Pass => PassKeeps(d);
      case Other(action) =>
        if action == W.IrqEnter { EnterKeeps(d); }
        else if !(action == W.IrqExit && d.looping) { OtherKeeps(d, action); }
    }
    if W.Inv(d.w) && !Overtakes(d, a) { WakeKeeps(d, a); }
  }

  lemma WakeKeeps(d: Device, a: Action)
    requires Sound(d) && d.WellFormed() && Possible(a) && W.Inv(d.w) && !Overtakes(d, a)
    ensures W.Inv(Step(d, a).w)
  {
    hide W.Inv, W.Possible, EthTx, ReclaimOne, DmaTx, Sound, TxState.WellFormed, RxRing.RxState.WellFormed, W.With, Asks,
      W.Received, W.Raised, W.Entered, W.Acknowledged, W.Told, W.Exited, W.Looked, W.Unmasked, W.Overtakes, W.TxDone;
    SoundShape(d);
    match a
    case Complete(report) =>
      RaiseKeeps(d.w, 0x1);
      assert d.w.(status := d.w.status) == d.w;
    case Other(action) =>
      W.StepKeepsIff(d.w, action);
    case _ =>
  }

  // ---- whole runs ----

  ghost predicate PossibleRun(acts: seq<Action>) {
    forall a | a in acts :: Possible(a)
  }

  ghost function Run(d: Device, acts: seq<Action>): (d': Device)
    requires Sound(d) && PossibleRun(acts)
    ensures Sound(d')
    decreases |acts|
  {
    if acts == [] then d else
    StepSound(d, acts[0]);
    Run(Step(d, acts[0]), acts[1..])
  }

  /** `eth_tx` never overwrites a sent frame. */
  ghost predicate PoliteRun(d: Device, acts: seq<Action>)
    requires Sound(d) && PossibleRun(acts)
    decreases |acts|
  {
    acts == [] ||
    (SoundShape(d); StepSound(d, acts[0]);
     Polite(d, acts[0]) && PoliteRun(Step(d, acts[0]), acts[1..]))
  }

  /** `eth_rx_ready` is deferred: no `eth_rx` unmasks after the handler has notified, to be overruled. */
  ghost predicate Deferred(d: Device, acts: seq<Action>)
    requires Sound(d) && PossibleRun(acts)
    decreases |acts|
  {
    acts == [] ||
    (StepSound(d, acts[0]);
     !Overtakes(d, acts[0]) && Deferred(Step(d, acts[0]), acts[1..]))
  }

  lemma {:induction false} RunKeeps(d: Device, acts: seq<Action>)
    requires Sound(d) && PossibleRun(acts)
    ensures TxInv(d) && PoliteRun(d, acts) ==> TxInv(Run(d, acts))
    ensures W.Inv(d.w) && Deferred(d, acts) ==> W.Inv(Run(d, acts).w)
    decreases |acts|
  {
    hide Sound, TxInv, W.Inv, Step, Possible, Polite, Overtakes, TxState.WellFormed;
    if acts != [] {
      SoundShape(d);
      StepSound(d, acts[0]);
      StepKeeps(d, acts[0]);
      RunKeeps(Step(d, acts[0]), acts[1..]);
    }
  }

  /** A frame sent and not reclaimed has its completion interrupt the processor. */
  ghost predicate NoneUnreclaimed(d: Device)
    requires Synced(d.tx)
  {
    Unreclaimed(d.tx) != [] ==> W.Delivers(d.w.status, d.w.mask, 0x1)
  }

  lemma TxInvMeans(d: Device)
    requires TxInv(d)
    ensures Synced(d.tx)
    ensures d.w.phase == W.Outside && W.MaskOk(d.w.mask) ==> NoneUnreclaimed(d)
  {
    hide Synced, Unreclaimed, W.MaskOk;
    Unmasked(d.w.status, d.w.mask);
  }

  lemma Unmasked(status: bv32, mask: bv32)
    ensures W.MaskOk(mask) && W.TxDone(status) ==> W.Delivers(status, mask, 0x1)
  {
  }

  /** Outside the handler the mask never misses more than the receive interrupts, deferred or not. */
  ghost predicate MaskInv(d: Device) {
    d.w.phase == W.Outside ==> W.MaskOk(d.w.mask)
  }

  lemma MaskKeeps(d: Device, a: Action)
    requires Sound(d) && d.WellFormed() && Possible(a) && MaskInv(d)
    ensures MaskInv(Step(d, a))
  {
    hide W.Possible, EthTx, ReclaimOne, DmaTx, Sound, TxState.WellFormed, RxRing.RxState.WellFormed, W.With, W.Without, Asks,
      W.MaskOk, W.IrqMask, W.HasRx, W.TxDone, RxRing.DmaRx, RxRing.EthRx, W.StatusAfter;
    SoundShape(d);
    FullMask();
    if d.w.phase.Notified? { W.HandlerBits(d.w.phase.seen); }
  }

  lemma FullMask()
    ensures W.MaskOk(W.DMA_INT_ENABLE)
  {
  }

  lemma {:induction false} RunMask(d: Device, acts: seq<Action>)
    requires Sound(d) && PossibleRun(acts) && MaskInv(d)
    ensures MaskInv(Run(d, acts))
    decreases |acts|
  {
    hide Sound, MaskInv, Step, Possible, TxState.WellFormed;
    if acts != [] {
      SoundShape(d);
      StepSound(d, acts[0]);
      MaskKeeps(d, acts[0]);
      RunMask(Step(d, acts[0]), acts[1..]);
    }
  }

  /**
   * No lost wake-up and no lost reclaim, in every interleaving of `eth_tx`, `eth_rx`, `eth_irq` and the
   * hardware. The receive half needs that `eth_rx_ready` is deferred, the transmit half that `eth_tx` never
   * overwrites a sent frame; neither needs the other's condition.
   */
  lemma RunLosesNothing(d: Device, acts: seq<Action>)
    requires Sound(d) && PossibleRun(acts) && MaskInv(d)
    ensures var d' := Run(d, acts);
            && Sound(d')
            && (W.Inv(d.w) && Deferred(d, acts) && d'.w.phase == W.Outside ==> d'.w.rx.Inv() && W.NoneUnheard(d'.w))
            && (TxInv(d) && PoliteRun(d, acts) ==>
                 && Synced(d'.tx)
                 && (d'.w.phase == W.Outside ==> NoneUnreclaimed(d')))
  {
    hide Sound, TxInv, W.Inv, Run, PoliteRun, Deferred, NoneUnreclaimed, W.NoneUnheard, Synced, W.MaskOk;
    RunKeeps(d, acts);
    RunMask(d, acts);
    var d' := Run(d, acts);
    SoundShape(d');
    if W.Inv(d'.w) { W.InvMeans(d'.w); }
    if TxInv(d') { TxInvMeans(d'); }
  }

  /** The state `eth_init` leaves. */
  lemma FreshInv(d: Device)
    requires Fresh(d.tx) && RxRing.Fresh(d.w.rx)
    requires d.w.phase == W.Outside && d.w.mask == W.DMA_INT_ENABLE && !d.looping
    ensures Sound(d) && TxInv(d) && W.Inv(d.w) && MaskInv(d)
  {
    hide Synced, Unreclaimed, Fresh, RxRing.Fresh, W.TxDone, W.Inv, W.MaskOk;
    FreshNone(d.tx);
    SyncedInv(d.tx);
    W.InitInv(d.w);
    W.InvShape(d.w);
    FullMask();
  }

  // ---- a run of the handler ----

  /** Any number of completions. */
  function Burst(d: Device, reports: seq<bv32>): (d': Device)
    requires d.tx.WellFormed()
    decreases |reports|
  {
    if reports == [] then d else
    TxReclaim.DmaWellFormed(d.tx, reports[0]);
    Burst(Completed(d, reports[0]), reports[1..])
  }

  lemma {:induction false} BurstShape(d: Device, reports: seq<bv32>)
    requires d.tx.WellFormed()
    ensures var d' := Burst(d, reports);
            && d' == d.(tx := d'.tx, w := d.w.(status := d'.w.status))
            && d'.tx == TxReclaim.DmaBurst(d.tx, reports) && d'.tx.WellFormed()
            && TxReclaim.Held(d'.tx.desc) == TxReclaim.Held(d.tx.desc)
    decreases |reports|
  {
    hide TxState.WellFormed, DmaTx, TxReclaim.Held, StatusAfter;
    if reports != [] {
      TxReclaim.DmaWellFormed(d.tx, reports[0]);
      BurstShape(Completed(d, reports[0]), reports[1..]);
    }
  }

  /** `eth_handle_tx_over` in the handler, with a burst of completions `env(k)` before its k-th pass. */
  ghost function Passes(d: Device, env: nat -> seq<bv32>, k: nat): (d': Device)
    requires d.tx.WellFormed() && d.w.phase.Notified? && d.looping
    ensures !d'.looping
    decreases TxReclaim.Held(d.tx.desc)
  {
    PassesShrink(d, env(k));
    var d1 := Passed(Burst(d, env(k)));
    if d1.looping then Passes(d1, env, k + 1) else d1
  }

  lemma PassesShrink(d: Device, reports: seq<bv32>)
    requires d.tx.WellFormed() && d.w.phase.Notified? && d.looping
    ensures var b := Burst(d, reports);
            && b.tx.WellFormed() && b.w.phase == d.w.phase && b.looping
            && var d1 := Passed(b);
               && d1.tx.WellFormed() && d1.w == b.w
               && (d1.looping ==> TxReclaim.Held(d1.tx.desc) < TxReclaim.Held(d.tx.desc))
  {
    hide TxState.WellFormed, ReclaimOne, TxReclaim.Held, Burst, TxReclaim.DmaBurst;
    BurstShape(d, reports);
    TxReclaim.ReclaimShrinks(Burst(d, reports).tx);
  }

  lemma PassesUnfold(d: Device, env: nat -> seq<bv32>, k: nat)
    requires d.tx.WellFormed() && d.w.phase.Notified? && d.looping
    ensures var b := Burst(d, env(k));
            && b.tx.WellFormed() && b.w.phase == d.w.phase && b.looping
            && Passed(b).tx.WellFormed() && Passed(b).w == b.w
            && (Passed(b).looping ==> TxReclaim.Held(Passed(b).tx.desc) < TxReclaim.Held(d.tx.desc))
            && Passes(d, env, k) == (if Passed(b).looping then Passes(Passed(b), env, k + 1) else Passed(b))
  {
    hide TxState.WellFormed, Passed, TxReclaim.Held, Burst;
    PassesShrink(d, env(k));
  }

  /** It is the reclaim loop of `TxReclaim`, and changes nothing but the transmit side and the status. */
  lemma {:induction false} PassesAre(d: Device, env: nat -> seq<bv32>, k: nat)
    requires d.tx.WellFormed() && d.w.phase.Notified? && d.looping
    ensures var d' := Passes(d, env, k);
            && d'.tx == TxReclaim.TxOver(d.tx, env, k)
            && d' == Device(d'.tx, d.w.(status := d'.w.status), false)
    decreases TxReclaim.Held(d.tx.desc)
  {
    hide TxState.WellFormed, ReclaimOne, TxReclaim.Held, Burst, TxReclaim.DmaBurst, Passes, TxReclaim.TxOver;
    PassesUnfold(d, env, k);
    BurstShape(d, env(k));
    TxReclaim.TxOverUnfolds(d.tx, env, k);
    var d1 := Passed(Burst(d, env(k)));
    if d1.looping { PassesAre(d1, env, k + 1); }
  }

  /** `eth_irq` up to the reclaim loop: the hardware raises `first` between its read of the status and its
      acknowledgement. */
  function Opened(d: Device, first: bv32): Device {
    Device(d.tx, W.Told(W.Acknowledged(W.Raised(W.Entered(d.w), first))), W.TxDone(d.w.status))
  }

  /** A whole run of `eth_irq`; it does nothing when no bit is set. */
  ghost function Handled(d: Device, first: bv32, env: nat -> seq<bv32>): Device
    requires d.tx.WellFormed() && d.w.phase == W.Outside
  {
    if d.w.status == 0 then d else
    var d1 := Opened(d, first);
    var d2 := if d1.looping then Passes(d1, env, 0) else d1;
    d2.(w := W.Exited(d2.w))
  }

  lemma OpenedPhase(d: Device, first: bv32)
    requires d.w.phase == W.Outside && d.w.status != 0
    ensures Opened(d, first).w ==
            d.w.(phase := W.Notified(d.w.status), mask := 0, ready := d.w.ready || W.HasRx(d.w.status),
                 status := W.Without(W.With(d.w.status, first), d.w.status))
  {
    hide W.With, W.Without, W.HasRx;
  }

  // ---- it is a run of the machine ----

  function Completions(reports: seq<bv32>): seq<Action> {
    if reports == [] then [] else [Action.Complete(reports[0])] + Completions(reports[1..])
  }

  ghost function PassesActs(d: Device, env: nat -> seq<bv32>, k: nat): seq<Action>
    requires d.tx.WellFormed() && d.w.phase.Notified? && d.looping
    decreases TxReclaim.Held(d.tx.desc)
  {
    PassesShrink(d, env(k));
    var d1 := Passed(Burst(d, env(k)));
    Completions(env(k)) + ([Pass] + (if d1.looping then PassesActs(d1, env, k + 1) else []))
  }

  ghost function ClosingActs(o: Device, env: nat -> seq<bv32>): seq<Action>
    requires o.tx.WellFormed() && o.w.phase.Notified?
  {
    (if o.looping then PassesActs(o, env, 0) else []) + ([Other(W.IrqExit)] + [])
  }

  /** Enter, `first`, acknowledge, notify; completions and passes; exit. */
  ghost function HandledActs(d: Device, first: bv32, env: nat -> seq<bv32>): seq<Action>
    requires d.tx.WellFormed() && d.w.phase == W.Outside
  {
    if d.w.status == 0 then [] else
    OpenedPhase(d, first);
    var o := Opened(d, first);
    [Other(W.IrqEnter)] + ([Other(W.Raise(first))] + ([Other(W.IrqAck)] + ([Other(W.IrqNotify)] + ClosingActs(o, env))))
  }

  /** Steps of the handler and the DMA engine: neither `eth_tx` nor `eth_rx` among them. */
  predicate OfHandler(a: Action) {
    !a.Submit? && (a.Other? ==> a.action != W.RxLook && a.action != W.RxUnmask && !a.action.Receive?)
  }

  ghost predicate AllOfHandler(acts: seq<Action>) {
    forall a | a in acts :: OfHandler(a)
  }

  lemma HandlerPossible(acts: seq<Action>)
    requires AllOfHandler(acts)
    ensures PossibleRun(acts)
  {
  }

  lemma RunCons(d: Device, a: Action, rest: seq<Action>)
    requires Sound(d) && Possible(a) && PossibleRun(rest)
    ensures d.WellFormed() && Sound(Step(d, a)) && PossibleRun([a] + rest)
    ensures Run(d, [a] + rest) == Run(Step(d, a), rest)
  {
    hide Step, Possible, Sound;
    SoundShape(d);
    StepSound(d, a);
    assert ([a] + rest)[1..] == rest;
  }

  lemma {:induction false} RunAppend(d: Device, a: seq<Action>, b: seq<Action>)
    requires Sound(d) && PossibleRun(a) && PossibleRun(b)
    ensures Run(d, a + b) == Run(Run(d, a), b)
    decreases |a|
  {
    hide Step, Sound, Possible;
    if a == [] {
      assert a + b == b;
    } else {
      SoundShape(d);
      StepSound(d, a[0]);
      RunAppend(Step(d, a[0]), a[1..], b);
      assert (a + b)[1..] == a[1..] + b;
    }
  }

  lemma {:induction false} BurstIsRun(d: Device, reports: seq<bv32>)
    requires Sound(d) && d.tx.WellFormed()
    ensures AllOfHandler(Completions(reports)) && PossibleRun(Completions(reports))
    ensures Run(d, Completions(reports)) == Burst(d, reports)
    decreases |reports|
  {
    hide Sound, TxState.WellFormed, Completed, Run;
    if reports == [] {
      RunNil(d);
    } else {
      var a := Action.Complete(reports[0]);
      SoundShape(d);
      StepSound(d, a);
      SoundShape(Step(d, a));
      BurstIsRun(Step(d, a), reports[1..]);
      RunCons(d, a, Completions(reports[1..]));
    }
  }

  lemma RunNil(d: Device)
    requires Sound(d)
    ensures Run(d, []) == d
  {
  }

  lemma {:induction false} PassesIsRun(d: Device, env: nat -> seq<bv32>, k: nat)
    requires Sound(d) && d.tx.WellFormed() && d.w.phase.Notified? && d.looping
    ensures AllOfHandler(PassesActs(d, env, k)) && PossibleRun(PassesActs(d, env, k))
    ensures Run(d, PassesActs(d, env, k)) == Passes(d, env, k)
    decreases TxReclaim.Held(d.tx.desc)
  {
    hide Sound, TxState.WellFormed, Passed, Burst, TxReclaim.Held, Run, Completions;
    PassesShrink(d, env(k));
    BurstIsRun(d, env(k));
    var b := Burst(d, env(k));
    StepSound(b, Pass);
    var d1 := Passed(b);
    var rest := if d1.looping then PassesActs(d1, env, k + 1) else [];
    if d1.looping { PassesIsRun(d1, env, k + 1); } else { RunNil(d1); }
    RunCons(b, Pass, rest);
    RunAppend(d, Completions(env(k)), [Pass] + rest);
  }

  lemma ClosingIsRun(o: Device, env: nat -> seq<bv32>)
    requires Sound(o) && o.tx.WellFormed() && o.w.phase.Notified?
    ensures AllOfHandler(ClosingActs(o, env)) && PossibleRun(ClosingActs(o, env))
    ensures var e := if o.looping then Passes(o, env, 0) else o;
            Run(o, ClosingActs(o, env)) == e.(w := W.Exited(e.w))
  {
    hide Sound, TxState.WellFormed, Passes, PassesActs, Run, W.IrqMask;
    var loop := if o.looping then PassesActs(o, env, 0) else [];
    if o.looping { PassesIsRun(o, env, 0); PassesAre(o, env, 0); } else { RunNil(o); }
    HandlerPossible(loop);
    var e := Run(o, loop);
    RunCons(e, Other(W.IrqExit), []);
    RunNil(Step(e, Other(W.IrqExit)));
    RunAppend(o, loop, [Other(W.IrqExit)] + []);
  }

  /** A run of `eth_irq` is a run of the machine, of steps of the handler and the DMA engine. */
  lemma HandledIsRun(d: Device, first: bv32, env: nat -> seq<bv32>)
    requires Sound(d) && d.tx.WellFormed() && d.w.phase == W.Outside && !d.looping
    ensures AllOfHandler(HandledActs(d, first, env)) && PossibleRun(HandledActs(d, first, env))
    ensures Run(d, HandledActs(d, first, env)) == Handled(d, first, env)
  {
    hide Sound, TxState.WellFormed, Passes, ClosingActs, Run, Opened, Step, W.TxDone, W.Exited;
    if d.w.status == 0 {
      RunNil(d);
    } else {
      OpenedPhase(d, first);
      var o := Opened(d, first);
      OpenedSteps(d, first);
      ClosingIsRun(o, env);
      var rest := ClosingActs(o, env);
      var d1 := Step(d, Other(W.IrqEnter));
      var d2 := Step(d1, Other(W.Raise(first)));
      var d3 := Step(d2, Other(W.IrqAck));
      RunCons(d3, Other(W.IrqNotify), rest);
      RunCons(d2, Other(W.IrqAck), [Other(W.IrqNotify)] + rest);
      RunCons(d1, Other(W.Raise(first)), [Other(W.IrqAck)] + ([Other(W.IrqNotify)] + rest));
      RunCons(d, Other(W.IrqEnter), [Other(W.Raise(first))] + ([Other(W.IrqAck)] + ([Other(W.IrqNotify)] + rest)));
    }
  }

  lemma OpenedSteps(d: Device, first: bv32)
    requires Sound(d) && d.w.phase == W.Outside && !d.looping && d.w.status != 0
    ensures d.WellFormed()
    ensures var d1 := Step(d, Other(W.IrqEnter));
            && Sound(d1) && d1.WellFormed()
            && var d2 := Step(d1, Other(W.Raise(first)));
               && Sound(d2) && d2.WellFormed()
               && var d3 := Step(d2, Other(W.IrqAck));
                  && Sound(d3) && d3.WellFormed()
                  && Step(d3, Other(W.IrqNotify)) == Opened(d, first) && Sound(Opened(d, first))
                  && Opened(d, first).tx.WellFormed()
  {
    hide TxState.WellFormed, TxState.Queue, RxRing.RxState.WellFormed, RxRing.RxState.Queue, W.With, W.Without, W.TxDone, W.HasRx;
  }

  /** Steps of the handler and the DMA engine are polite, and overtake nothing. */
  lemma {:induction false} HandlerOrderly(d: Device, acts: seq<Action>)
    requires Sound(d) && AllOfHandler(acts) && PossibleRun(acts)
    ensures PoliteRun(d, acts) && Deferred(d, acts)
    decreases |acts|
  {
    hide Sound, Step, Possible, TxState.WellFormed;
    if acts != [] {
      assert OfHandler(acts[0]);
      SoundShape(d);
      StepSound(d, acts[0]);
      HandlerOrderly(Step(d, acts[0]), acts[1..]);
    }
  }

  /** So it keeps both invariants. */
  lemma HandledKeeps(d: Device, first: bv32, env: nat -> seq<bv32>)
    requires Sound(d) && d.tx.WellFormed() && d.w.phase == W.Outside && !d.looping
    ensures Sound(Handled(d, first, env))
    ensures TxInv(d) ==> TxInv(Handled(d, first, env))
    ensures W.Inv(d.w) ==> W.Inv(Handled(d, first, env).w)
  {
    hide Sound, TxInv, W.Inv, TxState.WellFormed, Handled, HandledActs, Run, PoliteRun, Deferred;
    HandledIsRun(d, first, env);
    var acts := HandledActs(d, first, env);
    HandlerOrderly(d, acts);
    RunKeeps(d, acts);
  }

  /** What it leaves, spelled out. */
  lemma HandledIs(d: Device, first: bv32, env: nat -> seq<bv32>)
    requires d.tx.WellFormed() && d.w.phase == W.Outside && !d.looping
    ensures var d' := Handled(d, first, env);
            && d'.tx == (if W.TxDone(d.w.status) && d.w.status != 0 then TxReclaim.TxOver(d.tx, env, 0) else d.tx)
            && (d.w.status != 0 ==>
                 d' == Device(d'.tx, d.w.(mask := W.IrqMask(d.w.status), ready := d.w.ready || W.HasRx(d.w.status),
                                          status := d'.w.status), false))
  {
    hide TxState.WellFormed, Passes, W.With, W.Without, W.TxDone, W.IrqMask, W.HasRx, TxReclaim.TxOver;
    if d.w.status != 0 {
      OpenedPhase(d, first);
      if Opened(d, first).looping { PassesAre(Opened(d, first), env, 0); }
    }
  }
}
