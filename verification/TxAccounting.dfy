/**
 * What the reclaim loop may claim about the frames it has counted.
 *
 * `eth_tx` looks at the OWN bit only, so it overwrites a slot whose frame was sent but not reclaimed
 * yet. The statistics obey a conservation law that holds in every run and names what such an
 * overwrite loses; they are exact precisely when none happened. While none happens, a second FIFO
 * queue, of frames sent and not reclaimed, lives in the same descriptors.
 */
module TxAccounting {
  import opened Common
  import opened EthDesc
  import opened TxRing
  import Ring

  /** Sent by the DMA engine, not reclaimed by the driver. */
  predicate Done(d: DmaDesc) {
    !Owned(d) && !IsEmpty(d)
  }

  // ---- conservation, in every run ----

  /** The two things the driver counts. */
  datatype Measure = Frames | Bytes

  function Weight(m: Measure, d: DmaDesc): nat {
    if !Done(d) then 0
    else match m
      case Frames => 1
      case Bytes => if NoError(d.status) then Size1(d.length) else 0
  }

  function Sum(m: Measure, desc: seq<DmaDesc>): nat {
    if desc == [] then 0 else Weight(m, desc[0]) + Sum(m, desc[1..])
  }

  /** What the statistics say: frames reclaimed, or bytes of the good ones. */
  function Booked(m: Measure, s: TxState): nat {
    match m
    case Frames => s.packets + s.errors
    case Bytes => s.bytes
  }

  /** What a step adds to the frames on the wire. */
  function Gained(m: Measure, out: TxOutput): nat {
    if !out.Sent? || out.frame == [] then 0
    else match m
      case Frames => 1
      case Bytes => if NoError(out.report) then |out.frame| else 0
  }

  /** What a step overwrites before it was booked. */
  function Lost(m: Measure, s: TxState, out: TxOutput): nat
    requires s.WellFormed()
  {
    if out == Accepted then Weight(m, s.desc[s.next]) else 0
  }

  lemma {:induction false} SumUpdate(m: Measure, desc: seq<DmaDesc>, i: nat, d: DmaDesc)
    requires i < |desc|
    ensures Sum(m, desc[i := d]) + Weight(m, desc[i]) == Sum(m, desc) + Weight(m, d)
    decreases |desc|
  {
    hide Weight;
    if i > 0 {
      SumUpdate(m, desc[1..], i - 1, d);
      assert desc[i := d][1..] == desc[1..][i - 1 := d];
    }
  }

  lemma SubmitConserves(m: Measure, s: TxState, p: Packet)
    requires s.Inv() && p.Fits() && !Owned(s.desc[s.next])
    ensures var s' := EthTx(s, p).0;
            && Sum(m, s'.desc) + Weight(m, s.desc[s.next]) == Sum(m, s.desc)
            && Booked(m, s') == Booked(m, s)
  {
    hide Owned, IsLastTx, IsEmpty, NoError, Size1, NoSecondBuffer, WholeFrame, TxStatus, TxState.Queue;
    assert s.Slot(s.ptr[s.next]) == s.next;
    var d := PublishedDesc(s.desc[s.next], p.length, VirtToPhys(s.buf[s.next]));
    Published(s.desc[s.next], p, VirtToPhys(s.buf[s.next]));
    SumUpdate(m, s.desc, s.next, d);
  }

  lemma CompleteConserves(m: Measure, s: TxState, report: bv32)
    requires s.Inv()
    ensures var (s', out) := DmaTx(s, report);
            && Sum(m, s'.desc) == Sum(m, s.desc) + Gained(m, out)
            && Booked(m, s') == Booked(m, s)
  {
    hide Owned, IsLastTx, IsEmpty, NoError, Size1, NoSecondBuffer, WholeFrame, TxWriteBack, TxState.Queue;
    var i := s.Slot(s.cur);
    var d := s.desc[i];
    if Owned(d) {
      var d' := d.(status := TxWriteBack(d.status, report));
      TxWriteBackBits(d, report, d'.status);
      SameSize(d, d');
      EmptySize(d');
      SumUpdate(m, s.desc, i, d');
    }
  }

  lemma SameSize(d: DmaDesc, d': DmaDesc)
    requires d.length == d'.length
    ensures IsEmpty(d) == IsEmpty(d')
  {
  }

  lemma ReclaimConserves(m: Measure, s: TxState)
    requires s.Inv()
    ensures var s' := ReclaimOne(s).0;
            Sum(m, s'.desc) + Booked(m, s') == Sum(m, s.desc) + Booked(m, s)
  {
    hide Owned, IsLastTx, IsEmpty, NoError, Size1, NoSecondBuffer, WholeFrame, TxState.Queue;
    var i := s.busy;
    var d := s.desc[i];
    assert s.Slot(s.ptr[i]) == i;
    if Done(d) {
      var d' := DmaDesc(if IsLastTx(d) then TX_DESC_END_OF_RING else 0, 0, 0, 0);
      TxClearedBits(d', IsLastTx(d));
      SumUpdate(m, s.desc, i, d');
    }
  }

  /** One step moves frames, and bytes, between the wire, the ring, the statistics and the loss. */
  lemma StepConserves(m: Measure, s: TxState, a: TxAction)
    requires s.Inv() && Possible(a)
    ensures var (s', out) := Step(s, a);
            Booked(m, s') + Sum(m, s'.desc) + Lost(m, s, out) ==
            Booked(m, s) + Sum(m, s.desc) + Gained(m, out)
  {
    hide Owned, IsLastTx, IsEmpty, NoError, Size1, TxState.Queue, Sum, Weight, Booked;
    match a
    case Submit(p) =>
      if !Owned(s.desc[s.next]) { SubmitConserves(m, s, p); }
      assert s.Slot(s.ptr[s.next]) == s.next;
    case Complete(report) => CompleteConserves(m, s, report);
    case Reclaim => ReclaimConserves(m, s);
  }

  function GainedTotal(m: Measure, outs: seq<TxOutput>): nat {
    if outs == [] then 0 else Gained(m, outs[0]) + GainedTotal(m, outs[1..])
  }

  ghost function LostTotal(m: Measure, s: TxState, acts: seq<TxAction>): nat
    requires s.Inv() && PossibleRun(acts)
    decreases |acts|
  {
    if acts == [] then 0 else
    StepRefines(s, acts[0]);
    Lost(m, s, Step(s, acts[0]).1) + LostTotal(m, Step(s, acts[0]).0, acts[1..])
  }

  /**
   * Conservation over every run, with no assumption about when reclaim runs: what the statistics
   * gained, plus what waits in the ring to be reclaimed, plus what was overwritten there, is what
   * went out on the wire.
   */
  lemma {:induction false} RunConserves(m: Measure, s: TxState, acts: seq<TxAction>)
    requires s.Inv() && PossibleRun(acts)
    ensures var (s', outs) := Run(s, acts);
            Booked(m, s') + Sum(m, s'.desc) + LostTotal(m, s, acts) ==
            Booked(m, s) + Sum(m, s.desc) + GainedTotal(m, outs)
    decreases |acts|
  {
    hide Step, TxState.WellFormed, TxState.Queue, Booked, Sum, Lost, Gained;
    if acts != [] {
      StepRefines(s, acts[0]);
      StepConserves(m, s, acts[0]);
      RunConserves(m, Step(s, acts[0]).0, acts[1..]);
      assert Run(s, acts).1[1..] == Run(Step(s, acts[0]).0, acts[1..]).1;
    }
  }

  /** `eth_tx` was only ever called with slot TxNext owned by the DMA engine, or empty. */
  ghost predicate NeverOverwrites(s: TxState, acts: seq<TxAction>)
    requires s.Inv() && PossibleRun(acts)
    decreases |acts|
  {
    acts == [] ||
    (StepRefines(s, acts[0]);
     && (acts[0].Submit? ==> !Done(s.desc[s.next]))
     && NeverOverwrites(Step(s, acts[0]).0, acts[1..]))
  }

  lemma {:induction false} LossIsOverwriting(s: TxState, acts: seq<TxAction>)
    requires s.Inv() && PossibleRun(acts)
    ensures LostTotal(Frames, s, acts) == 0 <==> NeverOverwrites(s, acts)
    decreases |acts|
  {
    hide TxState.WellFormed, TxState.Queue, DmaTx, ReclaimOne, Owned, IsEmpty;
    if acts != [] {
      StepRefines(s, acts[0]);
      SubmitOutcome(s, acts[0]);
      LossIsOverwriting(Step(s, acts[0]).0, acts[1..]);
    }
  }

  lemma SubmitOutcome(s: TxState, a: TxAction)
    requires s.Inv() && Possible(a)
    ensures Step(s, a).1 == Accepted <==> a.Submit? && !Owned(s.desc[s.next])
  {
    hide Owned, TxState.Queue;
    assert s.Slot(s.ptr[s.next]) == s.next;
  }

  /** From the empty ring, the packets and errors counted and the frames still to be reclaimed make
      up the frames sent exactly when no sent frame was overwritten before reclaim and none was empty: an
      empty frame leaves a slot that looks reclaimed. */
  lemma FramesExactIff(s: TxState, acts: seq<TxAction>)
    requires Fresh(s) && PossibleRun(acts)
    ensures s.Inv()
    ensures var (s', outs) := Run(s, acts);
            s'.packets + s'.errors + Sum(Frames, s'.desc) == |SentFrames(outs)|
            <==> NeverOverwrites(s, acts) && [] !in SentFrames(outs)
  {
    hide Run, NeverOverwrites, Sum, LostTotal, GainedTotal, SentFrames;
    FreshInv(s);
    RunConserves(Frames, s, acts);
    LossIsOverwriting(s, acts);
    FreshSum(Frames, s.desc);
    GainedCounts(Run(s, acts).1);
  }

  lemma {:induction false} GainedCounts(outs: seq<TxOutput>)
    ensures GainedTotal(Frames, outs) <= |SentFrames(outs)|
    ensures GainedTotal(Frames, outs) == |SentFrames(outs)| <==> [] !in SentFrames(outs)
  {
    if outs != [] { GainedCounts(outs[1..]); }
  }

  lemma {:induction false} FreshSum(m: Measure, desc: seq<DmaDesc>)
    requires forall i | 0 <= i < |desc| :: IsEmpty(desc[i])
    ensures Sum(m, desc) == 0
  {
    hide IsEmpty;
    if desc != [] { FreshSum(m, desc[1..]); }
  }

  // ---- the queue of frames sent and not reclaimed ----

  datatype Entry = Entry(len: nat, ok: bool)

  ghost function DoneQueue(s: TxState): Ring.Ring<Entry>
    requires s.WellFormed()
  {
    Ring.Ring(
      seq(|s.desc|, i requires 0 <= i < |s.desc| =>
        if Done(s.desc[i]) then Some(Entry(Size1(s.desc[i].length), NoError(s.desc[i].status))) else None),
      s.busy, s.Slot(s.cur))
  }

  /** TxBusy is in step: the slots split cyclically into sent-unreclaimed from TxBusy, owned from the
      DMA pointer, and empty ones, which carry nothing over; so what is owned asks for a plain frame. */
  ghost predicate Synced(s: TxState) {
    && s.Inv()
    && DoneQueue(s).Valid()
    && (forall i | 0 <= i < |s.desc| && Owned(s.desc[i]) ::
          !IsEmpty(s.desc[i]) && Plain(s.desc[i].status, i == |s.desc| - 1))
    && (forall i | 0 <= i < |s.desc| && !Owned(s.desc[i]) && IsEmpty(s.desc[i]) :: Clean(s.desc[i]))
  }

  predicate Clean(d: DmaDesc) {
    d.status == if IsLastTx(d) then TX_DESC_END_OF_RING else 0
  }

  ghost function Unreclaimed(s: TxState): seq<Entry>
    requires Synced(s)
  {
    DoneQueue(s).Contents()
  }

  /** A call of `eth_tx` that keeps TxBusy in step: the slot it finds is not waiting for reclaim,
      and the frame is not empty. */
  ghost predicate Polite(s: TxState, a: TxAction)
    requires s.WellFormed()
  {
    a.Submit? ==> !Done(s.desc[s.next]) && a.packet.data != []
  }

  lemma SubmitSynced(s: TxState, p: Packet)
    requires Synced(s) && p.Fits() && Polite(s, Submit(p))
    ensures Synced(EthTx(s, p).0) && Unreclaimed(EthTx(s, p).0) == Unreclaimed(s)
  {
    hide Owned, IsLastTx, IsEmpty, NoError, Size1, NoSecondBuffer, WholeFrame, Plain, TxStatus, TxState.Queue;
    SubmitRefines(s, p);
    assert s.Slot(s.ptr[s.next]) == s.next;
    if !Owned(s.desc[s.next]) {
      var d := PublishedDesc(s.desc[s.next], p.length, VirtToPhys(s.buf[s.next]));
      Published(s.desc[s.next], p, VirtToPhys(s.buf[s.next]));
      EmptySize(d);
      PlainFromClear(s.desc[s.next].status, s.next == |s.desc| - 1);
      assert EthTx(s, p).0.desc == s.desc[s.next := d];
      assert DoneQueue(EthTx(s, p).0) == DoneQueue(s);
    }
  }

  lemma CompleteSynced(s: TxState, report: bv32)
    requires Synced(s)
    ensures var (s', out) := DmaTx(s, report);
            && Synced(s')
            && Unreclaimed(s') == Unreclaimed(s) + EntryOf(out)
  {
    hide Owned, IsLastTx, IsEmpty, NoError, Size1, NoSecondBuffer, WholeFrame, Plain, TxWriteBack, TxState.Queue, Ring.Ring.Valid;
    CompleteRefines(s, report);
    var i := s.Slot(s.cur);
    var d := s.desc[i];
    if Owned(d) {
      var d' := d.(status := TxWriteBack(d.status, report));
      TxWriteBackBits(d, report, d'.status);
      SameSize(d, d');
      var s' := DmaTx(s, report).0;
      var e := Entry(Size1(d.length), NoError(report));
      Ring.PushEnqueues(DoneQueue(s), e);
      assert DoneQueue(s') == DoneQueue(s).Push(e);
    }
  }

  function EntryOf(out: TxOutput): seq<Entry> {
    if out.Sent? then [Entry(|out.frame|, NoError(out.report))] else []
  }

  lemma ReclaimSynced(s: TxState)
    requires Synced(s)
    ensures var (s', out) := ReclaimOne(s);
            && Synced(s')
            && (out == Internal(true) <==> Unreclaimed(s) != [])
            && (out != Internal(true) ==> s' == s)
            && (out == Internal(true) ==>
                 var e := Unreclaimed(s)[0];
                 && Unreclaimed(s') == Unreclaimed(s)[1..]
                 && s'.packets == s.packets + (if e.ok then 1 else 0)
                 && s'.errors == s.errors + (if e.ok then 0 else 1)
                 && s'.bytes == s.bytes + (if e.ok then e.len else 0))
  {
    hide Owned, IsLastTx, IsEmpty, NoError, Size1, NoSecondBuffer, WholeFrame, Plain, TxState.Queue, Ring.Ring.Valid;
    ReclaimRefines(s);
    Ring.PopDequeues(DoneQueue(s));
    var i := s.busy;
    var d := s.desc[i];
    assert s.Slot(s.ptr[i]) == i;
    if Done(d) {
      var d' := DmaDesc(if IsLastTx(d) then TX_DESC_END_OF_RING else 0, 0, 0, 0);
      TxClearedBits(d', IsLastTx(d));
      assert DoneQueue(ReclaimOne(s).0) == DoneQueue(s).Pop();
    }
  }

  /** Under the ring invariant every frame goes out whole, with its CRC and padding: the descriptor the DMA
      engine finds holds the four bits for that, the end-of-ring bit in the last slot, and nothing else. */
  lemma SentPlain(s: TxState, report: bv32)
    requires Synced(s)
    ensures 0 <= s.Slot(s.cur) < |s.desc|
    ensures DmaTx(s, report).1.Sent? ==> Plain(s.desc[s.Slot(s.cur)].status, s.Slot(s.cur) == |s.desc| - 1)
  {
    hide Owned, IsLastTx, IsEmpty, NoError, Size1, NoSecondBuffer, WholeFrame, Plain, TxState.Queue, Ring.Ring.Valid, TxWriteBack;
  }

  /** The slot TxBusy is at holds nothing to reclaim exactly when every sent frame is reclaimed, so
      under the ring invariant the reclaim loop stops only when it has caught up with the hardware. */
  lemma StopsWhenDrained(s: TxState)
    requires Synced(s)
    ensures ReclaimOne(s).1 == Internal(false) <==> Unreclaimed(s) == []
  {
    hide ReclaimOne, TxState.WellFormed;
    ReclaimSynced(s);
    assert ReclaimOne(s).1.Internal? by { StepVisible(s); }
  }

  lemma StepVisible(s: TxState)
    requires s.Inv()
    ensures ReclaimOne(s).1.Internal?
  {
    hide TxState.Queue;
  }

  /** What waits for reclaim and what waits for the DMA engine lie in different slots. */
  lemma RegionsDisjoint(s: TxState)
    requires Synced(s)
    ensures |Unreclaimed(s)| + |s.Pending()| <= |s.desc|
  {
    hide Owned, IsLastTx, IsEmpty, NoError, Size1, NoSecondBuffer, WholeFrame;
    if DoneQueue(s).Count() + s.Queue().Count() > |s.desc| {
      var i := Ring.Overlap(DoneQueue(s), s.Queue());
    }
  }

  /** A frame is published without an error bit exactly when the slot it goes to holds none; under
      the ring invariant that is always, so no error is ever charged to the slot's next frame. */
  lemma ErrorCarriesOver(s: TxState, p: Packet)
    requires s.Inv() && p.Fits() && !Owned(s.desc[s.next])
    ensures NoError(EthTx(s, p).0.desc[s.next].status) <==> NoError(s.desc[s.next].status)
    ensures Synced(s) && Polite(s, Submit(p)) ==> NoError(EthTx(s, p).0.desc[s.next].status)
  {
    hide Owned, IsLastTx, IsEmpty, NoError, TxState.Queue, Ring.Ring.Valid, TxStatus, Clean, PublishedDesc;
    var d, dma := s.desc[s.next], VirtToPhys(s.buf[s.next]);
    assert s.Slot(s.ptr[s.next]) == s.next;
    PublishedError(d, p, dma);
    assert EthTx(s, p).0.desc[s.next] == PublishedDesc(d, p.length, dma);
    if Clean(d) { CleanNoError(d); }
  }

  lemma PublishedError(d: DmaDesc, p: Packet, dma: nat)
    ensures NoError(PublishedDesc(d, p.length, dma).status) == NoError(d.status)
  {
    TxStatusBits(d, TxStatus(d.status));
  }

  lemma CleanNoError(d: DmaDesc)
    requires Clean(d)
    ensures NoError(d.status)
  {
  }

  // ---- exact statistics over whole runs ----

  function CountOk(log: seq<Entry>): nat {
    if log == [] then 0 else CountOk(log[..|log| - 1]) + (if log[|log| - 1].ok then 1 else 0)
  }

  function BytesOk(log: seq<Entry>): nat {
    if log == [] then 0
    else BytesOk(log[..|log| - 1]) + (if log[|log| - 1].ok then log[|log| - 1].len else 0)
  }

  /** `log` lists every frame sent so far. The ones not reclaimed are its tail; the statistics are
      those of the rest. */
  ghost predicate Accounts(s: TxState, log: seq<Entry>) {
    && Synced(s)
    && |Unreclaimed(s)| <= |log|
    && var booked := |log| - |Unreclaimed(s)|;
       && Unreclaimed(s) == log[booked..]
       && s.packets + s.errors == booked
       && s.packets == CountOk(log[..booked])
       && s.bytes == BytesOk(log[..booked])
  }

  lemma StepAccounts(s: TxState, a: TxAction, log: seq<Entry>)
    requires Accounts(s, log) && Possible(a) && Polite(s, a)
    ensures var (s', out) := Step(s, a); Accounts(s', log + EntryOf(out))
  {
    hide Owned, IsEmpty, TxState.WellFormed, TxState.Queue, Synced, Unreclaimed, Polite, EthTx, DmaTx, ReclaimOne;
    var booked := |log| - |Unreclaimed(s)|;
    SyncedInv(s);
    var (s', out) := Step(s, a);
    StepOutputs(s, a);
    match a
    case Submit(p) =>
      SubmitSynced(s, p);
      assert log + EntryOf(out) == log;
    case Complete(report) =>
      CompleteSynced(s, report);
      var log' := log + EntryOf(out);
      assert log'[booked..] == log[booked..] + EntryOf(out);
      assert log'[..booked] == log[..booked];
    case Reclaim =>
      ReclaimSynced(s);
      assert log + EntryOf(out) == log;
      if out == Internal(true) {
        assert Unreclaimed(s)[0] == log[booked];
        assert log[..booked + 1][..booked] == log[..booked];
        assert log[booked..][1..] == log[booked + 1..];
      }
  }

  lemma SyncedInv(s: TxState)
    requires Synced(s)
    ensures s.Inv() && s.WellFormed()
  {
  }

  lemma StepOutputs(s: TxState, a: TxAction)
    requires s.WellFormed() && Possible(a)
    ensures var (s', out) := Step(s, a);
            && (a.Submit? ==> !out.Sent? && s'.packets == s.packets && s'.errors == s.errors && s'.bytes == s.bytes)
            && (a.Complete? ==> s'.packets == s.packets && s'.errors == s.errors && s'.bytes == s.bytes)
            && (a.Reclaim? ==> out.Internal?)
  {
    hide Owned, IsEmpty, IsLastTx;
  }

  function SentLog(outs: seq<TxOutput>): seq<Entry> {
    if outs == [] then [] else EntryOf(outs[0]) + SentLog(outs[1..])
  }

  /** Every call of `eth_tx` in the run is polite. */
  ghost predicate PoliteRun(s: TxState, acts: seq<TxAction>)
    requires s.Inv() && PossibleRun(acts)
    decreases |acts|
  {
    acts == [] ||
    (StepRefines(s, acts[0]);
     Polite(s, acts[0]) && PoliteRun(Step(s, acts[0]).0, acts[1..]))
  }

  lemma {:induction false} RunAccounts(s: TxState, acts: seq<TxAction>, log: seq<Entry>)
    requires s.Inv() && PossibleRun(acts) && PoliteRun(s, acts) && Accounts(s, log)
    ensures var (s', outs) := Run(s, acts); Accounts(s', log + SentLog(outs))
    decreases |acts|
  {
    hide Step, TxState.WellFormed, TxState.Queue, Synced, Accounts, Polite;
    if acts == [] {
      assert log + SentLog(Run(s, acts).1) == log;
    } else {
      StepRefines(s, acts[0]);
      StepAccounts(s, acts[0], log);
      var (s1, out) := Step(s, acts[0]);
      RunAccounts(s1, acts[1..], log + EntryOf(out));
      var outs := Run(s, acts).1;
      assert outs[1..] == Run(s1, acts[1..]).1;
      assert (log + EntryOf(out)) + SentLog(outs[1..]) == log + SentLog(outs);
    }
  }

  lemma FreshSynced(s: TxState)
    requires Fresh(s)
    ensures Accounts(s, [])
  {
    hide Owned, IsEmpty, NoError, IsLastTx, Size1, NoSecondBuffer, WholeFrame;
    FreshInv(s);
    forall i | 0 <= i < |s.desc| ensures !Owned(s.desc[i]) && IsEmpty(s.desc[i]) && Clean(s.desc[i]) {
      TxClearedBits(s.desc[i], i == |s.desc| - 1);
    }
    assert DoneQueue(s).Count() == 0;
  }

  /**
   * From the empty ring, however reclaim and the DMA engine interleave: as long as `eth_tx` only
   * meets slots that are empty or owned, TxBusy stays in step, the statistics are those of the
   * frames sent and reclaimed, and the counters never overtake each other.
   */
  lemma StatisticsExact(s: TxState, acts: seq<TxAction>)
    requires Fresh(s) && PossibleRun(acts)
    ensures s.Inv()
    ensures PoliteRun(s, acts) ==>
              var (s', outs) := Run(s, acts);
              && Accounts(s', SentLog(outs))
              && |Unreclaimed(s')| + |s'.Pending()| <= |s'.desc|
  {
    FreshSynced(s);
    if PoliteRun(s, acts) {
      hide Accounts;
      RunAccounts(s, acts, []);
      var (s', outs) := Run(s, acts);
      assert [] + SentLog(outs) == SentLog(outs);
      AccountsSynced(s', SentLog(outs));
      RegionsDisjoint(s');
    }
  }

  /**
   * The counters of such a run, and where the three pointers stand: reclaimed <= completed <= submitted
   * <= reclaimed + N; TxBusy, the DMA pointer and TxNext are at those counters modulo N.
   */
  lemma CountersChain(s: TxState, acts: seq<TxAction>)
    requires Fresh(s) && PossibleRun(acts)
    ensures s.Inv()
    ensures PoliteRun(s, acts) ==>
              var (s', outs) := Run(s, acts);
              var n, submitted, completed := |s'.desc|, |AcceptedFrames(acts, outs)|, |SentFrames(outs)|;
              var reclaimed := s'.packets + s'.errors;
              && n == |s.desc| > 0 && |s'.ptr| == n
              && reclaimed <= completed <= submitted <= reclaimed + n
              && s'.busy == reclaimed % n && s'.next == submitted % n && s'.cur == s'.ptr[completed % n]
  {
    hide Run, PoliteRun, Synced, Unreclaimed, TxState.Queue, TxState.Pending, TxState.WellFormed, AcceptedFrames, SentFrames, SentLog;
    FreshInv(s);
    FreshIndexed(s);
    StatisticsExact(s, acts);
    FramesInOrder(s, acts);
    RunIndexed(s, acts, 0, 0);
    SentLogCounts(Run(s, acts).1);
    Bounds(Run(s, acts).0);
  }

  lemma FreshIndexed(s: TxState)
    requires Fresh(s)
    ensures s.WellFormed() && Indexed(s, 0, 0)
  {
  }

  lemma {:induction false} SentLogCounts(outs: seq<TxOutput>)
    ensures |SentLog(outs)| == |SentFrames(outs)|
  {
    if outs != [] { SentLogCounts(outs[1..]); }
  }

  lemma AccountsSynced(s: TxState, log: seq<Entry>)
    requires Accounts(s, log)
    ensures Synced(s)
  {
  }

  // ---- when `eth_tx` meets a sent, unreclaimed slot ----

  /**
   * What the OWN-only test of `eth_tx` costs. If slot TxNext waits for reclaim then it is slot
   * TxBusy, every slot is in use, and the new frame takes its place: one frame is never counted,
   * and reclaim stops at once although all the other sent frames still wait.
   */
  lemma OverwriteStalls(s: TxState, p: Packet)
    requires Synced(s) && p.Fits() && Done(s.desc[s.next])
    ensures s.next == s.busy && |Unreclaimed(s)| + |s.Pending()| == |s.desc|
    ensures var (s', out) := EthTx(s, p);
            && out == Accepted && s'.Inv()
            && ReclaimOne(s').1 == Internal(false)
            && Sum(Frames, s'.desc) == Sum(Frames, s.desc) - 1
            && s'.packets + s'.errors == s.packets + s.errors
  {
    hide Owned, IsLastTx, IsEmpty, NoError, Size1, NoSecondBuffer, WholeFrame, TxStatus, Clean;
    NextMeetsBusy(s);
    SubmitRefines(s, p);
    SubmitConserves(Frames, s, p);
    Published(s.desc[s.next], p, VirtToPhys(s.buf[s.next]));
    assert s.Slot(s.ptr[s.next]) == s.next;
  }

  lemma NextMeetsBusy(s: TxState)
    requires Synced(s) && Done(s.desc[s.next])
    ensures s.next == s.busy && |Unreclaimed(s)| + |s.Pending()| == |s.desc|
  {
    hide Owned, IsLastTx, IsEmpty, NoError, Size1, NoSecondBuffer, WholeFrame, Clean;
    RegionsDisjoint(s);
    var done, queue := DoneQueue(s), s.Queue();
    assert done.slots[s.next].Some? && queue.slots[s.next].None?;
    assert done.Offset(s.next) < done.Count();
    assert queue.Offset(s.next) >= queue.Count();
  }

  /** One frame sent, `k` times over, with no reclaim. */
  function Pairs(p: Packet, report: bv32, k: nat): (acts: seq<TxAction>)
    ensures p.Fits() ==> PossibleRun(acts)
  {
    if k == 0 then [] else [Submit(p)] + ([Complete(report)] + Pairs(p, report, k - 1))
  }

  /** As long as there is room, each leaves one more frame to reclaim. */
  lemma {:induction false} PairsFill(s: TxState, p: Packet, report: bv32, k: nat)
    requires Synced(s) && s.Pending() == [] && p.Fits() && p.data != [] && |Unreclaimed(s)| + k <= |s.desc|
    ensures var (s', outs) := Run(s, Pairs(p, report, k));
            && PoliteRun(s, Pairs(p, report, k))
            && Synced(s') && s'.Pending() == [] && |Unreclaimed(s')| == |Unreclaimed(s)| + k
            && GainedTotal(Frames, outs) == |SentFrames(outs)| == k
            && s'.packets + s'.errors == s.packets + s.errors
    decreases k
  {
    hide Step, TxState.WellFormed, TxState.Queue, TxState.Pending, Synced, Unreclaimed, Polite, Run, PoliteRun, GainedTotal,
      SentFrames;
    SyncedInv(s);
    if k == 0 {
      EmptyRun(s);
    } else {
      var rest := Pairs(p, report, k - 1);
      OnePair(s, p, report);
      var s1 := Step(s, Submit(p)).0;
      var s2 := Step(s1, Complete(report)).0;
      PairsFill(s2, p, report, k - 1);
      PoliteCons(s1, Complete(report), rest);
      PoliteCons(s, Submit(p), [Complete(report)] + rest);
      RunCons(s1, Complete(report), rest);
      RunCons(s, Submit(p), [Complete(report)] + rest);
      GainedCons(Sent(p.data, report), Run(s2, rest).1);
      GainedCons(Accepted, [Sent(p.data, report)] + Run(s2, rest).1);
    }
  }

  lemma PoliteCons(s: TxState, a: TxAction, rest: seq<TxAction>)
    requires s.Inv() && Possible(a) && PossibleRun(rest) && (a.Submit? ==> Polite(s, a))
    ensures Step(s, a).0.Inv()
    ensures PoliteRun(Step(s, a).0, rest) ==> PoliteRun(s, [a] + rest)
  {
    hide Step, TxState.WellFormed, TxState.Queue, Ring.FifoStep;
    StepRefines(s, a);
    assert ([a] + rest)[1..] == rest;
  }

  lemma EmptyRun(s: TxState)
    requires s.Inv()
    ensures Run(s, []) == (s, []) && PoliteRun(s, []) && GainedTotal(Frames, []) == |SentFrames([])| == 0
  {
  }

  lemma GainedCons(out: TxOutput, outs: seq<TxOutput>)
    ensures GainedTotal(Frames, [out] + outs) == Gained(Frames, out) + GainedTotal(Frames, outs)
    ensures SentFrames([out] + outs) == Ring.Out(View(out)) + SentFrames(outs)
  {
    assert ([out] + outs)[1..] == outs;
  }

  lemma {:induction false} GainedLast(outs: seq<TxOutput>)
    ensures GainedTotal(Frames, outs + [Accepted]) == GainedTotal(Frames, outs)
    ensures |SentFrames(outs + [Accepted])| == |SentFrames(outs)|
  {
    if outs == [] {
      GainedCons(Accepted, []);
      assert [] + [Accepted] == [Accepted] + [];
    } else {
      GainedLast(outs[1..]);
      assert (outs + [Accepted])[1..] == outs[1..] + [Accepted];
    }
  }

  lemma OnePair(s: TxState, p: Packet, report: bv32)
    requires Synced(s) && s.Pending() == [] && p.Fits() && p.data != [] && |Unreclaimed(s)| < |s.desc|
    ensures Polite(s, Submit(p))
    ensures var (s1, out1) := Step(s, Submit(p));
            && s1.Inv() && out1 == Accepted
            && var (s2, out2) := Step(s1, Complete(report));
               && out2 == Sent(p.data, report)
               && Synced(s2) && s2.Pending() == [] && |Unreclaimed(s2)| == |Unreclaimed(s)| + 1 && |s2.desc| == |s.desc|
               && s2.packets + s2.errors == s.packets + s.errors
  {
    hide Owned, IsEmpty, TxState.WellFormed, TxState.Queue, TxState.Pending, Synced, Unreclaimed, EthTx, DmaTx;
    SyncedInv(s);
    if Done(s.desc[s.next]) { NextMeetsBusy(s); }
    StepRefines(s, Submit(p));
    StepOutputs(s, Submit(p));
    SubmitSynced(s, p);
    var s1 := Step(s, Submit(p)).0;
    SyncedInv(s1);
    StepRefines(s1, Complete(report));
    StepOutputs(s1, Complete(report));
    CompleteSynced(s1, report);
  }

  /** A ring in which every frame waits for reclaim. */
  lemma AllDone(s: TxState)
    requires Synced(s) && |Unreclaimed(s)| == |s.desc|
    ensures Done(s.desc[s.next])
  {
    hide Owned, IsEmpty, IsLastTx, NoError, Size1, TxState.Queue, Clean;
    var q := DoneQueue(s);
    assert q.Offset(s.next) < q.Count();
    assert q.slots[s.next].Some?;
  }

  /**
   * A run in which it happens, for every ring size, 128 included: as many frames as there are slots are
   * sent with no reclaim in between, and one more is accepted. One sent frame is lost from the
   * statistics, none is counted, and reclaim takes none of the rest.
   */
  lemma OverwriteRun(s: TxState, p: Packet, report: bv32)
    requires Fresh(s) && p.Fits() && p.data != []
    ensures s.Inv()
    ensures var acts := Pairs(p, report, |s.desc|) + [Submit(p)];
            var (s', outs) := Run(s, acts);
            && |SentFrames(outs)| == GainedTotal(Frames, outs) == |s.desc|
            && LostTotal(Frames, s, acts) == 1
            && s'.packets + s'.errors == 0 && Sum(Frames, s'.desc) == |s.desc| - 1
            && ReclaimOne(s').1 == Internal(false)
  {
    hide EthTx, ReclaimOne, TxState.WellFormed, TxState.Queue, TxState.Pending, Synced, Unreclaimed, Fresh, Run, PoliteRun,
      NeverOverwrites, Pairs, Sum, GainedTotal, LostTotal, SentFrames;
    var n, a := |s.desc|, Pairs(p, report, |s.desc|);
    FreshInv(s);
    FreshNone(s);
    PairsFill(s, p, report, n);
    var (s1, outs1) := Run(s, a);
    AllDone(s1);
    OverwriteStalls(s1, p);
    RunAppend(s, a, [Submit(p)]);
    StepRefines(s1, Submit(p));
    RunCons(s1, Submit(p), []);
    EmptyRun(Step(s1, Submit(p)).0);
    assert [Submit(p)] + [] == [Submit(p)] && [Accepted] + [] == [Accepted];
    PoliteNeverOverwrites(s, a);
    RunConserves(Frames, s, a);
    LossIsOverwriting(s, a);
    RunConserves(Frames, s, a + [Submit(p)]);
    GainedLast(outs1);
  }

  lemma FreshNone(s: TxState)
    requires Fresh(s)
    ensures Synced(s) && Unreclaimed(s) == [] && Sum(Frames, s.desc) == 0 && s.packets + s.errors == 0
  {
    hide Synced, Unreclaimed;
    FreshSynced(s);
    AccountsNone(s);
    FreshSum(Frames, s.desc);
  }

  lemma AccountsNone(s: TxState)
    requires Accounts(s, [])
    ensures Synced(s) && Unreclaimed(s) == []
  {
    hide Synced, Unreclaimed;
  }

  lemma {:induction false} PoliteNeverOverwrites(s: TxState, acts: seq<TxAction>)
    requires s.Inv() && PossibleRun(acts) && PoliteRun(s, acts)
    ensures NeverOverwrites(s, acts)
    decreases |acts|
  {
    hide Step, TxState.WellFormed, TxState.Queue, Ring.FifoStep, Done;
    if acts != [] {
      StepRefines(s, acts[0]);
      PoliteNeverOverwrites(Step(s, acts[0]).0, acts[1..]);
    }
  }

  lemma RunNil(s: TxState)
    requires s.Inv()
    ensures Run(s, []) == (s, [])
  {
  }

  lemma RunCons(s: TxState, a: TxAction, rest: seq<TxAction>)
    requires s.Inv() && Possible(a) && PossibleRun(rest)
    ensures Step(s, a).0.Inv()
    ensures var (s1, out) := Step(s, a); var (s2, outs) := Run(s1, rest);
            Run(s, [a] + rest) == (s2, [out] + outs)
  {
    hide Step, TxState.WellFormed, TxState.Queue, Ring.FifoStep;
    StepRefines(s, a);
    assert ([a] + rest)[1..] == rest;
  }

  lemma {:induction false} RunAppend(s: TxState, a: seq<TxAction>, b: seq<TxAction>)
    requires s.Inv() && PossibleRun(a) && PossibleRun(b)
    ensures var (s1, outs1) := Run(s, a); var (s2, outs2) := Run(s1, b);
            Run(s, a + b) == (s2, outs1 + outs2)
    decreases |a|
  {
    hide Step, TxState.WellFormed, TxState.Queue, Ring.FifoStep;
    if a == [] {
      assert a + b == b;
      assert [] + Run(s, b).1 == Run(s, b).1;
    } else {
      StepRefines(s, a[0]);
      RunAppend(Step(s, a[0]).0, a[1..], b);
      assert (a + b)[1..] == a[1..] + b;
      var o, os, os2 := Step(s, a[0]).1, Run(Step(s, a[0]).0, a[1..]).1, Run(Run(s, a).0, b).1;
      assert [o] + (os + os2) == ([o] + os) + os2;
    }
  }
}
