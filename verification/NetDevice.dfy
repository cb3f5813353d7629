/**
 * `struct net_device` with the memory it shares with the DMA engine. The methods change fields and
 * descriptors in place; each one is proved to do what its step function does, so every call is a
 * step, or a run, of the transmit and receive rings.
 */
module NetDevice {
  import opened Common
  import opened EthDesc
  import TxRing
  import TxAccounting
  import TxReclaim
  import RxRing
  import RxWakeup
  import Interrupts

  const DESC_NUM: nat := 128

  /** A stretch of memory from the allocator. */
  datatype Area = Area(at: nat, size: nat)

  /** A descriptor table and its buffers. */
  ghost function Areas(at: nat, bufs: seq<nat>): seq<Area> {
    [Area(at, DESC_BYTES * |bufs|)] + seq(|bufs|, i requires 0 <= i < |bufs| => Area(bufs[i], BUF_SIZE))
  }

  /** What the allocator promises: memory below 4 GiB, where the DMA engine can reach it, and none of it
      twice. */
  ghost predicate Allocated(areas: seq<Area>) {
    && (forall i | 0 <= i < |areas| :: areas[i].at + areas[i].size <= U32)
    && (forall i, j | 0 <= i < j < |areas| ::
          areas[i].at + areas[i].size <= areas[j].at || areas[j].at + areas[j].size <= areas[i].at)
  }

  class NetDevice {
    // the pointer tables
    var txDesc: seq<nat>
    var rxDesc: seq<nat>
    var txBuffer: seq<nat>
    var rxBuffer: seq<nat>

    // the driver's indices and statistics
    var txBusy: nat
    var txNext: nat
    var rxBusy: nat
    var txPackets: nat
    var txErrors: nat
    var txBytes: nat
    var rxPackets: nat
    var rxErrors: nat
    var rxBytes: nat

    // memory shared with the DMA engine
    var txTable: nat
    var rxTable: nat
    var txMem: array<DmaDesc>
    var rxMem: array<DmaDesc>
    var txRam: map<nat, seq<byte>>
    var rxRam: map<nat, seq<byte>>

    // the DMA engine
    var dmaTxCur: nat
    var dmaRxCur: nat
    var dmaStatus: bv32
    var dmaInterrupt: bv32

    // eth_rx_ready was issued, and no eth_rx has found nothing since
    var rxReady: bool

    ghost predicate Shaped()
      reads this
    {
      && |txDesc| == |txBuffer| == |rxDesc| == |rxBuffer| == 128
      && txMem != rxMem && txMem.Length <= DESC_NUM && rxMem.Length <= DESC_NUM
    }

    /** The transmit side. */
    ghost function Tx(): TxRing.TxState
      reads this, txMem
      requires Shaped()
    {
      TxRing.TxState(txTable, txDesc[..txMem.Length], txBuffer[..txMem.Length], txMem[..], txRam,
                     txBusy, txNext, dmaTxCur, txPackets, txErrors, txBytes)
    }

    /** The receive side. */
    ghost function Rx(): RxRing.RxState
      reads this, rxMem
      requires Shaped()
    {
      RxRing.RxState(rxTable, rxDesc[..rxMem.Length], rxBuffer[..rxMem.Length], rxMem[..], rxRam,
                     rxBusy, dmaRxCur, rxPackets, rxErrors, rxBytes)
    }

    /** The receive side with its interrupts, while neither eth_irq nor eth_rx is running. */
    ghost function Wake(): RxWakeup.Wake
      reads this, rxMem
      requires Shaped()
    {
      RxWakeup.Wake(Rx(), dmaInterrupt, dmaStatus, rxReady, RxWakeup.Outside, false)
    }

    /** The whole device, with the interrupt handler somewhere. */
    ghost function At(phase: RxWakeup.Phase, looping: bool): Interrupts.Device
      reads this, txMem, rxMem
      requires Shaped()
    {
      Interrupts.Device(Tx(), RxWakeup.Wake(Rx(), dmaInterrupt, dmaStatus, rxReady, phase, false), looping)
    }

    ghost function Machine(): Interrupts.Device
      reads this, txMem, rxMem
      requires Shaped()
    {
      At(RxWakeup.Outside, false)
    }

    ghost predicate Valid()
      reads this, txMem, rxMem
    {
      Shaped() && Tx().Inv() && RxWakeup.Inv(Wake())
    }

    /** As long as `eth_tx` never overwrites a sent frame. */
    ghost predicate InStep()
      reads this, txMem, rxMem
    {
      Valid() && Interrupts.TxInv(Machine())
    }

    /** Between calls no received frame waits unheard of; and no sent frame, while in step. */
    lemma NothingLost()
      requires Valid()
      ensures Rx().Inv() && RxWakeup.NoneUnheard(Wake())
      ensures InStep() ==> TxAccounting.Synced(Tx()) && Interrupts.NoneUnreclaimed(Machine())
    {
      hide Interrupts.TxInv, Interrupts.NoneUnreclaimed, TxRing.TxState.Inv, RxWakeup.Inv, RxWakeup.MaskOk;
      RxWakeup.InvMeans(Wake());
      if InStep() { Interrupts.TxInvMeans(Machine()); }
    }

    /** The pointer tables and the memory areas stay where they are. */
    twostate predicate SamePlaces()
      reads this
    {
      && txMem == old(txMem) && rxMem == old(rxMem)
      && txTable == old(txTable) && rxTable == old(rxTable)
      && txDesc == old(txDesc) && rxDesc == old(rxDesc)
      && txBuffer == old(txBuffer) && rxBuffer == old(rxBuffer)
    }

    /** The structure as the operating system provides it: zeroed. */
    ghost predicate Zeroed()
      reads this
    {
      && |txDesc| == |txBuffer| == |rxDesc| == |rxBuffer| == DESC_NUM
      && txPackets == txErrors == txBytes == 0 && rxPackets == rxErrors == rxBytes == 0
      && txMem.Length == rxMem.Length == 0
    }

    constructor ()
      ensures Zeroed()
    {
      txDesc, rxDesc := seq(DESC_NUM, _ => 0), seq(DESC_NUM, _ => 0);
      txBuffer, rxBuffer := seq(DESC_NUM, _ => 0), seq(DESC_NUM, _ => 0);
      txPackets, txErrors, txBytes, rxPackets, rxErrors, rxBytes := 0, 0, 0, 0, 0, 0;
      txRam, rxRam := map[], map[];
      txMem, rxMem := new DmaDesc[0], new DmaDesc[0];
    }

    /**
     * `eth_init` as far as the rings go. The allocator gives `rxAt` and `txAt` for the descriptor
     * tables and `rxBufs`, `txBufs` for the buffers.
     */
    method EthInit(rxNum: nat, rxAt: nat, rxBufs: seq<nat>, txNum: nat, txAt: nat, txBufs: seq<nat>)
      requires 1 <= rxNum == |rxBufs| <= DESC_NUM && 1 <= txNum == |txBufs| <= DESC_NUM
      requires Allocated(Areas(rxAt, rxBufs) + Areas(txAt, txBufs)) && Zeroed()
      modifies this
      ensures InStep() && fresh(txMem) && fresh(rxMem)
      ensures TxRing.Fresh(Tx()) && |Tx().desc| == txNum
      ensures RxRing.Fresh(Rx()) && |Rx().desc| == rxNum
      ensures dmaInterrupt == 0x0001A1F7 && dmaStatus == 0 && !rxReady
    {
      hide TxRing.Fresh, RxRing.Fresh, TxRing.TxState.WellFormed, RxRing.RxState.WellFormed, TxRing.TxState.Queue, RxWakeup.Inv,
        Interrupts.TxInv;
      SetupQueues(rxNum, rxAt, rxBufs, txNum, txAt, txBufs);
      dmaStatus, rxReady := 0, false;
      dmaInterrupt := RxWakeup.DMA_INT_ENABLE;
      TxRing.FreshInv(Tx());
      RxWakeup.InitInv(Wake());
      Interrupts.FreshInv(Machine());
    }

    method SetupQueues(rxNum: nat, rxAt: nat, rxBufs: seq<nat>, txNum: nat, txAt: nat, txBufs: seq<nat>)
      requires 1 <= rxNum == |rxBufs| <= DESC_NUM && 1 <= txNum == |txBufs| <= DESC_NUM
      requires Allocated(Areas(rxAt, rxBufs) + Areas(txAt, txBufs)) && Zeroed()
      modifies this
      ensures Shaped() && fresh(txMem) && fresh(rxMem) && txMem.Length == txNum && rxMem.Length == rxNum
      ensures TxRing.Fresh(Tx()) && RxRing.Fresh(Rx())
    {
      hide TxRing.Fresh, RxRing.Fresh, TxTable, RxTable, Areas, Allocated;
      AllocatedBoth(Areas(rxAt, rxBufs), Areas(txAt, txBufs));
      EthSetupRxDescQueue(rxNum, rxAt, rxBufs);
      EthSetupTxDescQueue(txNum, txAt, txBufs);
      TxTableFresh(txNum, txAt, txBufs, Tx(), txDesc, txBuffer);
      RxTableFresh(rxNum, rxAt, rxBufs, Rx(), rxDesc, rxBuffer);
    }

    method EthSetupTxDescQueue(descNum: nat, at: nat, bufs: seq<nat>)
      requires 1 <= descNum == |bufs| <= DESC_NUM && Allocated(Areas(at, bufs))
      requires |txDesc| == |txBuffer| == DESC_NUM
      modifies this`txNext, this`txBusy, this`dmaTxCur, this`txTable, this`txMem, this`txDesc, this`txBuffer, this`txRam
      ensures fresh(txMem) && txMem.Length == descNum && |txDesc| == |txBuffer| == DESC_NUM
      ensures txNext == txBusy == 0 && txTable == dmaTxCur == at
      ensures TxTable(descNum, descNum, at, bufs, txDesc, txBuffer, txMem[..], txRam)
    {
      hide TxTable;
      AllocatedPhys(at, bufs);
      var desc := at;
      txMem := new DmaDesc[descNum];
      txNext, txBusy := 0, 0;
      txTable, dmaTxCur := at, VirtToPhys(at);
      NoTable(descNum, at, bufs, txDesc, txBuffer, txMem[..], txRam);
      for i := 0 to descNum
        invariant desc == at + DESC_BYTES * i
        invariant txNext == txBusy == 0 && txTable == dmaTxCur == at
        invariant fresh(txMem) && txMem.Length == descNum && |txDesc| == |txBuffer| == DESC_NUM
        invariant TxTable(descNum, i, at, bufs, txDesc, txBuffer, txMem[..], txRam)
      {
        ghost var d, b, mem, ram := txDesc, txBuffer, txMem[..], txRam;
        var buffer := bufs[i];
        txDesc := txDesc[i := desc];
        txBuffer := txBuffer[i := buffer];
        txRam := txRam[VirtToPhys(buffer) := seq(BUF_SIZE, _ => 0)];
        txMem[i] := DmaDesc(if i == descNum - 1 then TX_DESC_END_OF_RING else 0, 0, 0, 0);
        TxTableNext(descNum, i, at, bufs, d, b, mem, ram, txRam[VirtToPhys(buffer)]);
        desc := desc + DESC_BYTES;
      }
    }

    method EthSetupRxDescQueue(descNum: nat, at: nat, bufs: seq<nat>)
      requires 1 <= descNum == |bufs| <= DESC_NUM && Allocated(Areas(at, bufs))
      requires |rxDesc| == |rxBuffer| == DESC_NUM
      modifies this`rxBusy, this`dmaRxCur, this`rxTable, this`rxMem, this`rxDesc, this`rxBuffer, this`rxRam
      ensures fresh(rxMem) && rxMem.Length == descNum && |rxDesc| == |rxBuffer| == DESC_NUM
      ensures rxBusy == 0 && rxTable == dmaRxCur == at
      ensures RxTable(descNum, descNum, at, bufs, rxDesc, rxBuffer, rxMem[..], rxRam)
    {
      hide RxTable, RxLengthWord;
      AllocatedPhys(at, bufs);
      var desc := at;
      rxMem := new DmaDesc[descNum];
      rxBusy := 0;
      rxTable, dmaRxCur := at, VirtToPhys(at);
      NoTable(descNum, at, bufs, rxDesc, rxBuffer, rxMem[..], rxRam);
      for i := 0 to descNum
        invariant desc == at + DESC_BYTES * i
        invariant rxBusy == 0 && rxTable == dmaRxCur == at
        invariant fresh(rxMem) && rxMem.Length == descNum && |rxDesc| == |rxBuffer| == DESC_NUM
        invariant RxTable(descNum, i, at, bufs, rxDesc, rxBuffer, rxMem[..], rxRam)
      {
        ghost var d, b, mem, ram := rxDesc, rxBuffer, rxMem[..], rxRam;
        var buffer := bufs[i];
        rxDesc := rxDesc[i := desc];
        rxBuffer := rxBuffer[i := buffer];
        rxRam := rxRam[VirtToPhys(buffer) := seq(BUF_SIZE, _ => 0)];
        rxMem[i] := DmaDesc(DESC_OWN_BY_DMA, RxLengthWord(i == descNum - 1), VirtToPhys(buffer), 0);
        RxTableNext(descNum, i, at, bufs, d, b, mem, ram, rxRam[VirtToPhys(buffer)]);
        desc := desc + DESC_BYTES;
      }
    }

    /** `eth_tx`: 0 when the frame was accepted, -1 when the ring was full. */
    method EthTx(p: TxRing.Packet) returns (rc: int)
      requires Valid() && p.Fits()
      modifies this`txNext, this`txRam, txMem
      ensures Valid() && SamePlaces()
      ensures Tx() == TxRing.EthTx(old(Tx()), p).0
      ensures rc == (if TxRing.EthTx(old(Tx()), p).1 == TxRing.Accepted then 0 else -1)
      ensures rc == 0 ==> TxRing.Publishes(old(Tx()).desc, Tx().desc, old(txNext), p.length, old(txBuffer)[old(txNext)])
      ensures Machine() == Interrupts.Step(old(Machine()), Interrupts.Submit(p))
      ensures old(InStep()) && TxAccounting.Polite(old(Tx()), TxRing.Submit(p)) ==> InStep()
    {
      hide Interrupts.TxInv, Interrupts.Step, TxAccounting.Polite, TxRing.Publishes, EngineOwns;
      hide Owned, IsLastTx, IsEmpty, Size1, NoSecondBuffer, WholeFrame, TxStatus, VirtToPhys, TxRing.TxState.Queue,
        TxRing.TxState.WellFormed, TxRing.EthTx, TxRing.Overlay, TxRing.PublishedDesc, RxWakeup.Inv;
      ghost var s := Tx();
      SubmitKeeps(Machine(), p);
      TxRing.EthTxPublishes(s, p);
      TxRing.SubmitRefines(s, p);
      TxRing.Bounds(s);
      TxRing.Lookup(s, s.next);
      TxRing.EthTxAt(s, p);
      var descIdx := txNext;
      var k := (txDesc[descIdx] - txTable) / DESC_BYTES;
      assert s.ptr[descIdx] == txDesc[descIdx] && s.desc[descIdx] == txMem[k];
      var isLast := IsLastTx(txMem[k]);
      if Owned(txMem[k]) {
        return -1;
      }
      var buffer := txBuffer[descIdx];
      var dmaAddr := VirtToPhys(buffer);
      assert s.buf[descIdx] == buffer;
      txRam := txRam[dmaAddr := TxRing.Overlay(p.data, txRam[dmaAddr])];
      txMem[k] := TxRing.PublishedDesc(txMem[k], p.length, dmaAddr);
      txNext := if isLast then 0 else descIdx + 1;
      assert Tx().desc == s.desc[descIdx := txMem[k]];
      rc := 0;
    }

    /** The DMA engine, when it owns the descriptor at its pointer: the frame goes out, the report is
        written back, and the completion interrupt is raised if the descriptor asks for it. */
    method TxComplete(report: bv32)
      requires Shaped() && Tx().WellFormed()
      modifies this`dmaTxCur, this`dmaStatus, txMem
      ensures Shaped() && SamePlaces()
      ensures Tx() == TxRing.DmaTx(old(Tx()), report).0 && Tx().WellFormed()
      ensures dmaStatus == Interrupts.StatusAfter(old(Tx()), old(dmaStatus), report)
      ensures Rx() == old(Rx())
    {
      hide Owned, IsLastTx, IsEmpty, Size1, NoSecondBuffer, WholeFrame, TxWriteBack, VirtToPhys, TxRing.TxState.WellFormed,
        RxWakeup.With, Interrupts.Asks;
      ghost var s := Tx();
      TxReclaim.DmaWellFormed(s, report);
      TxRing.Bounds(s);
      var i := (dmaTxCur - txTable) / DESC_BYTES;
      var d := txMem[i];
      if Owned(d) {
        txMem[i] := d.(status := TxWriteBack(d.status, report));
        dmaTxCur := if IsLastTx(d) then txTable else dmaTxCur + DESC_BYTES;
        if Interrupts.Asks(d.status) {
          dmaStatus := RxWakeup.With(dmaStatus, 0x1);
        }
        assert Tx().desc == s.desc[i := txMem[i]];
      }
    }

    /** The same while neither `eth_irq` nor `eth_rx` runs. */
    method DmaTransmit(report: bv32)
      requires Valid()
      modifies this`dmaTxCur, this`dmaStatus, txMem
      ensures Valid() && SamePlaces()
      ensures Machine() == Interrupts.Step(old(Machine()), Interrupts.Complete(report))
      ensures old(InStep()) ==> InStep()
    {
      hide TxRing.DmaTx, TxRing.TxState.Queue, TxRing.TxState.WellFormed, RxWakeup.Inv, Interrupts.TxInv, Interrupts.StatusAfter;
      CompleteKeeps(Machine(), report);
      TxComplete(report);
    }

    /** Any number of completions, while the handler reclaims. */
    method DmaTransmitBurst(reports: seq<bv32>, ghost seen: bv32)
      requires Shaped() && Tx().WellFormed()
      modifies this`dmaTxCur, this`dmaStatus, txMem
      ensures Shaped() && SamePlaces() && Tx().WellFormed()
      ensures At(RxWakeup.Notified(seen), true) == Interrupts.Burst(old(At(RxWakeup.Notified(seen), true)), reports)
    {
      hide TxRing.TxState.WellFormed, TxRing.DmaTx, Interrupts.StatusAfter;
      ghost var now := RxWakeup.Notified(seen);
      var k := 0;
      while k < |reports|
        invariant k <= |reports|
        invariant Shaped() && SamePlaces() && Tx().WellFormed()
        invariant Interrupts.Burst(At(now, true), reports[k..]) == Interrupts.Burst(old(At(now, true)), reports)
      {
        TxReclaim.DmaWellFormed(Tx(), reports[k]);
        assert reports[k..][1..] == reports[k + 1..];
        TxComplete(reports[k]);
        k := k + 1;
      }
    }

    method CountSent(d: DmaDesc)
      modifies this`txPackets, this`txErrors, this`txBytes
      ensures var ok := NoError(d.status);
              && txPackets == (if ok then old(txPackets) + 1 else old(txPackets))
              && txBytes == (if ok then old(txBytes) + Size1(d.length) else old(txBytes))
              && txErrors == (if ok then old(txErrors) else old(txErrors) + 1)
    {
      if NoError(d.status) {
        txBytes := txBytes + Size1(d.length);
        txPackets := txPackets + 1;
      } else {
        txErrors := txErrors + 1;
      }
    }

    /** One pass of the loop of `eth_handle_tx_over`; `more` unless it is the last. */
    method ReclaimPass() returns (more: bool)
      requires Shaped() && Tx().WellFormed()
      modifies this`txBusy, this`txPackets, this`txErrors, this`txBytes, txMem
      ensures Shaped() && SamePlaces()
      ensures Tx() == TxRing.ReclaimOne(old(Tx())).0
      ensures more == (TxRing.ReclaimOne(old(Tx())).1 == TxRing.Internal(true))
      ensures more ==> TxRing.Clears(old(Tx()).desc, Tx().desc, old(txBusy))
      ensures Rx() == old(Rx())
    {
      hide Owned, IsLastTx, IsEmpty, Size1, NoError, NoSecondBuffer, WholeFrame, TxRing.TxState.WellFormed,
        TxRing.ReclaimOne, VirtToPhys;
      hide TxRing.Clears, EngineOwns;
      ghost var s := Tx();
      TxRing.ReclaimClears(s);
      TxRing.ReclaimAt(s);
      TxRing.Bounds(s);
      TxRing.Lookup(s, s.busy);
      var descIdx := txBusy;
      var i := (txDesc[descIdx] - txTable) / DESC_BYTES;
      assert s.ptr[descIdx] == txDesc[descIdx];
      var d := txMem[i];
      assert s.desc[s.busy] == d;
      if Owned(d) || IsEmpty(d) {
        return false;
      }
      CountSent(d);
      var isLast := IsLastTx(d);
      txMem[i] := DmaDesc(if isLast then TX_DESC_END_OF_RING else 0, 0, 0, 0);
      txBusy := if isLast then 0 else descIdx + 1;
      assert Tx().desc == s.desc[s.busy := txMem[i]];
      return true;
    }

    /** `eth_handle_tx_over`, called by the handler, with a burst of DMA completions `env(k)` before its
        k-th pass. */
    method EthHandleTxOver(env: nat -> seq<bv32>, ghost seen: bv32)
      requires Shaped() && Tx().WellFormed()
      modifies this`txBusy, this`txPackets, this`txErrors, this`txBytes, this`dmaTxCur, this`dmaStatus, txMem
      ensures Shaped() && SamePlaces()
      ensures At(RxWakeup.Notified(seen), false) == Interrupts.Passes(old(At(RxWakeup.Notified(seen), true)), env, 0)
    {
      hide TxRing.TxState.WellFormed, TxReclaim.Held, Interrupts.Burst, Interrupts.Passes, TxRing.ReclaimOne;
      ghost var now := RxWakeup.Notified(seen);
      var k := 0;
      while true
        invariant Shaped() && SamePlaces() && Tx().WellFormed()
        invariant Interrupts.Passes(At(now, true), env, k) == Interrupts.Passes(old(At(now, true)), env, 0)
        decreases TxReclaim.Held(Tx().desc)
      {
        Interrupts.PassesUnfold(At(now, true), env, k);
        DmaTransmitBurst(env(k), seen);
        var more := ReclaimPass();
        if !more {
          break;
        }
        k := k + 1;
      }
    }

    /** The DMA engine's write into the descriptor at its pointer and into the buffer, if it owns them. */
    method RxFill(report: bv32, data: seq<byte>) returns (filled: bool)
      requires Shaped() && Rx().WellFormed()
      modifies this`dmaRxCur, this`rxRam, rxMem
      ensures Shaped() && SamePlaces()
      ensures Rx() == RxRing.DmaRx(old(Rx()), report, data).0
      ensures filled == (RxRing.DmaRx(old(Rx()), report, data).1 == RxRing.Filled)
      ensures Tx() == old(Tx())
    {
      hide Owned, IsLastRx, IsEmpty, IsRxValid, RxLength, RxLengthWord, VirtToPhys, RxWriteBack, TxRing.Overlay,
        RxRing.RxState.WellFormed;
      ghost var s := Rx();
      RxRing.Bounds(s);
      var i := (dmaRxCur - rxTable) / DESC_BYTES;
      var d := rxMem[i];
      assert s.desc[i] == d;
      filled := Owned(d);
      if filled {
        rxMem[i] := d.(status := RxWriteBack(report));
        rxRam := rxRam[d.buffer1 := TxRing.Overlay(data, rxRam[d.buffer1])];
        dmaRxCur := if IsLastRx(d) then rxTable else dmaRxCur + DESC_BYTES;
        assert Rx().desc == s.desc[i := rxMem[i]];
      }
    }

    /** The DMA engine receives, or finds no descriptor free, and says so in its status register. */
    method DmaReceive(report: bv32, data: seq<byte>)
      requires Valid() && RxRing.Possible(RxRing.Fill(report, data))
      modifies this`dmaRxCur, this`dmaStatus, this`rxRam, rxMem
      ensures Valid() && SamePlaces()
      ensures Machine() == Interrupts.Step(old(Machine()), Interrupts.Other(RxWakeup.Receive(report, data)))
      ensures old(InStep()) ==> InStep()
    {
      hide Interrupts.TxInv;
      hide RxRing.DmaRx, RxRing.RxState.WellFormed, RxRing.Possible, TxRing.TxState.Inv, RxWakeup.Inv, RxWakeup.StatusAfter;
      ReceiveKeeps(Machine(), report, data);
      var filled := RxFill(report, data);
      dmaStatus := RxWakeup.StatusAfter(dmaStatus, report, filled);
    }

    /** A received descriptor is counted, and the frame of a good one handed over. The operating
        system's `eth_handle_rx_buffer` gives `handle(buffer, frame)` back for it. */
    method HandOver(d: DmaDesc, handle: (nat, seq<byte>) -> nat) returns (pbuf: nat)
      modifies this`rxPackets, this`rxErrors, this`rxBytes
      ensures var ok, buffer, length := IsRxValid(d.status), PhysToVirt(d.buffer1), RxLength(d.status);
              && rxPackets == (if ok then old(rxPackets) + 1 else old(rxPackets))
              && rxBytes == (if ok then old(rxBytes) + length else old(rxBytes))
              && rxErrors == (if ok then old(rxErrors) else old(rxErrors) + 1)
              && pbuf == if ok then handle(buffer, TxRing.Fetch(rxRam, VirtToPhys(buffer), length)) else 0
    {
      hide RxLength, TxRing.Fetch, VirtToPhys;
      pbuf := 0;
      if IsRxValid(d.status) {
        var length := RxLength(d.status);
        var buffer := PhysToVirt(d.buffer1);
        pbuf := handle(buffer, TxRing.Fetch(rxRam, VirtToPhys(buffer), length));
        rxBytes := rxBytes + length;
        rxPackets := rxPackets + 1;
      } else {
        rxErrors := rxErrors + 1;
      }
    }

    /** `eth_rx` as far as the ring goes. */
    method RxTake(handle: (nat, seq<byte>) -> nat) returns (pbuf: nat, taken: bool)
      requires Shaped() && Rx().WellFormed()
      modifies this`rxBusy, this`rxPackets, this`rxErrors, this`rxBytes, rxMem
      ensures Shaped() && SamePlaces()
      ensures Rx() == RxRing.EthRx(old(Rx())).0
      ensures var out := RxRing.EthRx(old(Rx())).1;
              && taken == out.Taken? && (!taken ==> out == RxRing.Nothing)
              && pbuf == RxWakeup.Result(out, handle)
              && (taken ==> RxRing.Returns(old(Rx()).desc, Rx().desc, old(rxBusy)))
      ensures Tx() == old(Tx())
    {
      hide Owned, IsLastRx, IsEmpty, IsRxValid, RxLength, RxLengthWord, VirtToPhys, TxRing.Fetch,
        RxRing.RxState.WellFormed, RxRing.EthRx;
      hide RxRing.Returns, EngineOwns;
      ghost var s := Rx();
      RxRing.EthRxReturns(s);
      RxRing.Lookup(s);
      RxRing.EthRxAt(s);
      var descIdx := rxBusy;
      var i := (rxDesc[descIdx] - rxTable) / DESC_BYTES;
      assert s.ptr[descIdx] == rxDesc[descIdx];
      var d := rxMem[i];
      assert s.desc[i] == d;
      var isLast := IsLastRx(d);
      if IsEmpty(d) || Owned(d) {
        return 0, false;
      }
      var dmaAddr := d.buffer1;
      pbuf := HandOver(d, handle);
      rxMem[i] := DmaDesc(DESC_OWN_BY_DMA, RxLengthWord(isLast), dmaAddr, 0);
      rxBusy := if isLast then 0 else descIdx + 1;
      assert Rx().desc == s.desc[i := rxMem[i]];
      taken := true;
    }

    /** `eth_rx` as a step of the machine: with nothing to take it enables the interrupts. */
    method RxOrUnmask(handle: (nat, seq<byte>) -> nat) returns (pbuf: nat)
      requires Shaped() && Rx().WellFormed()
      modifies this`rxBusy, this`rxPackets, this`rxErrors, this`rxBytes, this`dmaInterrupt, this`rxReady, rxMem
      ensures Shaped() && SamePlaces()
      ensures Machine() == LookThenUnmask(old(Machine()))
      ensures pbuf == RxWakeup.Result(RxRing.EthRx(old(Rx())).1, handle)
    {
      hide RxRing.EthRx, RxRing.RxState.WellFormed, RxWakeup.Result;
      TakesNothing(Rx());
      var taken;
      pbuf, taken := RxTake(handle);
      if !taken {
        rxReady := false;
        dmaInterrupt := RxWakeup.DMA_INT_ENABLE;
      }
    }

    /** `eth_rx`. It returns 0 exactly when nothing waits, the oldest descriptor is bad, or the operating
        system gives 0 for its frame; it enables the interrupts exactly when nothing waits. */
    method EthRx(handle: (nat, seq<byte>) -> nat) returns (pbuf: nat)
      requires Valid()
      modifies this`rxBusy, this`rxPackets, this`rxErrors, this`rxBytes, this`dmaInterrupt, this`rxReady, rxMem
      ensures Valid() && SamePlaces()
      ensures Machine() == LookThenUnmask(old(Machine()))
      ensures old(InStep()) ==> InStep()
      ensures pbuf == RxWakeup.Result(RxRing.EthRx(old(Rx())).1, handle)
      ensures |old(Rx()).buf| > old(rxBusy) && old(Rx()).Inv()
      ensures var q := old(Rx()).Pending();
              && (pbuf == 0 <==>
                   q == [] || !IsRxValid(q[0].status) || handle(old(Rx()).buf[old(rxBusy)], q[0].data) == 0)
              && (q == [] ==> dmaInterrupt == 0x0001A1F7 && !rxReady)
              && (q != [] ==> dmaInterrupt == old(dmaInterrupt) && rxReady == old(rxReady) && Rx().Pending() == q[1..])
    {
      hide RxRing.EthRx, RxRing.RxState.WellFormed, RxRing.RxState.Queue, RxRing.RxState.Pending, TxRing.TxState.Inv,
        RxWakeup.Inv, RxWakeup.Result, Interrupts.TxInv, IsRxValid, LookThenUnmask;
      ResultMeans(Machine(), handle);
      RxKeeps(Machine());
      LookedParts(Machine());
      pbuf := RxOrUnmask(handle);
    }

    /** The receive interrupts of `eth_irq`: those seen, and no other, are left masked; the operating
        system is told exactly when one is. */
    method ReceiveInterrupts(seen: bv32) returns (enable: bv32)
      modifies this`rxReady
      ensures enable == RxWakeup.IrqMask(seen) && RxWakeup.MaskOk(enable)
      ensures enable == 0x0001A1F7 & !(seen & 0xC0)
      ensures rxReady == (old(rxReady) || seen & 0xC0 != 0)
      ensures old(Shaped()) ==> Shaped() && Tx() == old(Tx()) && Rx() == old(Rx())
    {
      RxWakeup.IrqMaskBits(seen);
      RxWakeup.RegisterLayout(seen);
      enable := RxWakeup.DMA_INT_ENABLE;
      if seen & RxWakeup.DMA_INT_RX_NO_BUFFER != 0 {
        enable := enable & !RxWakeup.DMA_INT_RX_NO_BUFFER;
        rxReady := true;
      }
      if seen & RxWakeup.DMA_INT_RX_COMPLETED != 0 {
        enable := enable & !RxWakeup.DMA_INT_RX_COMPLETED;
        rxReady := true;
      }
    }

    /** `eth_irq` masks everything and clears the status bits it has read. */
    method Acknowledge(seen: bv32, first: bv32)
      requires Shaped() && seen == dmaStatus
      modifies this`dmaStatus, this`dmaInterrupt
      ensures dmaStatus == RxWakeup.Without(RxWakeup.With(seen, first), seen) && dmaInterrupt == 0
      ensures Shaped() && Tx() == old(Tx()) && Rx() == old(Rx())
    {
      hide RxWakeup.With, RxWakeup.Without;
      dmaInterrupt := 0;
      dmaStatus := RxWakeup.With(dmaStatus, first);
      dmaStatus := RxWakeup.Without(dmaStatus, seen);
    }

    /** `eth_irq` up to the reclaim loop, once it has read a status that is not 0. */
    method OpenHandler(seen: bv32, first: bv32) returns (enable: bv32)
      requires Shaped() && seen == dmaStatus != 0
      modifies this`dmaStatus, this`dmaInterrupt, this`rxReady
      ensures Shaped()
      ensures enable == RxWakeup.IrqMask(seen)
      ensures At(RxWakeup.Notified(seen), RxWakeup.TxDone(seen)) == Interrupts.Opened(old(Machine()), first)
    {
      hide RxWakeup.With, RxWakeup.Without, RxWakeup.IrqMask, RxWakeup.HasRx, RxWakeup.TxDone, RxWakeup.MaskOk,
        RxWakeup.MaskedFor;
      Interrupts.OpenedPhase(Machine(), first);
      RxWakeup.IrqMaskBits(seen);
      RxWakeup.RegisterLayout(seen);
      Acknowledge(seen, first);
      enable := ReceiveInterrupts(seen);
    }

    /** `eth_irq` once it has read a status that is not 0. The hardware raises `first` between that
        read and its acknowledgement, and completes frames while it reclaims. */
    method HandleStatus(seen: bv32, first: bv32, env: nat -> seq<bv32>)
      requires Shaped() && Tx().WellFormed() && seen == dmaStatus != 0
      modifies this`dmaStatus, this`dmaInterrupt, this`rxReady,
               this`txBusy, this`txPackets, this`txErrors, this`txBytes, this`dmaTxCur, txMem
      ensures Shaped() && SamePlaces()
      ensures Machine() == Interrupts.Handled(old(Machine()), first, env)
    {
      hide RxWakeup.IrqMask, RxWakeup.TxDone, TxRing.TxState.WellFormed, Interrupts.Passes, Interrupts.Opened;
      ghost var o := Interrupts.Opened(Machine(), first);
      OpenedAt(Machine(), first);
      if o.looping { Interrupts.PassesAre(o, env, 0); }
      var enable := OpenHandler(seen, first);
      if RxWakeup.TxDone(seen) {
        EthHandleTxOver(env, seen);
      }
      dmaInterrupt := enable;
    }

    /** `eth_irq`: a run of the handler. */
    method EthIrq(first: bv32, env: nat -> seq<bv32>)
      requires Valid()
      modifies this`dmaStatus, this`dmaInterrupt, this`rxReady,
               this`txBusy, this`txPackets, this`txErrors, this`txBytes, this`dmaTxCur, txMem
      ensures Valid() && SamePlaces()
      ensures Machine() == Interrupts.Handled(old(Machine()), first, env)
      ensures Tx() == if old(dmaStatus) & 0x1 != 0 then TxReclaim.TxOver(old(Tx()), env, 0) else old(Tx())
      ensures old(dmaStatus) != 0 ==> dmaInterrupt == 0x0001A1F7 & !(old(dmaStatus) & 0xC0)
      ensures rxReady == (old(rxReady) || old(dmaStatus) & 0xC0 != 0)
      ensures old(InStep()) ==> InStep()
    {
      hide RxWakeup.Inv, RxWakeup.With, RxWakeup.Without, RxWakeup.IrqMask, RxWakeup.HasRx, RxWakeup.TxDone,
        RxRing.RxState.Inv, TxRing.TxState.Queue, TxRing.TxState.WellFormed, TxReclaim.TxOver, Interrupts.TxInv,
        Interrupts.Handled;
      HandledKeeps(Machine(), first, env);
      RxWakeup.RegisterLayout(dmaStatus);
      TxReclaim.TxOverStops(Tx(), env, 0);
      Interrupts.HandledIs(Machine(), first, env);
      NothingDone(Machine(), first, env);
      var seen := dmaStatus;
      if seen != 0 {
        HandleStatus(seen, first, env);
      }
    }
  }

  lemma OpenedAt(d: Interrupts.Device, first: bv32)
    requires d.w.phase == RxWakeup.Outside && d.w.status != 0
    ensures var o := Interrupts.Opened(d, first);
            o.tx == d.tx && o.looping == RxWakeup.TxDone(d.w.status) && o.w.phase == RxWakeup.Notified(d.w.status)
  {
    hide RxWakeup.With, RxWakeup.Without, RxWakeup.HasRx, RxWakeup.TxDone;
    Interrupts.OpenedPhase(d, first);
  }

  lemma NothingDone(d: Interrupts.Device, first: bv32, env: nat -> seq<bv32>)
    requires d.tx.WellFormed() && d.w.phase == RxWakeup.Outside
    ensures !RxWakeup.TxDone(0) && (d.w.status == 0 ==> Interrupts.Handled(d, first, env) == d)
  {
    hide TxRing.TxState.WellFormed;
  }

  /** `eth_rx`, with nothing between its look and its unmasking. */
  function LookThenUnmask(d: Interrupts.Device): Interrupts.Device
    requires d.w.rx.WellFormed()
  {
    d.(w := RxWakeup.Unmasked(RxWakeup.Looked(d.w)))
  }

  /** Those are two steps. */
  lemma LookThenUnmaskSteps(d: Interrupts.Device)
    requires d.WellFormed() && Interrupts.Step(d, Interrupts.Other(RxWakeup.RxLook)).WellFormed()
    ensures LookThenUnmask(d) ==
            Interrupts.Step(Interrupts.Step(d, Interrupts.Other(RxWakeup.RxLook)), Interrupts.Other(RxWakeup.RxUnmask))
  {
    hide RxWakeup.Looked, RxWakeup.Unmasked, TxRing.TxState.WellFormed, RxRing.RxState.WellFormed;
  }

  // ---- what each call keeps ----

  ghost predicate Sound(d: Interrupts.Device) {
    d.tx.Inv() && RxWakeup.Inv(d.w)
  }

  lemma SoundShape(d: Interrupts.Device)
    requires Sound(d)
    ensures d.WellFormed() && d.tx.WellFormed() && d.w.rx.WellFormed()
  {
    RxWakeup.InvShape(d.w);
  }

  lemma SubmitKeeps(d: Interrupts.Device, p: TxRing.Packet)
    requires Sound(d) && p.Fits()
    ensures d.WellFormed() && d.tx.WellFormed()
    ensures Interrupts.TxInv(d) && TxAccounting.Polite(d.tx, TxRing.Submit(p)) ==>
              Interrupts.TxInv(Interrupts.Step(d, Interrupts.Submit(p)))
    ensures Interrupts.Step(d, Interrupts.Submit(p)) == d.(tx := TxRing.EthTx(d.tx, p).0)
  {
    hide Interrupts.TxInv, TxAccounting.Polite, TxRing.EthTx, TxRing.TxState.WellFormed, RxRing.RxState.WellFormed, Sound;
    SoundShape(d);
    if Interrupts.TxInv(d) && TxAccounting.Polite(d.tx, TxRing.Submit(p)) { Interrupts.SubmitKeeps(d, p); }
  }

  lemma CompleteKeeps(d: Interrupts.Device, report: bv32)
    requires Sound(d)
    ensures d.WellFormed() && Sound(Interrupts.Step(d, Interrupts.Complete(report)))
    ensures Interrupts.TxInv(d) ==> Interrupts.TxInv(Interrupts.Step(d, Interrupts.Complete(report)))
  {
    hide Interrupts.TxInv, TxRing.DmaTx, TxRing.TxState.WellFormed, TxRing.TxState.Queue, RxRing.RxState.WellFormed,
      RxWakeup.Inv, RxWakeup.With, Interrupts.Asks;
    SoundShape(d);
    TxRing.CompleteRefines(d.tx, report);
    Interrupts.RaiseKeeps(d.w, 0x1);
    assert d.w.(status := d.w.status) == d.w;
    if Interrupts.TxInv(d) { Interrupts.CompleteKeeps(d, report); }
  }

  lemma ReceiveKeeps(d: Interrupts.Device, report: bv32, data: seq<byte>)
    requires Sound(d) && RxRing.Possible(RxRing.Fill(report, data))
    ensures d.WellFormed() && d.w.rx.WellFormed()
    ensures var w' := RxWakeup.Received(d.w, report, data);
            && RxWakeup.Inv(w')
            && Interrupts.Step(d, Interrupts.Other(RxWakeup.Receive(report, data))) == d.(w := w')
            && (Interrupts.TxInv(d) ==> Interrupts.TxInv(d.(w := w')))
  {
    hide Interrupts.TxInv, RxWakeup.Inv, RxWakeup.Received, RxRing.Possible, TxRing.TxState.WellFormed, RxRing.RxState.WellFormed, Sound;
    SoundShape(d);
    SoundWake(d);
    RxWakeup.ReceiveKeeps(d.w, report, data);
    if Interrupts.TxInv(d) { Interrupts.OtherKeeps(d, RxWakeup.Receive(report, data)); }
  }

  lemma SoundMachine(d: Interrupts.Device)
    requires Sound(d)
    ensures Interrupts.Sound(d)
  {
    RxWakeup.InvShape(d.w);
  }

  lemma SoundWake(d: Interrupts.Device)
    requires Sound(d)
    ensures RxWakeup.Inv(d.w)
  {
  }

  lemma RxKeeps(d: Interrupts.Device)
    requires Sound(d) && d.w.phase == RxWakeup.Outside
    ensures d.WellFormed() && d.w.rx.WellFormed() && RxWakeup.Inv(LookThenUnmask(d).w)
    ensures Interrupts.TxInv(d) ==> Interrupts.TxInv(LookThenUnmask(d))
  {
    hide Interrupts.TxInv, RxWakeup.Inv, RxWakeup.Looked, RxWakeup.Unmasked, TxRing.TxState.WellFormed, RxRing.RxState.WellFormed, Sound;
    SoundShape(d);
    SoundWake(d);
    LookPhase(d.w);
    RxWakeup.LookKeeps(d.w);
    var d1 := d.(w := RxWakeup.Looked(d.w));
    RxWakeup.InvShape(d1.w);
    RxWakeup.IrqKeeps(d1.w, RxWakeup.RxUnmask);
    if Interrupts.TxInv(d) {
      Interrupts.OtherKeeps(d, RxWakeup.RxLook);
      Interrupts.OtherKeeps(d1, RxWakeup.RxUnmask);
    }
  }

  lemma LookedParts(d: Interrupts.Device)
    requires d.w.rx.WellFormed()
    ensures var d' := LookThenUnmask(d); d'.tx == d.tx && d'.looping == d.looping && d'.w.phase == d.w.phase
  {
    hide RxRing.EthRx, RxRing.RxState.WellFormed;
  }

  lemma ResultMeans(d: Interrupts.Device, handle: (nat, seq<byte>) -> nat)
    requires RxWakeup.Inv(d.w) && !d.w.unmask
    ensures d.w.rx.Inv() && d.w.rx.WellFormed() && d.w.rx.busy < |d.w.rx.buf|
    ensures var q, w' := d.w.rx.Pending(), LookThenUnmask(d).w;
            && (RxWakeup.Result(RxRing.EthRx(d.w.rx).1, handle) == 0 <==>
                 q == [] || !IsRxValid(q[0].status) || handle(d.w.rx.buf[d.w.rx.busy], q[0].data) == 0)
            && (q == [] ==> w'.mask == 0x0001A1F7 && !w'.ready)
            && (q != [] ==> w'.mask == d.w.mask && w'.ready == d.w.ready && w'.rx.Inv() && w'.rx.Pending() == q[1..])
  {
    hide RxRing.EthRx, RxRing.RxState.WellFormed, RxRing.RxState.Queue, RxRing.RxState.Pending, RxWakeup.Inv, RxWakeup.Result,
      IsRxValid;
    RxWakeup.ZeroMeans(d.w, handle);
  }

  lemma LookPhase(w: RxWakeup.Wake)
    requires w.rx.WellFormed() && w.phase == RxWakeup.Outside
    ensures !RxWakeup.Overtakes(RxWakeup.Looked(w), RxWakeup.RxUnmask)
  {
    hide RxRing.EthRx, RxRing.RxState.WellFormed;
  }

  lemma HandledKeeps(d: Interrupts.Device, first: bv32, env: nat -> seq<bv32>)
    requires Sound(d) && d.w.phase == RxWakeup.Outside && !d.looping
    ensures d.tx.WellFormed() && RxWakeup.Inv(Interrupts.Handled(d, first, env).w)
    ensures Interrupts.TxInv(d) ==> Interrupts.TxInv(Interrupts.Handled(d, first, env))
  {
    hide Interrupts.TxInv, RxWakeup.Inv, Interrupts.Handled, TxRing.TxState.WellFormed, RxRing.RxState.WellFormed, Sound;
    SoundShape(d);
    SoundWake(d);
    SoundMachine(d);
    Interrupts.HandledKeeps(d, first, env);
  }

  // ---- the tables during the set-up ----

  /** The first `n` of `total` transmit descriptors are set up. */
  ghost predicate TxTable(total: nat, n: nat, at: nat, bufs: seq<nat>, ptr: seq<nat>, buf: seq<nat>, mem: seq<DmaDesc>,
                          ram: map<nat, seq<byte>>) {
    && n <= total == |bufs| == |mem| <= |ptr| == |buf|
    && forall k | 0 <= k < n ::
         && ptr[k] == at + 16 * k && buf[k] == bufs[k]
         && mem[k] == DmaDesc(if k == total - 1 then 0x00200000 else 0, 0, 0, 0)
         && VirtToPhys(bufs[k]) in ram && |ram[VirtToPhys(bufs[k])]| == 2048
  }

  /** The first `n` of `total` receive descriptors are set up. */
  ghost predicate RxTable(total: nat, n: nat, at: nat, bufs: seq<nat>, ptr: seq<nat>, buf: seq<nat>, mem: seq<DmaDesc>,
                          ram: map<nat, seq<byte>>) {
    && n <= total == |bufs| == |mem| <= |ptr| == |buf|
    && forall k | 0 <= k < n ::
         && ptr[k] == at + 16 * k && buf[k] == bufs[k]
         && mem[k] == DmaDesc(0x80000000, if k == total - 1 then 0x00008800 else 0x00000800, VirtToPhys(bufs[k]), 0)
         && VirtToPhys(bufs[k]) in ram && |ram[VirtToPhys(bufs[k])]| == 2048
  }

  lemma NoTable(total: nat, at: nat, bufs: seq<nat>, ptr: seq<nat>, buf: seq<nat>, mem: seq<DmaDesc>, ram: map<nat, seq<byte>>)
    requires total == |bufs| == |mem| <= |ptr| == |buf|
    ensures TxTable(total, 0, at, bufs, ptr, buf, mem, ram) && RxTable(total, 0, at, bufs, ptr, buf, mem, ram)
  {
  }

  lemma TxTableNext(total: nat, n: nat, at: nat, bufs: seq<nat>, ptr: seq<nat>, buf: seq<nat>, mem: seq<DmaDesc>,
                    ram: map<nat, seq<byte>>, content: seq<byte>)
    requires TxTable(total, n, at, bufs, ptr, buf, mem, ram) && n < total && |content| == BUF_SIZE
    ensures TxTable(total, n + 1, at, bufs, ptr[n := at + DESC_BYTES * n], buf[n := bufs[n]],
                    mem[n := DmaDesc(if n == total - 1 then TX_DESC_END_OF_RING else 0, 0, 0, 0)],
                    ram[VirtToPhys(bufs[n]) := content])
  {
    hide VirtToPhys;
  }

  lemma RxTableNext(total: nat, n: nat, at: nat, bufs: seq<nat>, ptr: seq<nat>, buf: seq<nat>, mem: seq<DmaDesc>,
                    ram: map<nat, seq<byte>>, content: seq<byte>)
    requires RxTable(total, n, at, bufs, ptr, buf, mem, ram) && n < total && |content| == BUF_SIZE
    ensures RxTable(total, n + 1, at, bufs, ptr[n := at + DESC_BYTES * n], buf[n := bufs[n]],
                    mem[n := DmaDesc(DESC_OWN_BY_DMA, RxLengthWord(n == total - 1), VirtToPhys(bufs[n]), 0)],
                    ram[VirtToPhys(bufs[n]) := content])
  {
    RxWords(true);
    RxWords(false);
    hide VirtToPhys, RxLengthWord;
  }

  lemma TxTableFresh(total: nat, at: nat, bufs: seq<nat>, s: TxRing.TxState, ptr: seq<nat>, buf: seq<nat>)
    requires Allocated(Areas(at, bufs)) && total >= 1 && |ptr| >= total && |buf| >= total
    requires TxTable(total, total, at, bufs, ptr, buf, s.desc, s.ram)
    requires s.ptr == ptr[..total] && s.buf == buf[..total] && s.base == at && s.cur == at
    requires s.busy == s.next == 0 && s.packets == s.errors == s.bytes == 0
    ensures TxRing.Fresh(s)
  {
    AllocatedPhys(at, bufs);
    hide VirtToPhys, TxRing.Fresh;
    TxRing.FreshShape(s);
  }

  lemma RxTableFresh(total: nat, at: nat, bufs: seq<nat>, s: RxRing.RxState, ptr: seq<nat>, buf: seq<nat>)
    requires Allocated(Areas(at, bufs)) && total >= 1 && |ptr| >= total && |buf| >= total
    requires RxTable(total, total, at, bufs, ptr, buf, s.desc, s.ram)
    requires s.ptr == ptr[..total] && s.buf == buf[..total] && s.base == at && s.cur == at
    requires s.busy == 0 && s.packets == s.errors == s.bytes == 0
    ensures RxRing.Fresh(s)
  {
    AllocatedPhys(at, bufs);
    RxWords(true);
    RxWords(false);
    hide VirtToPhys, RxRing.Fresh, RxLengthWord;
    RxRing.FreshShape(s);
  }

  lemma AllocatedPhys(at: nat, bufs: seq<nat>)
    requires Allocated(Areas(at, bufs)) && bufs != []
    ensures VirtToPhys(at) == at
    ensures forall i | 0 <= i < |bufs| :: VirtToPhys(bufs[i]) == bufs[i]
    ensures forall i, j | 0 <= i < j < |bufs| :: bufs[i] != bufs[j]
  {
    var areas := Areas(at, bufs);
    assert areas[0].at == at;
    assert forall i | 0 <= i < |bufs| :: bufs[i] == areas[i + 1].at && areas[i + 1].size == BUF_SIZE;
  }

  lemma AllocatedBoth(a: seq<Area>, b: seq<Area>)
    requires Allocated(a + b)
    ensures Allocated(a) && Allocated(b)
  {
    assert forall i | 0 <= i < |a| :: (a + b)[i] == a[i];
    assert forall i | 0 <= i < |b| :: (a + b)[|a| + i] == b[i];
  }

  lemma TakesNothing(s: RxRing.RxState)
    requires s.WellFormed()
    ensures RxRing.EthRx(s).1 == RxRing.Nothing ==> RxRing.EthRx(s).0 == s
  {
    hide RxRing.RxState.WellFormed;
    RxRing.EthRxAt(s);
  }
}
