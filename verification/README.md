# Descriptor rings of the GMAC driver and the AHCI transfer path

Two drivers, each running against a piece of hardware that shares memory with it, and each proved to
refine something much simpler.

**GMAC (`gmac/`).** `eth_tx`, `eth_rx`, `eth_handle_tx_over` and `eth_irq` share two rings of N
descriptors with a DMA engine that runs at the same time.

* The transmit ring is a bounded FIFO queue in every interleaving, whenever reclaim runs. The frames on
  the wire are the frames `eth_tx` accepted, in order and unaltered.
* Reclaim is another matter. `eth_tx` tests the OWN bit only, so it overwrites a slot whose frame was
  sent but not reclaimed yet. A conservation law names the loss in every run, the statistics account
  for every frame if and only if that never happened and no frame was empty, and for every ring size,
  the driver's 128 included, a run in which it does happen is given.
  While it does not happen, frames sent and not reclaimed form a second FIFO queue in the same slots.
  A call of `eth_tx` is called polite when the slot it finds is not such a one and its frame is not
  empty.
* The reclaim loop ends although the DMA engine goes on completing frames between its passes, and then
  has caught up with it.
* The receive ring is a bounded FIFO queue the other way round, with exact statistics in every run.
* Both rings, the interrupt mask, the status register and the handler make one machine, with `eth_irq`
  and the nothing-available path of `eth_rx` cut into steps that anything may come between. It loses no
  reclaim while calls of `eth_tx` are polite, and no receive wake-up while `eth_rx_ready` is deferred: no
  `eth_rx` that finds nothing unmasks the interrupts between the notification of a running handler and
  the mask write at its end. That is exactly the step that breaks the invariant, and an operating system
  that drains the ring inside `eth_rx_ready` takes it: a run of it loses a frame's wake-up. Calls of the
  device class, which do not overlap, never do.
* Every method of the device class is a step or a run of that machine.
* A result 0 of `eth_rx` is not always "drained"; in exactly which cases it comes is proved too.

**AHCI (`ahci/`).** A read or write request is cut into commands; a command becomes a FIS, a
scatter-gather table and a header in memory; the command is issued and waited for. Against a controller
that decodes those bytes and a disk with a write-back cache, the whole stack is one flat copy between
disk and buffer, in both addressing modes, for every sector count below 2^32. What a request does that does
not lie on the disk, or wraps at the address width, is stated exactly as well. Writes are durable exactly
when the cache is off, or when the identify words report it on together with the flush command of the
addressing mode in use.

## How it is built

| file | what is in it |
|---|---|
| `Ring.dfy` | a ring of slots and the FIFO queue it holds; full and empty told apart by the slot itself; runs of a bounded FIFO queue |
| `EthDesc.dfy` | the four-word descriptor, its bits and what each writer does to them |
| `TxRing.dfy`, `TxAccounting.dfy`, `TxReclaim.dfy` | the transmit ring: FIFO, statistics, the reclaim loop |
| `RxRing.dfy`, `RxWakeup.dfy` | the receive ring: FIFO and statistics, the receive interrupts |
| `Interrupts.dfy` | the whole device as one machine: both rings, mask, status, handler |
| `NetDevice.dfy` | `struct net_device` as a class whose methods change descriptors in place, each proved to be a step or a run of that machine |
| `Memory.dfy`, `Bits.dfy` | byte memory with little-endian words, OR and find-first-set |
| `Fis.dfy`, `CommandTable.dfy`, `Hba.dfy`, `Disk.dfy` | the command bytes, and the controller and disk that read them |
| `Identify.dfy`, `Requests.dfy` | identify words and cache flags; a request as its commands, and what it amounts to |
| `AhciDevice.dfy` | `struct ahci_device` as a class that writes memory byte by byte and issues commands |
| `AtaString.dfy` | the identify strings, by the C forward scan and by the Rust reverse scan |

The C and the Rust drivers do the same to descriptors and memory (the Rust one copies a descriptor out,
changes it and writes it back), so one model serves both; only the string decoders differ and are
modelled apart. The ring size is any N >= 1 in the ring lemmas and 1 to 128 in `NetDevice`.

What the hardware reads and writes is stated in numbers, apart from the driver's constants: the words of a
descriptor, the interrupt bits, the command bytes, the header and PRDT fields, the identify words. The
lemmas that tie the driver's constants to them (`EthDesc.StatusLayout`, `EthDesc.LengthLayout`,
`EthDesc.ReadsReport`, `RxWakeup.RegisterLayout`, `Fis.Decode28`, `Fis.Decode48`, `Fis.DecodeFlush`,
`CommandTable.OptsFields`, `Identify.ReadsFeatures`) fail when one of them is off by a bit.

## What is assumed of the environment

* The DMA engine touches only a descriptor that it owns, at its own pointer; it writes the status word
  alone, clears OWN, keeps the transmit end-of-ring bit, and steps by 16 bytes or wraps where that bit
  says. A report of a whole good frame gives the length of what was written, at most 2048 bytes.
* Handing a descriptor over is one step.
* `eth_virt_to_phys` and `eth_phys_to_virt` are those of gmac/rust/src/platform.rs: an address is cut
  to 32 bits. The allocator gives memory below 4 GiB, and none of it twice: descriptor tables and
  2048-byte buffers do not overlap.
* `eth_handle_tx_buffer` copies at most 2048 bytes and returns their number; `eth_handle_rx_buffer` is
  any function of the buffer and its content.
* `eth_irq` is not entered again while it runs. `eth_rx`, in the results on wake-ups, does not unmask after
  the notification of a handler that is still running (`RxWakeup.Overtakes`); all else may overlap it.
* A status bit is cleared by writing 1 to it. A completed descriptor that ends a frame sets
  DmaIntRxCompleted, a sent frame whose descriptor asks for it sets DmaIntTxCompleted; the hardware may
  set any other bit at any time. A normal interrupt (bits 0, 2, 6) is delivered when it is pending and
  enabled and bit 16 of the mask is set, an abnormal one (bits 1, 4, 5, 7, 8, 13) with bit 15.
* For AHCI, virtual to physical is linear; memory has an even size; the caller's buffer lies in memory
  and outside the block the driver allocated for itself.
* The controller reads the layouts of AHCI 1.1, sections 4.2.2 (command header), 4.2.3 (command table and
  PRDT) and 3.3.14 (PxCI). Bit 0 of a data address in the PRDT is reserved and taken as 0, bit 0 of a byte
  count is taken as 1. A header with any of the bits for ATAPI, prefetching, reset, self-test or port
  multipliers is not executed as a plain command. The slots set in PxCI are served lowest first.
* After any finite number of reads of PxCI the controller has finished the command and cleared its bit,
  also when the disk aborted it. For an aborted command that is an assumption of this model, not the
  standard's: a controller may leave the bit set on a task-file error until software restarts the port,
  which this driver does not do, and its wait (ahci/c/drv_ahci.c:397) then never ends. No command of a
  request that does not wrap is aborted exactly when it asks for at least one sector and lies on the disk
  (`Requests.NoneAbortedIff`), so the results for such requests do not rest on it. A request for no sectors
  still issues one command, which is aborted; that the loops then end and return 0 does rest on it.
* The disk follows clause 7 of ATA8-ACS on commands, addresses and sector counts; it takes a command only
  with every field it does not use 0, and has each of the two flush commands or not. It aborts a flush
  command it does not have. For durability it has those it reports. It aborts a transfer beyond its end, and one of
  more sectors than the PRDT has bytes for; of a longer PRDT it uses the front. It may write any cached
  sectors back at any write command.

## What turned out not to hold

* `eth_tx` overwrites a sent, unreclaimed slot: exactly when in `TxAccounting.FramesExactIff` and
  `TxAccounting.OverwriteStalls`, a run for every ring size in `TxAccounting.OverwriteRun`.
* A wake-up is lost when `eth_rx` finds nothing and unmasks between `eth_rx_ready` and the mask write of
  `eth_irq`: `RxWakeup.LostWakeup`. Exactly that step breaks the invariant (`RxWakeup.StepKeepsIff`), and
  the handler's last step is safe exactly when the operating system is still told, or about to unmask, or
  no receive bit was seen (`RxWakeup.ExitExact`).
* A result 0 of `eth_rx` stands for nothing waiting, for a bad frame, or for a good frame for which the
  operating system gave 0: exactly those in `RxWakeup.ZeroMeans` and `NetDevice.NetDevice.EthRx`. Only in
  the first case interrupts are unmasked; runs in which a good frame is left waiting in the other two:
  `RxWakeup.BadNotDrained`, `RxWakeup.RefusedNotDrained`.
* The command header is where the controller looks for it only for slot 0:
  `CommandTable.HeaderOnlyForSlotZero`. Between calls PxCI is 0, so slot 0 is the only one used. With
  others set, the slot chosen need not be free: `AhciDevice.BusySlotExample`.
* A command with sector count 0 would be read as 256 or 65536 sectors: `Fis.Exact28`, `Fis.Exact48`.
* A read or write returns the number of sectors asked for whatever was transferred. Transferred are the
  sectors of those commands that lie on the disk as a whole, all of them exactly when the request does:
  `Disk.ReadOutcome`, `Disk.WriteOutcome`, with an input in `Requests.StraddleExample`.
* A request acts on its address modulo 2^28 or 2^48, and goes on from the bottom when it passes that
  width: `Requests.RequestWraps`; a write to sector 2^28 in 28-bit mode goes to sector 0:
  `Requests.WrapExample`.
* A transfer is on the caller's buffer exactly when that has an even physical address
  (`AhciDevice.AhciDevice.AlignedIff`). A read into an odd one leaves each byte of the buffer with the byte
  that belongs after it, and the last unwritten: `AhciDevice.AhciDevice.AhciSataReadCommon`.
* "The highest UDMA mode" is asked for exactly when mode 0 is supported, the supported modes have no gap,
  and the bit above all eight is not set as well: `Bits.FastestIff`, with an input in `Bits.GapExample`.
* The C and the Rust string decoders differ exactly on strings that hold a NUL:
  `AtaString.ScansAgreeIff`.

## Model

| member | source | states |
|---|---|---|
| `Ring.PushEnqueues` | gmac/c/drv_eth.c:76-97 | the slot at the producer's index is taken exactly when the queue is full, told apart from empty by that slot alone; filling a free one appends to the queue |
| `Ring.PopDequeues` | gmac/c/drv_eth.c:161-193 | the slot at the consumer's index is occupied exactly when the queue is not empty; freeing it removes the first element and no other |
| `Ring.FifoOrder` | gmac/c/drv_eth.c:70-157 | a bounded FIFO queue gives out what it held and was given, in that order, over every run of operations |
| `EthDesc.TxStatusBits` | gmac/c/drv_eth.c:92 | publishing sets OWN and marks a whole frame with its completion interrupt; the end-of-ring bit and any error bit stay |
| `EthDesc.TxStatusOnly` | gmac/c/drv_eth.c:92 | it sets the four highest bits of the word and leaves every other as it is |
| `EthDesc.StatusLayout` | gmac/c/eth_dev.h:715-756 | ownership, end of ring, the bits of a whole frame and the error bit are bits 31, 21, 30 to 28 and 15 |
| `EthDesc.LengthLayout` | gmac/c/eth_dev.h:782-790 | the two sizes are bits 12 to 0 and 28 to 16 of the length word, the end of a receive ring is bit 15 |
| `EthDesc.ReadsReport` | gmac/c/eth_dev.c:463-482 | a report is valid exactly when bits 9 and 8 are 1 and bit 15 is 0, and its length is bits 29 to 16 |
| `EthDesc.LengthRoundTrip` | gmac/c/eth_dev.c:463-466 | a length the hardware writes into a report, among whatever other bits, is the length the driver reads |
| `EthDesc.RxLengthWordBits` | gmac/c/drv_eth.c:148-150 | the length word `eth_rx` rewrites keeps the end-of-ring bit of its slot, never looks empty and gives 2048 bytes |
| `EthDesc.EmptySize` | gmac/c/eth_dev.c:473-476 | without a second buffer a descriptor looks empty exactly when its frame has length 0 |
| `TxRing.SubmitRefines` | gmac/rust/src/drv_eth.rs:112-143 | `eth_tx` appends the frame to the queue, or refuses it, exactly as a FIFO queue of N frames does, and keeps the ring invariant |
| `TxRing.EthTxPublishes` | gmac/c/drv_eth.c:81-97 | refused exactly when bit 31 of the slot is 1; else the slot gets the length, the address cut to 32 bits, no second buffer, and the old status with the four highest bits set |
| `TxRing.CompleteRefines` | gmac/c/eth_dev.c:406-421 | the DMA engine, walking by address and the end-of-ring bit, sends the oldest accepted frame, unaltered |
| `TxRing.ReclaimRefines` | gmac/rust/src/drv_eth.rs:79-105 | a pass of the reclaim loop keeps the ring invariant and the queue of frames to send |
| `TxRing.ReclaimClears` | gmac/c/drv_eth.c:169-191 | a slot is taken exactly when bit 31 is 0 and a size is not 0; it is cleared to 0, and to 0x00200000 in the last |
| `TxRing.StepRefines` | gmac/c/drv_eth.c:70-105 | every step of either side keeps the ring invariant and is the step of the bounded FIFO queue |
| `TxRing.RunRefinesFifo` | gmac/c/drv_eth.c:70-195 | in every interleaving, each call and each completion has the outcome it has for a bounded FIFO queue of N frames |
| `TxRing.FramesInOrder` | gmac/c/drv_eth.c:76-97 | over any run, frames pending before plus frames accepted are frames sent plus frames pending after, as sequences; at most N pending |
| `TxRing.OwnedUntouched` | gmac/c/drv_eth.c:81-97 | the driver never writes a descriptor, or the buffer of one, that the DMA engine owns |
| `TxRing.DmaWritesItsOwn` | gmac/c/eth_dev.c:406-421 | the DMA engine changes one status word only, the one at its pointer, and only while it owns it |
| `TxRing.FreshInv` | gmac/c/eth_dev.c:402-421 | the ring as set up satisfies the invariant with an empty queue |
| `TxRing.RunIndexed` | gmac/c/drv_eth.c:97-193 | after any run TxNext is submitted mod N, TxBusy is reclaimed mod N, and the DMA pointer is the address of slot completed mod N |
| `TxAccounting.StepConserves` | gmac/c/drv_eth.c:174-191 | one step moves frames and bytes between wire, ring, statistics and the slot overwritten, and creates none |
| `TxAccounting.RunConserves` | gmac/c/drv_eth.c:70-195 | in every run: counted + waiting in the ring + overwritten = sent, for frames and for bytes |
| `TxAccounting.LossIsOverwriting` | gmac/c/drv_eth.c:81-97 | nothing is lost from the count exactly when `eth_tx` never met a sent, unreclaimed slot |
| `TxAccounting.FramesExactIff` | gmac/c/drv_eth.c:76-97 | from a fresh ring, packets + errors + waiting = frames sent if and only if no sent, unreclaimed slot was ever overwritten and no empty frame was sent |
| `TxAccounting.SubmitSynced` | gmac/c/drv_eth.c:70-105 | a call that meets an empty or owned slot leaves the queue of sent, unreclaimed frames as it is |
| `TxAccounting.CompleteSynced` | gmac/c/drv_eth.c:174-177 | a completion appends the frame's length and error state to the queue of unreclaimed frames |
| `TxAccounting.ReclaimSynced` | gmac/c/drv_eth.c:160-195 | a pass takes the oldest unreclaimed frame and books it as good with its length, or as an error; it takes none exactly when none waits |
| `TxAccounting.StopsWhenDrained` | gmac/c/drv_eth.c:169-172 | the test that ends the loop holds exactly when every sent frame is reclaimed |
| `TxAccounting.RegionsDisjoint` | gmac/c/drv_eth.c:160-195 | the frames to reclaim and the frames to send lie in different slots: together at most N |
| `TxAccounting.ErrorCarriesOver` | gmac/c/drv_eth.c:92 | a frame is published with an error bit exactly when its slot held one; under the ring invariant never |
| `TxAccounting.SentPlain` | gmac/c/drv_eth.c:92 | in every polite interleaving a frame goes out from a descriptor with status 0xF0000000, or 0xF0200000 in the last slot: whole, with CRC and padding, nothing else asked for |
| `TxAccounting.RunAccounts` | gmac/c/drv_eth.c:160-195 | over every run of polite calls the statistics are those of the reclaimed part of the log of sent frames |
| `TxAccounting.StatisticsExact` | gmac/c/drv_eth.c:174-193 | from a fresh ring: packets, errors and bytes are exactly those of the frames reclaimed, in every interleaving of polite calls |
| `TxAccounting.CountersChain` | gmac/c/drv_eth.c:97-193 | over every polite run from a fresh ring, reclaimed <= completed <= submitted <= reclaimed + N, and TxBusy, the DMA pointer and TxNext are those counters modulo N |
| `TxAccounting.OverwriteStalls` | gmac/c/drv_eth.c:81-97 | meeting a sent, unreclaimed slot happens only with the ring full of unreclaimed and unsent frames; one frame is never counted and reclaim stops at once |
| `TxAccounting.OverwriteRun` | gmac/c/drv_eth.c:81-97 | for every N: N frames sent without reclaim and one more accepted; one frame is lost from the count, none is counted, reclaim stops at once |
| `TxReclaim.ReclaimShrinks` | gmac/c/drv_eth.c:160-195 | each pass empties one slot, the one at TxBusy, or changes nothing and ends the loop |
| `TxReclaim.TxOverStops` | gmac/c/drv_eth.c:163-172 | with any DMA completions before each pass the loop ends, and at a slot that is owned or empty |
| `TxReclaim.TxOverIsRun` | gmac/c/drv_eth.c:160-195 | the loop with those completions is a run of the ring, so every run property applies to it |
| `TxReclaim.CaughtUp` | gmac/c/drv_eth.c:160-195 | if TxBusy was in step, at the end every frame sent before or during the loop is in the statistics and none is unreclaimed |
| `RxRing.NeverEmpty` | gmac/c/drv_eth.c:147-152 | no descriptor ever looks empty: the first test of `eth_rx` never fires |
| `RxRing.FillRefines` | gmac/c/eth_dev.c:437-455 | the DMA engine appends what it received, or is blocked, exactly as a FIFO queue of N does |
| `RxRing.TakeRefines` | gmac/c/drv_eth.c:109-157 | `eth_rx` takes the oldest received descriptor, or finds nothing, exactly as the queue does, and hands over that slot's own buffer |
| `RxRing.EthRxReturns` | gmac/c/drv_eth.c:125-154 | nothing is taken exactly when bit 31 is 1; else the descriptor goes back as 0x80000000, size 2048 with the end of the ring in the last, its own buffer |
| `RxRing.OnlyTheOwnerWrites` | gmac/rust/src/drv_eth.rs:148-187 | neither side writes a descriptor or buffer that is with the other |
| `RxRing.RunRefinesFifo` | gmac/c/drv_eth.c:109-157 | in every interleaving, each reception and each call has the outcome it has for a bounded FIFO queue |
| `RxRing.ItemsInOrder` | gmac/c/drv_eth.c:109-157 | over any run, waiting before plus received = taken plus waiting after, as sequences of status and bytes |
| `RxRing.GoodFramesDelivered` | gmac/c/drv_eth.c:128-141 | the frames handed over are the good frames received, in DMA order, none lost or repeated, up to those still waiting |
| `RxRing.StepBooks` | gmac/c/drv_eth.c:128-145 | a call books what it took: a good frame as a packet with its bytes, any other descriptor as an error |
| `RxRing.RunBooks` | gmac/c/drv_eth.c:139-145 | in every run rx_packets + rx_errors grow by the descriptors taken, rx_bytes by the bytes of the good frames |
| `RxRing.RunIndexed` | gmac/c/drv_eth.c:149-154 | after any run RxBusy is consumed mod N and the DMA pointer is the address of slot filled mod N |
| `RxRing.CountersChain` | gmac/c/drv_eth.c:109-157 | over every run from a fresh ring, consumed <= filled <= consumed + N, and RxBusy and the DMA pointer are those counters modulo N |
| `RxRing.BuffersStay` | gmac/c/drv_eth.c:147-152 | in every reachable state slot i points to RxBuffer[i] with 2048 bytes, and no two slots share a buffer |
| `RxRing.FreshInv` | gmac/c/eth_dev.c:439-455 | the ring as set up satisfies the invariant with nothing received |
| `RxWakeup.StepKeepsIff` | gmac/c/drv_eth.c:201-339 | a step of handler, `eth_rx` or hardware keeps the wake-up invariant if and only if it is not an unmask that overtakes a handler that has notified |
| `RxWakeup.ExitExact` | gmac/c/drv_eth.c:338 | the mask write at the end of the handler keeps it if and only if the operating system is told, or about to unmask, or no receive bit was seen |
| `RxWakeup.NoLostWakeup` | gmac/c/drv_eth.c:117-122 | in every run in which `eth_rx_ready` is deferred, outside the handler: the mask is 0x0001A1F7 less receive bits; a masked bit means the operating system is told or an `eth_rx` about to unmask; otherwise, while a frame waits, the completion of its reception is delivered to the processor |
| `RxWakeup.LostWakeup` | gmac/c/drv_eth.c:288-338 | the run, on a ring of any size, in which the ring is drained between notification and mask write: the next frame waits with nobody told and its interrupt masked |
| `RxWakeup.HandlerNotifies` | gmac/c/drv_eth.c:281-297 | the handler run such an interrupt causes issues `eth_rx_ready` and loses no status bit that comes up meanwhile and was not set when it read |
| `RxWakeup.RegisterLayout` | gmac/c/eth_dev.h:1018-1028 | DmaIntEnable is 0x0001A1F7, the receive bits are 6 and 7, the transmit completion is bit 0, and the handler leaves DmaIntEnable less the receive bits seen |
| `RxWakeup.WithBits` | gmac/c/eth_dev.c:221-224 | raising bits in a register sets those and leaves every other |
| `RxWakeup.WithoutBits` | gmac/c/drv_eth.c:254 | acknowledging clears the bits read and leaves every other |
| `RxWakeup.InitInv` | gmac/c/drv_eth.c:386 | the state `eth_init` leaves satisfies the wake-up invariant |
| `RxWakeup.ZeroMeans` | gmac/c/drv_eth.c:117-156 | `eth_rx` returns 0 if and only if nothing waits, the oldest descriptor is bad, or the operating system gives 0 for its frame; only in the first case it unmasks |
| `RxWakeup.BadNotDrained` | gmac/c/drv_eth.c:142-156 | a run from the fresh ring after which `eth_rx` returns 0 for a bad frame, a good one waits, no receive interrupt is pending and the completion interrupt is masked |
| `RxWakeup.RefusedNotDrained` | gmac/c/drv_eth.c:128-156 | the same after a good frame for which the operating system gave 0 |
| `Interrupts.FreshInv` | gmac/c/drv_eth.c:367-386 | the device as `eth_init` leaves it satisfies the invariants of the machine |
| `Interrupts.StepKeeps` | gmac/c/drv_eth.c:201-339 | every step keeps the transmit invariant if its `eth_tx` is polite, and the receive invariant if it overtakes no handler |
| `Interrupts.RunLosesNothing` | gmac/c/drv_eth.c:204-338 | in every interleaving, outside the handler: while `eth_rx_ready` is deferred no received frame is unheard of, as in `NoLostWakeup`; while `eth_tx` is polite, with a frame sent and not reclaimed, its completion is delivered to the processor |
| `Interrupts.HandledIsRun` | gmac/c/drv_eth.c:201-339 | a run of `eth_irq` against completions is a run of the machine: enter, acknowledge, notify, passes, exit, with neither `eth_tx` nor `eth_rx` among its steps |
| `Interrupts.HandledKeeps` | gmac/c/drv_eth.c:201-339 | so it keeps both invariants |
| `Interrupts.PassesAre` | gmac/c/drv_eth.c:330-334 | the reclaim loop in the handler is the loop of `TxReclaim` and changes nothing on the receive side |
| `NetDevice.NetDevice.EthSetupTxDescQueue` | gmac/c/eth_dev.c:393-422 | every descriptor cleared, end of ring in the last only, pointers at 16-byte steps, each slot its buffer |
| `NetDevice.NetDevice.EthSetupRxDescQueue` | gmac/c/eth_dev.c:425-456 | every descriptor with the DMA engine, its own buffer and size; end of ring in the last only |
| `NetDevice.NetDevice.EthInit` | gmac/c/drv_eth.c:367-386 | the device satisfies the invariants of the machine: both rings fresh, interrupts enabled with 0x0001A1F7 |
| `NetDevice.NetDevice.EthTx` | gmac/c/drv_eth.c:70-105 | in place, the transmit step of the machine: 0 if the frame was accepted, and then the descriptor is published as in `EthTxPublishes`; -1 and no change if the ring was full |
| `NetDevice.NetDevice.DmaTransmit` | gmac/c/drv_eth.c:330-335 | a completion is a step of the machine and keeps its invariants |
| `NetDevice.NetDevice.ReclaimPass` | gmac/c/drv_eth.c:165-193 | in place, one pass of the reclaim loop, which clears its slot as in `ReclaimClears` |
| `NetDevice.NetDevice.EthHandleTxOver` | gmac/c/drv_eth.c:160-195 | in place, the loop against any completions is the passes of the machine, status register included |
| `NetDevice.NetDevice.RxTake` | gmac/c/drv_eth.c:111-156 | in place, `eth_rx` without its interrupt write: what was taken, what is returned, which slot goes back to the DMA engine |
| `NetDevice.NetDevice.EthRx` | gmac/c/drv_eth.c:109-157 | in place, look and unmask of the machine; returns 0 if and only if nothing waits, the oldest is bad, or the operating system gives 0 for it; unmasks if and only if nothing waits, else takes one and leaves the mask |
| `NetDevice.NetDevice.DmaReceive` | gmac/c/drv_eth.c:222-238 | a reception is a step of the machine and keeps its invariants |
| `NetDevice.LookThenUnmaskSteps` | gmac/c/drv_eth.c:117-122 | `eth_rx` is two steps of the machine |
| `NetDevice.NetDevice.ReceiveInterrupts` | gmac/c/drv_eth.c:281-297 | exactly the receive interrupts seen are left masked, nothing else ever is; the operating system is told exactly when one is masked |
| `NetDevice.NetDevice.EthIrq` | gmac/c/drv_eth.c:201-339 | in place, a run of the handler of the machine: it reclaims exactly when bit 0 was set, tells the operating system exactly when bit 6 or 7 was, leaves the mask 0x0001A1F7 less those; completions during it show in the status register; the invariants are kept |
| `NetDevice.NetDevice.NothingLost` | gmac/c/drv_eth.c:204-338 | between calls no received frame waits unheard of; and no sent frame, as long as none was overwritten |
| `Memory.Le32RoundTrip` | ahci/c/drv_ahci.c:329-330 | a word stored little-endian is read back |
| `Bits.AhciFfs32` | ahci/c/drv_ahci.c:17-28 | the loop finds the lowest bit set, and 0 for 0 |
| `Bits.FfsIsLowest` | ahci/c/drv_ahci.c:17-28 | the bit found is 1 and all bits below are 0 |
| `Bits.FfsOfSuccessor` | ahci/c/drv_ahci.c:748 | find-first-set of m + 1 is one more than the trailing ones of m |
| `Bits.UdmaAction` | ahci/c/drv_ahci.c:747-748 | the value sent asks for the last mode of the unbroken run from 0, and for the highest mode supported exactly when `Unbroken` |
| `Bits.UdmaSelection` | ahci/c/drv_ahci.c:747-749 | the mode asked for is one the disk supports if and only if it supports mode 0, and then the last of the unbroken run from 0 |
| `Bits.FastestIff` | ahci/c/drv_ahci.c:746-749 | what is asked for is the highest mode supported if and only if mode 0 is, no supported mode follows one that is not, and bits 7 and 8 are not both set |
| `Bits.GapExample` | ahci/c/drv_ahci.c:746-749 | a disk with modes 0 and 2 is asked for mode 0 |
| `Fis.Decode28` | ahci/c/drv_ahci.c:523-531 | whatever the arguments, a disk reads 28 bits of the address and a count from 1 to 256 |
| `Fis.Decode48` | ahci/c/drv_ahci.c:595-606 | whatever the arguments, a disk reads 48 bits of the address and a count from 1 to 65536 |
| `Fis.Exact28` | ahci/c/drv_ahci.c:516-538 | the 28-bit command is understood as meant if and only if the address has 28 bits and the count is 1 to 256 |
| `Fis.Exact48` | ahci/c/drv_ahci.c:586-614 | the 48-bit command is understood as meant if and only if the address has 48 bits and the count is 1 to 65536 |
| `Fis.DecodeFlush` | ahci/c/drv_ahci.c:541-551 | a disk reads the two flush commands as what they are, E7h and EAh |
| `Fis.DecodeFeature` | ahci/c/drv_ahci.c:407-419 | a disk reads SET FEATURES with the subcommand and argument meant |
| `CommandTable.HeaderOnlyForSlotZero` | ahci/c/drv_ahci.c:342 | the header is written 1024 bytes on for each slot, where the controller reads it if and only if the slot is 0 |
| `CommandTable.SgStep` | ahci/c/drv_ahci.c:326-334 | each pass writes the size meant for its entry, 4 MiB or what is left, less one, although the length left wraps after its last use |
| `CommandTable.SgRead` | ahci/c/drv_ahci.c:328-331 | what the controller reads in an entry is the piece of the buffer meant, made even |
| `CommandTable.OptsFields` | ahci/c/drv_ahci.c:387 | the header word holds 5 dwords, the write bit and the number of entries, and nothing else |
| `Hba.SgTiles` | ahci/c/drv_ahci.c:326-334 | the entries tile the stretch without gap or overlap, each of 1 byte to 4 MiB |
| `Hba.ProcessIsFlat` | ahci/c/drv_ahci.c:383-389 | a table that tiles a stretch of memory makes the command one flat transfer on it; nothing else in memory changes |
| `Disk.ReadIsFlat` | ahci/rust/src/drv_ahci.rs:733-769 | however a request is cut up, a read fills the buffer with exactly the sectors asked for and leaves the disk alone |
| `Disk.WriteIsFlat` | ahci/c/drv_ahci.c:630-659 | however it is cut up, a write replaces exactly the sectors asked for and leaves the buffer alone |
| `Disk.ChunkedKeepsData` | ahci/c/drv_ahci.c:554-584 | no write changes the caller's buffer, not even one the disk aborts |
| `Disk.PathsAgree` | ahci/c/drv_ahci.c:554-584 | wherever both apply, the 28-bit and the 48-bit path do the same |
| `Disk.ReadOutcome` | ahci/c/drv_ahci.c:554-584 | a read that does not wrap receives exactly the sectors of the commands that lie on the disk, all of them if and only if the request does; the rest of the buffer stays |
| `Disk.WriteOutcome` | ahci/c/drv_ahci.c:554-584 | a write that does not wrap stores exactly the sectors of the commands that lie on the disk |
| `Disk.WrittenStaysDirty` | ahci/c/drv_ahci.c:775-796 | without a flush, a disk that writes nothing back holds every written sector in its cache only, and its media are as before |
| `Requests.RequestWraps` | ahci/c/drv_ahci.c:526-530 | every request acts on its address modulo the width; past the width it goes on from the remainder of its address |
| `Requests.NoneAbortedIff` | ahci/c/drv_ahci.c:563-581 | no command of a request that does not wrap is aborted if and only if it asks for at least one sector and lies on the disk |
| `Requests.StraddleExample` | ahci/c/drv_ahci.c:554-584 | 400 sectors from 0 on a disk of 300: 256 are transferred, in both directions |
| `Requests.WrapExample` | ahci/c/drv_ahci.c:557-575 | a write of sector 2^28 in 28-bit mode replaces sector 0 |
| `Requests.WriteThenRead` | ahci/c/drv_ahci.c:760-796 | a read after a write, by either path each and with any flags, returns the new data where they overlap and the old elsewhere |
| `Requests.WrittenMeans` | ahci/c/drv_ahci.c:775-796 | what a completed write leaves: the view replaced as far as the request lies on the disk, and everything on the media after a flush the disk has, or without a cache |
| `Requests.DurabilityIff` | ahci/c/drv_ahci.c:775-796 | on a disk that has the flush commands it reports, writes are on the media when the driver returns if the cache is off or reported with the matching flush; otherwise a disk that writes nothing back has its media as before, and every changed byte differs there |
| `Requests.LostWithoutFlush` | ahci/c/drv_ahci.c:775-796 | on such a disk, a write of anything the media do not hold yet is durable if and only if the cache is off or reported with the matching flush |
| `Identify.FlushesIff` | ahci/c/drv_ahci.c:697-705 | with flags from 0, writes end with a flush exactly when the disk reports its cache there and on and the flush command of its addressing mode; the flags in numbers |
| `Identify.ReadsFeatures` | ahci/c/libata.h:295-325 | what the predicates read in words 82, 83, 85, 87 and 100 to 103 is what a disk reports there, bit by bit, with the words that are not valid ignored |
| `Identify.FeaturesRoundTrip` | ahci/c/libata.h:341-354 | a disk can report any features, and they come back |
| `AhciDevice.AhciDevice.AhciFillSg` | ahci/c/drv_ahci.c:310-337 | in each entry the address of its piece and its size less one, in numbers; the controller reads the buffer made even, cut into 4 MiB; at most 56 entries, refused above 224 MiB |
| `AhciDevice.AhciDevice.AhciFillCmdSlot` | ahci/c/drv_ahci.c:340-348 | the header words, at the doubly scaled offset |
| `AhciDevice.AhciDevice.AhciGetCmdSlot` | ahci/c/drv_ahci.c:350-354 | 0 when PxCI is 0, else the slot after the lowest one that is set; 32, the refusal, exactly when bit 31 alone is set; when that slot is free |
| `AhciDevice.BusySlotExample` | ahci/c/drv_ahci.c:366-367 | with slots 0 and 1 busy the slot chosen is 1 |
| `AhciDevice.AhciDevice.BuildCommand` | ahci/c/drv_ahci.c:383-389 | memory holds the FIS and a header naming the table, whose first word is 5 dwords, the direction and the entries and nothing else; for slot 0 the header is in its place, the PRDT tiles the buffer and only the driver's block changed |
| `AhciDevice.AhciDevice.IssueAndWait` | ahci/c/drv_ahci.c:394-397 | for any slot and any PxCI the wait ends, with the slots set served lowest first until the one waited for is done |
| `AhciDevice.AhciDevice.AhciExecAtaCmd` | ahci/c/drv_ahci.c:357-405 | for any PxCI: refuses without effect when too long or bit 31 alone is set, else the slots are served from memory that holds the FIS; from PxCI 0, the disk has performed the decoded command on the buffer and nothing else changed |
| `AhciDevice.AhciDevice.AhciSataRwCmd` | ahci/c/drv_ahci.c:516-538 | one 28-bit transfer, for any count: what the disk reads in the count byte is transferred; 0 for a byte length that is 0 or too long after 32-bit wrap |
| `AhciDevice.AhciDevice.AhciSataRwCmdExt` | ahci/c/drv_ahci.c:586-614 | one 48-bit transfer, for any count, likewise |
| `AhciDevice.AhciDevice.AtaLowLevelRwLba28` | ahci/c/drv_ahci.c:554-584 | for any count, 0 included, the loop terminates, returns the count, and is the request as a whole |
| `AhciDevice.AhciDevice.AtaLowLevelRwLba48` | ahci/c/drv_ahci.c:630-659 | for any count, 0 included, the loop terminates, returns the count, and is the request as a whole |
| `AhciDevice.AhciDevice.AhciSataFlushCache` | ahci/c/drv_ahci.c:541-551 | E7h goes out for 28-bit and EAh for 48-bit addresses, in a header with no entries and no write bit: a disk that has that command has everything on the media, one that has only the other is as it was; only the driver's block changed in memory |
| `AhciDevice.AhciDevice.AhciSetFeature` | ahci/c/drv_ahci.c:407-419 | the FIS issued is read as the feature meant; the disk's data and memory outside the driver's block stay |
| `AhciDevice.AhciDevice.AhciSetUdma` | ahci/c/drv_ahci.c:747-749 | the FIS issued asks for the last mode of the unbroken run from 0, the highest supported exactly when `Unbroken` |
| `AhciDevice.AhciDevice.AhciSataReadCommon` | ahci/c/drv_ahci.c:760-772 | the buffer holds exactly the sectors asked for when they lie on the disk and in the width, and exactly the ones that do otherwise; an odd buffer holds them one byte on, its last byte unwritten; nothing else in memory changed but the driver's block; the result is the count |
| `AhciDevice.AhciDevice.AhciSataWriteCommon` | ahci/c/drv_ahci.c:775-796 | the disk reads back with exactly those sectors replaced, likewise; memory outside the driver's block is as it was; after a flush the disk has the command for, or with no cache, all is on the media |
| `AhciDevice.AhciDevice.AhciSataConfigure` | ahci/c/drv_ahci.c:697-705 | flags and addressing mode are the features the disk reports, in numbers; from flags 0, writes will flush exactly when cache and matching flush are reported; no flag is ever cleared |
| `AhciDevice.AhciDevice.AhciPortStart` | ahci/c/drv_ahci.c:440-475 | every byte of the block is 0, its parts are where the layout says, the controller is told where, and a port with no command outstanding is ready for calls |
| `AhciDevice.AhciDevice.PartsApart` | ahci/c/libahci.h:18-30 | the parts of the 2304-byte block are disjoint and aligned to 1024, 256 and 128 bytes |
| `AhciDevice.AhciDevice.AlignedIff` | ahci/c/drv_ahci.c:328-331 | a transfer is on the caller's buffer if and only if its physical address is even; what a read leaves in an odd one is in `AhciSataReadCommon` |
| `AtaString.AtaIdString` | ahci/c/drv_ahci.c:49-65 | the characters of the words, high byte first; nothing beyond is written |
| `AtaString.AtaStrnlen` | ahci/c/drv_ahci.c:30-35 | the length up to the first NUL or the limit |
| `AtaString.LastNonSpace` | ahci/c/drv_ahci.c:74-75 | the scan back drops exactly the trailing spaces |
| `AtaString.AtaIdCString` | ahci/c/drv_ahci.c:67-77 | forward to the first NUL, back over spaces, terminated in bounds |
| `AtaString.AtaIdCStringReverse` | ahci/rust/src/libata.rs:323-345 | back over spaces from the end, terminated in bounds |
| `AtaString.ScansAgreeIff` | ahci/rust/src/libata.rs:337-344 | both put the terminator in the same place exactly when the words hold no NUL |
| `AtaString.StringRoundTrip` | ahci/c/drv_ahci.c:49-77 | a string packed and padded by a disk comes back unchanged from both |

## Left out

- Word by word interleaving inside `eth_tx` and `eth_rx`: the C code sets OWN before it writes length and buffer (gmac/c/drv_eth.c:92-95, 148-152); here a descriptor is handed over in one step.
- TxRing.SubmitRefines: frames of more than 2048 bytes, which would not fit the buffer, are not modelled.
- TxAccounting.StatisticsExact: is about polite calls; an empty frame stops reclaim at its slot (gmac/c/drv_eth.c:169), an overwrite puts TxBusy out of step. The FIFO and conservation lemmas allow both.
- Interrupts.RunLosesNothing: its transmit half is about polite calls, as after an overwrite reclaim stops early whatever the interrupts do; its receive half about deferred `eth_rx_ready`, as without that a wake-up is lost (`RxWakeup.LostWakeup`). `eth_irq` issues `eth_rx_ready` up to twice; the step modelled is the last.
- NetDevice.NetDevice.EthIrq: as a call it runs against completions between its passes; calls of `eth_tx` and `eth_rx`, and receptions, between its steps are in the step lemmas of Interrupts.
- The statistics are unbounded numbers; the 64-bit counters wrap after 2^64.
- The pointer tables TxDesc, RxDesc, TxBuffer and RxBuffer are sequences in fields, and transmit and receive buffers lie in memories of their own.
- Physical layer, link state, register set-up, reset and spin-up, poll-demand registers, cache maintenance, delays and printing.
- The other status bits of `eth_irq`, which only print or restart an engine.
- AhciDevice.AhciDevice.AhciFillCmdSlot: requires the header, wherever the double scaling puts it, to lie in memory; for slots from 3 on that is outside the block the driver allocated.
- AhciDevice.AhciDevice.AhciExecAtaCmd: for PxCI other than 0 says which slots are served from which memory, and no more: the chosen slot may be free or busy, and its header is misplaced (`CommandTable.HeaderOnlyForSlotZero`), so the controller reads what memory happens to hold there.
- AhciDevice.AhciDevice.AhciPortStart: starts from a port with its link up, and stops before the port is switched on.
- AhciDevice.AhciDevice.AhciFillSg: where overflow checks are on, the Rust form stops with a panic at the last subtraction; so do `start += max_blks` in its 28-bit loop and `ATA_SECT_SIZE * blkcnt` in its commands when they exceed 32 bits. The model wraps as the C form does.
- Hba.ProcessIsFlat: the controller writes no received FIS and no byte count back; the driver reads neither.
- Error reporting of the disk, which the driver never reads after a command.
- The transfer of IDENTIFY DEVICE itself, and of the words only the sector count and the queue depth, where the Rust form differs.
