/**
 * The receive ring: what the DMA engine and `eth_rx` do to the shared descriptors, and the proof
 * that in every interleaving the ring is a bounded FIFO queue from the wire to the driver.
 *
 * Here the DMA engine is the producer: a slot it owns is free, a slot it does not own holds a
 * received frame. The end-of-ring bit is in the length word, which `eth_rx` rewrites each time.
 */
module RxRing {
  import opened Common
  import opened EthDesc
  import Ring
  import TxRing

  /** What one descriptor reports: its status word and, when it holds a whole good frame, the frame. */
  datatype Item = Item(status: bv32, data: seq<byte>)

  datatype RxState = RxState(
    base: nat, ptr: seq<nat>, buf: seq<nat>, desc: seq<DmaDesc>, ram: map<nat, seq<byte>>,
    busy: nat,                  // RxBusy
    cur: nat,                   // address of the descriptor the DMA engine looks at
    packets: nat, errors: nat, bytes: nat)
  {
    function Slot(addr: nat): int {
      if addr < base then -1 else (addr - base) / 16
    }

    /** Besides where things are: every slot keeps its own buffer, its size and its end-of-ring bit. */
    ghost predicate WellFormed() {
      && 1 <= |desc| == |ptr| == |buf|
      && busy < |desc|
      && (forall i | 0 <= i < |desc| :: ptr[i] == base + 16 * i)
      && (forall i | 0 <= i < |desc| :: desc[i].length == RxLengthWord(i == |desc| - 1))
      && (forall i | 0 <= i < |desc| :: desc[i].buffer1 == VirtToPhys(buf[i]) && desc[i].buffer2 == 0)
      && (forall i | 0 <= i < |desc| :: PhysToVirt(VirtToPhys(buf[i])) == buf[i])
      && (forall i, j | 0 <= i < j < |desc| :: VirtToPhys(buf[i]) != VirtToPhys(buf[j]))
      && (forall i | 0 <= i < |desc| :: VirtToPhys(buf[i]) in ram && |ram[VirtToPhys(buf[i])]| == BUF_SIZE)
      && (forall i | 0 <= i < |desc| && !Owned(desc[i]) && IsRxValid(desc[i].status) ::
            RxLength(desc[i].status) <= BUF_SIZE)
      && base <= cur && cur == base + 16 * Slot(cur) && Slot(cur) < |desc|
    }

    function ItemAt(i: nat): Item
      requires i < |desc|
    {
      var d := desc[i];
      Item(d.status, if IsRxValid(d.status) then TxRing.Fetch(ram, d.buffer1, RxLength(d.status)) else [])
    }

    /** The ring as the driver sees it: a slot the DMA engine gave back holds what it reports. */
    ghost function Queue(): Ring.Ring<Item>
      requires WellFormed()
    {
      Ring.Ring(
        seq(|desc|, i requires 0 <= i < |desc| => if Owned(desc[i]) then None else Some(ItemAt(i))),
        busy, Slot(cur))
    }

    ghost predicate Inv() {
      WellFormed() && Queue().Valid()
    }

    /** What was received and not taken yet, oldest first. */
    ghost function Pending(): (q: seq<Item>)
      requires Inv()
      ensures |q| <= |desc|
    {
      Queue().Contents()
    }
  }

  // ---- the steps ----

  datatype RxAction =
    | Fill(report: bv32, data: seq<byte>)   // the DMA engine receives into its descriptor
    | Take                                  // eth_rx

  datatype RxOutput =
    | Filled | Blocked
    | Taken(buffer: nat, item: Item) | Nothing

  /** A report of a whole good frame gives the length of what was written to the buffer. */
  ghost predicate Possible(a: RxAction) {
    a.Fill? ==>
      && |a.data| <= BUF_SIZE
      && (WholeGood(a.report) ==> FrameBytes(a.report) == |a.data|)
  }

  function ItemOf(report: bv32, data: seq<byte>): Item {
    Item(RxWriteBack(report), if IsRxValid(report) then data else [])
  }

  function DmaRx(s: RxState, report: bv32, data: seq<byte>): (RxState, RxOutput)
    requires s.WellFormed()
  {
    var i := s.Slot(s.cur);
    var d := s.desc[i];
    if !Owned(d) then (s, Blocked) else
    (s.(desc := s.desc[i := d.(status := RxWriteBack(report))],
        ram := s.ram[d.buffer1 := TxRing.Overlay(data, s.ram[d.buffer1])],
        cur := if IsLastRx(d) then s.base else s.cur + 16),
     Filled)
  }

  function EthRx(s: RxState): (RxState, RxOutput)
    requires s.WellFormed()
  {
    var i := s.busy;
    var d := s.desc[s.Slot(s.ptr[i])];
    var last := IsLastRx(d);
    if IsEmpty(d) || Owned(d) then (s, Nothing) else
    var ok := IsRxValid(d.status);
    var buffer := PhysToVirt(d.buffer1);
    var length := RxLength(d.status);
    (s.(packets := if ok then s.packets + 1 else s.packets,
        bytes := if ok then s.bytes + length else s.bytes,
        errors := if ok then s.errors else s.errors + 1,
        desc := s.desc[s.Slot(s.ptr[i]) := DmaDesc(DESC_OWN_BY_DMA, RxLengthWord(last), d.buffer1, 0)],
        busy := if last then 0 else i + 1),
     Taken(buffer, Item(d.status, if ok then TxRing.Fetch(s.ram, VirtToPhys(buffer), length) else [])))
  }

  function Step(s: RxState, a: RxAction): (RxState, RxOutput)
    requires s.WellFormed()
  {
    match a
    case Fill(report, data) => DmaRx(s, report, data)
    case Take => EthRx(s)
  }

  /** Where the driver and the DMA engine find descriptors and buffers. */
  lemma Bounds(s: RxState)
    requires s.WellFormed()
    ensures |s.ptr| == |s.buf| == |s.desc| && s.busy < |s.desc|
    ensures 0 <= s.Slot(s.cur) < |s.desc| && s.base <= s.cur && s.Slot(s.cur) == (s.cur - s.base) / 16
    ensures s.desc[s.Slot(s.cur)].buffer1 in s.ram
  {
    hide Owned, IsRxValid, IsLastRx, IsEmpty, RxLength, RxLengthWord, VirtToPhys;
  }

  lemma Lookup(s: RxState)
    requires s.WellFormed()
    ensures |s.ptr| == |s.desc| && s.busy < |s.desc|
    ensures s.Slot(s.ptr[s.busy]) == s.busy && s.base <= s.ptr[s.busy]
    ensures (s.ptr[s.busy] - s.base) / 16 == s.busy
  {
    hide Owned, IsRxValid, IsLastRx, IsEmpty, RxLength, RxLengthWord, VirtToPhys;
  }

  /** What `eth_rx` does, spelled out. */
  lemma EthRxAt(s: RxState)
    requires s.WellFormed()
    ensures var d := s.desc[s.busy];
            EthRx(s) ==
            if Owned(d) then (s, Nothing) else
            var ok, last, length, buffer := IsRxValid(d.status), IsLastRx(d), RxLength(d.status), PhysToVirt(d.buffer1);
            (s.(packets := if ok then s.packets + 1 else s.packets,
                bytes := if ok then s.bytes + length else s.bytes,
                errors := if ok then s.errors else s.errors + 1,
                desc := s.desc[s.busy := DmaDesc(DESC_OWN_BY_DMA, RxLengthWord(last), d.buffer1, 0)],
                busy := if last then 0 else s.busy + 1),
             Taken(buffer, Item(d.status, if ok then TxRing.Fetch(s.ram, VirtToPhys(buffer), length) else [])))
    ensures !IsEmpty(s.desc[s.busy])
  {
    hide Owned, IsRxValid, IsLastRx, IsEmpty, RxLength, RxLengthWord, VirtToPhys;
    Lookup(s);
    NeverEmpty(s, s.busy);
  }

  // ---- the descriptor it gives back, in numbers ----

  /** Slot `i` is with the DMA engine again: its own buffer, 2048 bytes, the end of the ring. */
  ghost predicate Returns(before: seq<DmaDesc>, after: seq<DmaDesc>, i: nat) {
    && i < |before|
    && after == before[i := DmaDesc(0x80000000, if i + 1 == |before| then 0x00008800 else 0x00000800, before[i].buffer1, 0)]
  }

  /** The OWN bit decides; the descriptor of what is taken goes back as it was set up. */
  lemma EthRxReturns(s: RxState)
    requires s.WellFormed()
    ensures s.busy < |s.desc|
    ensures EthRx(s).1 == Nothing <==> EngineOwns(s.desc[s.busy].status)
    ensures EthRx(s).1 != Nothing ==> Returns(s.desc, EthRx(s).0.desc, s.busy)
  {
    hide Owned, IsRxValid, IsLastRx, IsEmpty, RxLength, RxLengthWord, VirtToPhys, PhysToVirt;
    EthRxAt(s);
    EngineWords(s.desc[s.busy]);
    NeverEmpty(s, s.busy);
    RxWords(true);
    RxWords(false);
  }

  // ---- as operations on a bounded FIFO queue ----

  function Op(a: RxAction): Ring.Op<Item> {
    match a
    case Fill(report, data) => Ring.Put(ItemOf(report, data))
    case Take => Ring.Get
  }

  /** An output without the address of the buffer, of which the queue knows nothing. */
  function View(out: RxOutput): Ring.Outcome<Item> {
    match out
    case Filled => Ring.Stored
    case Blocked => Ring.Full
    case Taken(_, item) => Ring.Got(item)
    case Nothing => Ring.Empty
  }

  /** No slot ever looks empty: of the two tests of `eth_rx` only the OWN bit decides. */
  lemma NeverEmpty(s: RxState, i: nat)
    requires s.WellFormed() && i < |s.desc|
    ensures !IsEmpty(s.desc[i]) && Size1(s.desc[i].length) == BUF_SIZE
    ensures IsLastRx(s.desc[i]) <==> i == |s.desc| - 1
  {
    RxLengthWordBits(s.desc[i], i == |s.desc| - 1);
  }

  lemma FillRefines(s: RxState, report: bv32, data: seq<byte>)
    requires s.Inv() && Possible(Fill(report, data))
    ensures DmaRx(s, report, data).0.Inv()
    ensures var (s', out) := DmaRx(s, report, data);
            (s'.Pending(), View(out)) == Ring.FifoStep(s.Pending(), |s.desc|, Op(Fill(report, data)))
  {
    hide Owned, IsEmpty, IsLastRx, IsRxValid, WholeGood, FrameBytes, RxLength, RxWriteBack, RxLengthWord, Size1, VirtToPhys, Ring.Ring.Valid, ItemOf;
    Ring.PushEnqueues(s.Queue(), ItemOf(report, data));
    if Owned(s.desc[s.Slot(s.cur)]) {
      RxWriteBackBits(s.desc[s.Slot(s.cur)], report, RxWriteBack(report));
      RxWriteBackLength(report);
      ReadsReport(report);
      FillKeepsShape(s, report, data);
      FillPushes(s, report, data);
    }
  }

  lemma FillKeepsShape(s: RxState, report: bv32, data: seq<byte>)
    requires s.WellFormed() && Possible(Fill(report, data)) && Owned(s.desc[s.Slot(s.cur)])
    ensures var s' := DmaRx(s, report, data).0;
            && s'.WellFormed() && s'.Slot(s'.cur) == (if s.Slot(s.cur) == |s.desc| - 1 then 0 else s.Slot(s.cur) + 1)
            && !Owned(s'.desc[s.Slot(s.cur)])
  {
    hide Owned, IsEmpty, IsLastRx, IsRxValid, WholeGood, FrameBytes, RxLength, RxWriteBack, RxLengthWord, Size1, VirtToPhys;
    var i := s.Slot(s.cur);
    NeverEmpty(s, i);
    RxWriteBackBits(s.desc[i], report, RxWriteBack(report));
    RxWriteBackLength(report);
    ReadsReport(report);
  }

  lemma FillPushes(s: RxState, report: bv32, data: seq<byte>)
    requires s.Inv() && Possible(Fill(report, data)) && Owned(s.desc[s.Slot(s.cur)])
    requires var s' := DmaRx(s, report, data).0;
             && s'.WellFormed() && s'.Slot(s'.cur) == (if s.Slot(s.cur) == |s.desc| - 1 then 0 else s.Slot(s.cur) + 1)
             && !Owned(s'.desc[s.Slot(s.cur)])
    requires IsRxValid(RxWriteBack(report)) == IsRxValid(report)
    requires RxLength(RxWriteBack(report)) == RxLength(report)
    ensures DmaRx(s, report, data).0.Queue() == s.Queue().Push(ItemOf(report, data))
  {
    hide Owned, IsEmpty, IsLastRx, IsRxValid, WholeGood, FrameBytes, RxLength, RxWriteBack, RxLengthWord, Size1, VirtToPhys, Ring.Ring.Valid;
    var i := s.Slot(s.cur);
    ReadsReport(report);
    var s' := DmaRx(s, report, data).0;
    assert s'.ItemAt(i) == ItemOf(report, data);
    forall k | 0 <= k < |s.desc| && k != i
      ensures s'.ItemAt(k) == s.ItemAt(k)
    {
      assert s.desc[k].buffer1 != s.desc[i].buffer1;
    }
    assert s'.Queue().slots == s.Queue().slots[i := Some(ItemOf(report, data))];
  }

  lemma TakeRefines(s: RxState)
    requires s.Inv()
    ensures EthRx(s).0.Inv()
    ensures (EthRx(s).0.Pending(), View(EthRx(s).1)) == Ring.FifoStep(s.Pending(), |s.desc|, Op(Take))
    ensures EthRx(s).1.Taken? ==> EthRx(s).1.buffer == s.buf[s.busy]
  {
    hide Owned, IsEmpty, IsLastRx, IsRxValid, RxLength, RxLengthWord, Size1, VirtToPhys, Ring.Ring.Valid;
    var i := s.busy;
    assert s.Slot(s.ptr[i]) == i;
    NeverEmpty(s, i);
    Ring.PopDequeues(s.Queue());
    if !Owned(s.desc[i]) {
      var s' := EthRx(s).0;
      OwnBit(s'.desc[i]);
      assert s'.Queue().slots == s.Queue().slots[i := None];
      assert s'.Queue() == s.Queue().Pop();
    }
  }

  lemma OwnBit(d: DmaDesc)
    requires d.status == DESC_OWN_BY_DMA
    ensures Owned(d)
  {
  }

  /** `eth_rx` never writes a descriptor the DMA engine owns, nor any buffer; the DMA engine writes
      the descriptor at its own pointer, and the buffer of that slot, only while it owns it. */
  lemma OnlyTheOwnerWrites(s: RxState, a: RxAction, i: nat)
    requires s.Inv() && Possible(a) && i < |s.desc|
    ensures var s' := Step(s, a).0;
            && (a == Take ==> s'.ram == s.ram && (Owned(s.desc[i]) ==> s'.desc[i] == s.desc[i]))
            && (a.Fill? && !(Owned(s.desc[i]) && s.cur == s.ptr[i]) ==>
                 s'.desc[i] == s.desc[i] && s'.ram[s.desc[i].buffer1] == s.ram[s.desc[i].buffer1])
  {
    hide Owned, IsEmpty, IsLastRx, IsRxValid, RxLength, VirtToPhys, RxWriteBack, RxLengthWord, RxState.Queue;
    assert s.Slot(s.ptr[s.busy]) == s.busy;
  }

  lemma StepRefines(s: RxState, a: RxAction)
    requires s.Inv() && Possible(a)
    ensures Step(s, a).0.Inv() && |Step(s, a).0.desc| == |s.desc|
    ensures (Step(s, a).0.Pending(), View(Step(s, a).1)) == Ring.FifoStep(s.Pending(), |s.desc|, Op(a))
  {
    hide Owned, IsEmpty, IsLastRx, RxState.Queue, RxState.WellFormed;
    assert |Step(s, a).0.desc| == |s.desc| by { SameTable(s, a); }
    match a
    case Fill(report, data) => FillRefines(s, report, data);
    case Take => TakeRefines(s);
  }

  /** What no step moves: the descriptors, the buffers, and which buffer is in which slot. */
  lemma SameTable(s: RxState, a: RxAction)
    requires s.WellFormed()
    ensures var s' := Step(s, a).0;
            && |s'.desc| == |s.desc| && s'.ptr == s.ptr && s'.buf == s.buf && s'.base == s.base
            && forall i | 0 <= i < |s.desc| :: s'.desc[i].buffer1 == s.desc[i].buffer1
  {
    hide Owned, IsEmpty, IsLastRx;
    assert s.Slot(s.ptr[s.busy]) == s.busy;
  }

  // ---- whole runs ----

  ghost predicate PossibleRun(acts: seq<RxAction>) {
    forall a | a in acts :: Possible(a)
  }

  ghost function Run(s: RxState, acts: seq<RxAction>): (r: (RxState, seq<RxOutput>))
    requires s.Inv() && PossibleRun(acts)
    ensures r.0.Inv() && |r.0.desc| == |s.desc| && |r.1| == |acts|
    decreases |acts|
  {
    if acts == [] then (s, []) else
    StepRefines(s, acts[0]);
    var (s1, out) := Step(s, acts[0]);
    var (s2, outs) := Run(s1, acts[1..]);
    (s2, [out] + outs)
  }

  /** Refinement, for every interleaving of the DMA engine and `eth_rx`. */
  lemma {:induction false} RunRefinesFifo(s: RxState, acts: seq<RxAction>)
    requires s.Inv() && PossibleRun(acts)
    ensures var (s', outs) := Run(s, acts);
            (s'.Pending(), Ring.Map(View, outs)) == Ring.FifoRun(s.Pending(), |s.desc|, Ring.Map(Op, acts))
    decreases |acts|
  {
    hide Step, RxState.WellFormed, RxState.Queue, RxState.Pending, Ring.FifoStep, View, Op;
    if acts != [] {
      StepRefines(s, acts[0]);
      RunRefinesFifo(Step(s, acts[0]).0, acts[1..]);
    }
  }

  /** What the DMA engine received in a run, and what `eth_rx` took. */
  function FilledItems(acts: seq<RxAction>, outs: seq<RxOutput>): seq<Item>
    requires |acts| == |outs|
  {
    Ring.Ins(Ring.Map(Op, acts), Ring.Map(View, outs))
  }

  function TakenItems(outs: seq<RxOutput>): seq<Item> {
    Ring.Outs(Ring.Map(View, outs))
  }

  /** In every run `eth_rx` takes what the DMA engine received, in that order, each once and with the
      bytes that were received; what it has not taken is still in the ring. */
  lemma ItemsInOrder(s: RxState, acts: seq<RxAction>)
    requires s.Inv() && PossibleRun(acts)
    ensures var (s', outs) := Run(s, acts);
            && s.Pending() + FilledItems(acts, outs) == TakenItems(outs) + s'.Pending()
            && |s'.Pending()| <= |s.desc|
  {
    hide Run, RxState.WellFormed, RxState.Queue, RxState.Pending;
    RunRefinesFifo(s, acts);
    Ring.FifoOrder(s.Pending(), |s.desc|, Ring.Map(Op, acts));
  }

  /** The frames handed to `eth_handle_rx_buffer`. */
  function Good(items: seq<Item>): seq<seq<byte>> {
    if items == [] then [] else GoodOne(items[0]) + Good(items[1..])
  }

  function GoodOne(item: Item): seq<seq<byte>> {
    if IsRxValid(item.status) then [item.data] else []
  }

  function TotalBytes(frames: seq<seq<byte>>): nat {
    if frames == [] then 0 else |frames[0]| + TotalBytes(frames[1..])
  }

  lemma {:induction false} GoodAppend(a: seq<Item>, b: seq<Item>)
    ensures Good(a + b) == Good(a) + Good(b)
  {
    hide GoodOne;
    if a == [] {
      assert a + b == b;
    } else {
      GoodAppend(a[1..], b);
      assert (a + b)[1..] == a[1..] + b;
      assert GoodOne(a[0]) + (Good(a[1..]) + Good(b)) == (GoodOne(a[0]) + Good(a[1..])) + Good(b);
    }
  }

  /** From an empty ring, the frames handed over and those still waiting are the good frames that
      were received, in order. */
  lemma GoodFramesDelivered(s: RxState, acts: seq<RxAction>)
    requires s.Inv() && PossibleRun(acts) && s.Pending() == []
    ensures var (s', outs) := Run(s, acts);
            Good(FilledItems(acts, outs)) == Good(TakenItems(outs)) + Good(s'.Pending())
  {
    hide Good, IsRxValid, RxState.WellFormed, RxState.Queue, Run;
    var (s', outs) := Run(s, acts);
    ItemsInOrder(s, acts);
    GoodAppend(TakenItems(outs), s'.Pending());
    assert [] + FilledItems(acts, outs) == FilledItems(acts, outs);
  }

  /** One step books exactly what it took. */
  lemma StepBooks(s: RxState, a: RxAction)
    requires s.Inv() && Possible(a)
    ensures var (s', out) := Step(s, a);
            var taken := Ring.Out(View(out));
            && s'.packets == s.packets + |Good(taken)|
            && s'.packets + s'.errors == s.packets + s.errors + |taken|
            && s'.bytes == s.bytes + TotalBytes(Good(taken))
  {
    hide Owned, IsEmpty, IsLastRx, IsRxValid, RxLength, RxLengthWord, VirtToPhys, RxState.Queue, EthRx;
    if a == Take {
      EthRxAt(s);
      if EthRx(s).1.Taken? {
        OneTaken(EthRx(s).1.item);
      }
    }
  }

  /** In every run the statistics are those of the descriptors taken: packets and errors add up to
      them, and the bytes are the bytes of the good frames. */
  lemma {:induction false} RunBooks(s: RxState, acts: seq<RxAction>)
    requires s.Inv() && PossibleRun(acts)
    ensures var (s', outs) := Run(s, acts);
            var taken := TakenItems(outs);
            && s'.packets == s.packets + |Good(taken)|
            && s'.packets + s'.errors == s.packets + s.errors + |taken|
            && s'.bytes == s.bytes + TotalBytes(Good(taken))
    decreases |acts|
  {
    hide Step, RxState.WellFormed, RxState.Queue, Ring.FifoStep, Good, TotalBytes, View;
    if acts == [] {
      NothingTaken();
    } else {
      StepRefines(s, acts[0]);
      StepBooks(s, acts[0]);
      var (s1, out) := Step(s, acts[0]);
      RunBooks(s1, acts[1..]);
      var outs := Run(s, acts).1;
      assert outs[1..] == Run(s1, acts[1..]).1;
      var taken, rest := Ring.Out(View(out)), TakenItems(outs[1..]);
      assert TakenItems(outs) == taken + rest;
      GoodAppend(taken, rest);
      BytesAppend(Good(taken), Good(rest));
    }
  }

  lemma NothingTaken()
    ensures TakenItems([]) == [] && Good([]) == [] && TotalBytes([]) == 0
  {
  }

  lemma {:induction false} BytesAppend(a: seq<seq<byte>>, b: seq<seq<byte>>)
    ensures TotalBytes(a + b) == TotalBytes(a) + TotalBytes(b)
  {
    if a == [] {
      assert a + b == b;
    } else {
      BytesAppend(a[1..], b);
      assert (a + b)[1..] == a[1..] + b;
    }
  }

  // ---- indices and addresses ----

  /** The two pointers are two counters modulo the ring size. */
  ghost predicate Indexed(s: RxState, filled: nat)
    requires s.WellFormed()
  {
    && s.Slot(s.cur) == filled % |s.desc|
    && s.cur == s.ptr[filled % |s.desc|]
    && s.busy == (s.packets + s.errors) % |s.desc|
  }

  lemma StepMoves(s: RxState, a: RxAction)
    requires s.WellFormed()
    ensures var (s', out) := Step(s, a);
            && s'.busy == (if out.Taken? then TxRing.Succ(s.busy, |s.desc|) else s.busy)
            && s'.Slot(s'.cur) == (if out == Filled then TxRing.Succ(s.Slot(s.cur), |s.desc|) else s.Slot(s.cur))
            && s'.packets + s'.errors == s.packets + s.errors + (if out.Taken? then 1 else 0)
  {
    hide Owned, IsEmpty, IsLastRx, IsRxValid, RxLength, RxLengthWord, VirtToPhys;
    assert s.Slot(s.ptr[s.busy]) == s.busy;
    NeverEmpty(s, s.busy);
    NeverEmpty(s, s.Slot(s.cur));
  }

  lemma StepIndexed(s: RxState, a: RxAction, filled: nat)
    requires s.Inv() && Possible(a) && Indexed(s, filled)
    ensures var (s', out) := Step(s, a);
            s'.Inv() && Indexed(s', if out == Filled then filled + 1 else filled)
  {
    hide Step, RxState.Queue, IsLastRx, Owned, IsRxValid, RxLength, RxLengthWord, VirtToPhys;
    StepRefines(s, a);
    StepMoves(s, a);
    SameTable(s, a);
    Ring.NextSlot(filled, |s.desc|);
    Ring.NextSlot(s.packets + s.errors, |s.desc|);
  }

  /** However long the run, RxBusy stands at consumed mod N and the DMA pointer at the address of
      descriptor filled mod N. */
  lemma {:induction false} RunIndexed(s: RxState, acts: seq<RxAction>, filled: nat)
    requires s.Inv() && PossibleRun(acts) && Indexed(s, filled)
    ensures var (s', outs) := Run(s, acts);
            Indexed(s', filled + |FilledItems(acts, outs)|)
    decreases |acts|
  {
    hide Step, RxState.WellFormed, RxState.Queue, Indexed;
    if acts != [] {
      StepRefines(s, acts[0]);
      StepIndexed(s, acts[0], filled);
      var (s1, out) := Step(s, acts[0]);
      StepKinds(s, acts[0]);
      RunIndexed(s1, acts[1..], if out == Filled then filled + 1 else filled);
      assert Run(s, acts).1[1..] == Run(s1, acts[1..]).1;
    }
  }

  lemma StepKinds(s: RxState, a: RxAction)
    requires s.WellFormed()
    ensures Step(s, a).1 == Filled ==> a.Fill?
  {
  }

  /** The counters of a run from the fresh ring, and where the two pointers stand: consumed <= filled <=
      consumed + N; RxBusy and the DMA pointer are at those counters modulo N. */
  lemma CountersChain(s: RxState, acts: seq<RxAction>)
    requires Fresh(s) && PossibleRun(acts)
    ensures s.Inv()
    ensures var (s', outs) := Run(s, acts);
            var n, filled, consumed := |s'.desc|, |FilledItems(acts, outs)|, s'.packets + s'.errors;
            && n == |s.desc| > 0 && |s'.ptr| == n
            && consumed <= filled <= consumed + n
            && s'.busy == consumed % n && s'.cur == s'.ptr[filled % n]
  {
    hide Run, RxState.Queue, RxState.Pending, RxState.WellFormed, FilledItems, TakenItems, Good, TotalBytes;
    FreshInv(s);
    FreshCounters(s);
    ItemsInOrder(s, acts);
    RunBooks(s, acts);
    RunIndexed(s, acts, 0);
    Bounds(Run(s, acts).0);
  }

  lemma FreshCounters(s: RxState)
    requires Fresh(s)
    ensures s.packets == s.errors == 0 && |s.desc| > 0
  {
  }

  /** In every reachable state slot i still points to RxBuffer[i], with 2048 bytes; so no two
      descriptors share a buffer. */
  lemma {:induction false} BuffersStay(s: RxState, acts: seq<RxAction>, i: nat)
    requires s.Inv() && PossibleRun(acts) && i < |s.desc|
    ensures var s' := Run(s, acts).0;
            && s'.buf == s.buf
            && s'.desc[i].buffer1 == VirtToPhys(s.buf[i]) && Size1(s'.desc[i].length) == BUF_SIZE
            && forall j | 0 <= j < |s.desc| && j != i :: s'.desc[j].buffer1 != s'.desc[i].buffer1
    decreases |acts|
  {
    if acts == [] {
      hide Owned, RxState.Queue, Size1, VirtToPhys, RxLengthWord;
      NeverEmpty(s, i);
    } else {
      hide Step, RxState.WellFormed, RxState.Queue, Size1, VirtToPhys;
      StepRefines(s, acts[0]);
      SameTable(s, acts[0]);
      BuffersStay(Step(s, acts[0]).0, acts[1..], i);
    }
  }

  /** The ring as the set-up leaves it: every descriptor with the DMA engine. */
  ghost predicate Fresh(s: RxState) {
    && s.WellFormed()
    && s.busy == 0 && s.cur == s.base
    && s.packets == s.errors == s.bytes == 0
    && forall i | 0 <= i < |s.desc| :: s.desc[i].status == DESC_OWN_BY_DMA
  }

  lemma FreshShape(s: RxState)
    requires 1 <= |s.desc| == |s.ptr| == |s.buf|
    requires s.busy == 0 && s.cur == s.base && s.packets == s.errors == s.bytes == 0
    requires forall i | 0 <= i < |s.desc| ::
               && s.ptr[i] == s.base + 16 * i
               && s.desc[i] == DmaDesc(DESC_OWN_BY_DMA, RxLengthWord(i == |s.desc| - 1), VirtToPhys(s.buf[i]), 0)
               && PhysToVirt(VirtToPhys(s.buf[i])) == s.buf[i]
               && VirtToPhys(s.buf[i]) in s.ram && |s.ram[VirtToPhys(s.buf[i])]| == BUF_SIZE
    requires forall i, j | 0 <= i < j < |s.desc| :: VirtToPhys(s.buf[i]) != VirtToPhys(s.buf[j])
    ensures Fresh(s)
  {
    hide Owned, IsRxValid, RxLength, RxLengthWord, VirtToPhys;
    forall i | 0 <= i < |s.desc| ensures Owned(s.desc[i]) { OwnBit(s.desc[i]); }
  }

  lemma FreshInv(s: RxState)
    requires Fresh(s)
    ensures s.Inv() && s.Pending() == [] && Indexed(s, 0)
  {
    hide IsRxValid, RxLength, RxLengthWord, VirtToPhys;
    forall i | 0 <= i < |s.desc| ensures Owned(s.desc[i]) { OwnBit(s.desc[i]); }
  }

  lemma OneTaken(item: Item)
    ensures Good([item]) == GoodOne(item)
    ensures TotalBytes(GoodOne(item)) == if IsRxValid(item.status) then |item.data| else 0
  {
    hide IsRxValid;
    assert [item][1..] == [] && GoodOne(item) + [] == GoodOne(item);
    assert GoodOne(item) != [] ==> GoodOne(item)[1..] == [];
  }
}
