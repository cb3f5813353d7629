/** The four-word DMA descriptor of the GMAC, and the bits of it the driver and the DMA engine use. */
module EthDesc {
  import opened Common

  datatype DmaDesc = DmaDesc(status: bv32, length: bv32, buffer1: nat, buffer2: nat)

  // status word
  const DESC_OWN_BY_DMA: bv32 := 0x80000000
  const DESC_FRAME_LENGTH_MASK: bv32 := 0x3FFF0000
  const DESC_ERROR: bv32 := 0x00008000
  const DESC_RX_FIRST: bv32 := 0x00000200
  const DESC_RX_LAST: bv32 := 0x00000100
  const DESC_TX_INT_ENABLE: bv32 := 0x40000000
  const DESC_TX_LAST: bv32 := 0x20000000
  const DESC_TX_FIRST: bv32 := 0x10000000
  const TX_DESC_END_OF_RING: bv32 := 0x00200000

  // length word
  const RX_DESC_END_OF_RING: bv32 := 0x00008000
  const DESC_SIZE1_MASK: bv32 := 0x00001FFF
  const DESC_SIZE2_MASK: bv32 := 0x1FFF0000

  const BUF_SIZE: nat := 2048
  const DESC_BYTES: nat := 16

  predicate Owned(d: DmaDesc) {
    d.status & DESC_OWN_BY_DMA == DESC_OWN_BY_DMA
  }

  predicate IsEmpty(d: DmaDesc) {
    d.length & DESC_SIZE1_MASK == 0 && d.length & DESC_SIZE2_MASK == 0
  }

  predicate NoError(status: bv32) {
    status & DESC_ERROR == 0
  }

  predicate IsRxValid(status: bv32) {
    && status & DESC_ERROR == 0
    && status & DESC_RX_FIRST == DESC_RX_FIRST
    && status & DESC_RX_LAST == DESC_RX_LAST
  }

  predicate IsLastTx(d: DmaDesc) {
    d.status & TX_DESC_END_OF_RING == TX_DESC_END_OF_RING
  }

  predicate IsLastRx(d: DmaDesc) {
    d.length & RX_DESC_END_OF_RING == RX_DESC_END_OF_RING
  }

  function RxLength(status: bv32): nat {
    ((status & DESC_FRAME_LENGTH_MASK) >> 16) as nat
  }

  /** The size field of buffer 1 of a length word. */
  function Size1(length: bv32): nat {
    (length & DESC_SIZE1_MASK) as nat
  }

  predicate NoSecondBuffer(length: bv32) {
    length & DESC_SIZE2_MASK == 0
  }

  /** The descriptor carries a whole frame, and its completion raises the transmit interrupt. */
  predicate WholeFrame(status: bv32) {
    && status & DESC_TX_FIRST == DESC_TX_FIRST
    && status & DESC_TX_LAST == DESC_TX_LAST
    && status & DESC_TX_INT_ENABLE == DESC_TX_INT_ENABLE
  }

  /** What `eth_tx` writes into the status word: the old word with the control bits set. */
  function TxStatus(old_: bv32): bv32 {
    old_ | DESC_OWN_BY_DMA | DESC_TX_INT_ENABLE | DESC_TX_LAST | DESC_TX_FIRST
  }

  /** What the DMA engine leaves in the status word of a sent frame: its own report, not owned any
      more, with the end-of-ring bit as it was. */
  function TxWriteBack(old_: bv32, report: bv32): bv32 {
    (report & 0x7FDFFFFF) | (old_ & 0x00200000)
  }

  /** What the DMA engine leaves in the status word of a received frame. */
  function RxWriteBack(report: bv32): bv32 {
    report & 0x7FFFFFFF
  }

  lemma TxStatusBits(d: DmaDesc, status: bv32)
    requires status == TxStatus(d.status)
    ensures Owned(d.(status := status))
    ensures IsLastTx(d.(status := status)) == IsLastTx(d)
    ensures NoError(status) == NoError(d.status)
    ensures WholeFrame(status)
  {
  }

  /** It sets the four highest bits and leaves every other as it is. */
  lemma TxStatusOnly(old_: bv32)
    ensures TxStatus(old_) & 0xF0000000 == 0xF0000000
    ensures TxStatus(old_) & 0x0FFFFFFF == old_ & 0x0FFFFFFF
  {
  }

  /** The status word of a frame that goes out whole, with CRC and padding, and reports back: the four
      bits for that, the end-of-ring bit where it belongs, and nothing else. */
  predicate Plain(status: bv32, last: bool) {
    status == if last then 0xF0200000 else 0xF0000000
  }

  /** A cleared slot is published like that. */
  lemma PlainFromClear(status: bv32, last: bool)
    requires status == if last then 0x00200000 else 0
    ensures Plain(TxStatus(status), last)
  {
  }

  lemma TxWriteBackBits(d: DmaDesc, report: bv32, status: bv32)
    requires status == TxWriteBack(d.status, report)
    ensures !Owned(d.(status := status))
    ensures IsLastTx(d.(status := status)) == IsLastTx(d)
    ensures NoError(status) == NoError(report)
  {
  }

  lemma TxClearedBits(d: DmaDesc, last: bool)
    requires d.status == (if last then TX_DESC_END_OF_RING else 0) && d.length == 0
    ensures !Owned(d) && IsEmpty(d) && IsLastTx(d) == last && NoError(d.status)
  {
  }

  lemma RxWriteBackBits(d: DmaDesc, report: bv32, status: bv32)
    requires status == RxWriteBack(report)
    ensures !Owned(d.(status := status))
    ensures IsRxValid(status) == IsRxValid(report)
  {
  }

  lemma RxWriteBackLength(report: bv32)
    ensures RxLength(RxWriteBack(report)) == RxLength(report)
  {
    var status := RxWriteBack(report);
    assert status & DESC_FRAME_LENGTH_MASK == report & DESC_FRAME_LENGTH_MASK;
  }

  /** The length word `eth_rx` and the ring setup write. */
  function RxLengthWord(last: bool): bv32 {
    (if last then RX_DESC_END_OF_RING else 0) | (2048 & DESC_SIZE1_MASK)
  }

  lemma RxLengthWordBits(d: DmaDesc, last: bool)
    requires d.length == RxLengthWord(last)
    ensures IsLastRx(d) == last && !IsEmpty(d) && Size1(d.length) == BUF_SIZE
  {
    assert RxLengthWord(last) & DESC_SIZE1_MASK == 2048;
  }

  /** That word, and the one of a slot with the DMA engine, in numbers. */
  lemma RxWords(last: bool)
    ensures RxLengthWord(last) == if last then 0x00008800 else 0x00000800
    ensures DESC_OWN_BY_DMA == 0x80000000 && TX_DESC_END_OF_RING == 0x00200000
  {
  }

  // ---- the words as the DMA engine lays them out: bit 31 on the left ----

  predicate EngineOwns(status: bv32) {
    status >> 31 == 1
  }

  /** A status word with the bits a frame is handed over with. */
  function WithFrameBits(status: bv32): bv32 {
    status | 0xF0000000
  }

  lemma EngineWords(d: DmaDesc)
    ensures Owned(d) <==> EngineOwns(d.status)
    ensures TxStatus(d.status) == WithFrameBits(d.status)
  {
  }

  /** The report of a whole frame without an error: bits 9 and 8 set, bit 15 clear. */
  predicate WholeGood(report: bv32) {
    (report >> 15) & 1 == 0 && (report >> 9) & 1 == 1 && (report >> 8) & 1 == 1
  }

  /** Its length, in bits 29 to 16. */
  function FrameBytes(report: bv32): nat {
    ((report >> 16) & 0x3FFF) as nat
  }

  /** How the driver reads a report is how the engine writes it. */
  lemma ReadsReport(report: bv32)
    ensures IsRxValid(report) <==> WholeGood(report)
    ensures RxLength(report) == FrameBytes(report)
  {
    hide IsRxValid, WholeGood, RxLength, FrameBytes;
    ReadsValid(report);
    ReadsLength(report);
  }

  lemma ReadsValid(report: bv32)
    ensures IsRxValid(report) <==> WholeGood(report)
  {
  }

  lemma ReadsLength(report: bv32)
    ensures RxLength(report) == FrameBytes(report)
  {
    MaskThenShift(report);
    SameNumber((report & DESC_FRAME_LENGTH_MASK) >> 16, (report >> 16) & 0x3FFF);
  }

  lemma MaskThenShift(report: bv32)
    ensures (report & DESC_FRAME_LENGTH_MASK) >> 16 == (report >> 16) & 0x3FFF
  {
  }

  lemma SameNumber(a: bv32, b: bv32)
    requires a == b
    ensures a as nat == b as nat
  {
  }

  /** A length the engine writes, among whatever else, comes back. */
  lemma LengthRoundTrip(length: bv32, rest: bv32)
    requires length <= 0x3FFF && rest & 0x3FFF0000 == 0
    ensures RxLength((length << 16) | rest) == length as nat
  {
    assert (((length << 16) | rest) & DESC_FRAME_LENGTH_MASK) >> 16 == length;
  }

  /** OWN is bit 31 of the status word, a transmit descriptor ends the ring with bit 21 and asks for a
      whole frame and an interrupt with bits 30 to 28; bit 15 reports an error. */
  lemma StatusLayout(d: DmaDesc)
    ensures Owned(d) <==> d.status >> 31 == 1
    ensures IsLastTx(d) <==> (d.status >> 21) & 1 == 1
    ensures WholeFrame(d.status) <==> (d.status >> 28) & 7 == 7
    ensures NoError(d.status) <==> (d.status >> 15) & 1 == 0
  {
  }

  /** The sizes of the two buffers are bits 12 to 0 and 28 to 16 of the length word, a receive descriptor
      ends the ring with bit 15. */
  lemma LengthLayout(d: DmaDesc)
    ensures IsEmpty(d) <==> d.length & 0x1FFF == 0 && (d.length >> 16) & 0x1FFF == 0
    ensures NoSecondBuffer(d.length) <==> (d.length >> 16) & 0x1FFF == 0
    ensures IsLastRx(d) <==> (d.length >> 15) & 1 == 1
    ensures Size1(d.length) == (d.length & 0x1FFF) as nat
  {
  }

  lemma EmptyLayout(d: DmaDesc)
    ensures IsEmpty(d) <==> d.length & 0x1FFF1FFF == 0
  {
  }

  /** A length that fits a transmit buffer survives the size field. */
  lemma SizeField(length: bv32)
    requires length <= 2048
    ensures length & DESC_SIZE1_MASK == length
    ensures (length & DESC_SIZE1_MASK) & DESC_SIZE1_MASK == length
    ensures NoSecondBuffer((length << 0) & DESC_SIZE1_MASK)
  {
  }

  /** A descriptor with no second buffer is empty exactly when its frame is. */
  lemma EmptySize(d: DmaDesc)
    requires NoSecondBuffer(d.length)
    ensures IsEmpty(d) <==> Size1(d.length) == 0
  {
    ZeroWord(d.length & DESC_SIZE1_MASK);
  }

  lemma ZeroWord(x: bv32)
    ensures x as nat == 0 <==> x == 0
  {
  }

  /** `eth_virt_to_phys` and `eth_phys_to_virt` of gmac/rust/src/platform.rs: the DMA engine takes
      32-bit addresses. */
  function VirtToPhys(va: nat): nat {
    va % U32
  }

  function PhysToVirt(pa: nat): nat {
    pa
  }
}
