/**
 * The words the driver writes for one command: the header in the command list, and the PRDT entries of
 * the scatter-gather list; and what the controller reads in them.
 */
module CommandTable {
  import opened Common
  import opened Memory
  import opened Bits
  import opened Fis
  import opened Hba

  const AHCI_CMD_SZ: nat := 32
  const AHCI_CMD_TBL_HDR_SZ: nat := 0x80
  const AHCI_SG_SZ: nat := 16

  /** Where `ahci_fill_cmd_slot` puts the header of a slot, from the start of the command list. */
  function HeaderOffset(slot: nat): nat {
    AHCI_CMD_SZ * (AHCI_CMD_SZ * slot)
  }

  /** That is 1024 bytes on for each slot, and where the controller looks for it exactly for slot 0. */
  lemma HeaderOnlyForSlotZero(slot: nat)
    ensures HeaderOffset(slot) == 1024 * slot
    ensures HeaderOffset(slot) == 32 * slot <==> slot == 0
  {
  }

  /** Entry `k` as `ahci_fill_sg` means it. */
  function SgEntry(at: nat, len: nat, k: nat): Region {
    var done := k * AHCI_MAX_BYTES_PER_SG;
    Region(at + done, if len < done + AHCI_MAX_BYTES_PER_SG then (if len > done then len - done else 0) else AHCI_MAX_BYTES_PER_SG)
  }

  /** The size word of entry `k`: the bytes less one, 4 MiB or what is left of the buffer. */
  function SizeWord(bufLen: nat, k: nat): int {
    if bufLen - 0x40_0000 * k >= 0x40_0000 then 0x3F_FFFF else bufLen - 0x40_0000 * k - 1
  }

  /** One pass of the loop of `ahci_fill_sg`, by the length left as the loop keeps it. */
  lemma SgStep(bufLen: nat, i: nat, left: int)
    requires 0 < bufLen <= AHCI_MAX_BYTES_PER_TRANS && i < SgCount(bufLen)
    requires left == (bufLen - i * AHCI_MAX_BYTES_PER_SG) % U32
    ensures left > 0
    ensures SizeWord(bufLen, i) ==
            (if left < AHCI_MAX_BYTES_PER_SG then left - 1 else AHCI_MAX_BYTES_PER_SG - 1) % 0x40_0000
    ensures (left - AHCI_MAX_BYTES_PER_SG) % U32 == (bufLen - (i + 1) * AHCI_MAX_BYTES_PER_SG) % U32
  {
    assert left == bufLen - i * AHCI_MAX_BYTES_PER_SG;
  }

  /** What the controller reads in an entry is even: the address down, the length up. */
  lemma SgRead(dma: nat, bufLen: nat, k: nat)
    requires 0 < bufLen <= AHCI_MAX_BYTES_PER_TRANS && k < SgCount(bufLen)
    ensures 0 <= SizeWord(bufLen, k) < 0x40_0000
    ensures Region(EvenDown(dma + 0x40_0000 * k), SizeWord(bufLen, k) / 2 * 2 + 2) ==
            SgEntry(EvenDown(dma), EvenUp(bufLen), k)
  {
    assert (0x40_0000 * k) % 2 == 0;
  }

  lemma EvenCount(bufLen: nat)
    requires 0 < bufLen <= AHCI_MAX_BYTES_PER_TRANS
    ensures EvenUp(bufLen) <= AHCI_MAX_BYTES_PER_TRANS && SgCount(EvenUp(bufLen)) == SgCount(bufLen)
  {
  }

  /** The words of the first `n` entries of the PRDT, for a buffer at physical address `dma`. */
  ghost predicate SgFilled(m: Mem, table: nat, n: nat, dma: nat, bufLen: nat) {
    && table + AHCI_SG_SZ * n <= |m|
    && forall k | 0 <= k < n ::
         && Address(m, table + AHCI_SG_SZ * k) == dma + 0x40_0000 * k
         && Word(m, table + AHCI_SG_SZ * k + 12) == SizeWord(bufLen, k)
  }

  lemma SgFilledNone(m: Mem, table: nat, dma: nat, bufLen: nat)
    requires table <= |m|
    ensures SgFilled(m, table, 0, dma, bufLen)
  {
  }

  lemma SgFilledNext(m: Mem, m': Mem, table: nat, n: nat, dma: nat, bufLen: nat)
    requires SgFilled(m, table, n, dma, bufLen) && table + AHCI_SG_SZ * (n + 1) <= |m|
    requires var e := table + AHCI_SG_SZ * n;
             && OnlyIn(m, m', e, e + AHCI_SG_SZ)
             && Address(m', e) == dma + 0x40_0000 * n && Word(m', e + 12) == SizeWord(bufLen, n)
    ensures SgFilled(m', table, n + 1, dma, bufLen)
  {
    hide Word, SizeWord;
    var e := table + AHCI_SG_SZ * n;
    forall k | 0 <= k < n
      ensures Address(m', table + AHCI_SG_SZ * k) == dma + 0x40_0000 * k
      ensures Word(m', table + AHCI_SG_SZ * k + 12) == SizeWord(bufLen, k)
    {
      var at := table + AHCI_SG_SZ * k;
      WordKept(m, m', e, e + AHCI_SG_SZ, at);
      WordKept(m, m', e, e + AHCI_SG_SZ, at + 4);
      WordKept(m, m', e, e + AHCI_SG_SZ, at + 12);
    }
  }

  lemma SgDone(m: Mem, table: nat, n: nat, dma: nat, bufLen: nat)
    requires 0 < bufLen <= AHCI_MAX_BYTES_PER_TRANS && n == SgCount(bufLen) && SgFilled(m, table, n, dma, bufLen)
    ensures table + AHCI_SG_SZ * n <= |m| && EvenUp(bufLen) > 0
    ensures SgEntries(Prdt(m, table, n), EvenDown(dma), EvenUp(bufLen))
  {
    EvenCount(bufLen);
    hide Word, Address, SizeWord, EvenDown;
    var regions := Prdt(m, table, n);
    forall i | 0 <= i < n
      ensures i * AHCI_MAX_BYTES_PER_SG < EvenUp(bufLen)
      ensures regions[i] == Region(EvenDown(dma) + i * AHCI_MAX_BYTES_PER_SG, SgLength(EvenUp(bufLen), i))
    {
      SgRead(dma, bufLen, i);
      assert regions[i] == PrdAt(m, table, i);
    }
  }

  /** The first word of a header: FIS length in dwords, write bit, number of PRDT entries. */
  function Opts(sgCount: nat, isWrite: nat): nat {
    BitOr(BitOr(FIS_SIZE / 4, sgCount * 0x1_0000), isWrite * 0x40)
  }

  /** It holds those three fields and nothing else. */
  lemma OptsFields(sgCount: nat, isWrite: nat)
    requires sgCount < 0x1_0000 && isWrite <= 1
    ensures var opts := Opts(sgCount, isWrite);
            && opts < U32
            && opts == 5 + 0x40 * isWrite + 0x1_0000 * sgCount
            && opts % 0x20 == 5 && opts / 0x40 % 2 == isWrite && opts / 0x1_0000 == sgCount
            && opts / 0x20 % 2 + opts / 0x80 % 0x200 == 0
  {
    hide BitOr;
    Pow2Of16();
    assert Pow2(6) == 0x40 by { assert Pow2(2) == 4 && Pow2(4) == 0x10; }
    OrCommutes(5, sgCount * 0x1_0000);
    OrBelow(0, sgCount, 5, 16);
    OrZero(5);
    OrBelow(5, sgCount, isWrite * 0x40, 16);
    OrCommutes(5, isWrite * 0x40);
    OrBelow(0, isWrite, 5, 6);
    FieldsApart(isWrite, sgCount);
  }

  lemma FieldsApart(bit: nat, count: nat)
    requires count < 0x1_0000 && bit <= 1
    ensures var x := (5 + bit * 0x40) + count * 0x1_0000;
            && x < U32 && x % 0x20 == 5 && x / 0x40 % 2 == bit && x / 0x1_0000 == count
            && x / 0x20 % 2 + x / 0x80 % 0x200 == 0
  {
    var x := (5 + bit * 0x40) + count * 0x1_0000;
    ModUnique(x, 2 * bit + 0x800 * count, 5, 0x20);
    DivUnique(x, 2 * bit + 0x800 * count, 5, 0x20);
    DivUnique(x, bit + 0x400 * count, 5, 0x40);
    DivUnique(x, 0x200 * count, 5 + bit * 0x40, 0x80);
    DivUnique(x, count, 5 + bit * 0x40, 0x1_0000);
    ModUnique(2 * bit + 0x800 * count, bit + 0x400 * count, 0, 2);
    ModUnique(bit + 0x400 * count, 0x200 * count, bit, 2);
    ModUnique(0x200 * count, count, 0, 0x200);
  }

  lemma TilesNothing(m: Mem, at: nat, buf: nat)
    requires at <= |m|
    ensures Tiles(Prdt(m, at, 0), buf, 0)
  {
  }

  lemma TableKept(m: Mem, m': Mem, lo: nat, hi: nat, at: nat, n: nat)
    requires OnlyIn(m, m', lo, hi) && hi <= at && at + AHCI_SG_SZ * n <= |m|
    ensures Prdt(m', at, n) == Prdt(m, at, n)
  {
    hide Word;
    forall k | 0 <= k < n
      ensures Prdt(m', at, n)[k] == Prdt(m, at, n)[k]
    {
      var e := at + AHCI_SG_SZ * k;
      WordKept(m, m', lo, hi, e);
      WordKept(m, m', lo, hi, e + 4);
      WordKept(m, m', lo, hi, e + 12);
    }
  }
}
