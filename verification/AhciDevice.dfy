/**
 * `struct ahci_device`, the memory it shares with the controller, and the controller's registers.
 * The methods write command tables into memory byte by byte and issue them; each transfer is proved
 * to be the flat copy between disk and buffer that its caller asked for.
 */
module AhciDevice {
  import opened Common
  import opened Memory
  import opened Fis
  import opened Bits
  import opened Hba
  import opened Disk
  import opened Identify
  import opened CommandTable
  import opened Requests

  const AHCI_CMD_SLOT_SZ: nat := 1024
  const AHCI_RX_FIS_SZ: nat := 256
  const AHCI_CMD_TBL_SZ: nat := AHCI_CMD_TBL_HDR_SZ + AHCI_MAX_SG * AHCI_SG_SZ
  const AHCI_PORT_PRIV_DMA_SZ: nat := AHCI_CMD_SLOT_SZ + AHCI_CMD_TBL_SZ + AHCI_RX_FIS_SZ

  class AhciDevice {
    // memory, by physical address, and where it lies in the virtual address space
    const ram: array<byte>
    const virtBase: nat

    // struct ahci_ioport
    var cmdSlot: nat
    var cmdSlotDma: nat
    var rxFis: nat
    var rxFisDma: nat
    var cmdTbl: nat
    var cmdTblDma: nat
    var cmdTblSg: nat

    // the port's registers: command list and received-FIS addresses, PxCI
    var listAddress: nat
    var fisAddress: nat
    var commandIssue: nat

    // how many more times PxCI reads as busy
    var busy: nat

    // struct ahci_blk_dev and the flags of struct ahci_device
    var lba48: bool
    var flags: bv32
    var disk: Disk

    /** The structure before anything is set up, and a port with no command outstanding. */
    constructor (ramSize: nat, base: nat, d: Disk)
      ensures fresh(ram) && ram.Length == ramSize && virtBase == base
      ensures commandIssue == 0 && flags == 0 && disk == d
    {
      ram := new byte[ramSize](_ => 0);
      virtBase := base;
      cmdSlot, cmdSlotDma, rxFis, rxFisDma := 0, 0, 0, 0;
      cmdTbl, cmdTblDma, cmdTblSg := 0, 0, 0;
      listAddress, fisAddress, commandIssue, busy := 0, 0, 0, 0;
      lba48, flags, disk := false, 0, d;
    }

    function VirtToPhys(va: nat): nat
      requires virtBase <= va
    {
      va - virtBase
    }

    /** The 2304-byte block and its four parts, as `ahci_port_start` lays them out. */
    ghost predicate Laid()
      reads this
    {
      && virtBase > 0
      && MultipleOf(cmdSlotDma, 1024) && cmdSlotDma + AHCI_PORT_PRIV_DMA_SZ <= ram.Length <= U64 && MultipleOf(ram.Length, 2)
      && cmdSlot == virtBase + cmdSlotDma
      && rxFisDma == cmdSlotDma + AHCI_CMD_SLOT_SZ && rxFis == virtBase + rxFisDma
      && cmdTblDma == rxFisDma + AHCI_RX_FIS_SZ && cmdTbl == virtBase + cmdTblDma
      && cmdTblSg == cmdTbl + AHCI_CMD_TBL_HDR_SZ
      && listAddress == cmdSlotDma && fisAddress == rxFisDma
    }

    /** Between calls no command is outstanding. */
    ghost predicate Valid()
      reads this
    {
      Laid() && commandIssue == 0 && disk.Valid()
    }

    /** A buffer of the caller: in memory, and not in the block the driver allocated for itself. */
    ghost predicate Buffer(va: nat, len: nat)
      reads this
    {
      && virtBase <= va && va - virtBase + len <= ram.Length
      && (va - virtBase + len <= cmdSlotDma || cmdSlotDma + AHCI_PORT_PRIV_DMA_SZ <= va - virtBase)
    }

    /** The controller transfers from and to even physical addresses: with an odd one it uses the byte
        before. */
    function Aligned(va: nat): nat
      requires virtBase <= va
    {
      virtBase + EvenDown(va - virtBase)
    }

    /** So the transfer is on the caller's buffer exactly when that is even. */
    lemma AlignedIff(va: nat)
      requires virtBase <= va
      ensures Aligned(va) == va <==> VirtToPhys(va) % 2 == 0
    {
    }

    /** What a call with this buffer leaves as it was. */
    twostate predicate Untouched(va: nat, len: nat)
      reads this, ram
    {
      virtBase <= va &&
      OnlyInTwo(old(ram[..]), ram[..], cmdSlotDma, cmdSlotDma + AHCI_PORT_PRIV_DMA_SZ,
                va - virtBase, va - virtBase + len)
    }

    ghost function Data(va: nat, len: nat): (data: seq<byte>)
      reads this, ram
      requires virtBase <= va && va - virtBase + len <= ram.Length
      ensures |data| == len
    {
      ram[..][va - virtBase..va - virtBase + len]
    }

    // ---- memory ----

    method Store(at: nat, bytes: seq<byte>)
      requires at + |bytes| <= ram.Length
      modifies ram
      ensures ram[..] == Put(old(ram[..]), at, bytes)
      ensures OnlyIn(old(ram[..]), ram[..], at, at + |bytes|)
    {
      hide MultipleOf, Put;
      PutBytes(ram[..], at, bytes);
      for k := 0 to |bytes|
        invariant forall i | 0 <= i < ram.Length ::
                    ram[i] == if at <= i < at + k then bytes[i - at] else old(ram[i])
      {
        ram[at + k] := bytes[k];
      }
      assert ram[..] == Put(old(ram[..]), at, bytes);
    }

    method StoreWord(at: nat, v: nat)
      requires at + 4 <= ram.Length && v < U32
      modifies ram
      ensures OnlyIn(old(ram[..]), ram[..], at, at + 4)
      ensures Word(ram[..], at) == v
    {
      WordStored(ram[..], at, v);
      Store(at, Le32(v));
    }

    // ---- the controller ----

    /** Writing 1 to a bit of PxCI hands the controller that slot; it takes its time. */
    method WriteCommandIssue(v: nat)
      modifies this`commandIssue, this`busy
      ensures commandIssue == BitOr(old(commandIssue), v)
    {
      commandIssue := BitOr(commandIssue, v);
      busy := *;
    }

    /** Reading PxCI. While the driver reads, the controller works: some read later it has executed the
        command in the lowest slot set and cleared its bit. */
    method ReadCommandIssue() returns (v: nat)
      requires disk.Valid()
      modifies this`commandIssue, this`busy, this`disk, ram
      ensures v == commandIssue
      ensures old(commandIssue) == 0 || old(busy) > 0 ==>
                ram[..] == old(ram[..]) && disk == old(disk) && commandIssue == old(commandIssue)
      ensures old(commandIssue) != 0 && old(busy) > 0 ==> busy == old(busy) - 1
      ensures old(commandIssue) != 0 && old(busy) == 0 ==>
                && Ffs(old(commandIssue)) > 0
                && (ram[..], disk) == Process(old(ram[..]), listAddress, Ffs(old(commandIssue)) - 1, old(disk))
                && Pow2(Ffs(old(commandIssue)) - 1) <= old(commandIssue)
                && commandIssue == old(commandIssue) - Pow2(Ffs(old(commandIssue)) - 1)
      ensures disk.Valid()
    {
      hide MultipleOf, Process, Disk.Perform, Disk.Valid;
      ValidShape(disk);
      if commandIssue != 0 {
        if busy > 0 {
          busy := busy - 1;
        } else {
          FfsBound(commandIssue);
          var slot := Ffs(commandIssue) - 1;
          ProcessValid(ram[..], listAddress, slot, disk);
          var (m, d) := Process(ram[..], listAddress, slot, disk);
          forall i | 0 <= i < ram.Length {
            ram[i] := m[i];
          }
          assert ram[..] == m;
          disk := d;
          commandIssue := commandIssue - Pow2(slot);
          busy := *;
        }
      }
      v := commandIssue;
    }

    // ---- building a command ----

    /** One entry of the PRDT: address, and size less one. */
    method FillEntry(at: nat, addr: nat, size: nat)
      requires at + AHCI_SG_SZ <= ram.Length && addr < U64 && size < 0x40_0000
      modifies ram
      ensures OnlyIn(old(ram[..]), ram[..], at, at + AHCI_SG_SZ)
      ensures Address(ram[..], at) == addr && Word(ram[..], at + 12) == size
    {
      hide MultipleOf, Word;
      AddressSplit(addr);
      StoreWord(at, addr % U32);
      ghost var m1 := ram[..];
      StoreWord(at + 4, addr / U32);
      ghost var m2 := ram[..];
      WordKept(m1, m2, at + 4, at + 8, at);
      StoreWord(at + 12, size);
      WordKept(m2, ram[..], at + 12, at + 16, at);
      WordKept(m2, ram[..], at + 12, at + 16, at + 4);
    }

    /**
     * `ahci_fill_sg`: the buffer in pieces of 4 MiB. The length left is a 32-bit word and wraps on the
     * last subtraction; by then it is not used any more. What the controller reads in the entries is the
     * buffer made even: from the even address below, for the even length above.
     */
    method AhciFillSg(buf: nat, bufLen: nat) returns (sgCount: nat)
      requires Laid() && Buffer(buf, bufLen) && 0 < bufLen < U32
      modifies ram
      ensures bufLen > 0xE00_0000 ==> sgCount == 0 && ram[..] == old(ram[..])
      ensures bufLen <= 0xE00_0000 ==>
                && sgCount == SgCount(EvenUp(bufLen)) == (bufLen - 1) / 0x40_0000 + 1 <= 56
                && SgFilled(ram[..], cmdTblSg - virtBase, sgCount, buf - virtBase, bufLen)
                && OnlyIn(old(ram[..]), ram[..], cmdTblSg - virtBase, cmdTblSg - virtBase + AHCI_SG_SZ * sgCount)
                && cmdTblSg - virtBase + AHCI_SG_SZ * sgCount <= ram.Length
                && SgEntries(Prdt(ram[..], cmdTblSg - virtBase, sgCount), EvenDown(buf - virtBase), EvenUp(bufLen))
    {
      hide MultipleOf, SgFilled, SgEntries, Prdt, Word, EvenDown, SizeWord;
      var maxBytes := AHCI_MAX_BYTES_PER_SG;
      sgCount := (bufLen - 1) / maxBytes + 1;
      if sgCount > AHCI_MAX_SG {
        return 0;
      }
      EvenCount(bufLen);
      var sg := VirtToPhys(cmdTblSg);
      var left := bufLen;
      ghost var table, at := cmdTblSg - virtBase, buf - virtBase;
      SgFilledNone(ram[..], table, at, bufLen);
      for i := 0 to sgCount
        invariant sg == table + AHCI_SG_SZ * i
        invariant left == (bufLen - i * maxBytes) % U32
        invariant OnlyIn(old(ram[..]), ram[..], table, sg)
        invariant SgFilled(ram[..], table, i, at, bufLen)
      {
        ghost var m := ram[..];
        SgStep(bufLen, i, left);
        SgRead(at, bufLen, i);
        var bufDma := VirtToPhys(buf + i * maxBytes);
        var size := (if left < maxBytes then left - 1 else maxBytes - 1) % 0x40_0000;
        FillEntry(sg, bufDma, size);
        SgFilledNext(m, ram[..], table, i, at, bufLen);
        sg := sg + AHCI_SG_SZ;
        left := (left - maxBytes) % U32;
      }
      SgDone(ram[..], table, sgCount, at, bufLen);
    }

    /** `ahci_fill_cmd_slot`. The slot number is scaled twice, by the constant and by the pointer's
        element size. */
    method AhciFillCmdSlot(slot: nat, opts: nat)
      requires Laid() && opts < U32
      requires cmdSlotDma + HeaderOffset(slot) + AHCI_CMD_SZ <= ram.Length
      modifies ram
      ensures var at := cmdSlotDma + HeaderOffset(slot);
              && OnlyIn(old(ram[..]), ram[..], at, at + 16)
              && Word(ram[..], at) == opts && Word(ram[..], at + 4) == 0 && Address(ram[..], at + 8) == cmdTblDma
    {
      hide MultipleOf, Word;
      var at := VirtToPhys(cmdSlot + HeaderOffset(slot));
      AddressSplit(cmdTblDma);
      StoreWord(at, opts);
      ghost var m1 := ram[..];
      StoreWord(at + 4, 0);
      ghost var m2 := ram[..];
      WordKept(m1, m2, at + 4, at + 8, at);
      StoreWord(at + 8, cmdTblDma % U32);
      ghost var m3 := ram[..];
      WordKept(m2, m3, at + 8, at + 12, at);
      WordKept(m2, m3, at + 8, at + 12, at + 4);
      StoreWord(at + 12, cmdTblDma / U32);
      WordKept(m3, ram[..], at + 12, at + 16, at);
      WordKept(m3, ram[..], at + 12, at + 16, at + 4);
      WordKept(m3, ram[..], at + 12, at + 16, at + 8);
    }

    /** `ahci_get_cmd_slot`: 0 when nothing is outstanding, else the slot after the lowest one that is,
        whether that is free or not; 32 when that is the last. */
    method AhciGetCmdSlot(value: nat) returns (slot: nat)
      requires value < U32
      ensures slot <= 32 && (slot == 0 <==> value == 0)
      ensures slot > 0 ==> Bit(value, slot - 1) && forall k: nat | k < slot - 1 :: !Bit(value, k)
      ensures slot == 32 <==> value == 0x8000_0000
      ensures slot < 32 && !Bit(value, slot) <==> value == 0 || (value != 0x8000_0000 && !Bit(value, Ffs(value)))
    {
      BitsOfZero(0);
      slot := 0;
      if value != 0 {
        slot := AhciFfs32(value);
        FfsIsLowest(value);
        Pow2Of32();
        FfsWithin(value, 32);
      }
    }

    /** What of memory takes part in a command: the buffer made even, or nothing for a null pointer. */
    function DataLength(buf: nat, bufLen: nat): nat {
      if buf == 0 then 0 else EvenUp(bufLen)
    }

    function DataStart(buf: nat): nat
      requires buf == 0 || virtBase <= buf
    {
      if buf == 0 then virtBase else Aligned(buf)
    }

    /** The stretch of memory that takes part in a command. */
    ghost function CommandData(buf: nat, bufLen: nat): (data: seq<byte>)
      reads this, ram
      requires Laid() && (buf != 0 ==> Buffer(buf, bufLen))
      ensures |data| == DataLength(buf, bufLen)
    {
      EvenInside(buf, bufLen);
      Data(DataStart(buf), DataLength(buf, bufLen))
    }

    /** The entries of a command. */
    function SgNumber(buf: nat, bufLen: nat): nat {
      if buf == 0 || bufLen == 0 then 0 else (bufLen - 1) / 0x40_0000 + 1
    }

    /** The controller finds the FIS in the command table, and the first word of the header says 5 dwords,
        the direction and the entries; of the memory before only the driver's block and the header of the
        slot have changed. */
    ghost predicate Issued(before: Mem, issued: Mem, slot: nat, cfis: seq<byte>, isWrite: nat, entries: nat)
      reads this
    {
      && Laid() && |issued| == ram.Length
      && OnlyInTwo(before, issued, cmdSlotDma, cmdSlotDma + AHCI_PORT_PRIV_DMA_SZ,
                   cmdSlotDma + HeaderOffset(slot), cmdSlotDma + HeaderOffset(slot) + 16)
      && issued[cmdTblDma..cmdTblDma + FIS_SIZE] == cfis
      && cmdSlotDma + HeaderOffset(slot) + 4 <= |issued|
      && Word(issued, cmdSlotDma + HeaderOffset(slot)) == 5 + 0x40 * isWrite + 0x1_0000 * entries
    }

    /** The command list and the command table hold this command, in slot 0. */
    ghost predicate Built(cfis: seq<byte>, isWrite: nat, at: nat, len: nat)
      reads this, ram
    {
      Laid() &&
      var m := ram[..];
      var h := HeaderAt(m, listAddress);
      && h.fisDwords == 5 && h.other == 0 && h.write == (isWrite == 1) && h.table == cmdTblDma && h.prdtLength <= AHCI_MAX_SG
      && m[cmdTblDma..cmdTblDma + FIS_SIZE] == cfis
      && Tiles(Prdt(m, cmdTblDma + AHCI_CMD_TBL_HDR_SZ, h.prdtLength), at, len)
    }

    /** The scatter-gather list of a command, if it has data. */
    method FillData(buf: nat, bufLen: nat) returns (sgCount: nat)
      requires Laid() && bufLen <= AHCI_MAX_BYTES_PER_TRANS && (buf != 0 ==> Buffer(buf, bufLen))
      modifies ram
      ensures sgCount == SgNumber(buf, bufLen)
      ensures sgCount <= AHCI_MAX_SG && cmdTblSg - virtBase + AHCI_SG_SZ * sgCount <= ram.Length
      ensures OnlyIn(old(ram[..]), ram[..], cmdTblSg - virtBase, cmdTblSg - virtBase + AHCI_SG_SZ * sgCount)
      ensures Tiles(Prdt(ram[..], cmdTblSg - virtBase, sgCount), DataStart(buf) - virtBase, DataLength(buf, bufLen))
    {
      hide MultipleOf, Word, Prdt, Tiles, SgEntries;
      sgCount := 0;
      TilesNothing(ram[..], cmdTblSg - virtBase, DataStart(buf) - virtBase);
      if buf != 0 && bufLen != 0 {
        sgCount := AhciFillSg(buf, bufLen);
        SgTiles(Prdt(ram[..], cmdTblSg - virtBase, sgCount), EvenDown(buf - virtBase), EvenUp(bufLen));
      }
    }

    /** The command table of a command: the FIS, and the scatter-gather list. */
    method WriteTable(cfis: seq<byte>, buf: nat, bufLen: nat) returns (sgCount: nat)
      requires Laid() && |cfis| == FIS_SIZE && bufLen <= AHCI_MAX_BYTES_PER_TRANS
      requires buf != 0 ==> Buffer(buf, bufLen)
      modifies ram
      ensures sgCount == SgNumber(buf, bufLen)
      ensures sgCount <= AHCI_MAX_SG && cmdTblDma + AHCI_CMD_TBL_HDR_SZ + AHCI_SG_SZ * sgCount <= ram.Length
      ensures OnlyIn(old(ram[..]), ram[..], cmdTblDma, cmdTblDma + AHCI_CMD_TBL_SZ)
      ensures ram[..][cmdTblDma..cmdTblDma + FIS_SIZE] == cfis
      ensures Tiles(Prdt(ram[..], cmdTblDma + AHCI_CMD_TBL_HDR_SZ, sgCount), DataStart(buf) - virtBase, DataLength(buf, bufLen))
    {
      hide MultipleOf, Word, Prdt, Tiles, SgEntries, EvenDown, EvenUp;
      var table := VirtToPhys(cmdTbl);
      ghost var sg := table + AHCI_CMD_TBL_HDR_SZ;
      Store(table, cfis);
      ghost var m1 := ram[..];
      PutRange(old(ram[..]), table, cfis);
      sgCount := FillData(buf, bufLen);
      RangeKept(m1, ram[..], sg, sg + AHCI_SG_SZ * sgCount, table, FIS_SIZE);
    }

    /** The part of `ahci_exec_ata_cmd` that writes the command table and the header. */
    method BuildCommand(slot: nat, cfis: seq<byte>, buf: nat, bufLen: nat, isWrite: nat)
      requires Laid() && |cfis| == FIS_SIZE && bufLen <= AHCI_MAX_BYTES_PER_TRANS && isWrite <= 1
      requires buf != 0 ==> Buffer(buf, bufLen)
      requires cmdSlotDma + HeaderOffset(slot) + AHCI_CMD_SZ <= ram.Length
      modifies ram
      ensures var at := cmdSlotDma + HeaderOffset(slot);
              && OnlyInTwo(old(ram[..]), ram[..], cmdSlotDma, cmdSlotDma + AHCI_PORT_PRIV_DMA_SZ, at, at + 16)
              && ram[..][cmdTblDma..cmdTblDma + FIS_SIZE] == cfis
              && HeaderAt(ram[..], at).table == cmdTblDma
              && Word(ram[..], at) == 5 + 0x40 * isWrite + 0x1_0000 * SgNumber(buf, bufLen)
      ensures slot == 0 ==> OnlyIn(old(ram[..]), ram[..], cmdSlotDma, cmdSlotDma + AHCI_PORT_PRIV_DMA_SZ)
      ensures slot == 0 ==> Built(cfis, isWrite, DataStart(buf) - virtBase, DataLength(buf, bufLen))
    {
      hide MultipleOf, Word, Prdt, Tiles, Opts, EvenDown, EvenUp, Address;
      var sgCount := WriteTable(cfis, buf, bufLen);
      ghost var m2 := ram[..];
      var opts := Opts(sgCount, isWrite);
      OptsFields(sgCount, isWrite);
      AhciFillCmdSlot(slot, opts);
      ghost var m3, at := ram[..], cmdSlotDma + HeaderOffset(slot);
      HeaderMisses(slot);
      RangeKept(m2, m3, at, at + 16, cmdTblDma, FIS_SIZE);
      if slot == 0 {
        TableKept(m2, m3, at, at + 16, cmdTblDma + AHCI_CMD_TBL_HDR_SZ, sgCount);
      }
    }

    /** Wherever the header goes, it misses the FIS. */
    lemma HeaderMisses(slot: nat)
      requires Laid()
      ensures var at := cmdSlotDma + HeaderOffset(slot);
              at + 16 <= cmdTblDma || cmdTblDma + FIS_SIZE <= at
    {
    }

    /** The part of `ahci_exec_ata_cmd` that starts the transfer and waits for it. */
    method IssueAndWait(slot: nat)
      requires disk.Valid()
      modifies this`commandIssue, this`busy, this`disk, ram
      ensures disk.Valid() && |old(disk).view| == |old(disk).media|
      ensures (ram[..], disk, commandIssue) ==
              Serve(old(ram[..]), listAddress, old(disk), BitOr(old(commandIssue), Pow2(slot)), slot)
    {
      hide MultipleOf, Process, Disk.Valid, BitOr, Bit, Ffs, Serve, Pow2;
      ValidShape(disk);
      OrSets(commandIssue, slot);
      BitsOfZero(slot);
      WriteCommandIssue(Pow2(slot));
      var running := true;
      while running
        invariant disk.Valid() && |disk.view| == |disk.media|
        invariant running <==> Bit(commandIssue, slot)
        invariant Serve(ram[..], listAddress, disk, commandIssue, slot) ==
                  Serve(old(ram[..]), listAddress, old(disk), BitOr(old(commandIssue), Pow2(slot)), slot)
        decreases commandIssue, busy
      {
        ServeStep(ram[..], listAddress, disk, commandIssue, slot);
        var value := ReadCommandIssue();
        ValidShape(disk);
        running := Bit(value, slot);
      }
      ServeStep(ram[..], listAddress, disk, commandIssue, slot);
    }

    /** The part of `ahci_exec_ata_cmd` that builds the command in a slot, issues it and waits. */
    method Execute(slot: nat, cfis: seq<byte>, buf: nat, bufLen: nat, isWrite: nat) returns (ghost issued: Mem)
      requires Laid() && disk.Valid() && |cfis| == FIS_SIZE && bufLen <= AHCI_MAX_BYTES_PER_TRANS && isWrite <= 1
      requires buf != 0 ==> Buffer(buf, bufLen)
      requires cmdSlotDma + HeaderOffset(slot) + AHCI_CMD_SZ <= ram.Length
      modifies this`commandIssue, this`busy, this`disk, ram
      ensures disk.Valid() && |old(disk).view| == |old(disk).media|
      ensures Issued(old(ram[..]), issued, slot, cfis, isWrite, SgNumber(buf, bufLen))
      ensures (ram[..], disk, commandIssue) ==
              Serve(issued, listAddress, old(disk), BitOr(old(commandIssue), Pow2(slot)), slot)
      ensures old(commandIssue) == 0 && slot == 0 ==>
                && commandIssue == 0 && Untouched(DataStart(buf), DataLength(buf, bufLen))
                && Answered(cfis, isWrite, old(disk), old(CommandData(buf, bufLen)), disk, CommandData(buf, bufLen))
    {
      hide MultipleOf, Process, Decode, Disk.Perform, Disk.Valid, Built, Serve, BitOr, Pow2, HeaderAt, EvenDown, EvenUp,
        OnlyIn, OnlyInTwo, Word;
      ghost var m0 := ram[..];
      BuildCommand(slot, cfis, buf, bufLen, isWrite);
      issued := ram[..];
      if commandIssue == 0 && slot == 0 {
        EvenInside(buf, bufLen);
        BuiltServes(cfis, isWrite, m0, DataStart(buf) - virtBase, DataLength(buf, bufLen));
      }
      IssueAndWait(slot);
    }

    /**
     * `ahci_exec_ata_cmd`. It refuses, and touches nothing, when the transfer is too long or bit 31 alone
     * of PxCI is set. Otherwise the controller serves the slots set until the one chosen is done, from the
     * memory `issued`, which holds the FIS in the command table. Between calls PxCI is 0; then on return
     * the disk has performed the command in the FIS on the buffer, for a command without the write bit the
     * buffer holds what the disk answered, and nothing else in memory changes but the driver's own block.
     */
    method AhciExecAtaCmd(cfis: seq<byte>, buf: nat, bufLen: nat, isWrite: nat) returns (rc: nat, ghost issued: Mem)
      requires Laid() && disk.Valid() && |cfis| == FIS_SIZE && bufLen < U32 && isWrite <= 1
      requires commandIssue < U32
      requires commandIssue != 0 ==> cmdSlotDma + HeaderOffset(Ffs(commandIssue)) + AHCI_CMD_SZ <= ram.Length
      requires buf != 0 ==> Buffer(buf, bufLen)
      modifies this`commandIssue, this`busy, this`disk, ram
      ensures Laid() && disk.Valid() && |old(disk).view| == |old(disk).media|
      ensures var refused := old(commandIssue) == 0x8000_0000 || bufLen > 0xE00_0000;
              var slot := Ffs(old(commandIssue));
              && rc == (if refused then 0 else bufLen)
              && (refused ==> ram[..] == old(ram[..]) && disk == old(disk) && commandIssue == old(commandIssue))
              && (!refused ==>
                   && Issued(old(ram[..]), issued, slot, cfis, isWrite, SgNumber(buf, bufLen))
                   && (ram[..], disk, commandIssue) ==
                      Serve(issued, listAddress, old(disk), BitOr(old(commandIssue), Pow2(slot)), slot))
      ensures old(commandIssue) == 0 && bufLen <= AHCI_MAX_BYTES_PER_TRANS ==>
                && commandIssue == 0 && Untouched(DataStart(buf), DataLength(buf, bufLen))
                && Answered(cfis, isWrite, old(disk), old(CommandData(buf, bufLen)), disk, CommandData(buf, bufLen))
    {
      hide MultipleOf, Process, Decode, Disk.Perform, Disk.Valid, Serve, BitOr, Pow2, EvenDown, EvenUp, OnlyIn, OnlyInTwo, Bit,
        Issued, Answered;
      ValidShape(disk);
      issued := ram[..];
      var slot := AhciGetCmdSlot(commandIssue);
      if slot == 32 {
        return 0, issued;
      }
      if bufLen > AHCI_MAX_BYTES_PER_TRANS {
        return 0, issued;
      }
      if commandIssue != 0 { LowestIsFfs(commandIssue, slot - 1); }
      issued := Execute(slot, cfis, buf, bufLen, isWrite);
      rc := bufLen;
    }

    /** Made even, a buffer still lies in memory and outside the driver's block. */
    lemma EvenInside(buf: nat, bufLen: nat)
      requires Laid() && (buf != 0 ==> Buffer(buf, bufLen))
      ensures DataStart(buf) - virtBase + DataLength(buf, bufLen) <= ram.Length
      ensures var at, end := DataStart(buf) - virtBase, DataStart(buf) - virtBase + DataLength(buf, bufLen);
              at == end || end <= cmdSlotDma || cmdSlotDma + AHCI_PORT_PRIV_DMA_SZ <= at
    {
      hide EvenDown, EvenUp, MultipleOf;
      PartsAligned(cmdSlotDma);
      if buf != 0 {
        EvenRange(buf - virtBase, bufLen, ram.Length);
        EvenRange(buf - virtBase, bufLen, cmdSlotDma);
        EvenBelow(buf - virtBase, cmdSlotDma + AHCI_PORT_PRIV_DMA_SZ);
      }
    }

    /** What the controller makes of a command that is built, and of the memory `m0` as it was before. */
    lemma BuiltServes(cfis: seq<byte>, isWrite: nat, m0: Mem, at: nat, len: nat)
      requires Laid() && disk.Valid() && |cfis| == FIS_SIZE && at + len <= ram.Length
      requires Built(cfis, isWrite, at, len) && OnlyIn(m0, ram[..], cmdSlotDma, cmdSlotDma + AHCI_PORT_PRIV_DMA_SZ)
      requires len == 0 || at + len <= cmdSlotDma || cmdSlotDma + AHCI_PORT_PRIV_DMA_SZ <= at
      ensures |disk.view| == |disk.media| && |m0| == ram.Length
      ensures var (m', d, issue) := Serve(ram[..], listAddress, disk, BitOr(0, Pow2(0)), 0);
              var (d', data) := disk.Perform(Decode(cfis), m0[at..at + len]);
              && issue == 0 && d == d' && |m'| == |m0|
              && OnlyInTwo(m0, m', cmdSlotDma, cmdSlotDma + AHCI_PORT_PRIV_DMA_SZ, at, at + len)
              && m'[at..at + len] == if isWrite == 1 then m0[at..at + len] else data
    {
      hide MultipleOf, Put, Decode, Disk.Perform, Disk.Valid, Process, Built, Serve, BitOr;
      ghost var m1 := ram[..];
      assert m1[at..at + len] == m0[at..at + len];
      BuiltRuns(cfis, isWrite, at, len);
      ServeAlone(m1, listAddress, disk);
      PutRange(m1, at, disk.Perform(Decode(cfis), m1[at..at + len]).1);
    }

    /** What the controller makes of a command that is built. */
    lemma BuiltRuns(cfis: seq<byte>, isWrite: nat, at: nat, len: nat)
      requires Laid() && disk.Valid() && |cfis| == FIS_SIZE && at + len <= ram.Length
      requires Built(cfis, isWrite, at, len)
      ensures |disk.view| == |disk.media|
      ensures var (d, data) := disk.Perform(Decode(cfis), ram[..][at..at + len]);
              && |data| == len
              && Process(ram[..], listAddress, 0, disk) == (if isWrite == 1 then ram[..] else Put(ram[..], at, data), d)
    {
      hide MultipleOf, Put, Decode, Word, Disk.Perform, HeaderAt, Prdt, Disk.Valid, Process, Tiles;
      ProcessIsFlat(ram[..], listAddress, 0, disk, cfis, isWrite == 1, at, len);
    }

    // ---- reading and writing ----

    /** `ahci_sata_rw_cmd`, for whatever count. The length in bytes is a 32-bit word; a count that has no
        length, or too much of one, is answered with 0. */
    method AhciSataRwCmd(start: nat, blkcnt: nat, buffer: nat, isWrite: nat) returns (rc: int)
      requires Valid() && start < U32 && blkcnt < U32 && isWrite <= 1
      requires Buffer(buffer, ATA_SECT_SIZE * blkcnt % U32)
      modifies this`commandIssue, this`busy, this`disk, ram
      ensures Valid()
      ensures var len := ATA_SECT_SIZE * blkcnt % U32;
              && rc == (if len == 0 || len > AHCI_MAX_BYTES_PER_TRANS then 0 else blkcnt)
              && (len > AHCI_MAX_BYTES_PER_TRANS ==> ram[..] == old(ram[..]) && disk == old(disk))
              && (len <= AHCI_MAX_BYTES_PER_TRANS ==>
                   && Untouched(Aligned(buffer), len)
                   && (disk, Data(Aligned(buffer), len)) ==
                      Transferred(isWrite == 1, start % LBA28, Carried(false, blkcnt), old(disk), old(Data(Aligned(buffer), len))))
    {
      hide MultipleOf, Disk.Valid, H2d.Bytes, Decode, Fis28, OnlyInTwo, Disk.Perform, Serve, Carried, BitOr, Issued, Ffs, Pow2;
      ghost var len := ATA_SECT_SIZE * blkcnt % U32;
      EvenLength(buffer, blkcnt);
      Decode28(isWrite == 1, start, blkcnt);
      if len <= AHCI_MAX_BYTES_PER_TRANS {
        WriteKeepsData(disk, start % LBA28, Carried(false, blkcnt), Data(Aligned(buffer), len));
      }
      var cfis := Fis28(isWrite == 1, start, blkcnt);
      var sent, _ := AhciExecAtaCmd(cfis.Bytes(), buffer, ATA_SECT_SIZE * blkcnt % U32, isWrite);
      rc := if sent > 0 then blkcnt else 0;
    }

    /** A number of sectors is an even number of bytes, cut to 32 bits or not. */
    lemma EvenLength(buffer: nat, blkcnt: nat)
      requires Laid() && Buffer(buffer, ATA_SECT_SIZE * blkcnt % U32)
      ensures var len := ATA_SECT_SIZE * blkcnt % U32;
              DataLength(buffer, len) == len && Buffer(Aligned(buffer), len) && DataStart(buffer) == Aligned(buffer)
    {
      hide EvenDown, EvenUp, MultipleOf;
      PartsAligned(cmdSlotDma);
      var len := ATA_SECT_SIZE * blkcnt % U32;
      EvenBytes(blkcnt);
      EvenStays(len);
      EvenBelow(buffer - virtBase, cmdSlotDma + AHCI_PORT_PRIV_DMA_SZ);
    }

    /** `ahci_sata_rw_cmd_ext`. */
    method AhciSataRwCmdExt(start: nat, blkcnt: nat, buffer: nat, isWrite: nat) returns (rc: int)
      requires Valid() && start < U64 && blkcnt < U32 && isWrite <= 1
      requires Buffer(buffer, ATA_SECT_SIZE * blkcnt % U32)
      modifies this`commandIssue, this`busy, this`disk, ram
      ensures Valid()
      ensures var len := ATA_SECT_SIZE * blkcnt % U32;
              && rc == (if len == 0 || len > AHCI_MAX_BYTES_PER_TRANS then 0 else blkcnt)
              && (len > AHCI_MAX_BYTES_PER_TRANS ==> ram[..] == old(ram[..]) && disk == old(disk))
              && (len <= AHCI_MAX_BYTES_PER_TRANS ==>
                   && Untouched(Aligned(buffer), len)
                   && (disk, Data(Aligned(buffer), len)) ==
                      Transferred(isWrite == 1, start % LBA48, Carried(true, blkcnt), old(disk), old(Data(Aligned(buffer), len))))
    {
      hide MultipleOf, Disk.Valid, H2d.Bytes, Decode, Fis48, OnlyInTwo, Disk.Perform, Serve, Carried, BitOr, Issued, Ffs, Pow2;
      ghost var len := ATA_SECT_SIZE * blkcnt % U32;
      EvenLength(buffer, blkcnt);
      Decode48(isWrite == 1, start, blkcnt);
      if len <= AHCI_MAX_BYTES_PER_TRANS {
        WriteKeepsData(disk, start % LBA48, Carried(true, blkcnt), Data(Aligned(buffer), len));
      }
      var cfis := Fis48(isWrite == 1, start, blkcnt);
      var sent, _ := AhciExecAtaCmd(cfis.Bytes(), buffer, ATA_SECT_SIZE * blkcnt % U32, isWrite);
      rc := if sent > 0 then blkcnt else 0;
    }

    /** One of those, of as many sectors as the loops ask for: what it does to the sectors asked for. */
    method Command(ext: bool, start: nat, k: nat, addr: nat, isWrite: nat) returns (sent: int)
      requires Valid() && start < (if ext then U64 else U32) && isWrite <= 1 && k <= MaxBlks(ext)
      requires Buffer(addr, ATA_SECT_SIZE * k)
      modifies this`commandIssue, this`busy, this`disk, ram
      ensures Valid() && sent == k
      ensures Untouched(Aligned(addr), ATA_SECT_SIZE * k)
      ensures k == 0 ==> disk == old(disk)
      ensures k > 0 ==>
                (disk, Data(Aligned(addr), ATA_SECT_SIZE * k)) ==
                Transferred(isWrite == 1, start % Width(ext), k, old(disk), old(Data(Aligned(addr), ATA_SECT_SIZE * k)))
    {
      hide MultipleOf, Disk.Valid, Transferred, OnlyInTwo;
      CarriedAsMeant(ext, k);
      FitsCommand(ext, k);
      NoData(isWrite == 1, start % Width(ext), Carried(ext, k), disk);
      EvenLength(addr, k);
      if ext {
        sent := AhciSataRwCmdExt(start, k, addr, isWrite);
      } else {
        sent := AhciSataRwCmd(start, k, addr, isWrite);
      }
    }

    /** One command of a request, by the path of the job. */
    method Piece(ext: bool, start: nat, k: nat, addr: nat, isWrite: nat, ghost job: Job, ghost m0: Mem, ghost buffer: nat, ghost done: nat)
      returns (sent: int)
      requires Valid() && ext == job.lba48 && start < (if ext then U64 else U32) && isWrite <= 1 && job.write == (isWrite == 1)
      requires Buffer(buffer, ATA_SECT_SIZE * job.total) && addr == buffer + ATA_SECT_SIZE * done
      requires done < job.total || (done == 0 && job.total == 0)
      requires k == if job.total - done > MaxBlks(ext) then MaxBlks(ext) else job.total - done
      requires start % Width(ext) == (job.start + done) % Width(ext)
      requires Progress(job, disk, ram[..], Aligned(buffer) - virtBase, done)
      requires OnlyInTwo(m0, ram[..], cmdSlotDma, cmdSlotDma + AHCI_PORT_PRIV_DMA_SZ,
                         Aligned(buffer) - virtBase, Aligned(buffer) - virtBase + ATA_SECT_SIZE * job.total)
      modifies this`commandIssue, this`busy, this`disk, ram
      ensures Valid() && sent == k
      ensures Progress(job, disk, ram[..], Aligned(buffer) - virtBase, done + k)
      ensures OnlyInTwo(m0, ram[..], cmdSlotDma, cmdSlotDma + AHCI_PORT_PRIV_DMA_SZ,
                        Aligned(buffer) - virtBase, Aligned(buffer) - virtBase + ATA_SECT_SIZE * job.total)
    {
      hide MultipleOf, Disk.Valid, Chunked, Transferred, Progress, Request, OnlyInTwo, EvenDown, Width;
      ghost var m, d, at := ram[..], disk, Aligned(buffer) - virtBase;
      ghost var mid, next := at + ATA_SECT_SIZE * done, at + ATA_SECT_SIZE * (done + k);
      Within(buffer, job.total, done, k);
      assert mid == Aligned(addr) - virtBase && next == mid + ATA_SECT_SIZE * k;
      sent := Command(ext, start, k, addr, isWrite);
      Composes(m0, m, ram[..], cmdSlotDma, cmdSlotDma + AHCI_PORT_PRIV_DMA_SZ, at, at + ATA_SECT_SIZE * job.total, mid, next);
      if job.total == 0 {
        Idles(job, d, m, ram[..], at);
      } else {
        Advances(job, d, m, disk, ram[..], at, done, k, cmdSlotDma, cmdSlotDma + AHCI_PORT_PRIV_DMA_SZ);
      }
    }

    /** `ata_low_level_rw_lba28`: commands of at most 256 sectors; the address is cut to 32 bits. */
    method AtaLowLevelRwLba28(blknr: nat, blkcnt: nat, buffer: nat, isWrite: nat) returns (rc: int)
      requires Valid() && blknr < U64 && blkcnt < U32 && isWrite <= 1
      requires Buffer(buffer, ATA_SECT_SIZE * blkcnt)
      modifies this`commandIssue, this`busy, this`disk, ram
      ensures Valid() && rc == blkcnt
      ensures Untouched(Aligned(buffer), ATA_SECT_SIZE * blkcnt)
      ensures (disk, Data(Aligned(buffer), ATA_SECT_SIZE * blkcnt)) ==
              Request(false, isWrite == 1, blknr, blkcnt, old(disk), old(Data(Aligned(buffer), ATA_SECT_SIZE * blkcnt)))
    {
      hide MultipleOf, Disk.Valid, Chunked, Progress, Request, OnlyInTwo, EvenDown;
      var start := blknr % U32;
      var blks := blkcnt;
      var maxBlks := ATA_MAX_SECTORS;
      var addr := buffer;
      Within(buffer, blkcnt, 0, blkcnt);
      ghost var at, size := Aligned(buffer) - virtBase, ATA_SECT_SIZE * blkcnt;
      ghost var job := Job(disk, Data(Aligned(buffer), size), blknr, blkcnt, false, isWrite == 1);
      ghost var m0, done := ram[..], 0;
      Begins(job, m0, at);
      SameMemory(m0, cmdSlotDma, cmdSlotDma + AHCI_PORT_PRIV_DMA_SZ, at, at + size);
      CutAddress(blknr);
      while true
        invariant Valid() && 0 <= blks == blkcnt - done && (blks > 0 || blkcnt == 0) && 0 <= start < U32
        invariant addr == buffer + ATA_SECT_SIZE * done && start % LBA28 == (blknr + done) % LBA28
        invariant OnlyInTwo(m0, ram[..], cmdSlotDma, cmdSlotDma + AHCI_PORT_PRIV_DMA_SZ, at, at + size)
        invariant Progress(job, disk, ram[..], at, done)
        decreases blks
      {
        AddAddress(start, if blks > maxBlks then maxBlks else blks, blknr + done);
        if blks > maxBlks {
          var sent := Piece(false, start, maxBlks, addr, isWrite, job, m0, buffer, done);
          if maxBlks != sent {
            return 0;
          }
          start := (start + maxBlks) % U32;
          blks := blks - maxBlks;
          addr := addr + ATA_SECT_SIZE * maxBlks;
          done := done + maxBlks;
        } else {
          var sent := Piece(false, start, blks, addr, isWrite, job, m0, buffer, done);
          if blks != sent {
            return 0;
          }
          start := (start + blks) % U32;
          done := done + blks;
          blks := 0;
          addr := addr + ATA_SECT_SIZE * blks;
        }
        if blks == 0 {
          break;
        }
      }
      Ends(job, disk, ram[..], at);
      rc := blkcnt;
    }

    /** `ata_low_level_rw_lba48`: commands of at most 65535 sectors. */
    method AtaLowLevelRwLba48(blknr: nat, blkcnt: nat, buffer: nat, isWrite: nat) returns (rc: int)
      requires Valid() && blknr < U64 && blkcnt < U32 && isWrite <= 1
      requires Buffer(buffer, ATA_SECT_SIZE * blkcnt)
      modifies this`commandIssue, this`busy, this`disk, ram
      ensures Valid() && rc == blkcnt
      ensures Untouched(Aligned(buffer), ATA_SECT_SIZE * blkcnt)
      ensures (disk, Data(Aligned(buffer), ATA_SECT_SIZE * blkcnt)) ==
              Request(true, isWrite == 1, blknr, blkcnt, old(disk), old(Data(Aligned(buffer), ATA_SECT_SIZE * blkcnt)))
    {
      hide MultipleOf, Disk.Valid, Chunked, Progress, Request, OnlyInTwo, EvenDown;
      var start := blknr;
      var blks := blkcnt;
      var maxBlks := ATA_MAX_SECTORS_LBA48;
      var addr := buffer;
      Within(buffer, blkcnt, 0, blkcnt);
      ghost var at, size := Aligned(buffer) - virtBase, ATA_SECT_SIZE * blkcnt;
      ghost var job := Job(disk, Data(Aligned(buffer), size), blknr, blkcnt, true, isWrite == 1);
      ghost var m0, done := ram[..], 0;
      Begins(job, m0, at);
      SameMemory(m0, cmdSlotDma, cmdSlotDma + AHCI_PORT_PRIV_DMA_SZ, at, at + size);
      while true
        invariant Valid() && 0 <= blks == blkcnt - done && (blks > 0 || blkcnt == 0) && 0 <= start < U64
        invariant addr == buffer + ATA_SECT_SIZE * done && start % LBA48 == (blknr + done) % LBA48
        invariant OnlyInTwo(m0, ram[..], cmdSlotDma, cmdSlotDma + AHCI_PORT_PRIV_DMA_SZ, at, at + size)
        invariant Progress(job, disk, ram[..], at, done)
        decreases blks
      {
        AddAddressExt(start, if blks > maxBlks then maxBlks else blks, blknr + done);
        if blks > maxBlks {
          var sent := Piece(true, start, maxBlks, addr, isWrite, job, m0, buffer, done);
          if maxBlks != sent {
            return 0;
          }
          start := (start + maxBlks) % U64;
          blks := blks - maxBlks;
          addr := addr + ATA_SECT_SIZE * maxBlks;
          done := done + maxBlks;
        } else {
          var sent := Piece(true, start, blks, addr, isWrite, job, m0, buffer, done);
          if blks != sent {
            return 0;
          }
          start := (start + blks) % U64;
          done := done + blks;
          blks := 0;
          addr := addr + ATA_SECT_SIZE * blks;
        }
        if blks == 0 {
          break;
        }
      }
      Ends(job, disk, ram[..], at);
      rc := blkcnt;
    }

    /** A command without data, in slot 0, as the controller found it: 5 dwords, no entries, not a write. */
    ghost predicate Sent(issued: Mem, cmd: AtaCommand)
      reads this
    {
      && Laid() && |issued| == ram.Length
      && Word(issued, cmdSlotDma) == 5
      && Decode(issued[cmdTblDma..cmdTblDma + 20]) == cmd
    }

    /** `ahci_sata_flush_cache` and `ahci_sata_flush_cache_ext`: each its own command, without data. */
    method AhciSataFlushCache(ext: bool) returns (ghost issued: Mem)
      requires Valid()
      modifies this`commandIssue, this`busy, this`disk, ram
      ensures Valid() && disk == old(disk).Flushed(ext)
      ensures Sent(issued, if ext then FlushCacheExt else FlushCache)
      ensures OnlyIn(old(ram[..]), ram[..], cmdSlotDma, cmdSlotDma + AHCI_PORT_PRIV_DMA_SZ)
    {
      hide MultipleOf, Disk.Valid, Decode, H2d.Bytes, Serve, BitOr, OnlyInTwo, OnlyIn, Ffs, Pow2, EvenDown, Word;
      ghost var m0 := ram[..];
      FirstSlot();
      DecodeFlush(ext);
      var cfis := FlushFis(ext);
      var sent;
      sent, issued := AhciExecAtaCmd(cfis.Bytes(), 0, 0, 0);

      NothingBetween(m0, ram[..], cmdSlotDma, cmdSlotDma + AHCI_PORT_PRIV_DMA_SZ, 0);
    }

    /**
     * `ahci_sata_read_common`. It returns the number of sectors asked for in any case. What the buffer
     * receives, if the request does not wrap at the address width: from the address modulo the width, the
     * sectors of the commands that lie on the disk. So if the request lies on the disk and within the
     * width, the buffer then holds exactly the sectors asked for; or, when it is odd, each byte of it the
     * next byte of those sectors, and its last byte what it held before.
     */
    method AhciSataReadCommon(blknr: nat, blkcnt: nat, buffer: nat) returns (rc: int)
      requires Valid() && blknr < U64 && blkcnt < U32 && Buffer(buffer, ATA_SECT_SIZE * blkcnt)
      modifies this`commandIssue, this`busy, this`disk, ram
      ensures Valid() && rc == blkcnt
      ensures Untouched(Aligned(buffer), ATA_SECT_SIZE * blkcnt)
      ensures (disk, Data(Aligned(buffer), ATA_SECT_SIZE * blkcnt)) ==
              Request(lba48, false, blknr, blkcnt, old(disk), old(Data(Aligned(buffer), ATA_SECT_SIZE * blkcnt)))
      ensures var fit, s := Reached(lba48, blknr, blkcnt, old(disk)), blknr % Width(lba48);
              && fit <= blkcnt && (fit > 0 ==> old(disk).Holds(s, fit))
              && (Unwrapped(lba48, blknr, blkcnt) ==>
                   && disk == old(disk)
                   && Data(Aligned(buffer), ATA_SECT_SIZE * blkcnt) ==
                      Received(disk, old(Data(Aligned(buffer), ATA_SECT_SIZE * blkcnt)), s, fit))
      ensures old(disk).Holds(blknr, blkcnt) && blknr + blkcnt <= Width(lba48) ==>
                disk == old(disk) && Data(Aligned(buffer), ATA_SECT_SIZE * blkcnt) == old(disk).ReadAt(blknr, blkcnt)
      ensures old(disk).Holds(blknr, blkcnt) && blknr + blkcnt <= Width(lba48) && blkcnt > 0 && VirtToPhys(buffer) % 2 == 1 ==>
                Shifted(old(disk).ReadAt(blknr, blkcnt), old(Data(buffer, ATA_SECT_SIZE * blkcnt)), Data(buffer, ATA_SECT_SIZE * blkcnt))
    {
      hide MultipleOf, Disk.Valid, Request, Chunked, Reached, Unwrapped, Received, EvenDown, OnlyInTwo, Shifted, Width, Disk.ReadAt,
        Disk.Holds;
      Within(buffer, blkcnt, 0, blkcnt);
      ghost var m0 := ram[..];
      RequestReads(lba48, blknr, blkcnt, disk, Data(Aligned(buffer), ATA_SECT_SIZE * blkcnt));
      if lba48 {
        rc := AtaLowLevelRwLba48(blknr, blkcnt, buffer, 0);
      } else {
        rc := AtaLowLevelRwLba28(blknr, blkcnt, buffer, 0);
      }
      EvenIs(buffer - virtBase);
      OddBuffer(m0, ram[..], cmdSlotDma, cmdSlotDma + AHCI_PORT_PRIV_DMA_SZ, buffer - virtBase, ATA_SECT_SIZE * blkcnt);
    }

    /**
     * `ahci_sata_write_common`. It returns the number of sectors asked for in any case. What the disk then
     * reads back, if the request does not wrap at the address width: as before, with the sectors of the
     * commands that lie on the disk replaced, from the address modulo the width. When it ends with a
     * flush, everything ever written is on the media.
     */
    method AhciSataWriteCommon(blknr: nat, blkcnt: nat, buffer: nat) returns (rc: int)
      requires Valid() && blknr < U64 && blkcnt < U32 && Buffer(buffer, ATA_SECT_SIZE * blkcnt)
      modifies this`commandIssue, this`busy, this`disk, ram
      ensures Valid() && rc == blkcnt
      ensures OnlyIn(old(ram[..]), ram[..], cmdSlotDma, cmdSlotDma + AHCI_PORT_PRIV_DMA_SZ)
      ensures disk == Written(flags, lba48, blknr, blkcnt, old(disk), old(Data(Aligned(buffer), ATA_SECT_SIZE * blkcnt)))
      ensures var fit, s := Reached(lba48, blknr, blkcnt, old(disk)), blknr % Width(lba48);
              && fit <= blkcnt && (fit > 0 ==> old(disk).Holds(s, fit))
              && (Unwrapped(lba48, blknr, blkcnt) ==>
                   disk.view == Stored(old(disk).view, old(Data(Aligned(buffer), ATA_SECT_SIZE * blkcnt)), s, fit))
      ensures old(disk).Holds(blknr, blkcnt) && blknr + blkcnt <= Width(lba48) ==>
                disk.view == Put(old(disk).view, ATA_SECT_SIZE * blknr, old(Data(Aligned(buffer), ATA_SECT_SIZE * blkcnt)))
      ensures (Flushes(flags, lba48) && old(disk).HasFlush(lba48)) || !old(disk).cached ==> Durable(disk)
    {
      hide MultipleOf, Disk.Valid, Request, Chunked, Put, Durable, OnlyInTwo, Reached, Unwrapped, Stored, EvenDown;
      Within(buffer, blkcnt, 0, blkcnt);
      ghost var m0, data := ram[..], Data(Aligned(buffer), ATA_SECT_SIZE * blkcnt);
      WrittenMeans(flags, lba48, blknr, blkcnt, disk, data);
      if lba48 {
        rc := AtaLowLevelRwLba48(blknr, blkcnt, buffer, 1);
      } else {
        rc := AtaLowLevelRwLba28(blknr, blkcnt, buffer, 1);
      }
      BufferKept(m0, ram[..], cmdSlotDma, cmdSlotDma + AHCI_PORT_PRIV_DMA_SZ, Aligned(buffer) - virtBase, ATA_SECT_SIZE * blkcnt);
      if flags & SATA_FLAG_WCACHE != 0 {
        if lba48 && flags & SATA_FLAG_FLUSH_EXT != 0 {
          var _ := AhciSataFlushCache(true);
        } else if !lba48 && flags & SATA_FLAG_FLUSH != 0 {
          var _ := AhciSataFlushCache(false);
        }
      }
    }

    /** `ahci_set_feature`: a command without data, whose FIS a disk reads as the feature meant. */
    method AhciSetFeature(subcmd: byte, action: byte) returns (ghost issued: Mem)
      requires Valid()
      modifies this`commandIssue, this`busy, this`disk, ram
      ensures Valid() && disk == old(disk)
      ensures OnlyIn(old(ram[..]), ram[..], cmdSlotDma, cmdSlotDma + AHCI_PORT_PRIV_DMA_SZ)
      ensures Sent(issued, SetFeatures(subcmd, action))
    {
      hide MultipleOf, Disk.Valid, Decode, H2d.Bytes, Serve, BitOr, OnlyInTwo, OnlyIn, Ffs, Pow2, EvenDown, Word;
      ghost var m0 := ram[..];
      FirstSlot();
      DecodeFeature(subcmd, action);
      var cfis := FeatureFis(subcmd, action);
      var sent;
      sent, issued := AhciExecAtaCmd(cfis.Bytes(), 0, 0, 0);
      NothingBetween(m0, ram[..], cmdSlotDma, cmdSlotDma + AHCI_PORT_PRIV_DMA_SZ, 0);
    }

    /** The transfer mode `ahci_sata_scan` sets, from word 88 of the identify words. */
    method AhciSetUdma(udmaMask: nat) returns (ghost issued: Mem, action: byte)
      requires Valid() && udmaMask < 0x1_0000
      modifies this`commandIssue, this`busy, this`disk, ram
      ensures Valid() && disk == old(disk)
      ensures Sent(issued, SetFeatures(0x03, action))
      ensures Selects(udmaMask, action) && (Fastest(udmaMask, action) <==> Unbroken(udmaMask))
    {
      hide Sent, MultipleOf, Decode, Selects, Fastest, Unbroken, OnlyIn, Disk.Valid;
      var a := UdmaAction(udmaMask);
      action := a;
      issued := AhciSetFeature(SETFEATURES_XFER, action);
    }

    /** `ahci_sata_init_wcache` and the addressing mode, from the identify words. */
    method AhciSataConfigure(id: IdWords)
      modifies this`flags, this`lba48
      ensures lba48 == FeaturesOf(id).Has48() && Includes(flags, old(flags))
      ensures old(flags) == 0 ==>
                var f := FeaturesOf(id);
                && flags == FlagWord(f.CacheOn(), f.HasFlush(false), f.HasFlush(true)) == InitWcache(0, id)
                && (Flushes(flags, lba48) <==> f.CacheOn() && f.HasFlush(lba48))
    {
      FlushesIff(id);
      FlagsStay(flags, HasWcache(id) && WcacheEnabled(id), HasFlush(id), HasFlushExt(id));
      ReadsFeatures(id);
      hide MultipleOf, FeaturesOf, FlagWord, Flushes, Includes, HasLba48, HasWcache, WcacheEnabled, HasFlush, HasFlushExt, With;
      lba48 := HasLba48(id);
      flags := With(flags, HasWcache(id) && WcacheEnabled(id), SATA_FLAG_WCACHE);
      flags := With(flags, HasFlush(id), SATA_FLAG_FLUSH);
      flags := With(flags, HasFlushExt(id), SATA_FLAG_FLUSH_EXT);
    }

    /** `ahci_port_start`: the block `mem` from the allocator is cleared and divided up. */
    method AhciPortStart(mem: nat)
      requires 0 < virtBase <= mem && MultipleOf(mem - virtBase, 1024)
      requires mem - virtBase + AHCI_PORT_PRIV_DMA_SZ <= ram.Length <= U64 && MultipleOf(ram.Length, 2)
      modifies this`cmdSlot, this`cmdSlotDma, this`rxFis, this`rxFisDma, this`cmdTbl, this`cmdTblDma, this`cmdTblSg,
               this`listAddress, this`fisAddress, ram
      ensures Laid() && cmdSlot == mem
      ensures old(commandIssue) == 0 && old(disk).Valid() ==> Valid()
      ensures forall i | cmdSlotDma <= i < cmdSlotDma + AHCI_PORT_PRIV_DMA_SZ :: ram[i] == 0
      ensures OnlyIn(old(ram[..]), ram[..], cmdSlotDma, cmdSlotDma + AHCI_PORT_PRIV_DMA_SZ)
    {
      PutBytes(ram[..], VirtToPhys(mem), seq(AHCI_PORT_PRIV_DMA_SZ, _ => 0));
      Store(VirtToPhys(mem), seq(AHCI_PORT_PRIV_DMA_SZ, _ => 0));
      var at := mem;
      cmdSlot := at;
      cmdSlotDma := VirtToPhys(at);
      at := at + AHCI_CMD_SLOT_SZ;
      rxFis := at;
      rxFisDma := VirtToPhys(at);
      at := at + AHCI_RX_FIS_SZ;
      cmdTbl := at;
      cmdTblDma := VirtToPhys(at);
      at := at + AHCI_CMD_TBL_HDR_SZ;
      cmdTblSg := at;
      listAddress := cmdSlotDma;
      fisAddress := rxFisDma;
    }

    /** The four parts of the block lie apart and are aligned as the controller wants them: the command
        list at 1024 bytes, the received FISes at 256, the command table at 128. */
    lemma PartsApart()
      requires Laid()
      ensures MultipleOf(listAddress, 1024) && fisAddress % 256 == 0 && cmdTblDma % 128 == 0
      ensures fisAddress == listAddress + 32 * 32 && cmdTblDma == fisAddress + 256
      ensures cmdTblSg - virtBase == cmdTblDma + 0x80
      ensures cmdTblSg - virtBase + 56 * 16 == cmdSlotDma + AHCI_PORT_PRIV_DMA_SZ == listAddress + 2304
    {
      PartsAligned(listAddress);
    }

    lemma Within(buffer: nat, total: nat, done: nat, k: nat)
      requires Laid() && Buffer(buffer, ATA_SECT_SIZE * total) && done + k <= total
      ensures Buffer(buffer + ATA_SECT_SIZE * done, ATA_SECT_SIZE * k)
      ensures Aligned(buffer + ATA_SECT_SIZE * done) == Aligned(buffer) + ATA_SECT_SIZE * done
      ensures Buffer(Aligned(buffer), ATA_SECT_SIZE * total)
    {
      hide EvenDown, MultipleOf;
      PartsAligned(cmdSlotDma);
      EvenSectors(buffer - virtBase, done);
      EvenBelow(buffer - virtBase, cmdSlotDma + AHCI_PORT_PRIV_DMA_SZ);
    }
  }

  /** The disk has performed a command; the data are what it answered, or are untouched when written. */
  ghost predicate Answered(cfis: seq<byte>, isWrite: nat, d: Disk, data: seq<byte>, d': Disk, data': seq<byte>) {
    && |cfis| == FIS_SIZE && |d.view| == |d.media|
    && d' == d.Perform(Decode(cfis), data).0
    && data' == if isWrite == 1 then data else d.Perform(Decode(cfis), data).1
  }

  lemma EvenIs(at: nat)
    ensures EvenDown(at) == if at % 2 == 1 then at - 1 else at
  {
  }

  /** Each byte of a buffer is the next byte of what was meant for it, the last what it was before. */
  ghost predicate Shifted(data: seq<byte>, was: seq<byte>, now: seq<byte>) {
    |data| == |was| == |now| > 0 && now[..|now| - 1] == data[1..] && now[|now| - 1] == was[|was| - 1]
  }

  /** What a transfer to an odd address leaves in the buffer there. */
  lemma OddBuffer(m: Mem, m': Mem, lo: nat, hi: nat, at: nat, len: nat)
    requires at % 2 == 1 && len > 0 ==> OnlyInTwo(m, m', lo, hi, at - 1, at - 1 + len)
    requires at + len <= |m| == |m'| && (at + len <= lo || hi <= at)
    ensures at % 2 == 1 && len > 0 ==> Shifted(m'[at - 1..at - 1 + len], m[at..at + len], m'[at..at + len])
  {
  }

  lemma EvenSectors(at: nat, n: nat)
    ensures EvenDown(at + ATA_SECT_SIZE * n) == EvenDown(at) + ATA_SECT_SIZE * n
  {
  }

  lemma FirstSlot()
    ensures Ffs(0) == 0 && HeaderOffset(0) == 0
  {
  }

  lemma EvenStays(len: nat)
    requires len % 2 == 0
    ensures EvenUp(len) == len
  {
  }

  lemma PartsAligned(at: nat)
    requires MultipleOf(at, 1024)
    ensures (at + 1024) % 256 == 0 && (at + 1280) % 128 == 0 && MultipleOf(at, 2) && MultipleOf(at + 2304, 2)
  {
    var q := at / 1024;
    ModUnique(at + 1024, 4 * q + 4, 0, 256);
    ModUnique(at + 1280, 8 * q + 10, 0, 128);
    ModUnique(at, 512 * q, 0, 2);
    ModUnique(at + 2304, 512 * q + 1152, 0, 2);
  }

  lemma EvenRange(at: nat, len: nat, bound: nat)
    requires MultipleOf(bound, 2)
    ensures EvenDown(at) >= 0 && (at + len <= bound ==> EvenDown(at) + EvenUp(len) <= bound)
  {
  }

  lemma EvenBelow(at: nat, bound: nat)
    requires MultipleOf(bound, 2)
    ensures 0 <= EvenDown(at) <= at && (bound <= at ==> bound <= EvenDown(at))
  {
  }

  lemma EvenBytes(blkcnt: nat)
    ensures ATA_SECT_SIZE * blkcnt % U32 % 2 == 0
  {
    var q, len := ATA_SECT_SIZE * blkcnt / U32, ATA_SECT_SIZE * blkcnt % U32;
    assert len == 2 * (256 * blkcnt - 0x8000_0000 * q);
  }

  /** "Get available slot": with slots 0 and 1 busy it is slot 1. */
  lemma BusySlotExample()
    ensures Ffs(3) == 1 && Bit(3, Ffs(3))
  {
  }

  lemma FitsCommand(ext: bool, k: nat)
    requires k <= MaxBlks(ext)
    ensures ATA_SECT_SIZE * k % U32 == ATA_SECT_SIZE * k <= AHCI_MAX_BYTES_PER_TRANS
  {
  }
}
