/**
 * The Register host-to-device FIS: how the driver encodes a command in its 20 bytes, how a disk
 * decodes them under the ATA rules, and exactly when the two agree.
 */
module Fis {
  import opened Common
  import opened Memory

  const SATA_FIS_TYPE_REGISTER_H2D: byte := 0x27
  const ATA_CMD_READ: byte := 0xC8
  const ATA_CMD_READ_EXT: byte := 0x25
  const ATA_CMD_WRITE: byte := 0xCA
  const ATA_CMD_WRITE_EXT: byte := 0x35
  const ATA_CMD_FLUSH: byte := 0xE7
  const ATA_CMD_FLUSH_EXT: byte := 0xEA
  const ATA_CMD_SET_FEATURES: byte := 0xEF
  const SETFEATURES_XFER: byte := 0x03
  const ATA_LBA: nat := 0x40

  const ATA_SECT_SIZE: nat := 512
  const ATA_MAX_SECTORS: nat := 256
  const ATA_MAX_SECTORS_LBA48: nat := 65535

  const LBA28: nat := 0x1000_0000
  const LBA48: nat := 0x1_0000_0000_0000

  /** `struct sata_fis_h2d`, in memory order. */
  datatype H2d = H2d(
    fisType: byte, pmPortC: byte, command: byte, features: byte,
    lbaLow: byte, lbaMid: byte, lbaHigh: byte, device: byte,
    lbaLowExp: byte, lbaMidExp: byte, lbaHighExp: byte, featuresExp: byte,
    sectorCount: byte, sectorCountExp: byte, res1: byte, control: byte)
  {
    function Bytes(): (b: seq<byte>)
      ensures |b| == FIS_SIZE
    {
      [fisType, pmPortC, command, features, lbaLow, lbaMid, lbaHigh, device,
       lbaLowExp, lbaMidExp, lbaHighExp, featuresExp, sectorCount, sectorCountExp, res1, control,
       0, 0, 0, 0]
    }
  }

  const FIS_SIZE: nat := 20

  /** A command with every other field 0, as the drivers start. */
  function Plain(command: byte): H2d {
    H2d(SATA_FIS_TYPE_REGISTER_H2D, 0x80, command, 0, 0, 0, 0, 0, 0, 0, 0, 0, 0, 0, 0, 0)
  }

  /** Byte `k` of an unsigned word. */
  function ByteAt(x: nat, shift: nat): byte
    requires shift > 0
  {
    x / shift % 0x100
  }

  /** `ahci_sata_rw_cmd`: `start` and `blkcnt` are 32-bit. */
  function Fis28(write: bool, start: nat, blkcnt: nat): H2d {
    var nibble := start / 0x100_0000 % 0x10;
    DeviceByte(nibble);
    Plain(if write then ATA_CMD_WRITE else ATA_CMD_READ).(
      lbaLow := ByteAt(start, 1), lbaMid := ByteAt(start, 0x100), lbaHigh := ByteAt(start, 0x1_0000),
      device := BitOr(ATA_LBA, nibble), sectorCount := ByteAt(blkcnt, 1))
  }

  /** `ahci_sata_rw_cmd_ext`: `start` is 64-bit. */
  function Fis48(write: bool, start: nat, blkcnt: nat): H2d {
    Plain(if write then ATA_CMD_WRITE_EXT else ATA_CMD_READ_EXT).(
      lbaLow := ByteAt(start, 1), lbaMid := ByteAt(start, 0x100), lbaHigh := ByteAt(start, 0x1_0000),
      device := ATA_LBA,
      lbaLowExp := ByteAt(start, 0x100_0000), lbaMidExp := ByteAt(start, U32),
      lbaHighExp := ByteAt(start, 0x100_0000_0000),
      sectorCount := ByteAt(blkcnt, 1), sectorCountExp := ByteAt(blkcnt, 0x100))
  }

  lemma DeviceByte(nibble: nat)
    requires nibble < 0x10
    ensures BitOr(ATA_LBA, nibble) == ATA_LBA + nibble
  {
    assert Pow2(4) == 0x10 by { assert Pow2(2) == 4; }
    OrZero(nibble);
    OrBelow(0, 4, nibble, 4);
  }

  // ---- the disk's side ----

  datatype AtaCommand =
    | ReadDma(lba: nat, count: nat)
    | WriteDma(lba: nat, count: nat)
    | FlushCache
    | FlushCacheExt
    | IdentifyDevice
    | SetFeatures(subcommand: byte, argument: byte)
    | Other

  /**
   * What a disk reads in the 20 bytes, in the numbers of the standard. READ DMA and WRITE DMA (C8h, CAh)
   * take a 28-bit address and a count in which 0 stands for 256; the EXT commands (25h, 35h) take 48 bits
   * and a count in which 0 stands for 65536. A field that a command does not use must be 0.
   */
  function Decode(b: seq<byte>): AtaCommand
    requires |b| == 20
  {
    var low: nat := (b[4] as nat) + 0x100 * (b[5] as nat) + 0x1_0000 * (b[6] as nat);
    var exp: nat := (b[8] as nat) + 0x100 * (b[9] as nat) + 0x1_0000 * (b[10] as nat);
    var lba28, lba48 := low + 0x100_0000 * (b[7] as nat % 0x10), low + 0x100_0000 * exp;
    var count: nat := (b[12] as nat) + 0x100 * (b[13] as nat);
    var count28, count48 := if count == 0 then 256 else count, if count == 0 then 65536 else count;
    if b[0] != 0x27 || b[1] != 0x80 || b[11] != 0 || b[14] != 0 || b[15] != 0 || b[16..20] != [0, 0, 0, 0] then Other
    else if b[2] == 0xEF && low == 0 && exp == 0 && b[7] == 0 && b[13] == 0 then SetFeatures(b[3], b[12])
    else if b[3] != 0 then Other
    else if b[2] == 0xC8 && b[7] / 0x10 == 4 && exp == 0 && b[13] == 0 then ReadDma(lba28, count28)
    else if b[2] == 0xCA && b[7] / 0x10 == 4 && exp == 0 && b[13] == 0 then WriteDma(lba28, count28)
    else if b[2] == 0x25 && b[7] == 0x40 then ReadDma(lba48, count48)
    else if b[2] == 0x35 && b[7] == 0x40 then WriteDma(lba48, count48)
    else if low != 0 || exp != 0 || b[7] != 0 || count != 0 then Other
    else if b[2] == 0xE7 then FlushCache
    else if b[2] == 0xEA then FlushCacheExt
    else if b[2] == 0xEC then IdentifyDevice
    else Other
  }

  /** How many sectors a disk reads in the count of the 28-bit or the 48-bit command. */
  function Carried(ext: bool, blkcnt: nat): nat {
    var range := if ext then 0x1_0000 else 0x100;
    if blkcnt % range == 0 then range else blkcnt % range
  }

  function Transfer(write: bool, lba: nat, count: nat): AtaCommand {
    if write then WriteDma(lba, count) else ReadDma(lba, count)
  }

  lemma LowBytes(x: nat)
    ensures (ByteAt(x, 1) as nat) + 0x100 * (ByteAt(x, 0x100) as nat) + 0x1_0000 * (ByteAt(x, 0x1_0000) as nat)
         == x % 0x100_0000
  {
    var a, b := x / 0x100, x / 0x1_0000;
    assert b == a / 0x100;
  }

  lemma HighBytes(x: nat)
    ensures x % 0x100_0000 + 0x100_0000 * (ByteAt(x, 0x100_0000) as nat) + U32 * (ByteAt(x, U32) as nat)
            + 0x100_0000_0000 * (ByteAt(x, 0x100_0000_0000) as nat)
         == x % LBA48
  {
    var y := x / 0x100_0000;
    assert x / U32 == y / 0x100 && x / 0x100_0000_0000 == y / 0x1_0000;
    LowBytes(y);
    assert x == x % 0x100_0000 + 0x100_0000 * y;
    assert y % 0x100_0000 == y - 0x100_0000 * (y / 0x100_0000);
    assert x / LBA48 == y / 0x100_0000;
  }

  /** What a disk reads in the 28-bit command: 28 bits of the address, 8 bits of the count. */
  lemma Decode28(write: bool, start: nat, blkcnt: nat)
    ensures Decode(Fis28(write, start, blkcnt).Bytes())
         == Transfer(write, start % LBA28, Carried(false, blkcnt))
  {
    hide BitOr, ByteAt;
    var nibble := start / 0x100_0000 % 0x10;
    DeviceByte(nibble);
    LowBytes(start);
    HighNibble(start);
    CountByte(blkcnt);
  }

  lemma HighNibble(x: nat)
    ensures var nibble := x / 0x100_0000 % 0x10;
            && x % LBA28 == x % 0x100_0000 + 0x100_0000 * nibble
            && (ATA_LBA + nibble) % 0x10 == nibble && (ATA_LBA + nibble) / 0x40 == 1
  {
    assert x / LBA28 == x / 0x100_0000 / 0x10;
  }

  lemma CountByte(x: nat)
    ensures ByteAt(x, 1) == x % 0x100
  {
  }

  /** What a disk reads in the 48-bit command. */
  lemma Decode48(write: bool, start: nat, blkcnt: nat)
    ensures Decode(Fis48(write, start, blkcnt).Bytes())
         == Transfer(write, start % LBA48, Carried(true, blkcnt))
  {
    hide ByteAt;
    LowBytes(start);
    HighBytes(start);
    CountBytes(blkcnt);
  }

  lemma CountBytes(x: nat)
    ensures (ByteAt(x, 1) as nat) + 0x100 * (ByteAt(x, 0x100) as nat) == x % 0x1_0000
  {
    var a := x / 0x100;
    assert x == x % 0x100 + 0x100 * a && a / 0x100 == x / 0x1_0000;
  }

  /** The 28-bit command is understood as it was meant exactly for 28-bit addresses and for counts
      from 1 to 256: 256 travels as 0, and 0 would be read as 256. */
  lemma Exact28(write: bool, start: nat, blkcnt: nat)
    ensures Decode(Fis28(write, start, blkcnt).Bytes()) == Transfer(write, start, blkcnt)
       <==> start < LBA28 && 1 <= blkcnt <= ATA_MAX_SECTORS
  {
    hide Decode, Fis28, H2d.Bytes;
    Decode28(write, start, blkcnt);
  }

  /** The 48-bit command: 48-bit addresses and counts from 1 to 65536, of which the driver uses
      those up to 65535. */
  lemma Exact48(write: bool, start: nat, blkcnt: nat)
    ensures Decode(Fis48(write, start, blkcnt).Bytes()) == Transfer(write, start, blkcnt)
       <==> start < LBA48 && 1 <= blkcnt <= ATA_MAX_SECTORS_LBA48 + 1
  {
    hide Decode, Fis48, H2d.Bytes;
    Decode48(write, start, blkcnt);
  }

  /** The two flush commands are told apart: E7h for 28-bit addresses, EAh for 48-bit ones. */
  lemma DecodeFlush(ext: bool)
    ensures Decode(FlushFis(ext).Bytes()) == if ext then FlushCacheExt else FlushCache
  {
    if ext { DecodePlain(0xEA); } else { DecodePlain(0xE7); }
  }

  function FlushFis(ext: bool): H2d {
    Plain(if ext then ATA_CMD_FLUSH_EXT else ATA_CMD_FLUSH)
  }

  function FeatureFis(subcmd: byte, action: byte): H2d {
    Plain(ATA_CMD_SET_FEATURES).(features := subcmd, sectorCount := action)
  }

  lemma DecodeFeature(subcmd: byte, action: byte)
    ensures Decode(FeatureFis(subcmd, action).Bytes()) == SetFeatures(subcmd, action)
  {
    var b := FeatureFis(subcmd, action).Bytes();
    assert b[16..20] == [0, 0, 0, 0];
  }

  lemma DecodePlain(command: byte)
    requires command == 0xE7 || command == 0xEA
    ensures Decode(Plain(command).Bytes()) == if command == 0xEA then FlushCacheExt else FlushCache
  {
    var b := Plain(command).Bytes();
    assert b[16..20] == [0, 0, 0, 0];
  }
}
