/**
 * The AHCI controller: it finds the command header in the command list, the FIS and the PRDT in the
 * command table, decodes them and moves the data between memory and the disk. The layouts are those
 * of AHCI 1.1, sections 4.2.2 (command header) and 4.2.3 (command table and PRDT).
 */
module Hba {
  import opened Common
  import opened Memory
  import opened Bits
  import opened Fis
  import opened Disk

  const AHCI_MAX_SG: nat := 56
  const AHCI_MAX_BYTES_PER_SG: nat := 0x40_0000
  const AHCI_MAX_BYTES_PER_TRANS: nat := AHCI_MAX_SG * AHCI_MAX_BYTES_PER_SG

  /** A stretch of memory that takes part in a transfer. */
  datatype Region = Region(at: nat, len: nat)

  /** `other`: the bits for ATAPI, prefetching, reset, self-test and port multipliers. */
  datatype Header = Header(fisDwords: nat, write: bool, prdtLength: nat, other: nat, table: nat)

  function HeaderAt(m: Mem, at: nat): Header
    requires at + 32 <= |m|
  {
    var opts := Word(m, at);
    Header(opts % 0x20, opts / 0x40 % 2 == 1, opts / 0x1_0000, opts / 0x20 % 2 + opts / 0x80 % 0x200, Address(m, at + 8))
  }

  function EvenDown(x: nat): nat {
    x - x % 2
  }

  function EvenUp(x: nat): nat {
    x + x % 2
  }

  /** Entry `i` of the PRDT at `at`: the address, and the byte count, which is stored less one. Bit 0 of
      the address is reserved and taken as 0; bit 0 of the count is taken as 1, so that both are even. */
  function PrdAt(m: Mem, at: nat, i: nat): Region
    requires at + 16 * (i + 1) <= |m|
  {
    var e := at + 16 * i;
    Region(EvenDown(Address(m, e)), Word(m, e + 12) % 0x40_0000 / 2 * 2 + 2)
  }

  function Prdt(m: Mem, at: nat, n: nat): (r: seq<Region>)
    requires at + 16 * n <= |m|
    ensures |r| == n
  {
    seq(n, i requires 0 <= i < n => PrdAt(m, at, i))
  }

  predicate Inside(m: Mem, regions: seq<Region>) {
    forall r | r in regions :: r.at + r.len <= |m|
  }

  function Gather(m: Mem, regions: seq<Region>): seq<byte>
    requires Inside(m, regions)
  {
    if regions == [] then [] else m[regions[0].at..regions[0].at + regions[0].len] + Gather(m, regions[1..])
  }

  function Scatter(m: Mem, regions: seq<Region>, data: seq<byte>): (m': Mem)
    requires Inside(m, regions)
    ensures |m'| == |m|
    decreases |regions|
  {
    if regions == [] || |data| < regions[0].len then m
    else Scatter(Put(m, regions[0].at, data[..regions[0].len]), regions[1..], data[regions[0].len..])
  }

  /**
   * The controller executes the command in a slot: the header, the FIS and the PRDT are read from
   * memory, the disk performs the command on the gathered data, and for a transfer from the disk the
   * data are scattered. A header or table that does not lie in memory, or a header of another kind, is not
   * executed.
   */
  function Process(m: Mem, list: nat, slot: nat, d: Disk): (r: (Mem, Disk))
    requires |d.view| == |d.media|
    ensures |r.0| == |m| && |r.1.view| == |r.1.media|
  {
    var at := list + 32 * slot;
    if at + 32 > |m| then (m, d) else
    var h := HeaderAt(m, at);
    if h.fisDwords != 5 || h.other != 0 || h.table + 0x80 + 16 * h.prdtLength > |m| then (m, d) else
    var regions := Prdt(m, h.table + 0x80, h.prdtLength);
    if !Inside(m, regions) then (m, d) else
    var (d', data) := d.Perform(Decode(m[h.table..h.table + 20]), Gather(m, regions));
    (if h.write then m else Scatter(m, regions, data), d')
  }

  lemma ProcessValid(m: Mem, list: nat, slot: nat, d: Disk)
    requires d.Valid()
    ensures |d.view| == |d.media| && Process(m, list, slot, d).1.Valid()
  {
    hide Prdt, HeaderAt, Decode, Gather, Scatter, Disk.Perform, Disk.Valid;
    ValidShape(d);
    ProcessPerforms(m, list, slot, d);
  }

  lemma ProcessPerforms(m: Mem, list: nat, slot: nat, d: Disk)
    requires d.Valid() && |d.view| == |d.media|
    ensures Process(m, list, slot, d).1 == d || Process(m, list, slot, d).1.Valid()
  {
    hide Decode, Gather, Scatter, Disk.Perform, Disk.Valid, Word;
    var at := list + 32 * slot;
    if at + 32 <= |m| {
      var h := HeaderAt(m, at);
      if h.table + 0x80 + 16 * h.prdtLength <= |m| {
        var regions := Prdt(m, h.table + 0x80, h.prdtLength);
        if Inside(m, regions) {
          PerformValid(d, Decode(m[h.table..h.table + 20]), Gather(m, regions));
        }
      }
    }
  }

  /** While a driver waits for the bit of `slot` in `issue` to clear, the controller executes the commands
      in the slots set, lowest first. */
  function Serve(m: Mem, list: nat, d: Disk, issue: nat, slot: nat): (r: (Mem, Disk, nat))
    requires |d.view| == |d.media|
    ensures |r.0| == |m|
    decreases issue
  {
    if issue == 0 || !Bit(issue, slot) then (m, d, issue) else
    FfsBound(issue);
    var (m', d') := Process(m, list, Ffs(issue) - 1, d);
    Serve(m', list, d', issue - Pow2(Ffs(issue) - 1), slot)
  }

  lemma ServeStep(m: Mem, list: nat, d: Disk, issue: nat, slot: nat)
    requires |d.view| == |d.media|
    ensures !Bit(issue, slot) ==> Serve(m, list, d, issue, slot) == (m, d, issue)
    ensures issue != 0 && Bit(issue, slot) ==>
              && Ffs(issue) > 0 && Pow2(Ffs(issue) - 1) <= issue
              && var (m', d') := Process(m, list, Ffs(issue) - 1, d);
                 Serve(m, list, d, issue, slot) == Serve(m', list, d', issue - Pow2(Ffs(issue) - 1), slot)
  {
    hide Process, Bit, Ffs, Pow2;
    if issue != 0 { FfsBound(issue); }
  }

  /** With nothing outstanding, that is the one command in slot 0. */
  lemma ServeAlone(m: Mem, list: nat, d: Disk)
    requires |d.view| == |d.media|
    ensures var (m', d') := Process(m, list, 0, d);
            Serve(m, list, d, BitOr(0, Pow2(0)), 0) == (m', d', 0)
  {
    hide Process;
    OrZero(1);
    assert Ffs(1) == 1 && Bit(1, 0);
  }

  // ---- a PRDT that tiles a buffer ----

  /** The regions lie one after the other and make up the buffer. */
  predicate Tiles(regions: seq<Region>, at: nat, len: nat) {
    if regions == [] then len == 0
    else regions[0].at == at && regions[0].len <= len && Tiles(regions[1..], at + regions[0].len, len - regions[0].len)
  }

  lemma {:induction false} TilesInside(m: Mem, regions: seq<Region>, at: nat, len: nat)
    requires Tiles(regions, at, len) && at + len <= |m|
    ensures Inside(m, regions)
  {
    if regions != [] {
      TilesInside(m, regions[1..], at + regions[0].len, len - regions[0].len);
    }
  }

  lemma {:induction false} GatherTiles(m: Mem, regions: seq<Region>, at: nat, len: nat)
    requires Tiles(regions, at, len) && at + len <= |m|
    ensures Inside(m, regions) && Gather(m, regions) == m[at..at + len]
  {
    TilesInside(m, regions, at, len);
    if regions != [] {
      var k := regions[0].len;
      GatherTiles(m, regions[1..], at + k, len - k);
      assert m[at..at + k] + m[at + k..at + len] == m[at..at + len];
    }
  }

  lemma {:induction false} ScatterTiles(m: Mem, regions: seq<Region>, at: nat, len: nat, data: seq<byte>)
    requires Tiles(regions, at, len) && at + len <= |m| && |data| == len
    ensures Inside(m, regions) && Scatter(m, regions, data) == Put(m, at, data)
    decreases |regions|
  {
    hide Put;
    TilesInside(m, regions, at, len);
    if regions == [] {
      PutNothing(m, at, data);
    } else {
      var k := regions[0].len;
      var m1 := Put(m, at, data[..k]);
      ScatterTiles(m1, regions[1..], at + k, len - k, data[k..]);
      PutAdjacent(m, at, data[..k], data[k..]);
      assert data[..k] + data[k..] == data;
    }
  }

  /** Scatter-gather as the driver fills it: every entry 4 MiB but the last, which has the rest. */
  function SgLength(len: nat, i: nat): nat
    requires i * AHCI_MAX_BYTES_PER_SG < len
  {
    if len - i * AHCI_MAX_BYTES_PER_SG < AHCI_MAX_BYTES_PER_SG then len - i * AHCI_MAX_BYTES_PER_SG
    else AHCI_MAX_BYTES_PER_SG
  }

  function SgCount(len: nat): nat
    requires len > 0
  {
    (len - 1) / AHCI_MAX_BYTES_PER_SG + 1
  }

  ghost predicate SgEntries(regions: seq<Region>, at: nat, len: nat)
    requires len > 0
  {
    && |regions| == SgCount(len)
    && forall i | 0 <= i < |regions| ::
         i * AHCI_MAX_BYTES_PER_SG < len && regions[i] == Region(at + i * AHCI_MAX_BYTES_PER_SG, SgLength(len, i))
  }

  /** Such entries tile the buffer, and each decodes to 1 byte up to 4 MiB. */
  lemma {:induction false} SgTiles(regions: seq<Region>, at: nat, len: nat)
    requires len > 0 && SgEntries(regions, at, len)
    ensures Tiles(regions, at, len)
    ensures forall r | r in regions :: 1 <= r.len <= AHCI_MAX_BYTES_PER_SG
    decreases len
  {
    assert 0 * AHCI_MAX_BYTES_PER_SG == 0 && regions[0] == Region(at, SgLength(len, 0));
    if len <= AHCI_MAX_BYTES_PER_SG {
      assert |regions| == 1 && regions[1..] == [];
    } else {
      var rest := regions[1..];
      forall i | 0 <= i < |rest|
        ensures i * AHCI_MAX_BYTES_PER_SG < len - AHCI_MAX_BYTES_PER_SG
        ensures rest[i] == Region(at + AHCI_MAX_BYTES_PER_SG + i * AHCI_MAX_BYTES_PER_SG, SgLength(len - AHCI_MAX_BYTES_PER_SG, i))
      {
        assert rest[i] == regions[i + 1];
        assert (i + 1) * AHCI_MAX_BYTES_PER_SG == i * AHCI_MAX_BYTES_PER_SG + AHCI_MAX_BYTES_PER_SG;
      }
      SgTiles(rest, at + AHCI_MAX_BYTES_PER_SG, len - AHCI_MAX_BYTES_PER_SG);
    }
  }

  /**
   * What one command amounts to, whatever the PRDT looks like: if the memory holds a header that
   * decodes to a FIS of 5 dwords and a PRDT tiling `[at, at + len)`, the disk performs the decoded
   * command on that stretch of memory, and nothing else in memory changes.
   */
  lemma ProcessIsFlat(m: Mem, list: nat, slot: nat, d: Disk, fis: seq<byte>, write: bool, at: nat, len: nat)
    requires d.Valid() && |fis| == 20 && at + len <= |m|
    requires list + 32 * (slot + 1) <= |m|
    requires var h := HeaderAt(m, list + 32 * slot);
             && h.fisDwords == 5 && h.other == 0 && h.write == write
             && h.table + 0x80 + 16 * h.prdtLength <= |m|
             && m[h.table..h.table + 20] == fis
             && Tiles(Prdt(m, h.table + 0x80, h.prdtLength), at, len)
    ensures |d.view| == |d.media|
    ensures var (d', data) := d.Perform(Decode(fis), m[at..at + len]);
            && |data| == len
            && Process(m, list, slot, d) == (if write then m else Put(m, at, data), d')
  {
    hide Put, Decode, Word, Disk.Perform, HeaderAt, Prdt, Disk.Valid;
    var h := HeaderAt(m, list + 32 * slot);
    var regions := Prdt(m, h.table + 0x80, h.prdtLength);
    GatherTiles(m, regions, at, len);
    ValidShape(d);
    PerformValid(d, Decode(fis), m[at..at + len]);
    ScatterTiles(m, regions, at, len, d.Perform(Decode(fis), m[at..at + len]).1);
  }
}
