/** What the driver reads out of the 256 words of IDENTIFY DEVICE, and what it makes of the write cache. */
module Identify {
  import opened Common
  import opened Memory
  import opened Bits

  const ATA_ID_COMMAND_SET_1: nat := 82
  const ATA_ID_COMMAND_SET_2: nat := 83
  const ATA_ID_CFS_ENABLE_1: nat := 85
  const ATA_ID_CSF_DEFAULT: nat := 87
  const ATA_ID_LBA_CAPACITY_2: nat := 100
  const ATA_ID_WORDS: nat := 256

  const SATA_FLAG_WCACHE: bv32 := 0x00000100
  const SATA_FLAG_FLUSH: bv32 := 0x00000200
  const SATA_FLAG_FLUSH_EXT: bv32 := 0x00000400

  type IdWords = id: seq<word> | |id| == ATA_ID_WORDS witness seq(ATA_ID_WORDS, _ => 0)

  /** Word 83 (or 87) says that it, and the words it covers, mean something. */
  predicate Meaningful(w: word) {
    w / 0x4000 == 1
  }

  predicate HasFlush(id: IdWords) {
    Meaningful(id[ATA_ID_COMMAND_SET_2]) && Bit(id[ATA_ID_COMMAND_SET_2], 12)
  }

  predicate HasFlushExt(id: IdWords) {
    Meaningful(id[ATA_ID_COMMAND_SET_2]) && Bit(id[ATA_ID_COMMAND_SET_2], 13)
  }

  function IdU64(id: IdWords, n: nat): nat
    requires n + 3 < ATA_ID_WORDS
  {
    (id[n + 3] as nat) * 0x1_0000_0000_0000 + (id[n + 2] as nat) * 0x1_0000_0000 + (id[n + 1] as nat) * 0x1_0000 + (id[n] as nat)
  }

  predicate HasLba48(id: IdWords) {
    && Meaningful(id[ATA_ID_COMMAND_SET_2])
    && IdU64(id, ATA_ID_LBA_CAPACITY_2) != 0
    && Bit(id[ATA_ID_COMMAND_SET_2], 10)
  }

  predicate HasWcache(id: IdWords) {
    Meaningful(id[ATA_ID_COMMAND_SET_2]) && Bit(id[ATA_ID_COMMAND_SET_1], 5)
  }

  predicate WcacheEnabled(id: IdWords) {
    Meaningful(id[ATA_ID_CSF_DEFAULT]) && Bit(id[ATA_ID_CFS_ENABLE_1], 5)
  }

  // ---- what a disk says of itself, in the numbers of the standard ----

  /** `valid83` and `valid87`: words 82, 83 and words 85 to 87 mean something. */
  datatype Features = Features(
    valid83: bool, valid87: bool, cache: bool, cacheOn: bool, lba48: bool, flush: bool, flushExt: bool, capacity: nat)
  {
    predicate CacheOn() {
      valid83 && cache && valid87 && cacheOn
    }

    predicate Has48() {
      valid83 && lba48 && capacity != 0
    }

    predicate HasFlush(ext: bool) {
      valid83 && if ext then flushExt else flush
    }
  }

  function FeaturesOf(id: IdWords): Features {
    Features(
      0x4000 <= id[83] < 0x8000,
      0x4000 <= id[87] < 0x8000,
      id[82] / 0x20 % 2 == 1,
      id[85] / 0x20 % 2 == 1,
      id[83] / 0x400 % 2 == 1,
      id[83] / 0x1000 % 2 == 1,
      id[83] / 0x2000 % 2 == 1,
      (id[100] as nat) + 0x1_0000 * (id[101] as nat) + 0x1_0000_0000 * (id[102] as nat)
      + 0x1_0000_0000_0000 * (id[103] as nat))
  }

  function Flag(on: bool, weight: word): word {
    if on then weight else 0
  }

  /** The words of a disk with these features, in whatever else it reports. */
  function WordsOf(f: Features, id: IdWords): IdWords
    requires f.capacity < U64
  {
    var w83 := Flag(f.valid83, 0x4000) as int + Flag(f.lba48, 0x400) as int + Flag(f.flush, 0x1000) as int + Flag(f.flushExt, 0x2000) as int;
    id[82 := Flag(f.cache, 0x20)][83 := w83][85 := Flag(f.cacheOn, 0x20)][87 := Flag(f.valid87, 0x4000)]
      [100 := f.capacity % 0x1_0000][101 := f.capacity / 0x1_0000 % 0x1_0000]
      [102 := f.capacity / 0x1_0000_0000 % 0x1_0000][103 := f.capacity / 0x1_0000_0000_0000]
  }

  /** Any features can be reported, and come back. */
  lemma FeaturesRoundTrip(f: Features, id: IdWords)
    requires f.capacity < U64
    ensures FeaturesOf(WordsOf(f, id)) == f
  {
    Quarters(f.capacity);
  }

  lemma Quarters(x: nat)
    requires x < U64
    ensures x % 0x1_0000 + 0x1_0000 * (x / 0x1_0000 % 0x1_0000) + 0x1_0000_0000 * (x / 0x1_0000_0000 % 0x1_0000)
            + 0x1_0000_0000_0000 * (x / 0x1_0000_0000_0000) == x
    ensures x / 0x1_0000_0000_0000 < 0x1_0000
  {
    var a, b := x / 0x1_0000, x / 0x1_0000_0000;
    assert b == a / 0x1_0000 && x / 0x1_0000_0000_0000 == b / 0x1_0000;
  }

  /** What the driver's predicates read is what the disk means. */
  lemma ReadsFeatures(id: IdWords)
    ensures var f := FeaturesOf(id);
            && (HasFlush(id) <==> f.HasFlush(false))
            && (HasFlushExt(id) <==> f.HasFlush(true))
            && (HasLba48(id) <==> f.Has48()) && IdU64(id, ATA_ID_LBA_CAPACITY_2) == f.capacity
            && (HasWcache(id) && WcacheEnabled(id) <==> f.CacheOn())
  {
    hide Bit;
    WeightedBits(id[82]);
    WeightedBits(id[83]);
    WeightedBits(id[85]);
  }

  lemma WeightedBits(w: word)
    ensures Bit(w, 5) <==> w / 0x20 % 2 == 1
    ensures Bit(w, 10) <==> w / 0x400 % 2 == 1
    ensures Bit(w, 12) <==> w / 0x1000 % 2 == 1
    ensures Bit(w, 13) <==> w / 0x2000 % 2 == 1
  {
    hide Bit;
    BitIs(w, 5);
    BitIs(w, 10);
    BitIs(w, 12);
    BitIs(w, 13);
    assert Pow2(5) == 0x20 by { assert Pow2(3) == 8; }
    Pow2Of16();
    assert Pow2(10) == 0x400 && Pow2(12) == 0x1000 && Pow2(13) == 0x2000;
  }

  /** `ahci_sata_init_wcache`, on the flags as they were. */
  function InitWcache(flags: bv32, id: IdWords): bv32 {
    var f1 := With(flags, HasWcache(id) && WcacheEnabled(id), SATA_FLAG_WCACHE);
    var f2 := With(f1, HasFlush(id), SATA_FLAG_FLUSH);
    With(f2, HasFlushExt(id), SATA_FLAG_FLUSH_EXT)
  }

  function With(flags: bv32, on: bool, flag: bv32): bv32 {
    if on then flags | flag else flags
  }

  /** Whether `ahci_sata_write_common` ends with a flush. */
  predicate Flushes(flags: bv32, lba48: bool) {
    && flags & SATA_FLAG_WCACHE != 0
    && (if lba48 then flags & SATA_FLAG_FLUSH_EXT != 0 else flags & SATA_FLAG_FLUSH != 0)
  }

  /** With flags that start at 0, writes end with a flush exactly when the disk says that its write
      cache is there and on, and that it has the flush command of the addressing mode in use. */
  lemma FlushesIff(id: IdWords)
    ensures var f := FeaturesOf(id);
            && (Flushes(InitWcache(0, id), HasLba48(id)) <==> f.CacheOn() && f.HasFlush(f.Has48()))
            && InitWcache(0, id) == FlagWord(f.CacheOn(), f.HasFlush(false), f.HasFlush(true))
  {
    hide HasWcache, WcacheEnabled, HasFlush, HasFlushExt, HasLba48, FeaturesOf;
    ReadsFeatures(id);
    FlagBits(HasWcache(id) && WcacheEnabled(id), HasFlush(id), HasFlushExt(id));
  }

  /** The flags in numbers. */
  function FlagWord(wcache: bool, flush: bool, flushExt: bool): bv32 {
    (if wcache then 0x100 else 0) + (if flush then 0x200 else 0) + (if flushExt then 0x400 else 0)
  }

  predicate Includes(flags: bv32, old_: bv32) {
    flags & old_ == old_
  }

  /** No flag is ever cleared. */
  lemma FlagsStay(flags: bv32, wcache: bool, flush: bool, flushExt: bool)
    ensures Includes(With(With(With(flags, wcache, SATA_FLAG_WCACHE), flush, SATA_FLAG_FLUSH), flushExt, SATA_FLAG_FLUSH_EXT), flags)
  {
    hide With, Includes;
    var f1 := With(flags, wcache, SATA_FLAG_WCACHE);
    var f2 := With(f1, flush, SATA_FLAG_FLUSH);
    IncludesItself(flags);
    FlagStays(flags, flags, wcache, SATA_FLAG_WCACHE);
    FlagStays(f1, flags, flush, SATA_FLAG_FLUSH);
    FlagStays(f2, flags, flushExt, SATA_FLAG_FLUSH_EXT);
  }

  lemma IncludesItself(flags: bv32)
    ensures Includes(flags, flags)
  {
  }

  lemma FlagStays(f: bv32, flags: bv32, on: bool, flag: bv32)
    requires Includes(f, flags)
    ensures Includes(With(f, on, flag), flags)
  {
  }

  lemma FlagBits(wcache: bool, flush: bool, flushExt: bool)
    ensures var f1 := With(0, wcache, SATA_FLAG_WCACHE);
            var f2 := With(f1, flush, SATA_FLAG_FLUSH);
            var f3 := With(f2, flushExt, SATA_FLAG_FLUSH_EXT);
            && (f3 & SATA_FLAG_WCACHE != 0 <==> wcache)
            && (f3 & SATA_FLAG_FLUSH != 0 <==> flush)
            && (f3 & SATA_FLAG_FLUSH_EXT != 0 <==> flushExt)
            && f3 == FlagWord(wcache, flush, flushExt)
  {
  }
}
