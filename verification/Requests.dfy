/**
 * A request of the operating system as the driver works it off, command by command, and what it
 * amounts to: a flat copy between disk and buffer, and for writes the state of the media.
 */
module Requests {
  import opened Common
  import opened Memory
  import opened Fis
  import opened Disk
  import opened Identify

  // ---- a request as the loops work it off ----

  /** What a transfer command asks of the disk and the buffer. */
  ghost function Transferred(write: bool, lba: nat, count: nat, d: Disk, data: seq<byte>): (r: (Disk, seq<byte>))
    requires d.Valid()
  {
    ValidShape(d);
    d.Perform(Transfer(write, lba, count), data)
  }

  /** The most sectors the driver asks for in one command, and the addresses that command can name. */
  function MaxBlks(lba48: bool): (n: nat)
    ensures n > 0
  {
    if lba48 then ATA_MAX_SECTORS_LBA48 else ATA_MAX_SECTORS
  }

  function Width(lba48: bool): (n: nat)
    ensures n > 0
  {
    if lba48 then LBA48 else LBA28
  }

  /** What `total` sectors from `start` do to disk and buffer, in the commands of one of the paths. */
  ghost function Request(lba48: bool, write: bool, start: nat, total: nat, d: Disk, data: seq<byte>): (Disk, seq<byte>)
    requires d.Valid() && |data| == ATA_SECT_SIZE * total
  {
    ValidShape(d);
    Chunked(d, data, start, total, MaxBlks(lba48), Width(lba48), write)
  }

  datatype Job = Job(disk: Disk, data: seq<byte>, start: nat, total: nat, lba48: bool, write: bool) {
    ghost predicate Ok() {
      disk.Valid() && |data| == ATA_SECT_SIZE * total
    }
  }

  /** After `done` sectors, what is left of the request turns the disk and the rest of the buffer as
      they now are into what the whole request makes of them. */
  ghost predicate Progress(job: Job, d: Disk, m: Mem, at: nat, done: nat) {
    && job.Ok() && d.Valid() && done <= job.total && at + ATA_SECT_SIZE * job.total <= |m|
    && (ValidShape(d);
        var mid, end := at + ATA_SECT_SIZE * done, at + ATA_SECT_SIZE * job.total;
        var (d', tail) := Chunked(d, m[mid..end], job.start + done, job.total - done, MaxBlks(job.lba48), Width(job.lba48), job.write);
        Request(job.lba48, job.write, job.start, job.total, job.disk, job.data) == (d', m[at..mid] + tail))
  }

  lemma Begins(job: Job, m: Mem, at: nat)
    requires job.Ok() && at + ATA_SECT_SIZE * job.total <= |m| && m[at..at + ATA_SECT_SIZE * job.total] == job.data
    ensures Progress(job, job.disk, m, at, 0)
  {
    hide Chunked, Disk.Valid;
    ValidShape(job.disk);
    assert m[at..at] == [];
    var r := Chunked(job.disk, job.data, job.start, job.total, MaxBlks(job.lba48), Width(job.lba48), job.write);
    assert m[at..at] + r.1 == r.1;
  }

  /** One command, executed on the next stretch of the buffer, is one step of the request. */
  lemma Advances(job: Job, d: Disk, m: Mem, d1: Disk, m1: Mem, at: nat, done: nat, k: nat, lo: nat, hi: nat)
    requires Progress(job, d, m, at, done) && d.Valid() && d1.Valid() && done < job.total
    requires k == if job.total - done > MaxBlks(job.lba48) then MaxBlks(job.lba48) else job.total - done
    requires at + ATA_SECT_SIZE * job.total <= lo || hi <= at
    requires var mid, next := at + ATA_SECT_SIZE * done, at + ATA_SECT_SIZE * (done + k);
             && OnlyInTwo(m, m1, lo, hi, mid, next)
             && next <= |m|
             && (d1, m1[mid..next]) == Transferred(job.write, (job.start + done) % Width(job.lba48), k, d, m[mid..next])
    ensures Progress(job, d1, m1, at, done + k)
  {
    hide Disk.Valid, Chunked, Request, Disk.Perform, OnlyInTwo;
    var mid, next, end := at + ATA_SECT_SIZE * done, at + ATA_SECT_SIZE * (done + k), at + ATA_SECT_SIZE * job.total;
    ChunkedUnfolds(d, m[mid..end], job.start + done, job.total - done, MaxBlks(job.lba48), Width(job.lba48), job.write);
    ValidShape(d1);
    Stretches(m, m1, lo, hi, at, mid, next, end);
    assert mid + ATA_SECT_SIZE * k == next;
    var tail := Chunked(d1, m1[next..end], job.start + (done + k), job.total - (done + k), MaxBlks(job.lba48), Width(job.lba48), job.write).1;
    Joined(m, m1, at, mid, next, tail);
  }

  /** A request of no sectors is at its end at once. */
  lemma Idles(job: Job, d: Disk, m: Mem, m1: Mem, at: nat)
    requires Progress(job, d, m, at, 0) && d.Valid() && job.total == 0 && |m1| == |m|
    ensures Progress(job, d, m1, at, 0)
  {
    hide Disk.Valid;
    ValidShape(d);
    assert m[at..at] == [] && m1[at..at] == [];
  }

  /** A command without data moves nothing. */
  lemma NoData(write: bool, lba: nat, count: nat, d: Disk)
    requires d.Valid() && count > 0
    ensures Transferred(write, lba, count, d, []) == (d, [])
  {
  }

  lemma Stretches(m: Mem, m1: Mem, lo: nat, hi: nat, at: nat, mid: nat, next: nat, end: nat)
    requires OnlyInTwo(m, m1, lo, hi, mid, next) && at <= mid <= next <= end <= |m|
    requires end <= lo || hi <= at
    ensures |m1| == |m|
    ensures m[mid..end][..next - mid] == m[mid..next]
    ensures m[mid..end][next - mid..] == m1[next..end]
    ensures m1[at..mid] == m[at..mid]
  {
    Kept(m, m1, lo, hi, mid, next, at, mid);
    Kept(m, m1, lo, hi, mid, next, next, end);
    hide OnlyInTwo;
    assert m[mid..end][next - mid..] == m[next..end];
  }

  lemma Kept(m: Mem, m1: Mem, lo: nat, hi: nat, mid: nat, next: nat, from: nat, to: nat)
    requires OnlyInTwo(m, m1, lo, hi, mid, next) && from <= to <= |m|
    requires (to <= mid || next <= from) && (to <= lo || hi <= from)
    ensures |m1| == |m| && m1[from..to] == m[from..to]
  {
  }

  lemma Joined(m: Mem, m1: Mem, at: nat, mid: nat, next: nat, tail: seq<byte>)
    requires at <= mid <= next <= |m| == |m1| && m1[at..mid] == m[at..mid]
    ensures m[at..mid] + (m1[mid..next] + tail) == m1[at..next] + tail
  {
    assert m1[at..next] == m1[at..mid] + m1[mid..next];
  }

  lemma SameMemory(m: Mem, lo: nat, hi: nat, at: nat, end: nat)
    ensures OnlyInTwo(m, m, lo, hi, at, end)
  {
  }

  lemma NothingBetween(m: Mem, m1: Mem, lo: nat, hi: nat, at: nat)
    requires OnlyInTwo(m, m1, lo, hi, at, at)
    ensures OnlyIn(m, m1, lo, hi)
  {
  }

  lemma Composes(m0: Mem, m: Mem, m1: Mem, lo: nat, hi: nat, at: nat, end: nat, mid: nat, next: nat)
    requires OnlyInTwo(m0, m, lo, hi, at, end) && OnlyInTwo(m, m1, lo, hi, mid, next) && at <= mid && next <= end
    ensures OnlyInTwo(m0, m1, lo, hi, at, end)
  {
  }

  lemma Ends(job: Job, d: Disk, m: Mem, at: nat)
    requires Progress(job, d, m, at, job.total)
    ensures at + ATA_SECT_SIZE * job.total <= |m|
    ensures Request(job.lba48, job.write, job.start, job.total, job.disk, job.data) ==
            (d, m[at..at + ATA_SECT_SIZE * job.total])
  {
    hide Disk.Valid, Request;
    ValidShape(d);
    var end := at + ATA_SECT_SIZE * job.total;
    assert m[end..end] == [];
    ChunkedNothing(d, [], job.start + job.total, MaxBlks(job.lba48), Width(job.lba48), job.write);
    assert m[at..end] + [] == m[at..end];
  }

  /** Cutting an address to its machine word does not change its address field, nor does it matter when
      something is added. */
  lemma CutAddress(x: nat)
    ensures x % U32 % LBA28 == x % LBA28
  {
    ModOfMod(x, LBA28, 0x10);
  }

  lemma CutAddressExt(x: nat)
    ensures x % U64 % LBA48 == x % LBA48
  {
    ModOfMod(x, LBA48, 0x1_0000);
  }

  lemma SameAfterAdding(start: nat, k: nat, x: nat, n: nat)
    requires n > 0 && start % n == x % n
    ensures (start + k) % n == (x + k) % n
  {
    ModAdd(start, k, n);
    ModAdd(x, k, n);
  }

  lemma AddAddress(start: nat, k: nat, x: nat)
    requires start % LBA28 == x % LBA28
    ensures (start + k) % U32 % LBA28 == (x + k) % LBA28
  {
    CutAddress(start + k);
    SameAfterAdding(start, k, x, LBA28);
  }

  lemma AddAddressExt(start: nat, k: nat, x: nat)
    requires start % LBA48 == x % LBA48
    ensures (start + k) % U64 % LBA48 == (x + k) % LBA48
  {
    CutAddressExt(start + k);
    SameAfterAdding(start, k, x, LBA48);
  }

  // ---- what reads and writes mean ----

  lemma BufferKept(m: Mem, m': Mem, lo: nat, hi: nat, at: nat, n: nat)
    requires OnlyInTwo(m, m', lo, hi, at, at + n) && at + n <= |m| && m'[at..at + n] == m[at..at + n]
    ensures OnlyIn(m, m', lo, hi)
  {
    forall i | 0 <= i < |m| && !(lo <= i < hi)
      ensures m'[i] == m[i]
    {
      if at <= i < at + n {
        assert m'[at..at + n][i - at] == m[at..at + n][i - at];
      }
    }
  }

  /** Every command of the request begins below the address width, counted from the address field of the
      first: such a request does not wrap. */
  ghost predicate Unwrapped(lba48: bool, start: nat, total: nat) {
    Below(start % Width(lba48), total, MaxBlks(lba48), Width(lba48))
  }

  lemma PlainUnwrapped(lba48: bool, start: nat, total: nat)
    ensures start % Width(lba48) + total <= Width(lba48) ==> Unwrapped(lba48, start, total)
    ensures start < Width(lba48) ==> start % Width(lba48) == start
  {
    if start < Width(lba48) { SmallMod(start, Width(lba48)); }
    if start % Width(lba48) + total <= Width(lba48) {
      WithinWidth(start % Width(lba48), total, MaxBlks(lba48), Width(lba48));
    }
  }

  /** How many of its sectors a request that does not wrap transfers. */
  ghost function Reached(lba48: bool, start: nat, total: nat, d: Disk): nat {
    Fit(d, start % Width(lba48), total, MaxBlks(lba48))
  }

  /** All of them exactly when they lie on the disk. */
  lemma ReachedExact(lba48: bool, start: nat, total: nat, d: Disk)
    requires d.Valid()
    ensures var fit, s := Reached(lba48, start, total, d), start % Width(lba48);
            && fit <= total && (fit > 0 ==> d.Holds(s, fit))
            && (total > 0 ==> (fit == total <==> d.Holds(s, total)))
  {
    hide Disk.Valid;
    if total > 0 { FitExact(d, start % Width(lba48), total, MaxBlks(lba48)); }
  }

  /** What a read does, whether it lies on the disk or not. */
  lemma RequestReads(lba48: bool, start: nat, total: nat, d: Disk, data: seq<byte>)
    requires d.Valid() && |data| == ATA_SECT_SIZE * total
    ensures var fit, s := Reached(lba48, start, total, d), start % Width(lba48);
            && fit <= total && (fit > 0 ==> d.Holds(s, fit))
            && (Unwrapped(lba48, start, total) ==>
                 Request(lba48, false, start, total, d, data) == (d, Received(d, data, s, fit)))
    ensures d.Holds(start, total) && start + total <= Width(lba48) ==>
              Request(lba48, false, start, total, d, data) == (d, d.ReadAt(start, total))
  {
    hide Disk.Valid, Chunked, Fit;
    ValidShape(d);
    PlainUnwrapped(lba48, start, total);
    ReachedExact(lba48, start, total, d);
    var s, max, width := start % Width(lba48), MaxBlks(lba48), Width(lba48);
    SameField(lba48, start);
    SameAddress(d, data, start, s, total, max, width, false);
    if total == 0 {
      ChunkedNothing(d, data, s, max, width, false);
    } else if Unwrapped(lba48, start, total) {
      ReadOutcome(d, data, s, total, max, width);
    }
    if d.Holds(start, total) && start + total <= width && total > 0 {
      ReadIsFlat(d, data, start, total, max, width);
    }
  }

  lemma SameField(lba48: bool, start: nat)
    ensures start % Width(lba48) % Width(lba48) == start % Width(lba48)
  {
    SmallMod(start % Width(lba48), Width(lba48));
  }

  /** What `ahci_sata_write_common` does to the disk. */
  ghost function Written(flags: bv32, lba48: bool, start: nat, total: nat, d: Disk, data: seq<byte>): Disk
    requires d.Valid() && |data| == ATA_SECT_SIZE * total
  {
    var d' := Request(lba48, true, start, total, d, data).0;
    if Flushes(flags, lba48) then d'.Flushed(lba48) else d'
  }

  /** What a write does, whether it lies on the disk or not, and what of it is on the media. */
  lemma WrittenMeans(flags: bv32, lba48: bool, start: nat, total: nat, d: Disk, data: seq<byte>)
    requires d.Valid() && |data| == ATA_SECT_SIZE * total
    ensures var d' := Written(flags, lba48, start, total, d, data);
            && d'.Valid() && Request(lba48, true, start, total, d, data).0.Valid()
            && Request(lba48, true, start, total, d, data).1 == data
            && ((Flushes(flags, lba48) && d.HasFlush(lba48)) || !d.cached ==> d'.dirty == {} && Durable(d'))
    ensures var fit, s := Reached(lba48, start, total, d), start % Width(lba48);
            && fit <= total && (fit > 0 ==> d.Holds(s, fit))
            && (Unwrapped(lba48, start, total) ==>
                 Written(flags, lba48, start, total, d, data).view == Stored(d.view, data, s, fit))
    ensures d.Holds(start, total) && start + total <= Width(lba48) ==>
              Written(flags, lba48, start, total, d, data).view == Put(d.view, ATA_SECT_SIZE * start, data)
  {
    hide Chunked, Put, Flushes, Fit;
    ValidShape(d);
    var s, max, width := start % Width(lba48), MaxBlks(lba48), Width(lba48);
    ChunkedValid(d, data, start, total, max, width, true);
    ChunkedKeepsData(d, data, start, total, max, width);
    RequestStores(lba48, start, total, d, data);
    var d' := Written(flags, lba48, start, total, d, data);
    if d'.dirty == {} { CleanIsDurable(d'); }
  }

  lemma RequestStores(lba48: bool, start: nat, total: nat, d: Disk, data: seq<byte>)
    requires d.Valid() && |data| == ATA_SECT_SIZE * total
    ensures var fit, s := Reached(lba48, start, total, d), start % Width(lba48);
            && fit <= total && (fit > 0 ==> d.Holds(s, fit))
            && (Unwrapped(lba48, start, total) ==>
                 Request(lba48, true, start, total, d, data).0.view == Stored(d.view, data, s, fit))
    ensures d.Holds(start, total) && start + total <= Width(lba48) ==>
              Request(lba48, true, start, total, d, data).0.view == Put(d.view, ATA_SECT_SIZE * start, data)
  {
    hide Disk.Valid, Chunked, Fit, Put;
    ValidShape(d);
    PlainUnwrapped(lba48, start, total);
    ReachedExact(lba48, start, total, d);
    var s, max, width := start % Width(lba48), MaxBlks(lba48), Width(lba48);
    SameField(lba48, start);
    SameAddress(d, data, start, s, total, max, width, true);
    if total == 0 {
      ChunkedNothing(d, data, s, max, width, true);
    } else if Unwrapped(lba48, start, total) {
      WriteOutcome(d, data, s, total, max, width);
    }
    if d.Holds(start, total) && start + total <= width {
      WithinWidth(start, total, max, width);
      WriteIsFlat(d, data, start, total, max, width);
    }
  }

  /** No command of a request is aborted. The loops of the driver issue one even for no sectors, and the
      disk reads its count as 256 or 65536. */
  predicate NoneAborted(lba48: bool, write: bool, start: nat, n: nat, d: Disk)
    decreases n
  {
    var k := if n > MaxBlks(lba48) then MaxBlks(lba48) else n;
    && d.Performs(Transfer(write, start % Width(lba48), Carried(lba48, k)), ATA_SECT_SIZE * k)
    && (n <= MaxBlks(lba48) || NoneAborted(lba48, write, start + k, n - k, d))
  }

  /** That is so exactly when the request asks for something, and lies on the disk. */
  lemma NoneAbortedIff(lba48: bool, write: bool, start: nat, n: nat, d: Disk)
    requires d.Valid() && Unwrapped(lba48, start, n)
    ensures NoneAborted(lba48, write, start, n, d) <==> n > 0 && d.Holds(start % Width(lba48), n)
  {
    SameField(lba48, start);
    NoneAbortedFrom(lba48, write, start, start % Width(lba48), n, d);
  }

  lemma {:induction false} NoneAbortedFrom(lba48: bool, write: bool, start: nat, s: nat, n: nat, d: Disk)
    requires d.Valid() && Below(s, n, MaxBlks(lba48), Width(lba48)) && start % Width(lba48) == s % Width(lba48)
    ensures NoneAborted(lba48, write, start, n, d) <==> n > 0 && d.Holds(s, n)
    decreases n
  {
    hide Disk.Valid, MaxBlks, Width, Carried;
    var k := if n > MaxBlks(lba48) then MaxBlks(lba48) else n;
    CarriedAsMeant(lba48, k);
    if n > 0 {
      SmallMod(s, Width(lba48));
      if n > k {
        ModAdd(start, k, Width(lba48));
        ModAdd(s, k, Width(lba48));
        NoneAbortedFrom(lba48, write, start + k, s + k, n - k, d);
      }
    }
  }

  lemma CarriedAsMeant(lba48: bool, k: nat)
    requires k <= MaxBlks(lba48)
    ensures Carried(lba48, k) > 0 && (k > 0 ==> Carried(lba48, k) == k)
  {
  }

  /** A request that wraps, as the stretch that does not and what is left, from a smaller address. */
  lemma RequestWraps(lba48: bool, write: bool, start: nat, total: nat, d: Disk, data: seq<byte>)
    requires d.Valid() && |data| == ATA_SECT_SIZE * total
    ensures var s := start % Width(lba48);
            var h := Head(s, total, MaxBlks(lba48), Width(lba48));
            && Unwrapped(lba48, s, h) && (h == total || s + h >= Width(lba48)) && (total > 0 ==> h > 0)
            && var (d1, front) := Request(lba48, write, s, h, d, data[..ATA_SECT_SIZE * h]);
               && d1.Valid()
               && var (d2, back) := Request(lba48, write, (s + h) % Width(lba48), total - h, d1, data[ATA_SECT_SIZE * h..]);
                  Request(lba48, write, start, total, d, data) == (d2, front + back)
  {
    hide Disk.Valid, Chunked, Head, Below;
    ValidShape(d);
    var s, max, width := start % Width(lba48), MaxBlks(lba48), Width(lba48);
    var h := Head(s, total, max, width);
    SameField(lba48, start);
    Wraps(d, data, start, total, max, width, write);
    ChunkedValid(d, data[..ATA_SECT_SIZE * h], s, h, max, width, write);
  }

  /** 400 sectors from the start of a disk of 300, by the 28-bit path: the first command of 256 is
      performed, the second is not, and the driver returns 400. */
  lemma StraddleExample(d: Disk, data: seq<byte>)
    requires d.Valid() && d.Sectors() == 300 && |data| == ATA_SECT_SIZE * 400
    ensures d.Holds(0, 256)
    ensures Request(false, true, 0, 400, d, data).0.view == Put(d.view, 0, data[..ATA_SECT_SIZE * 256])
    ensures Request(false, false, 0, 400, d, data).1 == d.ReadAt(0, 256) + data[ATA_SECT_SIZE * 256..]
  {
    hide Chunked, Put;
    PlainUnwrapped(false, 0, 400);
    RequestStores(false, 0, 400, d, data);
    RequestReads(false, 0, 400, d, data);
  }

  /** One sector at 2^28, by the 28-bit path: it goes to sector 0, and the driver returns 1. */
  lemma WrapExample(d: Disk, data: seq<byte>)
    requires d.Valid() && d.Sectors() >= 1 && |data| == ATA_SECT_SIZE
    ensures Request(false, true, LBA28, 1, d, data).0.view == Put(d.view, 0, data)
  {
    hide Chunked, Put;
    PlainUnwrapped(false, LBA28, 1);
    RequestStores(false, LBA28, 1, d, data);
    assert data[..ATA_SECT_SIZE] == data;
  }

  /**
   * Write, then read, by either path each, with any flags: where the ranges overlap the read returns
   * the new data, elsewhere what the disk held before.
   */
  lemma WriteThenRead(d: Disk, flags: bv32, ext: bool, at: nat, n: nat, data: seq<byte>,
                      ext': bool, from: nat, k: nat, old_: seq<byte>)
    requires d.Valid() && |data| == ATA_SECT_SIZE * n && |old_| == ATA_SECT_SIZE * k
    requires d.Holds(at, n) && at + n <= Width(ext)
    requires d.Holds(from, k) && from + k <= Width(ext')
    ensures Written(flags, ext, at, n, d, data).Valid()
    ensures var back := Request(ext', false, from, k, Written(flags, ext, at, n, d, data), old_).1;
            && |back| == ATA_SECT_SIZE * k
            && forall i | 0 <= i < |back| ::
                 var pos := ATA_SECT_SIZE * from + i;
                 pos < |d.view| &&
                 back[i] == if ATA_SECT_SIZE * at <= pos < ATA_SECT_SIZE * (at + n) then data[pos - ATA_SECT_SIZE * at]
                            else d.view[pos]
  {
    hide Written, Request, Put, Disk.Valid, Flushes;
    WrittenMeans(flags, ext, at, n, d, data);
    PutBytes(d.view, ATA_SECT_SIZE * at, data);
    RequestReads(ext', from, k, Written(flags, ext, at, n, d, data), old_);
  }

  /**
   * Durability, on a disk that has the flush commands it reports. With the flags as they are set from the
   * identify words, and whatever the disk chooses to write back by itself, every completed write leaves
   * everything on the media if the cache is off, or if the disk reports it on together with the flush
   * command of the addressing mode. This is exact: otherwise a disk that writes nothing back by itself has
   * the media as they were, and a loss of power loses every byte that was changed.
   */
  lemma DurabilityIff(id: IdWords, start: nat, total: nat, d: Disk, data: seq<byte>)
    requires d.Valid() && |data| == ATA_SECT_SIZE * total && total >= 1
    requires d.Holds(start, total) && start + total <= Width(HasLba48(id))
    requires HasWhatItReports(d, FeaturesOf(id))
    ensures var f := FeaturesOf(id);
            var d' := Written(InitWcache(0, id), HasLba48(id), start, total, d, data);
            var sure := !d.cached || (f.CacheOn() && f.HasFlush(f.Has48()));
            && |d'.view| == |d.view| == |d.media|
            && (sure ==> Durable(d'))
            && (d.evict == [] && !sure ==>
                 && d'.media == d.media
                 && forall i | 0 <= i < |data| && data[i] != d.media[ATA_SECT_SIZE * start + i] ::
                      d'.media[ATA_SECT_SIZE * start + i] != d'.view[ATA_SECT_SIZE * start + i] == data[i])
  {
    hide HasLba48, InitWcache, FeaturesOf, Flushes, Chunked, Put, Durable;
    var lba48 := HasLba48(id);
    FlushesIff(id);
    ReadsFeatures(id);
    WrittenMeans(InitWcache(0, id), lba48, start, total, d, data);
    ValidShape(d);
    PutBytes(d.view, ATA_SECT_SIZE * start, data);
    if d.cached && d.evict == [] {
      WithinWidth(start, total, MaxBlks(lba48), Width(lba48));
      WrittenStaysDirty(d, data, start, total, MaxBlks(lba48), Width(lba48));
    }
  }

  predicate HasWhatItReports(d: Disk, f: Features) {
    (f.HasFlush(false) ==> d.HasFlush(false)) && (f.HasFlush(true) ==> d.HasFlush(true))
  }

  /** Exactly when such a write is durable: with `sure` it always is, without it is not on a disk whose
      media differ from the data anywhere. */
  lemma LostWithoutFlush(id: IdWords, start: nat, total: nat, d: Disk, data: seq<byte>)
    requires d.Valid() && |data| == ATA_SECT_SIZE * total && total >= 1
    requires d.Holds(start, total) && start + total <= Width(HasLba48(id))
    requires HasWhatItReports(d, FeaturesOf(id)) && d.evict == [] && |d.media| == |d.view|
    requires data != d.media[ATA_SECT_SIZE * start..ATA_SECT_SIZE * (start + total)]
    ensures var f := FeaturesOf(id);
            Durable(Written(InitWcache(0, id), HasLba48(id), start, total, d, data)) <==>
            !d.cached || (f.CacheOn() && f.HasFlush(f.Has48()))
  {
    hide HasLba48, InitWcache, FeaturesOf, Written, Disk.Valid;
    DurabilityIff(id, start, total, d, data);
    var at := ATA_SECT_SIZE * start;
    var i :| 0 <= i < |data| && data[i] != d.media[at..at + |data|][i];
    assert data[i] != d.media[at + i];
  }
}
