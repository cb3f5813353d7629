/**
 * The disk behind the controller: what it reads back, what has reached the media, and a write cache
 * that may be written back at any time.
 */
module Disk {
  import opened Common
  import opened Memory
  import opened Fis

  const SECTOR: nat := 512

  /** `view` is what reads return; `media` is what survives a loss of power. `evict` is what the disk
      will choose to write back to the media at each write command; any choice is possible. `flush` and
      `flushExt` say which flush commands it has. */
  datatype Disk = Disk(view: seq<byte>, media: seq<byte>, dirty: set<nat>, cached: bool, evict: seq<set<nat>>,
                       flush: bool, flushExt: bool) {

    function Sectors(): nat {
      |view| / SECTOR
    }

    ghost predicate Valid() {
      && |view| == |media| && |view| % SECTOR == 0
      && (forall i | 0 <= i < |view| && i / SECTOR !in dirty :: media[i] == view[i])
      && (!cached ==> dirty == {})
    }

    predicate Holds(lba: nat, count: nat) {
      SECTOR * (lba + count) <= |view|
    }

    function ReadAt(lba: nat, count: nat): (data: seq<byte>)
      requires Holds(lba, count)
      ensures |data| == SECTOR * count
    {
      view[SECTOR * lba..SECTOR * (lba + count)]
    }

    /** With the cache on, the sectors written are dirty until written back. */
    function WriteAt(lba: nat, count: nat, data: seq<byte>): Disk
      requires Holds(lba, count) && |data| == SECTOR * count && |view| == |media|
    {
      var view' := Put(view, SECTOR * lba, data);
      var out := if evict == [] then {} else evict[0];
      var dirty' := if cached then dirty + Span(lba, count) - out else {};
      this.(view := view', media := Media(view', media, dirty'), dirty := dirty', evict := if evict == [] then [] else evict[1..])
    }

    /** It has the flush command of an addressing mode. */
    predicate HasFlush(ext: bool) {
      if ext then flushExt else flush
    }

    /** With it, everything written goes to the media; a disk that lacks it aborts the command. */
    function Flushed(ext: bool): Disk {
      if HasFlush(ext) then this.(media := view, dirty := {}) else this
    }

    /** The disk performs a command with so many bytes of data, and does not abort it. */
    predicate Performs(cmd: AtaCommand, bytes: nat) {
      && ((cmd.ReadDma? || cmd.WriteDma?) ==> Holds(cmd.lba, cmd.count) && SECTOR * cmd.count <= bytes)
      && (cmd.FlushCache? ==> flush) && (cmd.FlushCacheExt? ==> flushExt)
    }

    /** What a command does to the disk and to the data that goes with it. The disk aborts a transfer
        beyond its end, or of more sectors than there are data for; of longer data it uses the front. */
    function Perform(cmd: AtaCommand, data: seq<byte>): (r: (Disk, seq<byte>))
      requires |view| == |media|
      ensures |r.0.view| == |r.0.media| == |view| && |r.1| == |data|
    {
      match cmd
      case ReadDma(lba, count) =>
        if Performs(cmd, |data|)
        then (this, ReadAt(lba, count) + data[SECTOR * count..]) else (this, data)
      case WriteDma(lba, count) =>
        if Performs(cmd, |data|)
        then (WriteAt(lba, count, data[..SECTOR * count]), data) else (this, data)
      case FlushCache => (Flushed(false), data)
      case FlushCacheExt => (Flushed(true), data)
      case _ => (this, data)
    }
  }

  /** The sectors of a range. */
  function Span(lba: nat, count: nat): set<nat> {
    if count == 0 then {} else Span(lba, count - 1) + {lba + count - 1}
  }

  /** The media agree with the view outside the dirty sectors. */
  function Media(view: seq<byte>, media: seq<byte>, dirty: set<nat>): (m: seq<byte>)
    requires |view| == |media|
    ensures |m| == |view|
  {
    seq(|view|, i requires 0 <= i < |view| => if i / SECTOR in dirty then media[i] else view[i])
  }

  /** Everything written is on the media. */
  ghost predicate Durable(d: Disk) {
    d.media == d.view
  }

  lemma PerformValid(d: Disk, cmd: AtaCommand, data: seq<byte>)
    requires d.Valid()
    ensures var (d', out) := d.Perform(cmd, data);
            && d'.Valid() && |d'.view| == |d.view| && d'.cached == d.cached && |out| == |data|
            && d'.flush == d.flush && d'.flushExt == d.flushExt
  {
  }

  lemma WriteKeepsData(d: Disk, lba: nat, count: nat, data: seq<byte>)
    requires d.Valid()
    ensures |d.view| == |d.media| && d.Perform(WriteDma(lba, count), data).1 == data
  {
  }

  lemma ValidShape(d: Disk)
    requires d.Valid()
    ensures |d.view| == |d.media|
  {
  }

  lemma CleanIsDurable(d: Disk)
    requires d.Valid() && d.dirty == {}
    ensures Durable(d)
  {
  }

  // ---- a request as a sequence of commands ----

  /** What an address field of `width` addresses holds. */
  function Field(start: nat, width: nat): nat
    requires width > 0
  {
    start % width
  }

  /**
   * What `n` sectors from `start`, sent in commands of at most `max`, do to the disk and the buffer;
   * the address field of a command holds `start` modulo `width`.
   */
  function Chunked(d: Disk, data: seq<byte>, start: nat, n: nat, max: nat, width: nat, write: bool): (r: (Disk, seq<byte>))
    requires |d.view| == |d.media| && |data| == SECTOR * n && max > 0 && width > 0
    ensures |r.1| == |data| && |r.0.view| == |r.0.media| == |d.view|
    decreases n
  {
    if n == 0 then (d, data) else
    var k := if n > max then max else n;
    var (d1, head) := d.Perform(Transfer(write, Field(start, width), k), data[..SECTOR * k]);
    var (d2, tail) := Chunked(d1, data[SECTOR * k..], start + k, n - k, max, width, write);
    (d2, head + tail)
  }

  lemma {:induction false} ChunkedValid(d: Disk, data: seq<byte>, start: nat, n: nat, max: nat, width: nat, write: bool)
    requires d.Valid() && |data| == SECTOR * n && max > 0 && width > 0
    ensures var d' := Chunked(d, data, start, n, max, width, write).0;
            && d'.Valid() && d'.cached == d.cached && d'.flush == d.flush && d'.flushExt == d.flushExt
            && (!d.cached ==> d'.dirty == {})
    decreases n
  {
    if n > 0 {
      var k := if n > max then max else n;
      PerformValid(d, Transfer(write, Field(start, width), k), data[..SECTOR * k]);
      var d1 := d.Perform(Transfer(write, Field(start, width), k), data[..SECTOR * k]).0;
      ChunkedValid(d1, data[SECTOR * k..], start + k, n - k, max, width, write);
    }
  }

  /** A write leaves the buffer alone, in and out of range. */
  lemma {:induction false} ChunkedKeepsData(d: Disk, data: seq<byte>, start: nat, n: nat, max: nat, width: nat)
    requires d.Valid() && |data| == SECTOR * n && max > 0 && width > 0
    ensures |d.view| == |d.media|
    ensures Chunked(d, data, start, n, max, width, true).1 == data
    decreases n
  {
    hide Field, Chunked, Disk.Valid, Disk.Perform;
    if n == 0 {
      ChunkedNothing(d, data, start, max, width, true);
    } else {
      var k := if n > max then max else n;
      var b := SECTOR * k;
      ChunkedUnfolds(d, data, start, n, max, width, true);
      WriteKeepsData(d, Field(start, width), k, data[..b]);
      PerformValid(d, WriteDma(Field(start, width), k), data[..b]);
      ChunkedKeepsData(d.Perform(WriteDma(Field(start, width), k), data[..b]).0, data[b..], start + k, n - k, max, width);
      assert data[..b] + data[b..] == data;
    }
  }

  /** Every command of the request begins below `width`, so no address is cut. */
  ghost predicate Below(start: nat, n: nat, max: nat, width: nat)
    requires max > 0
    decreases n
  {
    n == 0 || (start < width && (n <= max || Below(start + max, n - max, max, width)))
  }

  lemma {:induction false} WithinWidth(start: nat, n: nat, max: nat, width: nat)
    requires max > 0 && start + n <= width
    ensures Below(start, n, max, width)
    decreases n
  {
    if n > max { WithinWidth(start + max, n - max, max, width); }
  }

  /** However it is cut up, a read within the disk and the address width fills the buffer with the
      sectors asked for, and leaves the disk alone. */
  lemma {:induction false} ReadIsFlat(d: Disk, data: seq<byte>, start: nat, n: nat, max: nat, width: nat)
    requires d.Valid() && |data| == SECTOR * n && max > 0
    requires d.Holds(start, n) && Below(start, n, max, width) && width > 0
    ensures Chunked(d, data, start, n, max, width, false) == (d, d.ReadAt(start, n))
    decreases n
  {
    hide Field, Chunked, Disk.Valid, Disk.Perform;
    if n == 0 {
      ChunkedNothing(d, data, start, max, width, false);
    } else {
      var k := if n > max then max else n;
      SmallMod(start, width);
      ChunkedUnfolds(d, data, start, n, max, width, false);
      ReadChunk(d, data[..SECTOR * k], start, k);
      ReadIsFlat(d, data[SECTOR * k..], start + k, n - k, max, width);
      assert d.ReadAt(start, k) + d.ReadAt(start + k, n - k) == d.ReadAt(start, n);
    }
  }

  lemma ReadChunk(d: Disk, data: seq<byte>, start: nat, k: nat)
    requires d.Valid() && d.Holds(start, k) && |data| == SECTOR * k
    ensures |d.view| == |d.media|
    ensures d.Perform(ReadDma(start, k), data) == (d, d.ReadAt(start, k))
  {
    assert data[SECTOR * k..] == [];
    assert d.ReadAt(start, k) + [] == d.ReadAt(start, k);
  }

  lemma SmallMod(x: nat, m: nat)
    requires x < m
    ensures x % m == x && Field(x, m) == x
  {
  }

  lemma WriteChunk(d: Disk, data: seq<byte>, start: nat, k: nat)
    requires d.Valid() && d.Holds(start, k) && |data| == SECTOR * k
    ensures |d.view| == |d.media|
    ensures var (d', out) := d.Perform(WriteDma(start, k), data);
            && d'.Valid() && |d'.view| == |d'.media| == |d.view|
            && d'.view == Put(d.view, SECTOR * start, data) && out == data
  {
    hide Put;
    PerformValid(d, WriteDma(start, k), data);
    assert data[..SECTOR * k] == data;
  }

  lemma ChunkedNothing(d: Disk, data: seq<byte>, start: nat, max: nat, width: nat, write: bool)
    requires d.Valid() && data == [] && max > 0 && width > 0
    ensures |d.view| == |d.media| && Chunked(d, data, start, 0, max, width, write) == (d, data)
  {
  }

  /** A request begins with one command. */
  lemma ChunkedUnfolds(d: Disk, data: seq<byte>, start: nat, n: nat, max: nat, width: nat, write: bool)
    requires d.Valid() && |data| == SECTOR * n && n > 0 && max > 0 && width > 0
    ensures |d.view| == |d.media|
    ensures var k := if n > max then max else n;
            var (d1, head) := d.Perform(Transfer(write, Field(start, width), k), data[..SECTOR * k]);
            && |head| == SECTOR * k && |d1.view| == |d1.media|
            && var (d2, tail) := Chunked(d1, data[SECTOR * k..], start + k, n - k, max, width, write);
               Chunked(d, data, start, n, max, width, write) == (d2, head + tail)
  {
    hide Put;
  }

  /** However it is cut up, a write within the disk and the address width replaces exactly the sectors
      asked for in what the disk reads back, and leaves the buffer alone. */
  lemma {:induction false} WriteIsFlat(d: Disk, data: seq<byte>, start: nat, n: nat, max: nat, width: nat)
    requires d.Valid() && |data| == SECTOR * n && max > 0
    requires d.Holds(start, n) && Below(start, n, max, width) && width > 0
    ensures var (d', data') := Chunked(d, data, start, n, max, width, true);
            d'.view == Put(d.view, SECTOR * start, data) && data' == data
    decreases n
  {
    hide Field, Put, Disk.Perform, Disk.Valid, Chunked;
    if n == 0 {
      PutNothing(d.view, SECTOR * start, data);
      ChunkedNothing(d, data, start, max, width, true);
    } else {
      var k := if n > max then max else n;
      var b, at := SECTOR * k, SECTOR * start;
      var now, later := data[..b], data[b..];
      assert SECTOR * (start + k) == at + b && data == now + later;
      SmallMod(start, width);
      WriteChunk(d, now, start, k);
      ChunkedUnfolds(d, data, start, n, max, width, true);
      var d1 := d.Perform(WriteDma(start, k), now).0;
      WriteIsFlat(d1, later, start + k, n - k, max, width);
      var (d2, tail) := Chunked(d1, later, start + k, n - k, max, width, true);
      assert Chunked(d, data, start, n, max, width, true) == (d2, now + tail);
      PutAdjacent(d.view, at, now, later);
    }
  }

  lemma PutNothing(m: Mem, at: nat, none: seq<byte>)
    requires none == [] && at <= |m|
    ensures Put(m, at, none) == m
  {
  }

  /** The 28-bit and the 48-bit path do the same wherever both apply: to the data, and to what the
      disk reads back. */
  lemma PathsAgree(d: Disk, data: seq<byte>, start: nat, n: nat, write: bool)
    requires d.Valid() && d.Holds(start, n) && start + n <= LBA28 && |data| == SECTOR * n
    ensures var (d1, data1) := Chunked(d, data, start, n, ATA_MAX_SECTORS, LBA28, write);
            var (d2, data2) := Chunked(d, data, start, n, ATA_MAX_SECTORS_LBA48, LBA48, write);
            d1.view == d2.view && data1 == data2
  {
    hide Field, Chunked, Put;
    WithinWidth(start, n, ATA_MAX_SECTORS, LBA28);
    WithinWidth(start, n, ATA_MAX_SECTORS_LBA48, LBA48);
    if write {
      WriteIsFlat(d, data, start, n, ATA_MAX_SECTORS, LBA28);
      WriteIsFlat(d, data, start, n, ATA_MAX_SECTORS_LBA48, LBA48);
    } else {
      ReadIsFlat(d, data, start, n, ATA_MAX_SECTORS, LBA28);
      ReadIsFlat(d, data, start, n, ATA_MAX_SECTORS_LBA48, LBA48);
    }
  }

  // ---- requests that do not fit ----

  lemma {:induction false} BeyondTheEnd(d: Disk, data: seq<byte>, start: nat, n: nat, max: nat, width: nat, write: bool)
    requires d.Valid() && |data| == SECTOR * n && max > 0 && width > 0
    requires d.Sectors() <= start && Below(start, n, max, width)
    ensures Chunked(d, data, start, n, max, width, write) == (d, data)
    decreases n
  {
    hide Field, Chunked;
    if n == 0 {
      ChunkedNothing(d, data, start, max, width, write);
    } else {
      var k := if n > max then max else n;
      var b := SECTOR * k;
      SmallMod(start, width);
      ChunkedUnfolds(d, data, start, n, max, width, write);
      BeyondTheEnd(d, data[b..], start + k, n - k, max, width, write);
      assert data[..b] + data[b..] == data;
    }
  }

  /** How many of `n` sectors from `start` a disk transfers: all of them, or those of the commands that
      lie on the disk as a whole. */
  function Fit(d: Disk, start: nat, n: nat, max: nat): nat
    requires max > 0
  {
    if start + n <= d.Sectors() then n
    else if start >= d.Sectors() then 0
    else max * ((d.Sectors() - start) / max)
  }

  /** It is all of them exactly when they lie on the disk. */
  lemma FitExact(d: Disk, start: nat, n: nat, max: nat)
    requires d.Valid() && n > 0 && max > 0
    ensures Fit(d, start, n, max) <= n
    ensures Fit(d, start, n, max) > 0 ==> d.Holds(start, Fit(d, start, n, max))
    ensures Fit(d, start, n, max) == n <==> d.Holds(start, n)
  {
    if start < d.Sectors() {
      WholeCommands(d.Sectors() - start, max);
    }
  }

  lemma WholeCommands(room: nat, max: nat)
    requires max > 0
    ensures room < max + max * (room / max) && max * (room / max) <= room
    ensures room >= max ==> max * (room / max) == max + max * ((room - max) / max)
    ensures room < max ==> max * (room / max) == 0
  {
    var q, r := room / max, room % max;
    assert room == max * q + r;
    if room < max {
      ModUnique(room, 0, room, max);
    } else {
      ModUnique(room - max, q - 1, r, max) by { assert max * (q - 1) == max * q - max; }
      var q' := (room - max) / max;
      assert room - max == max * q' + r;
      assert max * q' == max * q - max;
    }
  }

  /** The fit of the rest of a request whose first command lies on the disk. */
  lemma FitNext(d: Disk, start: nat, n: nat, max: nat)
    requires d.Valid() && max > 0 && n > 0 && d.Sectors() < start + n
    ensures start + max <= d.Sectors() ==> n > max && Fit(d, start, n, max) == max + Fit(d, start + max, n - max, max)
    ensures start + max > d.Sectors() ==> Fit(d, start, n, max) == 0
  {
    if start < d.Sectors() { WholeCommands(d.Sectors() - start, max); }
    if start + max == d.Sectors() { WholeCommands(0, max); }
  }

  /** The buffer after a read of which `fit` sectors were transferred. */
  function Received(d: Disk, data: seq<byte>, start: nat, fit: nat): (r: seq<byte>)
    requires fit == 0 || d.Holds(start, fit)
    requires SECTOR * fit <= |data|
    ensures |r| == |data|
  {
    if fit == 0 then data else d.ReadAt(start, fit) + data[SECTOR * fit..]
  }

  /** What reads return after a write of which `fit` sectors were transferred. */
  function Stored(view: seq<byte>, data: seq<byte>, start: nat, fit: nat): (v: seq<byte>)
    requires fit == 0 || SECTOR * (start + fit) <= |view|
    requires SECTOR * fit <= |data|
    ensures |v| == |view|
  {
    if fit == 0 then view else Put(view, SECTOR * start, data[..SECTOR * fit])
  }

  /** The first command of a request that does not fit is aborted when it reaches beyond the end. */
  lemma AbortsFirst(d: Disk, data: seq<byte>, start: nat, n: nat, max: nat, width: nat, write: bool)
    requires d.Valid() && |data| == SECTOR * n && n > 0 && max > 0 && Below(start, n, max, width) && width > 0
    requires d.Sectors() < start + n && d.Sectors() < start + max
    ensures Chunked(d, data, start, n, max, width, write) == (d, data)
  {
    hide Field, Chunked;
    var k := if n > max then max else n;
    var b := SECTOR * k;
    SmallMod(start, width);
    ChunkedUnfolds(d, data, start, n, max, width, write);
    BeyondTheEnd(d, data[b..], start + k, n - k, max, width, write);
    assert data[..b] + data[b..] == data;
  }

  /** Exactly what a read does, on the disk or not: it receives the sectors that fit, and the rest of
      the buffer stays. */
  lemma {:induction false} ReadOutcome(d: Disk, data: seq<byte>, start: nat, n: nat, max: nat, width: nat)
    requires d.Valid() && |data| == SECTOR * n && n > 0 && max > 0
    requires Below(start, n, max, width) && width > 0
    ensures var fit := Fit(d, start, n, max);
            && fit <= n && (fit > 0 ==> d.Holds(start, fit)) && (fit == n <==> d.Holds(start, n))
            && Chunked(d, data, start, n, max, width, false) == (d, Received(d, data, start, fit))
    decreases n
  {
    hide Field, Chunked, Disk.Valid, Disk.Perform, Fit;
    FitExact(d, start, n, max);
    var fit := Fit(d, start, n, max);
    if fit == n {
      ReadIsFlat(d, data, start, n, max, width);
      assert data[SECTOR * n..] == [];
      assert d.ReadAt(start, n) + [] == d.ReadAt(start, n);
    } else {
      FitSectors(d, start, n);
      FitNext(d, start, n, max);
      if d.Sectors() < start + max {
        AbortsFirst(d, data, start, n, max, width, false);
      } else {
        var b := SECTOR * max;
        SmallMod(start, width);
        FitSectors(d, start, max);
        ChunkedUnfolds(d, data, start, n, max, width, false);
        ReadChunk(d, data[..b], start, max);
        ReadOutcome(d, data[b..], start + max, n - max, max, width);
        ReceivedJoins(d, data, start, max, fit - max);
      }
    }
  }

  lemma FitSectors(d: Disk, start: nat, n: nat)
    requires d.Valid()
    ensures d.Holds(start, n) <==> start + n <= d.Sectors()
  {
  }

  lemma ReceivedJoins(d: Disk, data: seq<byte>, start: nat, k: nat, fit: nat)
    requires SECTOR * (k + fit) <= |data| && k > 0
    requires d.Holds(start, k) && d.Holds(start, k + fit)
    ensures d.ReadAt(start, k) + Received(d, data[SECTOR * k..], start + k, fit) == Received(d, data, start, k + fit)
  {
    var b, c := SECTOR * k, SECTOR * fit;
    assert SECTOR * (k + fit) == b + c;
    if fit > 0 {
      assert data[b..][c..] == data[b + c..];
      assert d.ReadAt(start, k) + d.ReadAt(start + k, fit) == d.ReadAt(start, k + fit);
      assert d.ReadAt(start, k) + (d.ReadAt(start + k, fit) + data[b + c..])
          == (d.ReadAt(start, k) + d.ReadAt(start + k, fit)) + data[b + c..];
    }
  }

  /** Exactly what a write does: it stores the sectors that fit, and leaves the buffer alone. */
  lemma {:induction false} WriteOutcome(d: Disk, data: seq<byte>, start: nat, n: nat, max: nat, width: nat)
    requires d.Valid() && |data| == SECTOR * n && n > 0 && max > 0
    requires Below(start, n, max, width) && width > 0
    ensures |d.view| == |d.media|
    ensures var fit := Fit(d, start, n, max);
            && fit <= n && (fit > 0 ==> d.Holds(start, fit)) && (fit == n <==> d.Holds(start, n))
            && Chunked(d, data, start, n, max, width, true).0.view == Stored(d.view, data, start, fit)
    decreases n
  {
    hide Field, Chunked, Disk.Valid, Disk.Perform, Fit, Put;
    FitExact(d, start, n, max);
    ValidShape(d);
    var fit := Fit(d, start, n, max);
    if fit == n {
      WriteIsFlat(d, data, start, n, max, width);
      assert data[..SECTOR * n] == data;
    } else {
      FitSectors(d, start, n);
      FitNext(d, start, n, max);
      if d.Sectors() < start + max {
        AbortsFirst(d, data, start, n, max, width, true);
      } else {
        var b := SECTOR * max;
        SmallMod(start, width);
        FitSectors(d, start, max);
        ChunkedUnfolds(d, data, start, n, max, width, true);
        WriteChunk(d, data[..b], start, max);
        var d1 := d.Perform(WriteDma(start, max), data[..b]).0;
        SameFit(d, d1, start + max, n - max, max);
        WriteOutcome(d1, data[b..], start + max, n - max, max, width);
        StoredJoins(d.view, data, start, max, fit - max);
      }
    }
  }

  lemma SameFit(d: Disk, d1: Disk, start: nat, n: nat, max: nat)
    requires |d1.view| == |d.view| && max > 0
    ensures Fit(d1, start, n, max) == Fit(d, start, n, max)
  {
  }

  lemma StoredJoins(view: seq<byte>, data: seq<byte>, start: nat, k: nat, fit: nat)
    requires SECTOR * (k + fit) <= |data| && k > 0
    requires SECTOR * (start + k + fit) <= |view|
    ensures Stored(Put(view, SECTOR * start, data[..SECTOR * k]), data[SECTOR * k..], start + k, fit)
         == Stored(view, data, start, k + fit)
  {
    hide Put;
    var b, c := SECTOR * k, SECTOR * fit;
    assert SECTOR * (k + fit) == b + c && SECTOR * (start + k) == SECTOR * start + b;
    if fit > 0 {
      PutAdjacent(view, SECTOR * start, data[..b], data[b..][..c]);
      assert data[..b] + data[b..][..c] == data[..b + c];
    }
  }

  // ---- requests that pass the address width ----

  /** The address field is all a command has of its address. */
  lemma {:induction false} SameAddress(d: Disk, data: seq<byte>, start: nat, start': nat, n: nat, max: nat, width: nat, write: bool)
    requires d.Valid() && |data| == SECTOR * n && max > 0 && width > 0 && Field(start, width) == Field(start', width)
    ensures |d.view| == |d.media|
    ensures Chunked(d, data, start, n, max, width, write) == Chunked(d, data, start', n, max, width, write)
    decreases n
  {
    hide Chunked, Disk.Valid, Disk.Perform;
    if n == 0 {
      ChunkedNothing(d, data, start, max, width, write);
      ChunkedNothing(d, data, start', max, width, write);
    } else {
      var k := if n > max then max else n;
      ChunkedUnfolds(d, data, start, n, max, width, write);
      ChunkedUnfolds(d, data, start', n, max, width, write);
      var cmd := Transfer(write, Field(start, width), k);
      PerformValid(d, cmd, data[..SECTOR * k]);
      ModAdd(start, k, width);
      ModAdd(start', k, width);
      SameAddress(d.Perform(cmd, data[..SECTOR * k]).0, data[SECTOR * k..], start + k, start' + k, n - k, max, width, write);
    }
  }

  /** The sectors of a request that go out in commands beginning below `width`. */
  function Head(start: nat, n: nat, max: nat, width: nat): (h: nat)
    requires max > 0
    ensures h <= n
    decreases n
  {
    if n == 0 || start >= width then 0
    else var k := if n > max then max else n; k + Head(start + k, n - k, max, width)
  }

  lemma {:induction false} HeadIsBelow(start: nat, n: nat, max: nat, width: nat)
    requires max > 0
    ensures Below(start, Head(start, n, max, width), max, width)
    ensures Head(start, n, max, width) == n || start + Head(start, n, max, width) >= width
    ensures start < width && n > 0 ==> Head(start, n, max, width) > 0
    decreases n
  {
    if n > 0 && start < width {
      var k := if n > max then max else n;
      HeadIsBelow(start + k, n - k, max, width);
    }
  }

  lemma HeadNext(start: nat, n: nat, max: nat, width: nat)
    requires max > 0
    ensures var h, k := Head(start, n, max, width), if n > max then max else n;
            h > 0 ==> n > 0 && k == (if h > max then max else h) && Head(start + k, n - k, max, width) == h - k
  {
  }

  lemma SliceOfSlice(data: seq<byte>, b: nat, c: nat)
    requires b <= c <= |data|
    ensures data[..c][..b] == data[..b] && data[..c][b..] == data[b..][..c - b] && data[b..][c - b..] == data[c..]
  {
  }

  lemma {:induction false} SplitAtHead(d: Disk, data: seq<byte>, start: nat, n: nat, max: nat, width: nat, bound: nat, write: bool)
    requires d.Valid() && |data| == SECTOR * n && max > 0 && width > 0
    ensures |d.view| == |d.media|
    ensures SplitsAt(d, data, start, n, Head(start, n, max, bound), max, width, write)
    decreases n
  {
    hide Field, Chunked, Disk.Valid, Disk.Perform, Head, SplitsAt, Transfer;
    ValidShape(d);
    var h := Head(start, n, max, bound);
    if h == 0 {
      SplitsAtNothing(d, data, start, n, max, width, write);
    } else {
      HeadNext(start, n, max, bound);
      var k := if n > max then max else n;
      var cmd, b := Transfer(write, Field(start, width), k), SECTOR * k;
      PerformValid(d, cmd, data[..b]);
      SplitAtHead(d.Perform(cmd, data[..b]).0, data[b..], start + k, n - k, max, width, bound, write);
      JoinFirst(d, data, start, n, h, max, width, write);
    }
  }

  /** A request is its first `h` sectors, then the rest. */
  ghost predicate SplitsAt(d: Disk, data: seq<byte>, start: nat, n: nat, h: nat, max: nat, width: nat, write: bool) {
    && |d.view| == |d.media| && |data| == SECTOR * n && h <= n && max > 0 && width > 0
    && var (d1, front) := Chunked(d, data[..SECTOR * h], start, h, max, width, write);
       var (d2, back) := Chunked(d1, data[SECTOR * h..], start + h, n - h, max, width, write);
       Chunked(d, data, start, n, max, width, write) == (d2, front + back)
  }

  lemma SplitsAtNothing(d: Disk, data: seq<byte>, start: nat, n: nat, max: nat, width: nat, write: bool)
    requires d.Valid() && |data| == SECTOR * n && max > 0 && width > 0
    ensures SplitsAt(d, data, start, n, 0, max, width, write)
  {
    hide Field, Chunked, Disk.Valid;
    ChunkedNothing(d, data[..0], start, max, width, write);
    assert data[SECTOR * 0..] == data;
    var r := Chunked(d, data, start, n, max, width, write).1;
    assert data[..0] + r == r;
  }

  /** What holds of a request without its first command holds with it. */
  lemma JoinFirst(d: Disk, data: seq<byte>, start: nat, n: nat, h: nat, max: nat, width: nat, write: bool)
    requires d.Valid() && |data| == SECTOR * n && max > 0 && width > 0 && 0 < h <= n && |d.view| == |d.media|
    requires (if n > max then max else n) == (if h > max then max else h)
    requires var k := if n > max then max else n;
             h >= k && SplitsAt(d.Perform(Transfer(write, Field(start, width), k), data[..SECTOR * k]).0,
                                data[SECTOR * k..], start + k, n - k, h - k, max, width, write)
    ensures SplitsAt(d, data, start, n, h, max, width, write)
  {
    hide Field, Chunked, Disk.Valid, Disk.Perform, Transfer, SplitsAt;
    var k := if n > max then max else n;
    var (d1, first) := d.Perform(Transfer(write, Field(start, width), k), data[..SECTOR * k]);
    var rest, s, j, m := data[SECTOR * k..], start + k, h - k, n - k;
    assert SECTOR * h - SECTOR * k == SECTOR * j && s + j == start + h && m - j == n - h;
    ChunkedUnfolds(d, data, start, n, max, width, write);
    FrontUnfolds(d, data, start, n, h, k, max, width, write);
    var d2, front, d3, back := Parts(d1, rest, s, m, j, max, width, write);
    assert Chunked(d, data[..SECTOR * h], start, h, max, width, write) == (d2, first + front);
    assert Chunked(d2, data[SECTOR * h..], start + h, n - h, max, width, write) == (d3, back) by {
      SliceOfSlice(data, SECTOR * k, SECTOR * h);
    }
    Associate(first, front, back);
    Whole(d, data, start, n, h, max, width, write, d2, first + front, d3, back);
  }

  lemma Parts(d: Disk, data: seq<byte>, start: nat, n: nat, h: nat, max: nat, width: nat, write: bool)
    returns (d1: Disk, front: seq<byte>, d2: Disk, back: seq<byte>)
    requires SplitsAt(d, data, start, n, h, max, width, write)
    ensures |d.view| == |d.media| && |data| == SECTOR * n && h <= n && max > 0 && width > 0 && |d1.view| == |d1.media|
    ensures Chunked(d, data[..SECTOR * h], start, h, max, width, write) == (d1, front)
    ensures Chunked(d1, data[SECTOR * h..], start + h, n - h, max, width, write) == (d2, back)
    ensures Chunked(d, data, start, n, max, width, write) == (d2, front + back)
  {
    hide Chunked;
    d1, front := Chunked(d, data[..SECTOR * h], start, h, max, width, write).0, Chunked(d, data[..SECTOR * h], start, h, max, width, write).1;
    d2, back := Chunked(d1, data[SECTOR * h..], start + h, n - h, max, width, write).0, Chunked(d1, data[SECTOR * h..], start + h, n - h, max, width, write).1;
  }

  lemma Whole(d: Disk, data: seq<byte>, start: nat, n: nat, h: nat, max: nat, width: nat, write: bool,
              d1: Disk, front: seq<byte>, d2: Disk, back: seq<byte>)
    requires |d.view| == |d.media| && |data| == SECTOR * n && h <= n && max > 0 && width > 0 && |d1.view| == |d1.media|
    requires Chunked(d, data[..SECTOR * h], start, h, max, width, write) == (d1, front)
    requires Chunked(d1, data[SECTOR * h..], start + h, n - h, max, width, write) == (d2, back)
    requires Chunked(d, data, start, n, max, width, write) == (d2, front + back)
    ensures SplitsAt(d, data, start, n, h, max, width, write)
  {
    hide Chunked;
  }

  lemma Associate(a: seq<byte>, b: seq<byte>, c: seq<byte>)
    ensures a + (b + c) == (a + b) + c
  {
  }

  /** The first command of the front of a request is that of the request. */
  lemma FrontUnfolds(d: Disk, data: seq<byte>, start: nat, n: nat, h: nat, k: nat, max: nat, width: nat, write: bool)
    requires d.Valid() && |data| == SECTOR * n && max > 0 && width > 0 && 0 < h <= n && |d.view| == |d.media|
    requires k == (if h > max then max else h)
    ensures var (d1, first) := d.Perform(Transfer(write, Field(start, width), k), data[..SECTOR * k]);
            var (d2, front) := Chunked(d1, data[SECTOR * k..][..SECTOR * (h - k)], start + k, h - k, max, width, write);
            Chunked(d, data[..SECTOR * h], start, h, max, width, write) == (d2, first + front)
  {
    hide Field, Chunked, Disk.Valid, Disk.Perform, Transfer;
    SliceOfSlice(data, SECTOR * k, SECTOR * h);
    assert SECTOR * h - SECTOR * k == SECTOR * (h - k);
    ChunkedUnfolds(d, data[..SECTOR * h], start, h, max, width, write);
  }

  /**
   * A request acts on its address modulo the width. When it reaches the width, the commands that begin
   * below it act as one request there, and the rest goes on from the remainder of its address. With
   * `ReadOutcome` and `WriteOutcome` for each stretch this is exactly what every request does.
   */
  lemma Wraps(d: Disk, data: seq<byte>, start: nat, n: nat, max: nat, width: nat, write: bool)
    requires d.Valid() && |data| == SECTOR * n && max > 0 && width > 0
    ensures |d.view| == |d.media|
    ensures var s := Field(start, width);
            var h := Head(s, n, max, width);
            var (d1, front) := Chunked(d, data[..SECTOR * h], s, h, max, width, write);
            var (d2, back) := Chunked(d1, data[SECTOR * h..], Field(s + h, width), n - h, max, width, write);
            && Below(s, h, max, width) && (h == n || s + h >= width) && (n > 0 ==> h > 0)
            && Chunked(d, data, start, n, max, width, write) == (d2, front + back)
  {
    hide Chunked, Disk.Valid;
    var s := Field(start, width);
    ModUnique(s, 0, s, width);
    SameAddress(d, data, start, s, n, max, width, write);
    HeadIsBelow(s, n, max, width);
    var h := Head(s, n, max, width);
    SplitAtHead(d, data, s, n, max, width, width, write);
    ChunkedValid(d, data[..SECTOR * h], s, h, max, width, write);
    var d1 := Chunked(d, data[..SECTOR * h], s, h, max, width, write).0;
    ModUnique(Field(s + h, width), 0, Field(s + h, width), width);
    SameAddress(d1, data[SECTOR * h..], s + h, Field(s + h, width), n - h, max, width, write);
  }

  // ---- durability ----

  /** A disk that writes nothing back by itself holds the written sectors in its cache only: they are
      dirty, and the media are as they were. */
  lemma {:induction false} WrittenStaysDirty(d: Disk, data: seq<byte>, start: nat, n: nat, max: nat, width: nat)
    requires d.Valid() && |data| == SECTOR * n && n > 0 && max > 0
    requires d.Holds(start, n) && Below(start, n, max, width) && width > 0
    requires d.cached && d.evict == []
    ensures var d' := Chunked(d, data, start, n, max, width, true).0;
            d'.dirty == d.dirty + Span(start, n) && d'.media == d.media
    decreases n
  {
    hide Field, Chunked, Disk.Valid, Disk.Perform;
    var k := if n > max then max else n;
    var b := SECTOR * k;
    SmallMod(start, width);
    ChunkedUnfolds(d, data, start, n, max, width, true);
    DirtyChunk(d, data[..b], start, k);
    var d1 := d.Perform(WriteDma(start, k), data[..b]).0;
    SpanSplit(start, k, n - k);
    if n == k {
      ChunkedNothing(d1, data[b..], start + k, max, width, true);
    } else {
      WrittenStaysDirty(d1, data[b..], start + k, n - k, max, width);
    }
  }

  lemma DirtyChunk(d: Disk, data: seq<byte>, start: nat, k: nat)
    requires d.Valid() && d.Holds(start, k) && |data| == SECTOR * k && d.cached && d.evict == []
    ensures |d.view| == |d.media|
    ensures var d' := d.Perform(WriteDma(start, k), data).0;
            && d'.Valid() && |d'.view| == |d.view| && d'.cached && d'.evict == []
            && d'.dirty == d.dirty + Span(start, k) && d'.media == d.media
  {
    var at := SECTOR * start;
    WriteChunk(d, data, start, k);
    PutBytes(d.view, at, data);
    var d' := d.Perform(WriteDma(start, k), data).0;
    forall i | 0 <= i < |d.media|
      ensures d'.media[i] == d.media[i]
    {
      SpanIs(start, k, i / SECTOR);
    }
  }

  lemma {:induction false} SpanIs(lba: nat, count: nat, x: nat)
    ensures x in Span(lba, count) <==> lba <= x < lba + count
  {
    if count > 0 { SpanIs(lba, count - 1, x); }
  }

  lemma {:induction false} SpanSplit(at: nat, a: nat, b: nat)
    ensures Span(at, a + b) == Span(at, a) + Span(at + a, b)
    decreases b
  {
    if b > 0 { SpanSplit(at, a, b - 1); }
  }
}
