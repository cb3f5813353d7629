/** Byte-addressed memory as a value, and the little-endian words driver and controller exchange in it. */
module Memory {
  import opened Common

  type Mem = seq<byte>

  /** `bytes` stored at `at`. */
  function Put(m: Mem, at: nat, bytes: seq<byte>): (r: Mem)
    requires at + |bytes| <= |m|
    ensures |r| == |m|
  {
    m[..at] + bytes + m[at + |bytes|..]
  }

  lemma PutBytes(m: Mem, at: nat, bytes: seq<byte>)
    requires at + |bytes| <= |m|
    ensures forall i | 0 <= i < |m| :: Put(m, at, bytes)[i] == if at <= i < at + |bytes| then bytes[i - at] else m[i]
  {
  }

  /** What a store leaves in its range, and outside. */
  lemma PutRange(m: Mem, at: nat, bytes: seq<byte>)
    requires at + |bytes| <= |m|
    ensures Put(m, at, bytes)[at..at + |bytes|] == bytes
    ensures OnlyIn(m, Put(m, at, bytes), at, at + |bytes|)
  {
    PutBytes(m, at, bytes);
  }

  /** Two adjacent stores are one. */
  lemma PutAdjacent(m: Mem, at: nat, a: seq<byte>, b: seq<byte>)
    requires at + |a| + |b| <= |m|
    ensures Put(Put(m, at, a), at + |a|, b) == Put(m, at, a + b)
  {
    var one, two, both := Put(m, at, a), Put(Put(m, at, a), at + |a|, b), Put(m, at, a + b);
    PutBytes(m, at, a);
    PutBytes(one, at + |a|, b);
    PutBytes(m, at, a + b);
    assert forall i | 0 <= i < |m| :: two[i] == both[i];
  }

  function Le32(v: nat): (b: seq<byte>)
    requires v < U32
    ensures |b| == 4
  {
    [v % 0x100, v / 0x100 % 0x100, v / 0x1_0000 % 0x100, v / 0x100_0000 % 0x100]
  }

  function FromLe32(b: seq<byte>): (v: nat)
    requires |b| == 4
    ensures v < U32
  {
    (b[0] as nat) + 0x100 * (b[1] as nat) + 0x1_0000 * (b[2] as nat) + 0x100_0000 * (b[3] as nat)
  }

  lemma Le32RoundTrip(v: nat)
    requires v < U32
    ensures FromLe32(Le32(v)) == v
  {
    var a, b, c := v / 0x100, v / 0x1_0000, v / 0x100_0000;
    assert v == v % 0x100 + 0x100 * a;
    assert b == a / 0x100 && a == a % 0x100 + 0x100 * b;
    assert c == b / 0x100 && b == b % 0x100 + 0x100 * c;
    assert c < 0x100;
  }

  /** The 32-bit word at an address. */
  function Word(m: Mem, at: nat): (v: nat)
    requires at + 4 <= |m|
    ensures v < U32
  {
    FromLe32(m[at..at + 4])
  }

  /** The 64-bit address in the two words at `at`. */
  function Address(m: Mem, at: nat): nat
    requires at + 8 <= |m|
  {
    Word(m, at) + U32 * Word(m, at + 4)
  }

  /** Nothing changed outside `[lo, hi)`. */
  ghost predicate OnlyIn(m: Mem, m': Mem, lo: nat, hi: nat) {
    |m'| == |m| && forall i | 0 <= i < |m| && !(lo <= i < hi) :: m'[i] == m[i]
  }

  /** Nothing changed outside two stretches. */
  ghost predicate OnlyInTwo(m: Mem, m': Mem, lo: nat, hi: nat, lo': nat, hi': nat) {
    |m'| == |m| && forall i | 0 <= i < |m| && !(lo <= i < hi) && !(lo' <= i < hi') :: m'[i] == m[i]
  }

  lemma WordStored(m: Mem, at: nat, v: nat)
    requires at + 4 <= |m| && v < U32
    ensures Word(Put(m, at, Le32(v)), at) == v
  {
    assert Put(m, at, Le32(v))[at..at + 4] == Le32(v);
    Le32RoundTrip(v);
  }

  /** A word outside what changed is what it was. */
  lemma WordKept(m: Mem, m': Mem, lo: nat, hi: nat, at: nat)
    requires OnlyIn(m, m', lo, hi) && at + 4 <= |m| && (at + 4 <= lo || hi <= at)
    ensures Word(m', at) == Word(m, at)
  {
    assert m'[at..at + 4] == m[at..at + 4];
  }

  lemma RangeKept(m: Mem, m': Mem, lo: nat, hi: nat, at: nat, n: nat)
    requires OnlyIn(m, m', lo, hi) && at + n <= |m| && (at + n <= lo || hi <= at)
    ensures m'[at..at + n] == m[at..at + n]
  {
  }

  /** An address split into two words and put together again. */
  lemma AddressSplit(a: nat)
    requires a < U64
    ensures a % U32 < U32 && a / U32 < U32 && a % U32 + U32 * (a / U32) == a
  {
  }

  // ---- bits ----

  /** C's `x | y` on unsigned words. */
  function BitOr(x: nat, y: nat): nat {
    if x == 0 && y == 0 then 0
    else 2 * BitOr(x / 2, y / 2) + (if x % 2 == 1 || y % 2 == 1 then 1 else 0)
  }

  function Pow2(n: nat): (p: nat)
    ensures p > 0
  {
    if n == 0 then 1 else 2 * Pow2(n - 1)
  }

  /** Setting bits below position `n` leaves the bits from `n` on. */
  lemma {:induction false} OrBelow(low: nat, high: nat, x: nat, n: nat)
    requires low < Pow2(n) && x < Pow2(n)
    ensures BitOr(low + high * Pow2(n), x) == BitOr(low, x) + high * Pow2(n)
    ensures BitOr(low, x) < Pow2(n)
    decreases n
  {
    if n == 0 {
      OrZero(high);
    } else {
      var p := Pow2(n - 1);
      assert high * Pow2(n) == 2 * (high * p);
      OrBelow(low / 2, high, x / 2, n - 1);
      assert (low + 2 * (high * p)) / 2 == low / 2 + high * p;
      assert (low + 2 * (high * p)) % 2 == low % 2;
    }
  }

  lemma {:induction false} OrCommutes(x: nat, y: nat)
    ensures BitOr(x, y) == BitOr(y, x)
    decreases x + y
  {
    if x > 0 || y > 0 { OrCommutes(x / 2, y / 2); }
  }

  lemma {:induction false} OrZero(x: nat)
    ensures BitOr(x, 0) == x && BitOr(0, x) == x
  {
    if x > 0 { OrZero(x / 2); }
  }
}
