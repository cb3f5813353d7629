/** `ahci_ffs32`, and the two uses the driver makes of it. */
module Bits {
  import opened Common
  import opened Memory

  /** The position, from 1, of the lowest bit set; 0 for the word 0. */
  function Ffs(i: nat): nat {
    if i == 0 then 0 else if i % 2 == 1 then 1 else 1 + Ffs(i / 2)
  }

  method AhciFfs32(i: nat) returns (bit: nat)
    requires i < U32
    ensures bit == Ffs(i)
  {
    if i == 0 {
      return 0;
    }
    var x := i;
    bit := 1;
    while x % 2 == 0
      invariant x > 0 && bit + Ffs(x) == Ffs(i) + 1
      decreases x
    {
      x := x / 2;
      bit := bit + 1;
    }
  }

  /** Bit `k` of a word is 1. */
  predicate Bit(i: nat, k: nat) {
    if k == 0 then i % 2 == 1 else Bit(i / 2, k - 1)
  }

  /** Bit `k` has the weight 2 to the k. */
  lemma {:induction false} BitIs(i: nat, k: nat)
    ensures Bit(i, k) <==> i / Pow2(k) % 2 == 1
    decreases k
  {
    if k > 0 {
      BitIs(i / 2, k - 1);
      HalfFirst(i, Pow2(k - 1));
    }
  }

  lemma HalfFirst(i: nat, p: nat)
    requires p > 0
    ensures i / 2 / p == i / (2 * p)
  {
    var h := i / 2;
    var q, r := h / p, h % p;
    assert h == p * q + r;
    assert (2 * p) * q == 2 * (p * q);
    DivUnique(i, q, 2 * r + i % 2, 2 * p);
  }

  /** Ffs finds the lowest bit set: that bit is 1 and all below are 0. */
  lemma {:induction false} FfsIsLowest(i: nat)
    requires i > 0
    ensures Ffs(i) > 0 && Bit(i, Ffs(i) - 1)
    ensures forall k: nat | k < Ffs(i) - 1 :: !Bit(i, k)
    decreases i
  {
    if i % 2 == 0 { FfsIsLowest(i / 2); }
  }

  /** No other bit is that. */
  lemma {:induction false} LowestIsFfs(i: nat, k: nat)
    requires Bit(i, k) && forall j: nat | j < k :: !Bit(i, j)
    ensures Ffs(i) == k + 1
    decreases i
  {
    if i == 0 {
      BitsOfZero(k);
    } else if i % 2 == 0 {
      forall j: nat | j < k - 1
        ensures !Bit(i / 2, j)
      {
        var up: nat := j + 1;
        assert !Bit(i, up);
      }
      LowestIsFfs(i / 2, k - 1);
    } else {
      var lowest: nat := 0;
      assert Bit(i, lowest);
    }
  }

  lemma {:induction false} FfsBound(i: nat)
    requires i > 0
    ensures Ffs(i) > 0 && Pow2(Ffs(i) - 1) <= i
    decreases i
  {
    if i % 2 == 0 { FfsBound(i / 2); }
  }

  /** The number of low bits of a word that are all 1. */
  function TrailingOnes(m: nat): nat {
    if m % 2 == 0 then 0 else 1 + TrailingOnes(m / 2)
  }

  /** Adding one turns the trailing ones into zeros and sets the bit above. */
  lemma {:induction false} FfsOfSuccessor(m: nat)
    ensures Ffs(m + 1) == TrailingOnes(m) + 1
  {
    if m % 2 == 1 {
      FfsOfSuccessor(m / 2);
      assert (m + 1) / 2 == m / 2 + 1;
    }
  }

  // ---- the transfer mode ----

  const SET_XFER_UDMA: nat := 0x40

  /** Word 88 reports mode `k`, one of the eight there are, as supported. */
  predicate Supports(mask: nat, k: int) {
    0 <= k < UDMA_MODES && Bit(mask, k)
  }

  const UDMA_MODES: nat := 8

  /**
   * What the action asks for: a UDMA mode exactly when the disk supports mode 0, and then the last mode
   * of the unbroken run of bits from 0 on. Without mode 0 it is 0x3f, no UDMA mode at all.
   */
  ghost predicate Selects(mask: nat, action: nat) {
    && action + 1 >= SET_XFER_UDMA
    && (Bit(mask, 0) <==> action >= SET_XFER_UDMA)
    && !Bit(mask, action + 1 - SET_XFER_UDMA)
    && forall k: nat | k < action + 1 - SET_XFER_UDMA :: Bit(mask, k)
  }

  /** The value `ahci_sata_scan` sends with SET FEATURES: computed in 32 bits, sent in 8. */
  method UdmaAction(udmaMask: nat) returns (action: nat)
    requires udmaMask < 0x1_0000
    ensures action < 0x100 && Selects(udmaMask, action)
    ensures Fastest(udmaMask, action) <==> Unbroken(udmaMask)
  {
    var f := AhciFfs32(udmaMask + 1);
    action := (f + 0x3e) % 0x100;
    UdmaSelection(udmaMask);
    FastestIff(udmaMask, action);
  }

  lemma UdmaSelection(mask: nat)
    requires mask < 0x1_0000
    ensures Selects(mask, (Ffs(mask + 1) + 0x3e) % 0x100)
  {
    FfsOfSuccessor(mask);
    Pow2Of16();
    OnesBelow(mask, 16);
    OnesAre(mask);
    assert Bit(mask, 0) <==> TrailingOnes(mask) > 0;
  }

  /** What the driver means to ask for: the highest mode the disk supports. */
  ghost predicate Fastest(mask: nat, action: nat) {
    && Supports(mask, action - SET_XFER_UDMA)
    && forall k | Supports(mask, k) :: k <= action - SET_XFER_UDMA
  }

  /** Mode 0 is supported, no mode that is not is followed by one that is, and when all eight are, the
      bit above them is 0. */
  ghost predicate Unbroken(mask: nat) {
    && Supports(mask, 0)
    && (forall k | 0 <= k < UDMA_MODES - 1 && Supports(mask, k + 1) :: Supports(mask, k))
    && !(Bit(mask, 7) && Bit(mask, 8))
  }

  lemma FastestIff(mask: nat, action: nat)
    requires Selects(mask, action)
    ensures Fastest(mask, action) <==> Unbroken(mask)
  {
    hide Bit;
    var t := action + 1 - SET_XFER_UDMA;
    if Unbroken(mask) {
      assert t <= UDMA_MODES;
      forall k | Supports(mask, k)
        ensures k <= action - SET_XFER_UDMA
      {
        if k >= t { RunsDown(mask, t, k); }
      }
    }
    if Fastest(mask, action) {
      forall k | 0 <= k < UDMA_MODES - 1 && Supports(mask, k + 1)
        ensures Supports(mask, k)
      {
        assert k + 1 <= action - SET_XFER_UDMA;
      }
      assert Supports(mask, 7) ==> t == 8;
      assert !Bit(mask, t) && Bit(mask, 0);
    }
  }

  lemma {:induction false} RunsDown(mask: nat, lo: nat, k: nat)
    requires Unbroken(mask) && lo <= k && Supports(mask, k)
    ensures Supports(mask, lo)
    decreases k
  {
    if lo < k {
      assert Supports(mask, (k - 1) + 1);
      RunsDown(mask, lo, k - 1);
    }
  }

  lemma SelectsBelow(mask: nat, action: nat, k: nat)
    requires Selects(mask, action) && !Bit(mask, k)
    ensures action + 1 - SET_XFER_UDMA <= k
  {
  }

  /** The smallest word for which it does not: a disk with modes 0 and 2 is asked for mode 0. */
  lemma GapExample()
    ensures Selects(5, SET_XFER_UDMA) && Supports(5, 2) && !Fastest(5, SET_XFER_UDMA)
    ensures forall action: nat | Selects(5, action) :: action == SET_XFER_UDMA
  {
    var one: nat := 1;
    assert Bit(5, 0) && !Bit(5, one) && Bit(5, 2);
    assert Supports(5, 2) && !(2 <= SET_XFER_UDMA - SET_XFER_UDMA);
    forall action: nat | Selects(5, action)
      ensures action == SET_XFER_UDMA
    {
      SelectsBelow(5, action, one);
    }
  }

  /** A bit that is set is found. */
  lemma {:induction false} OrSets(x: nat, k: nat)
    ensures Bit(BitOr(x, Pow2(k)), k)
  {
    hide BitOr;
    if k == 0 {
      OrOdd(x);
    } else {
      OrSets(x / 2, k - 1);
      OrDouble(x, Pow2(k - 1));
    }
  }

  lemma OrOdd(x: nat)
    ensures BitOr(x, 1) % 2 == 1
  {
    var rest := BitOr(x / 2, 0);
    assert BitOr(x, 1) == 2 * rest + 1;
  }

  lemma OrDouble(x: nat, p: nat)
    requires p > 0
    ensures BitOr(x, 2 * p) / 2 == BitOr(x / 2, p)
  {
    assert 2 * p / 2 == p;
  }

  lemma {:induction false} BitsOfZero(k: nat)
    ensures !Bit(0, k)
  {
    if k > 0 { BitsOfZero(k - 1); }
  }

  /** Below 32 bits the lowest bit set is one of 32. */
  lemma {:induction false} FfsWithin(i: nat, n: nat)
    requires 0 < i < Pow2(n)
    ensures 1 <= Ffs(i) <= n
    ensures Ffs(i) == n <==> i == Pow2(n - 1)
    decreases n
  {
    if i % 2 == 0 { FfsWithin(i / 2, n - 1); }
  }

  lemma Pow2Of16()
    ensures Pow2(16) == 0x1_0000
  {
    assert Pow2(2) == 4 && Pow2(4) == 0x10 && Pow2(6) == 0x40 && Pow2(8) == 0x100;
    assert Pow2(10) == 0x400 && Pow2(12) == 0x1000 && Pow2(14) == 0x4000;
  }

  lemma Pow2Of32()
    ensures Pow2(32) == U32 && Pow2(31) == 0x8000_0000
  {
    Pow2Of16();
    assert Pow2(18) == 0x4_0000 && Pow2(20) == 0x10_0000 && Pow2(22) == 0x40_0000 && Pow2(24) == 0x100_0000;
    assert Pow2(26) == 0x400_0000 && Pow2(28) == 0x1000_0000 && Pow2(30) == 0x4000_0000;
  }

  lemma {:induction false} OnesBelow(m: nat, n: nat)
    requires m < Pow2(n)
    ensures TrailingOnes(m) <= n
    decreases n
  {
    if n > 0 && m % 2 == 1 { OnesBelow(m / 2, n - 1); }
  }

  lemma {:induction false} OnesAre(m: nat)
    ensures !Bit(m, TrailingOnes(m))
    ensures forall k: nat | k < TrailingOnes(m) :: Bit(m, k)
  {
    if m % 2 == 1 { OnesAre(m / 2); }
  }
}
