/**
 * The reclaim loop of `eth_handle_tx_over` running against a DMA engine that goes on sending: it
 * ends, and when it ends it has caught up with the hardware.
 */
module TxReclaim {
  import opened Common
  import opened EthDesc
  import opened TxRing
  import opened TxAccounting
  import Ring

  /** The slots that are not empty. */
  ghost function Held(desc: seq<DmaDesc>): set<nat> {
    set i: nat | i < |desc| && !IsEmpty(desc[i])
  }

  /** A burst of DMA completions. */
  function DmaBurst(s: TxState, reports: seq<bv32>): TxState
    requires s.WellFormed()
    decreases |reports|
  {
    if reports == [] then s else
    DmaWellFormed(s, reports[0]);
    DmaBurst(DmaTx(s, reports[0]).0, reports[1..])
  }

  lemma DmaWellFormed(s: TxState, report: bv32)
    requires s.WellFormed()
    ensures var s' := DmaTx(s, report).0;
            && s'.WellFormed() && Held(s'.desc) == Held(s.desc)
            && s' == s.(desc := s'.desc, cur := s'.cur)
  {
    hide Owned, IsLastTx, IsEmpty, NoError, Size1, NoSecondBuffer, WholeFrame, TxWriteBack;
    var i := s.Slot(s.cur);
    var d := s.desc[i];
    if Owned(d) {
      var s' := DmaTx(s, report).0;
      TxWriteBackBits(d, report, s'.desc[i].status);
      SameSize(d, s'.desc[i]);
      assert s'.Slot(s'.cur) == if i == |s.desc| - 1 then 0 else i + 1;
    }
  }

  lemma ReclaimShrinks(s: TxState)
    requires s.WellFormed()
    ensures var (s', out) := ReclaimOne(s);
            && s'.WellFormed()
            && (out == Internal(true) ==> Held(s'.desc) == Held(s.desc) - {s.busy} && s.busy in Held(s.desc))
            && (out != Internal(true) ==> s' == s)
  {
    hide Owned, IsLastTx, IsEmpty, NoError, Size1, NoSecondBuffer, WholeFrame;
    var (s', out) := ReclaimOne(s);
    assert s.Slot(s.ptr[s.busy]) == s.busy;
    if out == Internal(true) {
      TxClearedBits(s'.desc[s.busy], IsLastTx(s.desc[s.busy]));
    }
  }

  lemma {:induction false} BurstHolds(s: TxState, reports: seq<bv32>)
    requires s.WellFormed()
    ensures DmaBurst(s, reports).WellFormed()
    ensures Held(DmaBurst(s, reports).desc) == Held(s.desc)
    decreases |reports|
  {
    hide TxState.WellFormed, DmaTx, Held;
    if reports != [] {
      DmaWellFormed(s, reports[0]);
      BurstHolds(DmaTx(s, reports[0]).0, reports[1..]);
    }
  }

  /**
   * The loop. Before its k-th pass the DMA engine completes frames with the reports `env(k)`, as
   * many as it likes; the set of slots that are not empty still shrinks with every pass.
   */
  ghost function TxOver(s: TxState, env: nat -> seq<bv32>, k: nat): TxState
    requires s.WellFormed()
    decreases Held(s.desc)
  {
    BurstHolds(s, env(k));
    var s1 := DmaBurst(s, env(k));
    ReclaimShrinks(s1);
    var (s2, out) := ReclaimOne(s1);
    if out == Internal(true) then TxOver(s2, env, k + 1) else s2
  }

  lemma TxOverUnfolds(s: TxState, env: nat -> seq<bv32>, k: nat)
    requires s.WellFormed()
    ensures var s1 := DmaBurst(s, env(k));
            && s1.WellFormed() && ReclaimOne(s1).0.WellFormed()
            && Held(s1.desc) == Held(s.desc)
            && TxOver(s, env, k) == (if ReclaimOne(s1).1 == Internal(true) then TxOver(ReclaimOne(s1).0, env, k + 1)
                                     else ReclaimOne(s1).0)
            && (ReclaimOne(s1).1 != Internal(true) ==> ReclaimOne(s1).0 == s1)
  {
    hide DmaBurst, ReclaimOne, Held, TxState.WellFormed;
    BurstHolds(s, env(k));
    ReclaimShrinks(DmaBurst(s, env(k)));
  }

  function Completions(reports: seq<bv32>): (acts: seq<TxAction>)
    ensures PossibleRun(acts) && forall a | a in acts :: a.Complete?
  {
    seq(|reports|, i requires 0 <= i < |reports| => Complete(reports[i]))
  }

  /** The loop as a run of the ring. */
  ghost function TxOverActs(s: TxState, env: nat -> seq<bv32>, k: nat): (acts: seq<TxAction>)
    requires s.WellFormed()
    ensures PossibleRun(acts) && forall a | a in acts :: !a.Submit?
    decreases Held(s.desc)
  {
    BurstHolds(s, env(k));
    var s1 := DmaBurst(s, env(k));
    ReclaimShrinks(s1);
    var (s2, out) := ReclaimOne(s1);
    Completions(env(k)) + [Reclaim] + (if out == Internal(true) then TxOverActs(s2, env, k + 1) else [])
  }

  lemma {:induction false} BurstIsRun(s: TxState, reports: seq<bv32>)
    requires s.Inv()
    ensures Run(s, Completions(reports)).0 == DmaBurst(s, reports)
    decreases |reports|
  {
    hide DmaTx, TxState.WellFormed, TxState.Queue, Ring.FifoStep;
    if reports != [] {
      StepRefines(s, Complete(reports[0]));
      assert Completions(reports)[1..] == Completions(reports[1..]);
      BurstIsRun(DmaTx(s, reports[0]).0, reports[1..]);
    }
  }

  /** The loop is a run of the ring in which `eth_tx` is not called. */
  lemma {:induction false} TxOverIsRun(s: TxState, env: nat -> seq<bv32>, k: nat)
    requires s.Inv()
    ensures Run(s, TxOverActs(s, env, k)).0 == TxOver(s, env, k)
    decreases Held(s.desc)
  {
    hide DmaBurst, ReclaimOne, TxState.WellFormed, TxState.Queue, Ring.FifoStep, Completions, Held;
    BurstHolds(s, env(k));
    BurstIsRun(s, env(k));
    var s1 := DmaBurst(s, env(k));
    ReclaimShrinks(s1);
    var (s2, out) := ReclaimOne(s1);
    StepRefines(s1, Reclaim);
    RunCons(s1, Reclaim, []);
    RunNil(s2);
    assert [Reclaim] + [] == [Reclaim];
    RunAppend(s, Completions(env(k)), [Reclaim]);
    var acts := Completions(env(k)) + [Reclaim];
    assert Run(s, acts).0 == s2;
    if out == Internal(true) {
      TxOverIsRun(s2, env, k + 1);
      RunAppend(s, acts, TxOverActs(s2, env, k + 1));
    } else {
      assert acts + [] == acts;
    }
  }

  lemma {:induction false} PoliteWithoutSubmit(s: TxState, acts: seq<TxAction>)
    requires s.Inv() && PossibleRun(acts) && forall a | a in acts :: !a.Submit?
    ensures PoliteRun(s, acts)
    decreases |acts|
  {
    hide Step, TxState.WellFormed, TxState.Queue, Ring.FifoStep;
    if acts != [] {
      StepRefines(s, acts[0]);
      PoliteWithoutSubmit(Step(s, acts[0]).0, acts[1..]);
    }
  }

  lemma {:induction false} TxOverStops(s: TxState, env: nat -> seq<bv32>, k: nat)
    requires s.Inv()
    ensures TxOver(s, env, k).Inv()
    ensures ReclaimOne(TxOver(s, env, k)).1 == Internal(false)
    decreases Held(s.desc)
  {
    hide DmaBurst, ReclaimOne, TxState.WellFormed, TxState.Queue, Ring.FifoStep, Completions, Held;
    BurstHolds(s, env(k));
    BurstIsRun(s, env(k));
    var s1 := DmaBurst(s, env(k));
    ReclaimShrinks(s1);
    ReclaimRefines(s1);
    StepVisible(s1);
    if ReclaimOne(s1).1 == Internal(true) {
      TxOverStops(ReclaimOne(s1).0, env, k + 1);
    }
  }

  /**
   * Whatever the DMA engine completes meanwhile, if TxBusy was in step the loop ends with every
   * frame sent so far reclaimed and in the statistics; the frames sent during the loop included.
   */
  lemma CaughtUp(s: TxState, env: nat -> seq<bv32>, log: seq<Entry>)
    requires Accounts(s, log)
    ensures s.Inv()
    ensures var s' := TxOver(s, env, 0);
            var log' := log + SentLog(Run(s, TxOverActs(s, env, 0)).1);
            && Accounts(s', log')
            && Unreclaimed(s') == []
            && s'.packets + s'.errors == |log'| && s'.packets == CountOk(log') && s'.bytes == BytesOk(log')
  {
    hide TxOver, TxOverActs, ReclaimOne, TxState.WellFormed, TxState.Queue, Synced, Unreclaimed, Accounts, Run;
    AccountsSynced(s, log);
    SyncedInv(s);
    var acts := TxOverActs(s, env, 0);
    PoliteWithoutSubmit(s, acts);
    RunAccounts(s, acts, log);
    TxOverIsRun(s, env, 0);
    TxOverStops(s, env, 0);
    var s' := TxOver(s, env, 0);
    var log' := log + SentLog(Run(s, acts).1);
    AccountsSynced(s', log');
    StopsWhenDrained(s');
    AllBooked(s', log');
  }

  lemma AllBooked(s: TxState, log: seq<Entry>)
    requires Accounts(s, log) && Unreclaimed(s) == []
    ensures s.packets + s.errors == |log| && s.packets == CountOk(log) && s.bytes == BytesOk(log)
  {
    hide Synced, Unreclaimed;
    assert log[..|log|] == log;
  }
}
