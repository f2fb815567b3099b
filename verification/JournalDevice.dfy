/** The journal's loops on a device with fault injection, each proved to follow its plan. */
module JournalDevice {
  import opened Bytes
  import opened BlockDevice
  import opened Journal

  lemma LogStep(tx: Tx, i: nat)
    requires i < |tx| <= JOURNAL_MAX_RECORDS
    ensures LogWrites(tx[..i + 1]) ==
            LogWrites(tx[..i]) + [Write(DescLba(i), DescBlock(tx[i]))] + [Write(DataLba(i), tx[i].data)]
  {
    hide DescBlock;
    assert tx[..i + 1][..i] == tx[..i];
  }

  lemma {:induction false} PrefixOfLog(tx: Tx, i: nat, seqno: uint32)
    requires i <= |tx| <= JOURNAL_MAX_RECORDS
    ensures [Clear] + LogWrites(tx[..i]) <= LogPhase(tx, seqno)
    decreases |tx| - i
  {
    hide DescBlock, CommitHeader, LogWrites;
    if i == |tx| {
      assert tx[..i] == tx;
    } else {
      PrefixOfLog(tx, i + 1, seqno);
      LogStep(tx, i);
    }
  }

  method WriteLog(dev: Device, tx: Tx, seqno: uint32) returns (rc: int, ghost t: Trace)
    requires dev.blocks.Length == MAX_BLOCKS && |tx| <= JOURNAL_MAX_RECORDS
    modifies dev, dev.blocks
    ensures t.d == old(dev.Disk()) && t.fail == old(dev.failAfter)
    ensures Performed(t.d, t.fail, t.done, dev.Disk(), dev.failAfter)
    ensures rc == if Completes(t.fail, |t.done|) then E_OK else E_IO
    ensures t.done <= LogPhase(tx, seqno) && (rc == E_OK ==> t.done == LogPhase(tx, seqno))
  {
    hide DescBlock, CommitHeader, Apply, LogWrites;
    assert LogWrites(tx[..0]) == [];
    t := dev.Start();
    rc, t := dev.WriteNext(JOURNAL_START, ZeroBlock, t);
    if rc != E_OK {
      return;
    }
    var i := 0;
    while i < |tx|
      invariant 0 <= i <= |tx| && rc == E_OK
      invariant t.d == old(dev.Disk()) && t.fail == old(dev.failAfter) && dev.Follows(t)
      invariant t.done == [Clear] + LogWrites(tx[..i])
    {
      ghost var desc := Write(DescLba(i), DescBlock(tx[i]));
      LogStep(tx, i);
      PrefixOfLog(tx, i + 1, seqno);
      rc, t := dev.WriteNext(DescLba(i), DescBlock(tx[i]), t);
      assert t.done == [Clear] + (LogWrites(tx[..i]) + [desc]);
      if rc != E_OK {
        return;
      }
      rc, t := dev.WriteNext(DataLba(i), tx[i].data, t);
      assert t.done == [Clear] + LogWrites(tx[..i + 1]);
      if rc != E_OK {
        return;
      }
      i := i + 1;
    }
    assert tx[..i] == tx;
    rc, t := dev.WriteNext(JOURNAL_START, CommitHeader(seqno, |tx|), t);
  }

  /** The home writes of a commit whose log writes are `t`. */
  method WriteHome(dev: Device, tx: Tx, ghost t0: Trace) returns (rc: int, ghost t: Trace)
    requires dev.blocks.Length == MAX_BLOCKS && dev.Follows(t0)
    modifies dev, dev.blocks
    ensures t.d == t0.d && t.fail == t0.fail
    ensures Performed(t.d, t.fail, t.done, dev.Disk(), dev.failAfter)
    ensures rc == if Completes(t.fail, |t.done|) then HomePhase(tx).rc else E_IO
    ensures t.done <= t0.done + HomePhase(tx).writes
    ensures Completes(t.fail, |t.done|) ==> t.done == t0.done + HomePhase(tx).writes
  {
    hide Apply;
    t := t0;
    var i := 0;
    while i < |tx|
      invariant 0 <= i <= |ValidPrefix(tx)|
      invariant t.d == t0.d && t.fail == t0.fail && dev.Follows(t)
      invariant t.done == t0.done + tx[..i]
    {
      if tx[i].lba >= MAX_BLOCKS {
        return E_INVAL, t;
      }
      rc, t := dev.WriteNext(tx[i].lba, tx[i].data, t);
      assert t.done == t0.done + tx[..i + 1];
      assert tx[..i + 1] <= HomePhase(tx).writes;
      if rc != E_OK {
        return;
      }
      i := i + 1;
    }
    rc, t := dev.WriteNext(JOURNAL_START, ZeroBlock, t);
    assert t.done == t0.done + (tx + [Clear]);
  }

  /** `m16_journal_commit`. */
  method JournalCommit(dev: Device, tx: Tx, seqno: uint32, stop: bool) returns (rc: int)
    requires dev.blocks.Length == MAX_BLOCKS
    modifies dev, dev.blocks
    ensures Ran(old(dev.Disk()), old(dev.failAfter), CommitPlan(tx, seqno, stop), dev.Disk(), dev.failAfter, rc)
  {
    hide LogPhase, HomePhase, Apply;
    ghost var p := CommitPlan(tx, seqno, stop);
    ghost var t;
    if |tx| > JOURNAL_MAX_RECORDS {
      RanNothing(dev.Disk(), dev.failAfter, E_INVAL);
      return E_INVAL;
    }
    rc, t := WriteLog(dev, tx, seqno);
    if rc != E_OK {
      RanCut(t, p, dev.Disk(), dev.failAfter);
      return;
    }
    if stop {
      return;
    }
    rc, t := WriteHome(dev, tx, t);
    if !Completes(t.fail, |t.done|) {
      RanCut(t, p, dev.Disk(), dev.failAfter);
    }
  }

  /** `m16_journal_recover`. */
  method JournalRecover(dev: Device) returns (rc: int)
    requires dev.blocks.Length == MAX_BLOCKS
    modifies dev, dev.blocks
    ensures Ran(old(dev.Disk()), old(dev.failAfter), RecoverPlan(old(dev.Disk())), dev.Disk(), dev.failAfter, rc)
  {
    hide Apply, HeaderEmpty, Get32, Get64, Checksum, HeaderChecksum;
    ghost var t := dev.Start();
    ghost var p := RecoverPlan(dev.Disk());
    var h := dev.blocks[JOURNAL_START];
    if HeaderEmpty(h) {
      RanNothing(dev.Disk(), dev.failAfter, E_OK);
      return E_OK;
    }
    if !HeaderOk(h) {
      RanNothing(dev.Disk(), dev.failAfter, E_CORRUPT);
      return E_CORRUPT;
    }
    var count, i := Get32(h, 20), 0;
    while i < count
      invariant 0 <= i <= count <= JOURNAL_MAX_RECORDS
      invariant t.d == old(dev.Disk()) && t.fail == old(dev.failAfter) && dev.Follows(t)
      invariant p == Then(Plan(t.done, E_OK), ReplayPlan(dev.Disk(), count, i))
    {
      var desc, payload := dev.blocks[DescLba(i)], dev.blocks[DataLba(i)];
      if !SoundRecord(desc, payload) {
        assert t.done + [] == t.done;
        return E_CORRUPT;
      }
      var w := Write(Get32(desc, 8), payload);
      ghost var rest := ReplayPlan(dev.Disk()[w.lba := w.data], count, i + 1);
      assert t.done + ([w] + rest.writes) == t.done + [w] + rest.writes;
      rc, t := dev.WriteNext(w.lba, w.data, t);
      if rc != E_OK {
        RanCut(t, p, dev.Disk(), dev.failAfter);
        return;
      }
      i := i + 1;
    }
    rc, t := dev.WriteNext(JOURNAL_START, ZeroBlock, t);
    if rc != E_OK {
      RanCut(t, p, dev.Disk(), dev.failAfter);
    }
  }
}
