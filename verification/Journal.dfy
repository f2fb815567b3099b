/** The MCSFS1J write-ahead journal (`kernel/fs/mcsfs1j/m16_mcsfs_journal.c`): commit, recovery, crash atomicity. */
module Journal {
  import opened Bytes
  import opened BlockDevice

  const MAX_BLOCKS := 128
  const JMAGIC: uint64 := 0x4d43534a524e4c31
  const VERSION := 1
  const J_EMPTY := 0
  const J_COMMITTED := 2
  const JOURNAL_MAX_RECORDS := 8
  const JOURNAL_START := 1
  const JOURNAL_BLOCKS := 1 + 2 * JOURNAL_MAX_RECORDS

  const E_CORRUPT := -6

  /** A transaction: the records (target, payload) in the order they were added. */
  type Tx = seq<Write>

  predicate InJournal(l: int) {
    JOURNAL_START <= l < JOURNAL_START + JOURNAL_BLOCKS
  }

  function DescLba(i: nat): (l: nat) {
    JOURNAL_START + 1 + 2 * i
  }

  function DataLba(i: nat): (l: nat) {
    DescLba(i) + 1
  }

  // ----- checksums -----

  /** One step of 32-bit FNV-1a; the exclusive or with a byte changes only the low byte of `h`. */
  function FnvStep(h: uint32, b: uint8): (r: uint32) {
    (h - h % 256 + Xor(h % 256, b as int, 8)) * 16777619 % 0x1_0000_0000
  }

  function Fnv(h: uint32, s: seq<uint8>): (r: uint32)
    decreases |s|
  {
    if s == [] then h else Fnv(FnvStep(h, s[0]), s[1..])
  }

  function Checksum(s: seq<uint8>): (r: uint32) {
    Fnv(2166136261, s)
  }

  /** The checksum loop. */
  method ComputeChecksum(s: seq<uint8>) returns (h: uint32)
    ensures h == Checksum(s)
  {
    h := 2166136261;
    var i := 0;
    while i < |s|
      invariant 0 <= i <= |s|
      invariant Fnv(h, s[i..]) == Checksum(s)
    {
      assert s[i..][1..] == s[i + 1..];
      h := FnvStep(h, s[i]);
      i := i + 1;
    }
  }

  lemma {:induction false} FnvSnoc(h: uint32, s: seq<uint8>, b: uint8)
    ensures Fnv(h, s + [b]) == FnvStep(Fnv(h, s), b)
    decreases |s|
  {
    if s == [] {
      assert s + [b] == [b] && [b][1..] == [];
    } else {
      assert (s + [b])[1..] == s[1..] + [b];
      FnvSnoc(FnvStep(h, s[0]), s[1..], b);
    }
  }

  lemma {:induction false} XorLow(a: nat, width: nat)
    requires a < Pow2(width) && width > 0
    ensures Xor(a, 0, width) == a && Xor(a, 1, width) == a + 1 - 2 * (a % 2)
  {
    if width > 1 {
      XorLow(a / 2, width - 1);
    }
  }

  /** The multiplier is odd, so two bytes that differ in the last bit lead to different hashes. */
  lemma StepsDiffer(h: uint32)
    ensures FnvStep(h, 0) != FnvStep(h, 1)
  {
    hide Xor;
    assert Pow2(8) == 256;
    XorLow(h % 256, 8);
    Scatter(h);
    Scatter(h - h % 256 + Xor(h % 256, 1, 8));
  }

  lemma Scatter(x: nat)
    ensures (x + 1) * 16777619 % 0x1_0000_0000 != x * 16777619 % 0x1_0000_0000
  {
  }

  /** Blocks that differ in the last bit only have different checksums. */
  lemma ChecksumsDiffer(z: seq<uint8>)
    ensures Checksum(z + [0]) != Checksum(z + [1])
  {
    hide Fnv, FnvStep;
    FnvSnoc(2166136261, z, 0);
    FnvSnoc(2166136261, z, 1);
    StepsDiffer(Fnv(2166136261, z));
  }

  // ----- on-disk records -----

  function HeaderChecksum(h: Block): (r: uint32) {
    Checksum(Put32(h, 24, 0))
  }

  /** The commit header before its checksum is filled in. */
  function RawHeader(seqno: uint32, count: uint32): (h: Block) {
    var h1 := Put32(Put64(ZeroBlock, 0, JMAGIC), 8, VERSION);
    Put32(Put32(Put32(h1, 12, J_COMMITTED), 16, seqno), 20, count)
  }

  function CommitHeader(seqno: uint32, count: uint32): (h: Block) {
    var h := RawHeader(seqno, count);
    Put32(h, 24, HeaderChecksum(h))
  }

  lemma RawHeaderFields(seqno: uint32, count: uint32)
    ensures var h := RawHeader(seqno, count);
            Get64(h, 0) == JMAGIC && Get32(h, 8) == VERSION && Get32(h, 12) == J_COMMITTED && Get32(h, 20) == count
  {
  }

  lemma HeaderChecksumStable(h: Block, sum: uint32)
    ensures HeaderChecksum(Put32(h, 24, sum)) == HeaderChecksum(h)
  {
    SpliceTwice(h, 24, Enc32(sum), Enc32(0));
  }

  lemma CommitHeaderOk(seqno: uint32, count: uint32)
    requires count <= JOURNAL_MAX_RECORDS
    ensures var h := CommitHeader(seqno, count);
            HeaderOk(h) && !HeaderEmpty(h) && Get32(h, 20) == count
  {
    var h := RawHeader(seqno, count);
    RawHeaderFields(seqno, count);
    HeaderChecksumStable(h, HeaderChecksum(h));
  }

  predicate HeaderEmpty(h: Block) {
    Get64(h, 0) == 0 && Get32(h, 12) == J_EMPTY
  }

  predicate HeaderOk(h: Block) {
    && Get64(h, 0) == JMAGIC
    && Get32(h, 8) == VERSION
    && Get32(h, 12) == J_COMMITTED
    && Get32(h, 20) <= JOURNAL_MAX_RECORDS
    && HeaderChecksum(h) == Get32(h, 24)
  }

  function DescBlock(r: Write): (b: Block) {
    Put32(Put32(Put64(ZeroBlock, 0, JMAGIC), 8, r.lba), 12, Checksum(r.data))
  }

  /** What recovery demands of a descriptor and its payload before it replays them. */
  predicate SoundRecord(desc: Block, payload: Block) {
    && Get64(desc, 0) == JMAGIC
    && Get32(desc, 8) < MAX_BLOCKS
    && Checksum(payload) == Get32(desc, 12)
  }

  predicate RecordOk(d: Disk, i: nat)
    requires |d| == MAX_BLOCKS && i < JOURNAL_MAX_RECORDS
  {
    SoundRecord(d[DescLba(i)], d[DataLba(i)])
  }

  function RecordAt(d: Disk, i: nat): (w: Write)
    requires |d| == MAX_BLOCKS && i < JOURNAL_MAX_RECORDS
  {
    Write(Get32(d[DescLba(i)], 8), d[DataLba(i)])
  }

  // ----- commit -----

  const Clear := Write(JOURNAL_START, ZeroBlock)

  /** Descriptor and payload of every record, in log order. */
  function LogWrites(tx: Tx): (ws: seq<Write>)
    requires |tx| <= JOURNAL_MAX_RECORDS
    ensures |ws| == 2 * |tx|
    ensures forall i :: 0 <= i < |ws| ==> JOURNAL_START < ws[i].lba < JOURNAL_START + JOURNAL_BLOCKS
  {
    if tx == [] then []
    else
      var n := |tx| - 1;
      LogWrites(tx[..n]) + [Write(DescLba(n), DescBlock(tx[n])), Write(DataLba(n), tx[n].data)]
  }

  /** The records that can be written home before the first one with an invalid target. */
  function ValidPrefix(tx: Tx): (ws: seq<Write>)
    ensures |ws| <= |tx| && ws == tx[..|ws|]
    ensures InRange(ws, MAX_BLOCKS)
    ensures |ws| < |tx| ==> tx[|ws|].lba >= MAX_BLOCKS
  {
    if tx == [] || tx[0].lba >= MAX_BLOCKS then []
    else
      assert [tx[0]] + ValidPrefix(tx[1..]) == tx[..1 + |ValidPrefix(tx[1..])|];
      [tx[0]] + ValidPrefix(tx[1..])
  }

  function LogPhase(tx: Tx, seqno: uint32): (ws: seq<Write>)
    requires |tx| <= JOURNAL_MAX_RECORDS
    ensures |ws| == 2 * |tx| + 2
    ensures forall i :: 0 <= i < |ws| ==> InJournal(ws[i].lba)
  {
    hide CommitHeader, LogWrites;
    [Clear] + LogWrites(tx) + [Write(JOURNAL_START, CommitHeader(seqno, |tx|))]
  }

  function HomePhase(tx: Tx): (p: Plan)
    ensures InRange(p.writes, MAX_BLOCKS)
  {
    var ws := ValidPrefix(tx);
    if |ws| == |tx| then Plan(tx + [Clear], E_OK) else Plan(ws, E_INVAL)
  }

  /** All block writes of a commit, in order. */
  function CommitPlan(tx: Tx, seqno: uint32, stop: bool): (p: Plan)
    ensures InRange(p.writes, MAX_BLOCKS)
  {
    if |tx| > JOURNAL_MAX_RECORDS then Plan([], E_INVAL)
    else if stop then Plan(LogPhase(tx, seqno), E_OK)
    else Then(Plan(LogPhase(tx, seqno), E_OK), HomePhase(tx))
  }

  // ----- recovery -----

  /** Recovery from record `i` on; every record is checked against the disk as replay has left it. */
  function ReplayPlan(d: Disk, count: nat, i: nat): (p: Plan)
    requires |d| == MAX_BLOCKS && i <= count <= JOURNAL_MAX_RECORDS
    ensures InRange(p.writes, MAX_BLOCKS)
    decreases count - i
  {
    if i == count then Plan([Clear], E_OK)
    else if !RecordOk(d, i) then Plan([], E_CORRUPT)
    else
      var w := RecordAt(d, i);
      var rest := ReplayPlan(d[w.lba := w.data], count, i + 1);
      Plan([w] + rest.writes, rest.rc)
  }

  function RecoverPlan(d: Disk): (p: Plan)
    requires |d| == MAX_BLOCKS
    ensures InRange(p.writes, MAX_BLOCKS)
  {
    var h := d[JOURNAL_START];
    if HeaderEmpty(h) then Plan([], E_OK)
    else if !HeaderOk(h) then Plan([], E_CORRUPT)
    else ReplayPlan(d, Get32(h, 20), 0)
  }

  /** The disk a recovery leaves when nothing interrupts it. */
  function Recovered(d: Disk): (e: Disk)
    requires |d| == MAX_BLOCKS
    ensures |e| == MAX_BLOCKS
  {
    Apply(d, RecoverPlan(d).writes)
  }

  // ----- what recovery depends on -----

  predicate SameJournal(d: Disk, e: Disk)
    requires |d| == |e| == MAX_BLOCKS
  {
    forall l :: 0 <= l < MAX_BLOCKS && InJournal(l) ==> d[l] == e[l]
  }

  predicate SameHome(d: Disk, e: Disk)
    requires |d| == |e| == MAX_BLOCKS
  {
    forall l :: 0 <= l < MAX_BLOCKS && !InJournal(l) ==> d[l] == e[l]
  }

  predicate JournalEmpty(d: Disk)
    requires |d| == MAX_BLOCKS
  {
    HeaderEmpty(d[JOURNAL_START])
  }

  /** The replayable records `i..` of the log, up to the first damaged one. */
  function LogRecords(d: Disk, count: nat, i: nat): (ws: seq<Write>)
    requires |d| == MAX_BLOCKS && i <= count <= JOURNAL_MAX_RECORDS
    ensures InRange(ws, MAX_BLOCKS) && |ws| <= count - i
    decreases count - i
  {
    if i == count || !RecordOk(d, i) then [] else [RecordAt(d, i)] + LogRecords(d, count, i + 1)
  }

  function Records(d: Disk): (ws: seq<Write>)
    requires |d| == MAX_BLOCKS
    ensures InRange(ws, MAX_BLOCKS)
  {
    var h := d[JOURNAL_START];
    if HeaderEmpty(h) || !HeaderOk(h) then [] else LogRecords(d, Get32(h, 20), 0)
  }

  predicate OutsideJournal(ws: seq<Write>) {
    forall i :: 0 <= i < |ws| ==> !InJournal(ws[i].lba)
  }

  /** No replayable record aims at the journal itself. */
  predicate SafeJournal(d: Disk)
    requires |d| == MAX_BLOCKS
  {
    OutsideJournal(Records(d))
  }

  /** The recovery plan read off the journal blocks alone. */
  function StaticPlan(d: Disk): (p: Plan)
    requires |d| == MAX_BLOCKS
  {
    var h, ws := d[JOURNAL_START], Records(d);
    if HeaderEmpty(h) then Plan([], E_OK)
    else if !HeaderOk(h) || |ws| < Get32(h, 20) then Plan(ws, E_CORRUPT)
    else Plan(ws + [Clear], E_OK)
  }

  lemma {:induction false} LogRecordsLocal(d: Disk, e: Disk, count: nat, i: nat)
    requires |d| == |e| == MAX_BLOCKS && i <= count <= JOURNAL_MAX_RECORDS
    requires SameJournal(d, e)
    ensures LogRecords(d, count, i) == LogRecords(e, count, i)
    decreases count - i
  {
    hide Get32, Get64, Checksum;
    if i < count {
      assert InJournal(DescLba(i)) && InJournal(DataLba(i));
      LogRecordsLocal(d, e, count, i + 1);
    }
  }

  lemma StaticPlanLocal(d: Disk, e: Disk)
    requires |d| == |e| == MAX_BLOCKS && SameJournal(d, e)
    ensures StaticPlan(d) == StaticPlan(e) && Records(d) == Records(e)
  {
    assert InJournal(JOURNAL_START);
    var h := d[JOURNAL_START];
    if !HeaderEmpty(h) && HeaderOk(h) {
      LogRecordsLocal(d, e, Get32(h, 20), 0);
    }
  }

  lemma OutsideTail(w: Write, rest: seq<Write>)
    requires OutsideJournal([w] + rest)
    ensures !InJournal(w.lba) && OutsideJournal(rest)
  {
    var ws := [w] + rest;
    assert ws[0] == w;
    assert forall k :: 0 <= k < |rest| ==> rest[k] == ws[k + 1];
  }

  lemma {:induction false} ReplayIsStatic(d: Disk, count: nat, i: nat)
    requires |d| == MAX_BLOCKS && i <= count <= JOURNAL_MAX_RECORDS
    requires OutsideJournal(LogRecords(d, count, i))
    ensures var ws := LogRecords(d, count, i);
            ReplayPlan(d, count, i) == if |ws| < count - i then Plan(ws, E_CORRUPT) else Plan(ws + [Clear], E_OK)
    decreases count - i
  {
    hide Get32, Get64, Checksum, OutsideJournal;
    if i < count && RecordOk(d, i) {
      var w := RecordAt(d, i);
      var e := d[w.lba := w.data];
      var rest := LogRecords(d, count, i + 1);
      OutsideTail(w, rest);
      LogRecordsLocal(d, e, count, i + 1);
      ReplayIsStatic(e, count, i + 1);
      assert [w] + (rest + [Clear]) == [w] + rest + [Clear];
    }
  }

  lemma RecoverIsStatic(d: Disk)
    requires |d| == MAX_BLOCKS && SafeJournal(d)
    ensures RecoverPlan(d) == StaticPlan(d)
  {
    var h := d[JOURNAL_START];
    if !HeaderEmpty(h) && HeaderOk(h) {
      ReplayIsStatic(d, Get32(h, 20), 0);
    }
  }

  lemma {:induction false} ApplyOutside(d: Disk, ws: seq<Write>)
    requires |d| == MAX_BLOCKS && InRange(ws, MAX_BLOCKS) && OutsideJournal(ws)
    ensures SameJournal(d, Apply(d, ws))
  {
    if ws != [] {
      ApplyOutside(d, ws[..|ws| - 1]);
    }
  }

  lemma {:induction false} ApplyInside(d: Disk, ws: seq<Write>)
    requires |d| == MAX_BLOCKS && InRange(ws, MAX_BLOCKS)
    requires forall i :: 0 <= i < |ws| ==> InJournal(ws[i].lba)
    ensures SameHome(d, Apply(d, ws))
  {
    if ws != [] {
      ApplyInside(d, ws[..|ws| - 1]);
    }
  }

  lemma {:induction false} ApplyAgrees(d: Disk, e: Disk, ws: seq<Write>)
    requires |d| == |e| == MAX_BLOCKS && InRange(ws, MAX_BLOCKS)
    requires SameHome(d, e)
    ensures SameHome(Apply(d, ws), Apply(e, ws))
  {
    if ws != [] {
      ApplyAgrees(d, e, ws[..|ws| - 1]);
    }
  }

  // ----- the log after a commit record -----

  predicate GoodTx(tx: Tx) {
    |tx| <= JOURNAL_MAX_RECORDS && InRange(tx, MAX_BLOCKS) && OutsideJournal(tx)
  }

  /** Recovery would replay exactly `tx` and then clear the journal. */
  predicate Pending(d: Disk, tx: Tx)
    requires |d| == MAX_BLOCKS
  {
    GoodTx(tx) && Records(d) == tx && StaticPlan(d) == Plan(tx + [Clear], E_OK)
  }

  lemma {:induction false} LogHolds(d: Disk, tx: Tx, i: nat)
    requires |d| == MAX_BLOCKS && |tx| <= JOURNAL_MAX_RECORDS && i < |tx|
    ensures InRange(LogWrites(tx), MAX_BLOCKS)
    ensures var e := Apply(d, LogWrites(tx));
            e[DescLba(i)] == DescBlock(tx[i]) && e[DataLba(i)] == tx[i].data
  {
    hide DescBlock, Apply;
    var n := |tx| - 1;
    var before := LogWrites(tx[..n]);
    var desc, data := Write(DescLba(n), DescBlock(tx[n])), Write(DataLba(n), tx[n].data);
    assert LogWrites(tx) == before + [desc] + [data];
    ApplySnoc(d, before, desc);
    ApplySnoc(d, before + [desc], data);
    if i < n {
      LogHolds(d, tx[..n], i);
    }
  }

  lemma DescBlockFields(r: Write)
    ensures var b := DescBlock(r);
            Get64(b, 0) == JMAGIC && Get32(b, 8) == r.lba && Get32(b, 12) == Checksum(r.data)
  {
    hide Checksum;
  }

  lemma {:induction false} LogRecordsRead(e: Disk, tx: Tx, i: nat)
    requires |e| == MAX_BLOCKS && GoodTx(tx) && i <= |tx|
    requires forall k :: 0 <= k < |tx| ==> e[DescLba(k)] == DescBlock(tx[k]) && e[DataLba(k)] == tx[k].data
    ensures LogRecords(e, |tx|, i) == tx[i..]
    decreases |tx| - i
  {
    hide Checksum, Get32, Get64, DescBlock;
    if i < |tx| {
      assert e[DescLba(i)] == DescBlock(tx[i]);
      DescBlockFields(tx[i]);
      LogRecordsRead(e, tx, i + 1);
    }
  }

  /** The log phase leaves the commit header in front of the logged records. */
  lemma LogPhaseBlocks(d: Disk, tx: Tx, seqno: uint32)
    requires |d| == MAX_BLOCKS && |tx| <= JOURNAL_MAX_RECORDS
    ensures var e := Apply(d, LogPhase(tx, seqno));
            && e[JOURNAL_START] == CommitHeader(seqno, |tx|)
            && forall k :: 0 <= k < |tx| ==> e[DescLba(k)] == DescBlock(tx[k]) && e[DataLba(k)] == tx[k].data
  {
    hide DescBlock, CommitHeader, Apply, LogWrites;
    var w := Write(JOURNAL_START, CommitHeader(seqno, |tx|));
    ApplyConcat(d, [Clear], LogWrites(tx));
    ApplySnoc(d, [Clear] + LogWrites(tx), w);
    forall k | 0 <= k < |tx|
      ensures Apply(d, LogPhase(tx, seqno))[DescLba(k)] == DescBlock(tx[k])
      ensures Apply(d, LogPhase(tx, seqno))[DataLba(k)] == tx[k].data
    {
      LogHolds(Apply(d, [Clear]), tx, k);
    }
  }

  lemma LogPhasePending(d: Disk, tx: Tx, seqno: uint32)
    requires |d| == MAX_BLOCKS && GoodTx(tx)
    ensures Pending(Apply(d, LogPhase(tx, seqno)), tx)
  {
    hide Get32, Get64, DescBlock, CommitHeader, HeaderOk, HeaderEmpty, LogPhase, Apply, LogRecords;
    LogPhaseBlocks(d, tx, seqno);
    CommitHeaderOk(seqno, |tx|);
    LogRecordsRead(Apply(d, LogPhase(tx, seqno)), tx, 0);
  }

  lemma RecoverEmpty(e: Disk)
    requires |e| == MAX_BLOCKS && JournalEmpty(e)
    ensures SafeJournal(e) && Recovered(e) == e && RecoverPlan(e).rc == E_OK
  {
    hide HeaderEmpty;
  }

  lemma ClearEmpties(d: Disk)
    requires |d| == MAX_BLOCKS
    ensures JournalEmpty(Apply(d, [Clear])) && SameHome(Apply(d, [Clear]), d)
  {
    assert [Clear][..0] == [];
    assert Apply(d, [Clear]) == d[JOURNAL_START := ZeroBlock];
  }

  lemma RecoverPending(e: Disk, tx: Tx)
    requires |e| == MAX_BLOCKS && Pending(e, tx)
    ensures SafeJournal(e) && RecoverPlan(e).rc == E_OK
    ensures JournalEmpty(Recovered(e)) && SameHome(Recovered(e), Apply(e, tx))
  {
    hide StaticPlan, Records, RecoverPlan, HeaderEmpty;
    RecoverIsStatic(e);
    ApplyConcat(e, tx, [Clear]);
    ClearEmpties(Apply(e, tx));
  }

  // ----- atomicity -----

  /** Before the commit header is on disk the home blocks are untouched and the journal reads as empty. */
  lemma CutInLog(d: Disk, tx: Tx, seqno: uint32, k: nat)
    requires |d| == MAX_BLOCKS && JournalEmpty(d) && GoodTx(tx) && k < 2 * |tx| + 2
    ensures var e := Apply(d, LogPhase(tx, seqno)[..k]);
            JournalEmpty(e) && SameHome(e, d)
  {
    hide HeaderEmpty, LogWrites, CommitHeader;
    var ws := LogPhase(tx, seqno)[..k];
    ApplyInside(d, ws);
    if k > 0 {
      var rest := LogWrites(tx)[..k - 1];
      assert ws == [Clear] + rest;
      ApplyConcat(d, [Clear], rest);
      var c := Apply(d, [Clear]);
      ClearEmpties(d);
      ApplyAt(c, rest, JOURNAL_START);
      assert !Touches(rest, JOURNAL_START);
    }
  }

  /** Once the header is on disk every cut of the home writes replays to the whole transaction. */
  lemma CutInHome(d: Disk, tx: Tx, seqno: uint32, m: nat)
    requires |d| == MAX_BLOCKS && GoodTx(tx) && m <= |tx|
    ensures var e := Apply(Apply(d, LogPhase(tx, seqno)), tx[..m]);
            && Pending(e, tx)
            && SameHome(Apply(e, tx), Apply(d, tx))
  {
    hide StaticPlan, Records, LogPhase, HeaderEmpty;
    var d1 := Apply(d, LogPhase(tx, seqno));
    LogPhasePending(d, tx, seqno);
    ApplyOutside(d1, tx[..m]);
    StaticPlanLocal(d1, Apply(d1, tx[..m]));
    ApplyAbsorbs(d1, tx, m);
    ApplyInside(d, LogPhase(tx, seqno));
    ApplyAgrees(d1, d, tx);
  }

  lemma CommitPlanGood(tx: Tx, seqno: uint32, stop: bool)
    requires GoodTx(tx)
    ensures CommitPlan(tx, seqno, stop) ==
            Plan(if stop then LogPhase(tx, seqno) else LogPhase(tx, seqno) + (tx + [Clear]), E_OK)
  {
    hide LogPhase;
    assert tx[..|ValidPrefix(tx)|] == tx;
  }

  /** A commit nothing interrupts: the records are home and the journal is empty. */
  lemma CommitDone(d: Disk, tx: Tx, seqno: uint32)
    requires |d| == MAX_BLOCKS && GoodTx(tx)
    ensures CommitPlan(tx, seqno, false).rc == E_OK
    ensures var e := Apply(d, CommitPlan(tx, seqno, false).writes);
            JournalEmpty(e) && SameHome(e, Apply(d, tx))
  {
    hide HeaderEmpty, Apply, LogPhase, JournalEmpty;
    var log := LogPhase(tx, seqno);
    CommitPlanGood(tx, seqno, false);
    ApplyConcat(d, log, tx + [Clear]);
    ApplyConcat(Apply(d, log), tx, [Clear]);
    ClearEmpties(Apply(Apply(d, log), tx));
    ApplyInside(d, log);
    ApplyAgrees(Apply(d, log), d, tx);
  }

  /**
   Commit is atomic: stop a commit after any number of its block writes, recover, and the home blocks are all old
   if the commit header had not been written and all new otherwise; the journal is empty again.
   */
  lemma CommitAtomic(d: Disk, tx: Tx, seqno: uint32, stop: bool, k: nat)
    requires |d| == MAX_BLOCKS && JournalEmpty(d) && GoodTx(tx)
    requires k <= |CommitPlan(tx, seqno, stop).writes|
    ensures var e := Apply(d, CommitPlan(tx, seqno, stop).writes[..k]);
            && SafeJournal(e)
            && RecoverPlan(e).rc == E_OK
            && JournalEmpty(Recovered(e))
            && SameHome(Recovered(e), if k < 2 * |tx| + 2 then d else Apply(d, tx))
  {
    hide RecoverPlan, SafeJournal, HeaderEmpty, Pending, Apply, LogPhase, JournalEmpty, CommitPlan;
    var log := LogPhase(tx, seqno);
    var ws := CommitPlan(tx, seqno, stop).writes;
    CommitPlanGood(tx, seqno, stop);
    var e := Apply(d, ws[..k]);
    var m := k - |log|;
    if m < 0 {
      assert ws[..k] == log[..k];
      CutInLog(d, tx, seqno, k);
      RecoverEmpty(e);
    } else if m <= |tx| {
      assert ws[..k] == log + tx[..m];
      ApplyConcat(d, log, tx[..m]);
      CutInHome(d, tx, seqno, m);
      RecoverPending(e, tx);
    } else {
      assert ws[..k] == ws;
      CommitPlanGood(tx, seqno, false);
      CommitDone(d, tx, seqno);
      RecoverEmpty(e);
    }
  }

  // ----- restartability -----

  /** Recoveries of `d`, one after the other, each cut off after the given number of block writes. */
  function CutRecoveries(d: Disk, cuts: seq<nat>): (e: Disk)
    requires |d| == MAX_BLOCKS
    ensures |e| == MAX_BLOCKS
    decreases |cuts|
  {
    if cuts == [] then d
    else
      var ws := RecoverPlan(d).writes;
      CutRecoveries(Apply(d, ws[..Allowed(cuts[0], |ws|)]), cuts[1..])
  }

  /** The records recovery replays, before the clearing of the header that ends a successful one. */
  function Replayed(d: Disk): (n: nat)
    requires |d| == MAX_BLOCKS
    ensures n <= |RecoverPlan(d).writes|
  {
    var p := RecoverPlan(d);
    if p.rc == E_OK && |p.writes| > 0 then |p.writes| - 1 else |p.writes|
  }

  /** A journal block that recovery has read by the time it writes record `i` home: header, or part of a record up to `i`. */
  predicate ReadBy(l: int, i: nat) {
    JOURNAL_START <= l <= DataLba(i)
  }

  /** No record changes a journal block that recovery has read by then. */
  predicate Stable(d: Disk)
    requires |d| == MAX_BLOCKS
  {
    var ws := RecoverPlan(d).writes;
    forall i :: 0 <= i < Replayed(d) && ReadBy(ws[i].lba, i) ==> Apply(d, ws[..i])[ws[i].lba] == ws[i].data
  }

  /** The records `ws`, each read from the disk the earlier ones left, are what recovery of `d` replays from record `i` on. */
  predicate Reads(d: Disk, ws: seq<Write>, count: nat, i: nat, r: nat)
    requires |d| == MAX_BLOCKS && i <= r <= count <= JOURNAL_MAX_RECORDS && r <= |ws| && InRange(ws, MAX_BLOCKS)
  {
    && (forall k :: i <= k < r ==> RecordOk(Apply(d, ws[..k]), k) && ws[k] == RecordAt(Apply(d, ws[..k]), k))
    && (r < count ==> !RecordOk(Apply(d, ws[..r]), r))
  }

  /** Recovery from record `i` on, in terms of what it reads. */
  lemma {:induction false} ReplayFrom(d: Disk, ws: seq<Write>, count: nat, i: nat, r: nat)
    requires |d| == MAX_BLOCKS && i <= r <= count <= JOURNAL_MAX_RECORDS && r <= |ws| && InRange(ws, MAX_BLOCKS)
    requires Reads(d, ws, count, i, r)
    ensures ReplayPlan(Apply(d, ws[..i]), count, i) ==
            if r < count then Plan(ws[i..r], E_CORRUPT) else Plan(ws[i..r] + [Clear], E_OK)
    decreases r - i
  {
    hide RecordOk, Apply, RecordAt;
    if i < r {
      ReplayFrom(d, ws, count, i + 1, r);
      ApplyStep(d, ws, i);
      assert RecordOk(Apply(d, ws[..i]), i) && ws[i] == RecordAt(Apply(d, ws[..i]), i);
      assert ws[i..r] == [ws[i]] + ws[i + 1..r];
      assert [ws[i]] + (ws[i + 1..r] + [Clear]) == ws[i..r] + [Clear];
    } else {
      assert ws[i..r] == [] && [] + [Clear] == [Clear];
    }
  }

  /** What recovery writes is what it reads, step by step. */
  lemma {:induction false} ReplayReads(d: Disk, ws: seq<Write>, count: nat, i: nat) returns (r: nat)
    requires |d| == MAX_BLOCKS && i <= count <= JOURNAL_MAX_RECORDS && i <= |ws| && InRange(ws, MAX_BLOCKS)
    requires ws[i..] == ReplayPlan(Apply(d, ws[..i]), count, i).writes
    ensures i <= r <= count && r <= |ws| && Reads(d, ws, count, i, r)
    ensures var p := ReplayPlan(Apply(d, ws[..i]), count, i);
            if r < count then p.rc == E_CORRUPT && |ws| == r else p.rc == E_OK && |ws| == r + 1 && ws[r] == Clear
    decreases count - i
  {
    hide RecordOk, Apply, RecordAt;
    var e := Apply(d, ws[..i]);
    if i == count {
      r := i;
      assert ws[i] == ws[i..][0];
    } else if !RecordOk(e, i) {
      r := i;
    } else {
      var w := RecordAt(e, i);
      assert ws[i] == ws[i..][0] == w;
      ApplyStep(d, ws, i);
      assert ws[i + 1..] == ws[i..][1..];
      r := ReplayReads(d, ws, count, i + 1);
    }
  }

  /** A successful recovery ends by clearing the header. */
  lemma {:induction false} EndsClear(d: Disk, count: nat, i: nat)
    requires |d| == MAX_BLOCKS && i <= count <= JOURNAL_MAX_RECORDS
    ensures var p := ReplayPlan(d, count, i);
            p.rc == E_OK ==> |p.writes| > 0 && p.writes[|p.writes| - 1] == Clear
    decreases count - i
  {
    hide Checksum, Get32, Get64;
    if i < count && RecordOk(d, i) {
      var w := RecordAt(d, i);
      EndsClear(d[w.lba := w.data], count, i + 1);
    }
  }

  /** A recovery that returns OK leaves an empty journal. */
  lemma RecoveredEmpty(d: Disk)
    requires |d| == MAX_BLOCKS && RecoverPlan(d).rc == E_OK
    ensures JournalEmpty(Recovered(d))
  {
    hide HeaderEmpty, HeaderChecksum, Get32, Get64, ReplayPlan;
    if !JournalEmpty(d) {
      EndsClear(d, Get32(d[JOURNAL_START], 20), 0);
      var ws := RecoverPlan(d).writes;
      var n := |ws| - 1;
      assert ws == ws[..n] + [Clear];
      ApplyConcat(d, ws[..n], [Clear]);
      ClearEmpties(Apply(d, ws[..n]));
    }
  }

  /** A block that has been read is not changed any more. */
  lemma {:induction false} Unchanged(d: Disk, j: nat, n: nat, l: nat)
    requires |d| == MAX_BLOCKS && Stable(d) && j <= n <= Replayed(d) && ReadBy(l, j) && l < MAX_BLOCKS
    ensures var ws := RecoverPlan(d).writes; Apply(d, ws[..n])[l] == Apply(d, ws[..j])[l]
    decreases n
  {
    hide RecoverPlan, Apply;
    var ws := RecoverPlan(d).writes;
    if j < n {
      Unchanged(d, j, n - 1, l);
      ApplyStep(d, ws, n - 1);
    }
  }

  /** Replaying on top of a replay that was cut off reads what the first replay read. */
  lemma Reread(d: Disk, n: nat, j: nat, l: nat)
    requires |d| == MAX_BLOCKS && Stable(d) && n <= Replayed(d) && j <= Replayed(d) && ReadBy(l, j) && l < MAX_BLOCKS
    ensures var ws := RecoverPlan(d).writes; Apply(Apply(d, ws[..n]), ws[..j])[l] == Apply(d, ws[..j])[l]
  {
    hide RecoverPlan, Apply, Last, Touches, Stable;
    var ws := RecoverPlan(d).writes;
    if n <= j {
      assert ws[..j][..n] == ws[..n];
      ApplyAbsorbs(d, ws[..j], n);
    } else {
      ApplyAt(Apply(d, ws[..n]), ws[..j], l);
      ApplyAt(d, ws[..j], l);
      Unchanged(d, j, n, l);
    }
  }

  /** A recovery of a stable journal, cut off before it clears the header, leaves the same recovery to be done. */
  lemma SamePlan(d: Disk, n: nat)
    requires |d| == MAX_BLOCKS && Stable(d) && n <= Replayed(d)
    ensures var f := Apply(d, RecoverPlan(d).writes[..n]);
            RecoverPlan(f) == RecoverPlan(d) && Stable(f)
  {
    hide HeaderEmpty, HeaderChecksum, Get32, Get64, Apply, ReplayPlan, Stable;
    var f, h := Apply(d, RecoverPlan(d).writes[..n]), d[JOURNAL_START];
    HeaderStays(d, n);
    if !HeaderEmpty(h) && HeaderOk(h) {
      SameReplay(d, n, f, Get32(h, 20));
    }
    StableAgain(d, n, f);
  }

  lemma SameReplay(d: Disk, n: nat, f: Disk, count: nat)
    requires |d| == |f| == MAX_BLOCKS && Stable(d) && n <= Replayed(d) && f == Apply(d, RecoverPlan(d).writes[..n])
    requires count <= JOURNAL_MAX_RECORDS && RecoverPlan(d) == ReplayPlan(d, count, 0)
    ensures ReplayPlan(f, count, 0) == ReplayPlan(d, count, 0)
  {
    hide RecoverPlan, Apply, ReplayPlan, Reads, Stable;
    var ws := RecoverPlan(d).writes;
    ApplyNone(d, ws[..0]);
    ApplyNone(f, ws[..0]);
    assert ws[0..] == ws;
    var r := ReplayReads(d, ws, count, 0);
    ReadsAgain(d, n, count, r);
    ReplayFrom(d, ws, count, 0, r);
    ReplayFrom(f, ws, count, 0, r);
  }

  lemma HeaderStays(d: Disk, n: nat)
    requires |d| == MAX_BLOCKS && Stable(d) && n <= Replayed(d)
    ensures Apply(d, RecoverPlan(d).writes[..n])[JOURNAL_START] == d[JOURNAL_START]
  {
    hide RecoverPlan, Stable, Apply;
    ApplyNone(d, RecoverPlan(d).writes[..0]);
    Unchanged(d, 0, n, JOURNAL_START);
  }

  lemma ReadsAgain(d: Disk, n: nat, count: nat, r: nat)
    requires |d| == MAX_BLOCKS && Stable(d) && n <= Replayed(d) && r <= count <= JOURNAL_MAX_RECORDS && r <= Replayed(d)
    requires Reads(d, RecoverPlan(d).writes, count, 0, r)
    ensures Reads(Apply(d, RecoverPlan(d).writes[..n]), RecoverPlan(d).writes, count, 0, r)
  {
    hide RecoverPlan, Stable, Apply, SoundRecord;
    var ws := RecoverPlan(d).writes;
    var f := Apply(d, ws[..n]);
    forall k | 0 <= k <= r && k < count
      ensures RecordOk(Apply(f, ws[..k]), k) == RecordOk(Apply(d, ws[..k]), k)
      ensures RecordAt(Apply(f, ws[..k]), k) == RecordAt(Apply(d, ws[..k]), k)
    {
      Reread(d, n, k, DescLba(k));
      Reread(d, n, k, DataLba(k));
    }
  }

  lemma StableAgain(d: Disk, n: nat, f: Disk)
    requires |d| == |f| == MAX_BLOCKS && Stable(d) && n <= Replayed(d)
    requires f == Apply(d, RecoverPlan(d).writes[..n]) && RecoverPlan(f) == RecoverPlan(d)
    ensures Stable(f)
  {
    hide RecoverPlan, Apply;
    var ws := RecoverPlan(d).writes;
    forall i | 0 <= i < Replayed(f) && ReadBy(ws[i].lba, i)
      ensures Apply(f, ws[..i])[ws[i].lba] == ws[i].data
    {
      Reread(d, n, i, ws[i].lba);
    }
  }

  /** A recovery of a stable journal, cut off anywhere, leaves a disk from which recovery has the same result. */
  lemma CutOnce(d: Disk, n: nat)
    requires |d| == MAX_BLOCKS && Stable(d) && n <= |RecoverPlan(d).writes|
    ensures var e := Apply(d, RecoverPlan(d).writes[..n]);
            && Stable(e)
            && Recovered(e) == Recovered(d)
            && RecoverPlan(e).rc == RecoverPlan(d).rc
  {
    hide RecoverPlan, Apply, Stable;
    var ws := RecoverPlan(d).writes;
    var e := Apply(d, ws[..n]);
    if n <= Replayed(d) {
      SamePlan(d, n);
      ApplyAbsorbs(d, ws, n);
    } else {
      assert ws[..n] == ws;
      RecoveredEmpty(d);
      RecoverEmpty(e);
      EmptyStable(e);
    }
  }

  lemma EmptyStable(e: Disk)
    requires |e| == MAX_BLOCKS && JournalEmpty(e)
    ensures Stable(e)
  {
  }

  /**
   Recovery can be restarted: after any number of interrupted recoveries, one that completes leaves the disk, and
   returns the code, of a single uninterrupted recovery.
   */
  lemma {:induction false} RecoveryRestarts(d: Disk, cuts: seq<nat>)
    requires |d| == MAX_BLOCKS && Stable(d)
    ensures var e := CutRecoveries(d, cuts);
            && Stable(e)
            && Recovered(e) == Recovered(d)
            && RecoverPlan(e).rc == RecoverPlan(d).rc
    decreases |cuts|
  {
    hide Stable, Recovered, RecoverPlan;
    if cuts != [] {
      var ws := RecoverPlan(d).writes;
      var n := Allowed(cuts[0], |ws|);
      CutOnce(d, n);
      RecoveryRestarts(Apply(d, ws[..n]), cuts[1..]);
    }
  }

  /** A journal whose records all aim outside it is stable; every journal that commit writes is of this kind. */
  lemma SafeIsStable(d: Disk)
    requires |d| == MAX_BLOCKS && SafeJournal(d)
    ensures Stable(d)
  {
    hide HeaderEmpty, HeaderChecksum, Get32, Get64, LogRecords, ReplayPlan, Apply;
    RecoverIsStatic(d);
    var ws := RecoverPlan(d).writes;
    forall i | 0 <= i < Replayed(d)
      ensures !ReadBy(ws[i].lba, i)
    {
      assert ws[i] == Records(d)[i];
    }
  }

  /** A log of two records, the second of which aims at the payload of the first. */
  lemma SelfLog(d: Disk, l: nat, x: Block, y: Block, seqno: uint32) returns (e: Disk)
    requires |d| == MAX_BLOCKS && l < MAX_BLOCKS && !InJournal(l)
    ensures |e| == MAX_BLOCKS
    ensures HeaderOk(e[JOURNAL_START]) && !HeaderEmpty(e[JOURNAL_START]) && Get32(e[JOURNAL_START], 20) == 2
    ensures Get64(e[DescLba(0)], 0) == Get64(e[DescLba(1)], 0) == JMAGIC
    ensures Get32(e[DescLba(0)], 8) == l && Get32(e[DescLba(0)], 12) == Checksum(x) && e[DataLba(0)] == x
    ensures Get32(e[DescLba(1)], 8) == DataLba(0) && Get32(e[DescLba(1)], 12) == Checksum(y) && e[DataLba(1)] == y
  {
    hide Get32, Get64, DescBlock, CommitHeader, HeaderOk, HeaderEmpty, LogPhase, Apply, Checksum;
    var tx := [Write(l, x), Write(DataLba(0), y)];
    e := Apply(d, LogPhase(tx, seqno));
    LogPhaseBlocks(d, tx, seqno);
    CommitHeaderOk(seqno, 2);
    assert e[DescLba(0)] == DescBlock(tx[0]) && e[DescLba(1)] == DescBlock(tx[1]);
    DescBlockFields(tx[0]);
    DescBlockFields(tx[1]);
  }

  /**
   Records that change what recovery has read are why: on any disk, with such a log, an uninterrupted recovery returns OK,
   but one cut off after its second write leaves a journal that recovery then finds corrupt.
   */
  lemma RestartFails(d: Disk, l: nat, z: seq<uint8>, seqno: uint32) returns (e: Disk)
    requires |d| == MAX_BLOCKS && l < MAX_BLOCKS && !InJournal(l) && |z| == BLOCK_SIZE - 1
    ensures |e| == MAX_BLOCKS && RecoverPlan(e).rc == E_OK
    ensures RecoverPlan(CutRecoveries(e, [2])).rc == E_CORRUPT
  {
    hide Get32, Get64, HeaderOk, HeaderEmpty, Checksum, Apply;
    var x: Block, y: Block := z + [0], z + [1];
    ChecksumsDiffer(z);
    e := SelfLog(d, l, x, y, seqno);
    var w0, w1 := Write(l, x), Write(DataLba(0), y);
    var e1 := e[l := x];
    var e2 := e1[DataLba(0) := y];
    assert RecordAt(e, 0) == w0 && RecordAt(e1, 1) == w1;
    assert ReplayPlan(e2, 2, 2) == Plan([Clear], E_OK);
    assert ReplayPlan(e1, 2, 1) == Plan([w1, Clear], E_OK);
    assert RecoverPlan(e) == Plan([w0, w1, Clear], E_OK);
    assert [w0, w1, Clear][..2] == [w0] + [w1];
    ApplyOne(e, w0);
    ApplySnoc(e, [w0], w1);
    assert CutRecoveries(e, [2]) == e2;
  }
}
