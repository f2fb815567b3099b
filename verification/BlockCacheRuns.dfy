/** Whole runs of the block cache against plain disks: a sequence of blocks per device, changed only by writes. */
module BlockCacheRuns {
  import opened Bytes
  import opened BlockCache

  datatype Op = ReadOp(d: nat, l: nat) | WriteOp(d: nat, l: nat, b: Block) | FlushOp(d: nat) | FlushAllOp

  function Step(s: State, op: Op): (r: State) {
    match op
    case ReadOp(d, l) => Read(s, d, l).0
    case WriteOp(d, l, b) => Write(s, d, l, b).0
    case FlushOp(d) => Flush(s, d).0
    case FlushAllOp => FlushAll(s).0
  }

  function Run(s: State, ops: seq<Op>): (r: State)
    decreases |ops|
  {
    if ops == [] then s else Run(Step(s, ops[0]), ops[1..])
  }

  type Disks = seq<seq<Block>>

  function Overwrite(blocks: seq<Block>, l: nat, b: Block): (q: seq<Block>)
    requires l < |blocks|
  {
    blocks[l := b]
  }

  function ModelStep(m: Disks, op: Op): (r: Disks) {
    match op
    case WriteOp(d, l, b) => if d < |m| && l < |m[d]| then m[d := Overwrite(m[d], l, b)] else m
    case _ => m
  }

  function ModelRun(m: Disks, ops: seq<Op>): (r: Disks)
    decreases |ops|
  {
    if ops == [] then m else ModelRun(ModelStep(m, ops[0]), ops[1..])
  }

  /** Every block reads as it is on the plain disk. */
  ghost predicate Represents(s: State, m: Disks) {
    && |m| == |s.devs| && (forall d :: 0 <= d < |m| ==> |m[d]| == |s.devs[d].blocks|)
    && (forall d: nat, l: nat :: InRange(s, d, l) ==> View(s, d, l) == m[d][l])
  }

  /** Each write of the run finds its block cached or an unused slot. */
  predicate WritesFit(s: State, ops: seq<Op>)
    decreases |ops|
  {
    ops != [] ==>
      && (ops[0].WriteOp? ==> Fits(s, ops[0].d, ops[0].l))
      && WritesFit(Step(s, ops[0]), ops[1..])
  }

  lemma StepRepresents(s: State, op: Op, m: Disks)
    requires Inv(s) && Represents(s, m) && (op.WriteOp? ==> Fits(s, op.d, op.l))
    ensures Inv(Step(s, op)) && SameShape(s, Step(s, op)) && Represents(Step(s, op), ModelStep(m, op))
  {
    hide Inv, View, Read, Write, Flush, FlushAll;
    match op
    case ReadOp(d, l) => ReadReturnsView(s, d, l);
    case WriteOp(d, l, b) => WriteExact(s, d, l, b);
    case FlushOp(d) => FlushExact(s, d);
    case FlushAllOp => FlushAllExact(s);
  }

  /** While every write finds a slot, the cache and the devices together are the plain disks. */
  lemma {:induction false} RunRepresents(s: State, ops: seq<Op>, m: Disks)
    requires Inv(s) && Represents(s, m) && WritesFit(s, ops)
    ensures Inv(Run(s, ops)) && Represents(Run(s, ops), ModelRun(m, ops))
    decreases |ops|
  {
    if ops != [] {
      StepRepresents(s, ops[0], m);
      RunRepresents(Step(s, ops[0]), ops[1..], ModelStep(m, ops[0]));
    }
  }

  /**
   Every read that returns OK returns the last write, after any run whose writes find slots, flushes cut short by
   driver failures included; and if a flush of everything then returns OK the devices are the plain disks.
   */
  lemma ReadsLastWrite(s: State, ops: seq<Op>, m: Disks, d: nat, l: nat)
    requires Inv(s) && Represents(s, m) && WritesFit(s, ops)
    ensures var (r, m') := (Run(s, ops), ModelRun(m, ops));
            && |m'| == |r.devs|
            && (Read(r, d, l).1 == OK ==>
                  InRange(r, d, l) && l < |m'[d]| && Read(r, d, l).2 == Some(m'[d][l]))
            && (FlushAll(r).1 == OK ==>
                  |FlushAll(r).0.devs| == |m'| && forall i :: 0 <= i < |m'| ==> FlushAll(r).0.devs[i].blocks == m'[i])
  {
    RunRepresents(s, ops, m);
    var (r, m') := (Run(s, ops), ModelRun(m, ops));
    ReadReturnsView(r, d, l);
    FlushAllExact(r);
    var t := FlushAll(r).0;
    if FlushAll(r).1 == OK {
      forall i: nat | i < |m'|
        ensures t.devs[i].blocks == m'[i]
      {
        forall j: nat | j < |m'[i]|
          ensures t.devs[i].blocks[j] == m'[i][j]
        {
          assert InRange(r, i, j);
        }
      }
    }
  }

  // ----- a run on at most as many blocks as there are slots loses no write -----

  function Touched(ops: seq<Op>): (keys: set<(nat, nat)>)
    decreases |ops|
  {
    if ops == [] then {} else
    (if ops[0].ReadOp? || ops[0].WriteOp? then {(ops[0].d, ops[0].l)} else {}) + Touched(ops[1..])
  }

  /** The blocks the cache holds. */
  ghost function Keys(cache: seq<Entry>): (keys: set<(nat, nat)>) {
    set i | 0 <= i < |cache| && cache[i].valid :: (cache[i].dev, cache[i].lba)
  }

  lemma {:induction false} FullKeys(s: State, n: nat)
    requires Inv(s) && n <= |s.cache| && forall i :: 0 <= i < n ==> s.cache[i].valid
    ensures |Keys(s.cache[..n])| == n
  {
    if n == 0 {
      assert Keys(s.cache[..0]) == {};
    } else {
      FullKeys(s, n - 1);
      var e := s.cache[n - 1];
      var before, after := s.cache[..n - 1], s.cache[..n];
      assert after == before + [e];
      forall k | k in Keys(before)
        ensures k != (e.dev, e.lba)
      {
        var i :| 0 <= i < |before| && before[i].valid && k == (before[i].dev, before[i].lba);
        assert before[i] == s.cache[i];
      }
      KeysSnoc(before, e);
    }
  }

  lemma KeysSnoc(cache: seq<Entry>, e: Entry)
    requires e.valid
    ensures Keys(cache + [e]) == Keys(cache) + {(e.dev, e.lba)}
  {
    var c := cache + [e];
    forall k | k in Keys(cache)
      ensures k in Keys(c)
    {
      var i :| 0 <= i < |cache| && cache[i].valid && k == (cache[i].dev, cache[i].lba);
      assert c[i] == cache[i];
    }
    assert c[|cache|] == e;
  }

  /** A write that finds no slot is one block too many. */
  lemma NoSlot(s: State, d: nat, l: nat, blocks: set<(nat, nat)>)
    requires Inv(s) && Keys(s.cache) <= blocks && (d, l) in blocks && !Fits(s, d, l)
    ensures |blocks| > |s.cache|
  {
    FullKeys(s, |s.cache|);
    assert s.cache[..|s.cache|] == s.cache;
    if (d, l) in Keys(s.cache) {
      var i :| 0 <= i < |s.cache| && s.cache[i].valid && (d, l) == (s.cache[i].dev, s.cache[i].lba);
      assert Caches(s.cache[i], d, l);
    }
    SubsetSize(Keys(s.cache) + {(d, l)}, blocks);
  }

  lemma SubsetSize<T>(a: set<T>, b: set<T>)
    requires a <= b
    ensures |a| <= |b|
  {
    assert b == a + (b - a);
  }

  /** Flushing changes no keys, reads and writes add at most their own. */
  lemma StepKeys(s: State, op: Op, blocks: set<(nat, nat)>)
    requires Inv(s) && Keys(s.cache) <= blocks && Touched([op]) <= blocks
    ensures Keys(Step(s, op).cache) <= blocks
  {
    assert [op][1..] == [];
    match op
    case ReadOp(d, l) => KeysUpdate(s.cache, Step(s, op).cache, d, l, blocks);
    case WriteOp(d, l, b) => KeysUpdate(s.cache, Step(s, op).cache, d, l, blocks);
    case FlushOp(d) =>
      if d < |s.devs| {
        FlushKeys(s, d, 0);
      }
    case FlushAllOp => FlushAllKeys(s, OK, 0);
  }

  lemma KeysUpdate(a: seq<Entry>, b: seq<Entry>, d: nat, l: nat, blocks: set<(nat, nat)>)
    requires Keys(a) <= blocks && |a| == |b|
    requires forall i :: 0 <= i < |b| ==> b[i] == a[i] || Caches(b[i], d, l)
    ensures Keys(b) <= blocks + {(d, l)}
  {
    forall k | k in Keys(b)
      ensures k in blocks + {(d, l)}
    {
      var i :| 0 <= i < |b| && b[i].valid && k == (b[i].dev, b[i].lba);
      if b[i] == a[i] {
        assert (a[i].dev, a[i].lba) in Keys(a);
      }
    }
  }

  lemma {:induction false} FlushKeys(s: State, d: nat, i: nat)
    requires d < |s.devs| && i <= |s.cache|
    ensures Keys(FlushFrom(s, d, i).0.cache) == Keys(s.cache)
    decreases |s.cache| - i
  {
    if i < |s.cache| {
      var e := s.cache[i];
      if e.valid && e.dev == d && e.dirty {
        CleanKeys(s.cache, i);
        if WriteBack(s, i).1 {
          FlushKeys(WriteBack(s, i).0, d, i + 1);
        }
      } else {
        FlushKeys(s, d, i + 1);
      }
    }
  }

  lemma {:induction false} FlushAllKeys(s: State, rc: int, i: nat)
    requires i <= |s.cache|
    ensures Keys(FlushAllFrom(s, rc, i).0.cache) == Keys(s.cache)
    decreases |s.cache| - i
  {
    if i < |s.cache| {
      var e := s.cache[i];
      if !(e.valid && e.dirty) {
        FlushAllKeys(s, rc, i + 1);
      } else if e.dev >= |s.devs| {
        FlushAllKeys(s, DRIVER_FAIL, i + 1);
      } else {
        CleanKeys(s.cache, i);
        var (s1, ok) := WriteBack(s, i);
        FlushAllKeys(s1, if ok then rc else DRIVER_FAIL, i + 1);
      }
    }
  }

  lemma CleanKeys(cache: seq<Entry>, i: nat)
    requires i < |cache|
    ensures Keys(cache[i := cache[i].(dirty := false)]) == Keys(cache)
  {
    var b := cache[i := cache[i].(dirty := false)];
    forall k
      ensures k in Keys(b) <==> k in Keys(cache)
    {
      if k in Keys(b) {
        var j :| 0 <= j < |b| && b[j].valid && k == (b[j].dev, b[j].lba);
        assert cache[j].valid && k == (cache[j].dev, cache[j].lba);
      }
      if k in Keys(cache) {
        var j :| 0 <= j < |cache| && cache[j].valid && k == (cache[j].dev, cache[j].lba);
        assert b[j].valid && k == (b[j].dev, b[j].lba);
      }
    }
  }

  lemma {:induction false} FewFit(s: State, ops: seq<Op>, m: Disks, blocks: set<(nat, nat)>)
    requires Inv(s) && Represents(s, m)
    requires Keys(s.cache) <= blocks && Touched(ops) <= blocks && |blocks| <= |s.cache|
    ensures WritesFit(s, ops)
    decreases |ops|
  {
    hide Inv, Represents, Keys, ModelStep, Step;
    if ops != [] {
      var op := ops[0];
      if op.WriteOp? && !Fits(s, op.d, op.l) {
        NoSlot(s, op.d, op.l, blocks);
      }
      assert [op][1..] == [];
      StepKeys(s, op, blocks);
      StepRepresents(s, op, m);
      FewFit(Step(s, op), ops[1..], ModelStep(m, op), blocks);
    }
  }

  /** An unused cache. */
  ghost predicate Unused(s: State) {
    |s.cache| == ENTRIES && forall i :: 0 <= i < ENTRIES ==> !s.cache[i].valid
  }

  /** From an unused cache, a run that touches no more blocks than there are slots loses no write. */
  lemma FewBlocks(s: State, ops: seq<Op>, m: Disks)
    requires Unused(s) && |m| == |s.devs| && (forall d :: 0 <= d < |m| ==> m[d] == s.devs[d].blocks)
    requires |Touched(ops)| <= ENTRIES
    ensures WritesFit(s, ops) && Represents(Run(s, ops), ModelRun(m, ops))
  {
    assert Inv(s) && Represents(s, m) && Keys(s.cache) == {};
    FewFit(s, ops, m, Touched(ops));
    RunRepresents(s, ops, m);
  }

  // ----- and one block more does -----

  /** The cache after reading the first `k` blocks of device 0. */
  function Filled(s: State, k: nat): (r: State)
    requires |s.cache| == ENTRIES && |s.devs| > 0 && |s.devs[0].blocks| > ENTRIES && k <= ENTRIES
  {
    s.(cache := seq(ENTRIES, i requires 0 <= i < ENTRIES =>
      if i < k then Entry(true, false, 0, i, s.devs[0].blocks[i]) else s.cache[i]))
  }

  lemma FillOne(s: State, k: nat)
    requires Unused(s) && |s.devs| > 0 && |s.devs[0].blocks| > ENTRIES && s.devs[0].faults == [] && k < ENTRIES
    ensures Step(Filled(s, k), ReadOp(0, k)) == Filled(s, k + 1)
  {
    var t, u := Filled(s, k), Filled(s, k + 1);
    assert Lookup(t.cache, 0, k) == |t.cache|;
    assert !t.cache[k].valid && forall i :: 0 <= i < k ==> t.cache[i].valid;
    assert FindEmpty(t.cache) == k;
    assert t.devs[0 := t.devs[0]] == t.devs;
    assert t.cache[k := Entry(true, false, 0, k, s.devs[0].blocks[k])] == u.cache;
  }

  /** Reads of the blocks from `k` on that the cache still has slots for. */
  function Reads(k: nat): (ops: seq<Op>)
    requires k <= ENTRIES
    decreases ENTRIES - k
  {
    if k == ENTRIES then [] else [ReadOp(0, k)] + Reads(k + 1)
  }

  lemma {:induction false} FillAll(s: State, k: nat)
    requires Unused(s) && |s.devs| > 0 && |s.devs[0].blocks| > ENTRIES && s.devs[0].faults == [] && k <= ENTRIES
    ensures Run(Filled(s, k), Reads(k)) == Filled(s, ENTRIES)
    decreases ENTRIES - k
  {
    hide Step, Filled;
    if k < ENTRIES {
      FillOne(s, k);
      assert Reads(k)[1..] == Reads(k + 1);
      FillAll(s, k + 1);
    }
  }

  /**
   On a device with more blocks than the cache has slots: once that many have been read, a write to one more block
   returns OK and is lost.
   */
  lemma LostWrite(s: State, b: Block)
    requires Unused(s) && |s.devs| > 0 && |s.devs[0].blocks| > ENTRIES && s.devs[0].faults == []
    ensures var r := Run(s, Reads(0));
            && Write(r, 0, ENTRIES, b) == (r, OK) && InRange(r, 0, ENTRIES)
            && View(r, 0, ENTRIES) == s.devs[0].blocks[ENTRIES]
  {
    hide Run, Reads;
    assert Filled(s, 0).cache == s.cache;
    FillAll(s, 0);
    var r := Filled(s, ENTRIES);
    assert Lookup(r.cache, 0, ENTRIES) == |r.cache|;
    assert FindEmpty(r.cache) == |r.cache|;
  }
}
