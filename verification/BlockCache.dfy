/**
 The write-back block cache of `kernel/block/block.c` on values: cache slots that are never evicted, over devices with
 the RAM driver of `kernel/block/ramblk.c`. A driver call may fail; which calls do is part of the state.
 */
module BlockCache {
  import opened Bytes

  const ENTRIES: nat := 32
  const MAX_DEVICES: nat := 16

  const OK: int := 0
  const INVALID_LBA: int := -1
  const INVALID_DEV: int := -2
  const DRIVER_FAIL: int := -4

  datatype Entry = Entry(valid: bool, dirty: bool, dev: nat, lba: nat, data: Block)

  /** A device and, call by call, whether its driver fails; it works once the list is used up. */
  datatype Dev = Dev(blocks: seq<Block>, faults: seq<bool>)

  datatype State = State(cache: seq<Entry>, devs: seq<Dev>)

  // ----- the driver -----

  function Called(d: Dev): (r: Dev) {
    if d.faults == [] then d else d.(faults := d.faults[1..])
  }

  predicate Fails(d: Dev) {
    d.faults != [] && d.faults[0]
  }

  function DriverWrite(d: Dev, l: nat, b: Block): (r: (Dev, int)) {
    if l >= |d.blocks| then (d, INVALID_LBA)
    else if Fails(d) then (Called(d), DRIVER_FAIL)
    else (Called(d).(blocks := d.blocks[l := b]), OK)
  }

  // ----- searching the cache -----

  predicate Caches(e: Entry, d: nat, l: nat) {
    e.valid && e.dev == d && e.lba == l
  }

  /** The first slot from `i` on that caches the block, or the number of slots. */
  function Lookup(cache: seq<Entry>, d: nat, l: nat, i: nat := 0): (r: nat)
    requires i <= |cache|
    ensures i <= r <= |cache|
    ensures r < |cache| ==> Caches(cache[r], d, l)
    ensures forall j :: i <= j < r ==> !Caches(cache[j], d, l)
    decreases |cache| - i
  {
    if i == |cache| || Caches(cache[i], d, l) then i else Lookup(cache, d, l, i + 1)
  }

  /** The first unused slot from `i` on, or the number of slots. */
  function FindEmpty(cache: seq<Entry>, i: nat := 0): (r: nat)
    requires i <= |cache|
    ensures i <= r <= |cache|
    ensures r < |cache| ==> !cache[r].valid
    ensures forall j :: i <= j < r ==> cache[j].valid
    decreases |cache| - i
  {
    if i == |cache| || !cache[i].valid then i else FindEmpty(cache, i + 1)
  }

  predicate InRange(s: State, d: nat, l: nat) {
    d < |s.devs| && l < |s.devs[d].blocks|
  }

  /** What a read of the block is to return: the cached copy, or the device's. */
  function View(s: State, d: nat, l: nat): (b: Block)
    requires InRange(s, d, l)
  {
    var i := Lookup(s.cache, d, l);
    if i < |s.cache| then s.cache[i].data else s.devs[d].blocks[l]
  }

  /** A used slot holds an existing block, and its device's copy unless it is dirty; no two slots hold the same block. */
  predicate Holds(s: State, e: Entry) {
    e.valid ==> InRange(s, e.dev, e.lba) && (!e.dirty ==> e.data == s.devs[e.dev].blocks[e.lba])
  }

  ghost predicate Inv(s: State) {
    && (forall i :: 0 <= i < |s.cache| ==> Holds(s, s.cache[i]))
    && (forall i, j :: 0 <= i < j < |s.cache| && s.cache[i].valid ==> !Caches(s.cache[j], s.cache[i].dev, s.cache[i].lba))
  }

  /** The same devices, as large as before. */
  ghost predicate SameShape(s: State, t: State) {
    && |s.cache| == |t.cache| && |s.devs| == |t.devs|
    && (forall d :: 0 <= d < |s.devs| ==> |s.devs[d].blocks| == |t.devs[d].blocks|)
  }

  ghost predicate SameView(s: State, t: State) {
    SameShape(s, t) && forall d: nat, l: nat :: InRange(s, d, l) ==> View(t, d, l) == View(s, d, l)
  }

  /** Under the invariant the search finds the slot that holds the block, if one does. */
  lemma LookupUnique(s: State, d: nat, l: nat, i: nat)
    requires Inv(s) && i < |s.cache| && Caches(s.cache[i], d, l)
    ensures Lookup(s.cache, d, l) == i
  {
  }

  // ----- operations -----

  /** `blk_read`; the block is returned only with OK. */
  function Read(s: State, d: nat, l: nat): (r: (State, int, Option<Block>)) {
    if d >= |s.devs| then (s, INVALID_DEV, None)
    else if l >= |s.devs[d].blocks| then (s, INVALID_LBA, None)
    else
      var i := Lookup(s.cache, d, l);
      if i < |s.cache| then (s, OK, Some(s.cache[i].data)) else
      var s1 := s.(devs := s.devs[d := Called(s.devs[d])]);
      if Fails(s.devs[d]) then (s1, DRIVER_FAIL, None) else
      var b := s.devs[d].blocks[l];
      var e := FindEmpty(s.cache);
      (if e < |s.cache| then s1.(cache := s.cache[e := Entry(true, false, d, l, b)]) else s1, OK, Some(b))
  }

  /** The slot a write goes to: the one that caches the block, else an unused one, else none. */
  function Slot(s: State, d: nat, l: nat): (i: nat)
    ensures i <= |s.cache|
  {
    var i := Lookup(s.cache, d, l);
    if i < |s.cache| then i else FindEmpty(s.cache)
  }

  /** `blk_write`. */
  function Write(s: State, d: nat, l: nat, b: Block): (r: (State, int)) {
    if d >= |s.devs| then (s, INVALID_DEV)
    else if l >= |s.devs[d].blocks| then (s, INVALID_LBA)
    else
      var i := Slot(s, d, l);
      (if i < |s.cache| then s.(cache := s.cache[i := Entry(true, true, d, l, b)]) else s, OK)
  }

  /** A dirty slot is written to its device and, if that works, becomes clean. */
  function WriteBack(s: State, i: nat): (r: (State, bool))
    requires i < |s.cache| && s.cache[i].dev < |s.devs|
  {
    var e := s.cache[i];
    var (d, rc) := DriverWrite(s.devs[e.dev], e.lba, e.data);
    var s1 := s.(devs := s.devs[e.dev := d]);
    if rc == OK then (s1.(cache := s.cache[i := e.(dirty := false)]), true) else (s1, false)
  }

  /** The slots from `i` on of one device: the first failure ends it. */
  function FlushFrom(s: State, d: nat, i: nat): (r: (State, int))
    requires d < |s.devs| && i <= |s.cache|
    decreases |s.cache| - i
  {
    if i == |s.cache| then (s, OK)
    else if s.cache[i].valid && s.cache[i].dev == d && s.cache[i].dirty then
      var (s1, ok) := WriteBack(s, i);
      if ok then FlushFrom(s1, d, i + 1) else (s1, DRIVER_FAIL)
    else FlushFrom(s, d, i + 1)
  }

  /** `blk_flush`. */
  function Flush(s: State, d: nat): (r: (State, int)) {
    if d >= |s.devs| then (s, INVALID_DEV) else FlushFrom(s, d, 0)
  }

  /** The slots from `i` on of every device: failures are remembered and passed over. */
  function FlushAllFrom(s: State, rc: int, i: nat): (r: (State, int))
    requires i <= |s.cache|
    decreases |s.cache| - i
  {
    if i == |s.cache| then (s, rc)
    else if !(s.cache[i].valid && s.cache[i].dirty) then FlushAllFrom(s, rc, i + 1)
    else if s.cache[i].dev >= |s.devs| then FlushAllFrom(s, DRIVER_FAIL, i + 1)
    else
      var (s1, ok) := WriteBack(s, i);
      FlushAllFrom(s1, if ok then rc else DRIVER_FAIL, i + 1)
  }

  /** `blk_cache_flush_all`. */
  function FlushAll(s: State): (r: (State, int)) {
    FlushAllFrom(s, OK, 0)
  }

  // ----- reads and writes -----

  /** A block in the slot chosen for it. */
  function Stored(s: State, d: nat, l: nat, b: Block, dirty: bool): (r: State)
    requires Slot(s, d, l) < |s.cache|
  {
    s.(cache := s.cache[Slot(s, d, l) := Entry(true, dirty, d, l, b)])
  }

  lemma StoredInv(s: State, d: nat, l: nat, b: Block, dirty: bool)
    requires Inv(s) && InRange(s, d, l) && Slot(s, d, l) < |s.cache|
    requires dirty || b == s.devs[d].blocks[l]
    ensures Inv(Stored(s, d, l, b, dirty))
  {
    var i := Slot(s, d, l);
    assert forall j :: 0 <= j < |s.cache| && j != i ==> !Caches(s.cache[j], d, l);
  }

  lemma StoredView(s: State, d: nat, l: nat, b: Block, dirty: bool, d': nat, l': nat)
    requires Inv(s) && Slot(s, d, l) < |s.cache| && Inv(Stored(s, d, l, b, dirty)) && InRange(s, d', l')
    ensures View(Stored(s, d, l, b, dirty), d', l') == if d' == d && l' == l then b else View(s, d', l')
  {
    var t := Stored(s, d, l, b, dirty);
    var j := Lookup(s.cache, d', l');
    if d' == d && l' == l {
      LookupUnique(t, d, l, Slot(s, d, l));
    } else if j < |s.cache| {
      LookupUnique(t, d', l', j);
    }
  }

  /** Storing a block keeps the invariant and changes what that one block reads as. */
  lemma Put(s: State, d: nat, l: nat, b: Block, dirty: bool)
    requires Inv(s) && InRange(s, d, l) && Slot(s, d, l) < |s.cache|
    requires dirty || b == s.devs[d].blocks[l]
    ensures var t := Stored(s, d, l, b, dirty);
            && Inv(t) && SameShape(s, t)
            && (forall d': nat, l': nat ::
                  InRange(s, d', l') ==> View(t, d', l') == if d' == d && l' == l then b else View(s, d', l'))
  {
    hide View, Inv;
    StoredInv(s, d, l, b, dirty);
    forall d': nat, l': nat | InRange(s, d', l')
      ensures View(Stored(s, d, l, b, dirty), d', l') == if d' == d && l' == l then b else View(s, d', l')
    {
      StoredView(s, d, l, b, dirty, d', l');
    }
  }

  /** A read returns what the block reads as, or the driver's failure, changes no contents, and leaves nothing to write back. */
  lemma ReadReturnsView(s: State, d: nat, l: nat)
    requires Inv(s)
    ensures var (t, rc, b) := Read(s, d, l);
            && Inv(t) && SameView(s, t)
            && (rc == OK <==> b.Some?) && (rc == OK ==> InRange(s, d, l) && b == Some(View(s, d, l)))
            && (rc != OK ==> !InRange(s, d, l) || Fails(s.devs[d]))
            && (forall i :: 0 <= i < |s.cache| && t.cache[i].dirty ==> t.cache[i] == s.cache[i])
  {
    if InRange(s, d, l) && Lookup(s.cache, d, l) == |s.cache| {
      var s1 := s.(devs := s.devs[d := Called(s.devs[d])]);
      assert Inv(s1) && SameView(s, s1);
      if FindEmpty(s.cache) < |s.cache| {
        Put(s1, d, l, s.devs[d].blocks[l], false);
      }
    }
  }

  /** A write has somewhere to go. */
  predicate Fits(s: State, d: nat, l: nat) {
    Slot(s, d, l) < |s.cache|
  }

  /**
   A write to an existing block returns OK. The block then reads as written if and only if the write found a slot, or
   the block read so before; no other block changes.
   */
  lemma WriteExact(s: State, d: nat, l: nat, b: Block)
    requires Inv(s)
    ensures var (t, rc) := Write(s, d, l, b);
            && Inv(t) && SameShape(s, t) && (rc == OK <==> InRange(s, d, l))
            && (rc != OK ==> t == s)
            && (rc == OK ==> (View(t, d, l) == b <==> Fits(s, d, l) || View(s, d, l) == b))
            && (forall d': nat, l': nat :: InRange(s, d', l') && (d', l') != (d, l) ==> View(t, d', l') == View(s, d', l'))
  {
    if InRange(s, d, l) && Fits(s, d, l) {
      Put(s, d, l, b, true);
    }
  }

  // ----- flushing -----

  lemma WriteBackKeepsInv(s: State, i: nat)
    requires Inv(s) && i < |s.cache| && s.cache[i].valid && s.cache[i].dev < |s.devs|
    ensures Inv(WriteBack(s, i).0)
  {
    var e, t := s.cache[i], WriteBack(s, i).0;
    forall j | 0 <= j < |t.cache|
      ensures Holds(t, t.cache[j])
    {
      assert Holds(s, s.cache[j]);
      assert j != i ==> !Caches(s.cache[j], e.dev, e.lba);
    }
  }

  lemma WriteBackKeepsView(s: State, i: nat, d: nat, l: nat)
    requires Inv(s) && i < |s.cache| && s.cache[i].valid && s.cache[i].dev < |s.devs| && InRange(s, d, l)
    ensures var t := WriteBack(s, i).0; InRange(t, d, l) && View(t, d, l) == View(s, d, l)
  {
    var e, t := s.cache[i], WriteBack(s, i).0;
    SameLookup(s.cache, t.cache, d, l, 0);
    if d == e.dev && l == e.lba {
      LookupUnique(s, d, l, i);
    }
  }

  /** Writing a slot back, or failing to, keeps the invariant and what every block reads as. */
  lemma WriteBackKeeps(s: State, i: nat)
    requires Inv(s) && i < |s.cache| && s.cache[i].valid
    ensures s.cache[i].dev < |s.devs|
    ensures var (t, ok) := WriteBack(s, i);
            && Inv(t) && SameView(s, t)
            && t.cache == (if ok then s.cache[i := s.cache[i].(dirty := false)] else s.cache)
  {
    hide View;
    assert Holds(s, s.cache[i]);
    WriteBackKeepsInv(s, i);
    forall d: nat, l: nat | InRange(s, d, l)
      ensures View(WriteBack(s, i).0, d, l) == View(s, d, l)
    {
      WriteBackKeepsView(s, i, d, l);
    }
  }

  lemma {:induction false} SameLookup(a: seq<Entry>, b: seq<Entry>, d: nat, l: nat, i: nat)
    requires |a| == |b| && forall j :: 0 <= j < |a| ==> Caches(a[j], d, l) == Caches(b[j], d, l)
    requires i <= |a|
    ensures Lookup(a, d, l, i) == Lookup(b, d, l, i)
    decreases |a| - i
  {
    if i < |a| {
      SameLookup(a, b, d, l, i + 1);
    }
  }

  /** No slot before `i` holds a block of the device that its device does not have yet. */
  ghost predicate CleanTo(s: State, d: nat, i: nat)
    requires i <= |s.cache|
  {
    forall j :: 0 <= j < i && s.cache[j].valid && s.cache[j].dev == d ==> !s.cache[j].dirty
  }

  lemma {:induction false} FlushFromKeeps(s: State, d: nat, i: nat)
    requires Inv(s) && d < |s.devs| && i <= |s.cache| && CleanTo(s, d, i)
    ensures var (t, rc) := FlushFrom(s, d, i);
            Inv(t) && SameView(s, t) && (rc == OK ==> CleanTo(t, d, |t.cache|))
    decreases |s.cache| - i
  {
    hide View, WriteBack, Inv;
    if i < |s.cache| {
      var e := s.cache[i];
      if e.valid && e.dev == d && e.dirty {
        WriteBackKeeps(s, i);
        var (s1, ok) := WriteBack(s, i);
        if ok {
          FlushFromKeeps(s1, d, i + 1);
        }
      } else {
        FlushFromKeeps(s, d, i + 1);
      }
    }
  }

  /** A clean device has what its blocks read as. */
  lemma CleanEqual(s: State, d: nat)
    requires Inv(s) && d < |s.devs| && CleanTo(s, d, |s.cache|)
    ensures forall l: nat :: InRange(s, d, l) ==> s.devs[d].blocks[l] == View(s, d, l)
  {
    forall l: nat | InRange(s, d, l)
      ensures s.devs[d].blocks[l] == View(s, d, l)
    {
      var i := Lookup(s.cache, d, l);
      if i < |s.cache| {
        assert Holds(s, s.cache[i]);
      }
    }
  }

  /**
   A flush changes no readable contents, even one that a driver failure cuts short; and one that returns OK has made
   the device equal to them.
   */
  lemma FlushExact(s: State, d: nat)
    requires Inv(s)
    ensures var (t, rc) := Flush(s, d);
            && Inv(t) && SameView(s, t)
            && (rc == OK ==> d < |s.devs| && forall l: nat :: InRange(s, d, l) ==> t.devs[d].blocks[l] == View(s, d, l))
  {
    if d < |s.devs| {
      FlushFromKeeps(s, d, 0);
      var (t, rc) := Flush(s, d);
      if rc == OK {
        CleanEqual(t, d);
      }
    }
  }

  ghost predicate AllCleanTo(s: State, i: nat)
    requires i <= |s.cache|
  {
    forall j :: 0 <= j < i && s.cache[j].valid ==> !s.cache[j].dirty
  }

  lemma {:induction false} FlushAllFromKeeps(s: State, rc: int, i: nat)
    requires Inv(s) && i <= |s.cache| && (rc == OK ==> AllCleanTo(s, i))
    ensures var (t, rc') := FlushAllFrom(s, rc, i);
            Inv(t) && SameView(s, t) && (rc' == OK ==> AllCleanTo(t, |t.cache|))
    decreases |s.cache| - i
  {
    hide View, WriteBack;
    if i < |s.cache| {
      var e := s.cache[i];
      assert Holds(s, e);
      if e.valid && e.dirty {
        WriteBackKeeps(s, i);
        var (s1, ok) := WriteBack(s, i);
        FlushAllFromKeeps(s1, if ok then rc else DRIVER_FAIL, i + 1);
      } else {
        FlushAllFromKeeps(s, rc, i + 1);
      }
    }
  }

  /** The same for flushing everything, which goes on after a failure. */
  lemma FlushAllExact(s: State)
    requires Inv(s)
    ensures var (t, rc) := FlushAll(s);
            && Inv(t) && SameView(s, t)
            && (rc == OK ==> forall d: nat, l: nat :: InRange(s, d, l) ==> t.devs[d].blocks[l] == View(s, d, l))
  {
    FlushAllFromKeeps(s, OK, 0);
    var (t, rc) := FlushAll(s);
    if rc == OK {
      forall d: nat, l: nat | InRange(s, d, l)
        ensures t.devs[d].blocks[l] == View(s, d, l)
      {
        assert CleanTo(t, d, |t.cache|);
        CleanEqual(t, d);
        assert InRange(t, d, l);
      }
    }
  }
}
