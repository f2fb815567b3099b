/**
 The MCSFS1 operations (`fs/mcsfs1/mcsfs1.c`) on a device that stops accepting writes at an arbitrary point.

 The writing ones are proved to follow their plans up to that point, the reading ones to return what the typed view says.
 */
module Mcsfs1Device {
  import opened Bytes
  import opened BlockDevice
  import opened Mcsfs1Layout
  import opened Mcsfs1State
  import opened Mcsfs1Steps
  import opened Mcsfs1Create
  import opened Mcsfs1Unlink
  import opened Mcsfs1Write
  import opened Mcsfs1Runs
  import opened Mcsfs1Format

  // ----- searches -----

  method ValidName(name: Name) returns (rc: int)
    ensures rc == NameRc(name)
  {
    if |name| == 0 {
      return E_INVAL;
    }
    if |name| > MAX_NAME {
      return E_NAMETOOLONG;
    }
    var i := 0;
    while i < |name|
      invariant 0 <= i <= |name|
      invariant SLASH !in name[..i]
    {
      if name[i] == SLASH {
        return E_INVAL;
      }
      i := i + 1;
    }
    assert name[..i] == name;
    return E_OK;
  }

  /** `mcsfs_strlen_bound`. */
  method StrlenBound(buf: seq<uint8>, off: nat, max: nat) returns (n: nat)
    requires off + max <= |buf|
    ensures n == Strlen(buf, off, max)
  {
    n := 0;
    while n < max && buf[off + n] != 0
      invariant 0 <= n <= max
      invariant Strlen(buf, off, max) == n + Strlen(buf, off + n, max - n)
    {
      n := n + 1;
    }
  }

  /** One comparison of the slot loop. */
  lemma FindsIs(dir: Block, past: uint8, i: nat, name: Name)
    requires i < DIR_SLOTS && |name| <= MAX_NAME
    ensures var o := DIRENT_SIZE * i + 5;
            Finds(dir, past, i, name) <==>
              SlotAt(dir, i).ino != 0 && Strlen(dir + [past], o, MAX_NAME + 1) == |name| && dir[o..o + |name|] == name
  {
  }

  /** The slot loop of `find_dirent`. */
  method FindSlot(dir: Block, past: uint8, name: Name) returns (slot: nat)
    requires |name| <= MAX_NAME
    ensures slot == FindFrom(dir, past, name, 0)
  {
    hide Finds, Get32, Strlen, SlotAt;
    slot := 0;
    while slot < DIR_SLOTS
      invariant 0 <= slot <= DIR_SLOTS
      invariant FindFrom(dir, past, name, 0) == FindFrom(dir, past, name, slot)
    {
      FindsIs(dir, past, slot, name);
      var o := DIRENT_SIZE * slot + 5;
      var len := StrlenBound(dir + [past], o, MAX_NAME + 1);
      if SlotAt(dir, slot).ino != 0 && len == |name| && dir[o..o + |name|] == name {
        return;
      }
      slot := slot + 1;
    }
  }

  method FindClear(bm: Block, lo: nat, hi: nat) returns (bit: nat)
    requires lo <= hi <= MAX_DISK
    ensures bit == FirstClear(bm, lo, hi)
  {
    bit := lo;
    while bit < hi && GetBit(bm, bit)
      invariant lo <= bit <= hi
      invariant FirstClear(bm, lo, hi) == FirstClear(bm, bit, hi)
    {
      bit := bit + 1;
    }
  }

  method FindFreeSlot(dir: Block) returns (slot: nat)
    ensures slot == FreeSlotFrom(dir, 0)
  {
    hide Get32;
    slot := 0;
    while slot < DIR_SLOTS && SlotAt(dir, slot).ino != 0
      invariant 0 <= slot <= DIR_SLOTS
      invariant FreeSlotFrom(dir, 0) == FreeSlotFrom(dir, slot)
    {
      slot := slot + 1;
    }
  }

  // ----- create -----

  /** A call whose writes all went through ends with the flush of the device, which may fail. */
  function Flushed(p: Plan, flushFails: bool): (q: Plan) {
    if p.rc == E_OK && flushFails then Plan(p.writes, E_IO) else p
  }

  function AfterFlush(rc: int, flushFails: bool): (r: int) {
    if rc == E_OK && flushFails then E_IO else rc
  }

  lemma RanFlushed(d: Disk, f: int, p: Plan, e: Disk, f': int, rc: int, flushFails: bool)
    requires Ran(d, f, p, e, f', rc)
    ensures Ran(d, f, Flushed(p, flushFails), e, f', AfterFlush(rc, flushFails))
  {
    hide Performed;
  }

  /** `mcsfs1_create`. */
  method CreateFile(dev: Device, past: uint8, name: Name, flushFails: bool) returns (rc: int)
    requires DiskSize(dev.blocks.Length)
    modifies dev, dev.blocks
    ensures Ran(old(dev.Disk()), old(dev.failAfter), Flushed(CreatePlan(old(dev.Disk()), past, name), flushFails),
                dev.Disk(), dev.failAfter, rc)
  {
    hide Apply, CreateWrites, FindFrom, FreeSlotFrom, FirstClear;
    ghost var d, f := dev.Disk(), dev.failAfter;
    rc := ValidName(name);
    if rc != E_OK {
      RanNothing(d, f, rc);
      return;
    }
    var dir := dev.blocks[ROOT_DIR_LBA];
    var found := FindSlot(dir, past, name);
    if found < DIR_SLOTS {
      RanNothing(d, f, E_EXIST);
      return E_EXIST;
    }
    RanNothing(d, f, E_NOSPC);
    var slot := FindFreeSlot(dir);
    if slot == DIR_SLOTS {
      return E_NOSPC;
    }
    var ino := FindClear(dev.blocks[INODE_BMAP_LBA], 2, MAX_INODES + 1);
    if ino > MAX_INODES {
      return E_NOSPC;
    }
    var lba := FindClear(dev.blocks[BLOCK_BMAP_LBA], DATA_START_LBA, dev.blocks.Length);
    if lba == dev.blocks.Length {
      return E_NOSPC;
    }
    rc := StoreNew(dev, slot, ino, lba, name);
    RanFlushed(d, f, CreatePlan(d, past, name), dev.Disk(), dev.failAfter, rc, flushFails);
    rc := AfterFlush(rc, flushFails);
  }

  /** The four block writes of a create; the inode block is read back just before it is written. */
  method StoreNew(dev: Device, slot: nat, ino: nat, lba: nat, name: Name) returns (rc: int)
    requires DiskSize(dev.blocks.Length)
    requires slot < DIR_SLOTS && 1 <= ino <= MAX_INODES && lba < dev.blocks.Length && |name| <= MAX_NAME
    modifies dev, dev.blocks
    ensures Ran(old(dev.Disk()), old(dev.failAfter), Plan(CreateWrites(old(dev.Disk()), slot, ino, lba, name), E_OK),
                dev.Disk(), dev.failAfter, rc)
  {
    hide Apply, PutSlot, PutBit, Field, FreshInode, Splice;
    ghost var p := Plan(CreateWrites(dev.Disk(), slot, ino, lba, name), E_OK);
    ghost var t := dev.Start();
    var ib, bb, dir := dev.blocks[INODE_BMAP_LBA], dev.blocks[BLOCK_BMAP_LBA], dev.blocks[ROOT_DIR_LBA];
    rc, t := dev.WriteNext(INODE_BMAP_LBA, PutBit(ib, ino, true), t);
    if rc != E_OK {
      RanCut(t, p, dev.Disk(), dev.failAfter);
      return;
    }
    rc, t := dev.WriteNext(BLOCK_BMAP_LBA, PutBit(bb, lba, true), t);
    if rc != E_OK {
      RanCut(t, p, dev.Disk(), dev.failAfter);
      return;
    }
    var w := InodeWrite(dev.blocks[..], ino, FreshInode(lba));
    assert w == p.writes[2];
    rc, t := dev.WriteNext(w.lba, w.data, t);
    if rc != E_OK {
      RanCut(t, p, dev.Disk(), dev.failAfter);
      return;
    }
    rc, t := dev.WriteNext(ROOT_DIR_LBA, PutSlot(dir, slot, Slot(ino, MODE_FILE as uint8, Field(name))), t);
    assert t.done == p.writes;
    if rc != E_OK {
      RanCut(t, p, dev.Disk(), dev.failAfter);
    }
  }

  /** The bit-clearing loop of `free_inode_and_blocks`. */
  method FreeBlocks(bm: Block, direct: seq<uint32>, n: nat) returns (r: Block)
    requires n <= MAX_DISK
    ensures r == ClearDirect(bm, direct, n, 0)
  {
    hide PutBit;
    r := bm;
    var j := 0;
    while j < |direct|
      invariant 0 <= j <= |direct|
      invariant ClearDirect(bm, direct, n, 0) == ClearDirect(r, direct, n, j)
    {
      if direct[j] != 0 && direct[j] < n {
        r := PutBit(r, direct[j], false);
      }
      j := j + 1;
    }
  }

  /** `mcsfs1_unlink`. */
  method UnlinkFile(dev: Device, past: uint8, name: Name, flushFails: bool) returns (rc: int)
    requires DiskSize(dev.blocks.Length)
    modifies dev, dev.blocks
    ensures Ran(old(dev.Disk()), old(dev.failAfter), Flushed(UnlinkPlan(old(dev.Disk()), past, name), flushFails),
                dev.Disk(), dev.failAfter, rc)
  {
    hide Apply, FindFrom, SlotAt, NodeOf, ClearDirect, PutSlot, PutBit, InodeWrite;
    ghost var d, f := dev.Disk(), dev.failAfter;
    rc := ValidName(name);
    if rc != E_OK {
      RanNothing(d, f, rc);
      return;
    }
    var dir := dev.blocks[ROOT_DIR_LBA];
    var slot := FindSlot(dir, past, name);
    if slot == DIR_SLOTS {
      RanNothing(d, f, E_NOENT);
      return E_NOENT;
    }
    var ino := SlotAt(dir, slot).ino;
    if ino == 0 || ino > MAX_INODES {
      RanNothing(d, f, E_INVAL);
      return E_INVAL;
    }
    var node := NodeOf(InodeBytes(dev.blocks[..], ino));
    if node.mode != MODE_FILE {
      RanNothing(d, f, E_ISDIR);
      return E_ISDIR;
    }
    rc := RemoveFile(dev, slot, ino, node.direct);
    RanFlushed(d, f, UnlinkPlan(d, past, name), dev.Disk(), dev.failAfter, rc, flushFails);
    rc := AfterFlush(rc, flushFails);
  }

  /** The four block writes of an unlink; bitmaps and inode block are read after the directory has been written. */
  method RemoveFile(dev: Device, slot: nat, ino: nat, direct: seq<uint32>) returns (rc: int)
    requires DiskSize(dev.blocks.Length) && slot < DIR_SLOTS && 1 <= ino <= MAX_INODES
    requires direct == NodeOf(InodeBytes(dev.Disk(), ino)).direct
    modifies dev, dev.blocks
    ensures Ran(old(dev.Disk()), old(dev.failAfter), Plan(UnlinkWrites(old(dev.Disk()), slot, ino), E_OK),
                dev.Disk(), dev.failAfter, rc)
  {
    hide Apply, NodeOf, ClearDirect, PutSlot, PutBit, Splice, InodeBytes;
    ghost var p := Plan(UnlinkWrites(dev.Disk(), slot, ino), E_OK);
    ghost var t := dev.Start();
    rc, t := dev.WriteNext(ROOT_DIR_LBA, PutSlot(dev.blocks[ROOT_DIR_LBA], slot, EmptySlot), t);
    if rc != E_OK {
      RanCut(t, p, dev.Disk(), dev.failAfter);
      return;
    }
    var bb := FreeBlocks(dev.blocks[BLOCK_BMAP_LBA], direct, dev.blocks.Length);
    rc, t := dev.WriteNext(INODE_BMAP_LBA, PutBit(dev.blocks[INODE_BMAP_LBA], ino, false), t);
    if rc != E_OK {
      RanCut(t, p, dev.Disk(), dev.failAfter);
      return;
    }
    rc, t := dev.WriteNext(BLOCK_BMAP_LBA, bb, t);
    if rc != E_OK {
      RanCut(t, p, dev.Disk(), dev.failAfter);
      return;
    }
    var w := InodeWrite(dev.blocks[..], ino, ZeroRaw);
    assert w == p.writes[3];
    rc, t := dev.WriteNext(w.lba, w.data, t);
    assert t.done == p.writes;
    if rc != E_OK {
      RanCut(t, p, dev.Disk(), dev.failAfter);
    }
  }

  // ----- write -----

  /** The allocation loop of a write: what is left to do is always the rest of its plan. */
  method Allocate(dev: Device, raw0: RawInode, needed: nat) returns (rc: int, raw: RawInode, ghost t: Trace)
    requires DiskSize(dev.blocks.Length) && needed <= DIRECT_BLOCKS
    modifies dev, dev.blocks
    ensures t.d == old(dev.Disk()) && t.fail == old(dev.failAfter)
    ensures Performed(t.d, t.fail, t.done, dev.Disk(), dev.failAfter)
    ensures var a := AllocFrom(old(dev.Disk()), raw0, 0, needed);
            && t.done <= a.writes
            && (Completes(t.fail, |t.done|) ==> rc == a.rc && raw == a.raw && t.done == a.writes)
            && (!Completes(t.fail, |t.done|) ==> rc == E_IO)
  {
    hide Apply, NodeOf, PutBit, SetDirect, FirstClear;
    ghost var a := AllocFrom(dev.Disk(), raw0, 0, needed);
    t := dev.Start();
    raw := raw0;
    var i := 0;
    while i < needed
      invariant 0 <= i <= needed
      invariant t.d == old(dev.Disk()) && t.fail == old(dev.failAfter) && dev.Follows(t)
      invariant var rest := AllocFrom(dev.Disk(), raw, i, needed);
                a == Alloc(t.done + rest.writes, rest.raw, rest.rc)
    {
      if NodeOf(raw).direct[i] == 0 {
        var ib, bb := dev.blocks[INODE_BMAP_LBA], dev.blocks[BLOCK_BMAP_LBA];
        var b := FindClear(bb, DATA_START_LBA, dev.blocks.Length);
        if b == dev.blocks.Length {
          assert t.done + [] == t.done;
          return E_NOSPC, raw, t;
        }
        ghost var d := dev.Disk();
        ghost var rest := AllocFrom(d[BLOCK_BMAP_LBA := PutBit(bb, b, true)], SetDirect(raw, i, b), i + 1, needed);
        ghost var pair := [Write(INODE_BMAP_LBA, ib), Write(BLOCK_BMAP_LBA, PutBit(bb, b, true))];
        assert a.writes == t.done + [pair[0]] + [pair[1]] + rest.writes;
        rc, t := dev.WriteNext(INODE_BMAP_LBA, ib, t);
        if rc != E_OK {
          return;
        }
        assert dev.Disk() == d;
        rc, t := dev.WriteNext(BLOCK_BMAP_LBA, PutBit(bb, b, true), t);
        if rc != E_OK {
          return;
        }
        raw := SetDirect(raw, i, b);
      }
      i := i + 1;
    }
    assert t.done + [] == t.done;
    rc := E_OK;
  }

  /** The data loop of a write, after the writes `t0`. */
  method WriteData(dev: Device, direct: seq<uint32>, buf: seq<uint8>, needed: nat, ghost t0: Trace) returns (rc: int, ghost t: Trace)
    requires needed <= |direct| && BLOCK_SIZE * (needed - 1) <= |buf| && dev.Follows(t0)
    modifies dev, dev.blocks
    ensures t.d == t0.d && t.fail == t0.fail
    ensures Performed(t.d, t.fail, t.done, dev.Disk(), dev.failAfter)
    ensures var p := DataFrom(direct, buf, dev.blocks.Length, 0, needed);
            && t.done <= t0.done + p.writes
            && (Completes(t.fail, |t.done|) ==> rc == p.rc && t.done == t0.done + p.writes)
            && (!Completes(t.fail, |t.done|) ==> rc == E_IO)
  {
    hide Apply, Chunk;
    ghost var p := DataFrom(direct, buf, dev.blocks.Length, 0, needed);
    t := t0;
    var i := 0;
    while i < needed
      invariant 0 <= i <= needed
      invariant t.d == t0.d && t.fail == t0.fail && dev.Follows(t)
      invariant var rest := DataFrom(direct, buf, dev.blocks.Length, i, needed);
                t0.done + p.writes == t.done + rest.writes && p.rc == rest.rc
    {
      if direct[i] >= dev.blocks.Length {
        assert t.done + [] == t.done;
        return E_INVAL, t;
      }
      ghost var rest := DataFrom(direct, buf, dev.blocks.Length, i + 1, needed);
      ghost var w := Write(direct[i], Chunk(buf, i));
      assert t.done + ([w] + rest.writes) == t.done + [w] + rest.writes;
      rc, t := dev.WriteNext(direct[i], Chunk(buf, i), t);
      if rc != E_OK {
        return;
      }
      i := i + 1;
    }
    assert t.done + [] == t.done;
    rc := E_OK;
  }

  method StoreFile(dev: Device, ino: nat, buf: seq<uint8>) returns (rc: int)
    requires DiskSize(dev.blocks.Length) && 1 <= ino <= MAX_INODES && |buf| <= MAX_FILE
    modifies dev, dev.blocks
    ensures Ran(old(dev.Disk()), old(dev.failAfter), StorePlan(old(dev.Disk()), ino, buf), dev.Disk(), dev.failAfter, rc)
  {
    hide Apply, NodeOf, AllocFrom, DataFrom, SetSize, InodeWrite, InodeBytes, NeededFor;
    ghost var p := StorePlan(dev.Disk(), ino, buf);
    NeededFits(|buf|);
    var needed := NeededFor(|buf|);
    var raw: RawInode;
    ghost var t;
    rc, raw, t := Allocate(dev, InodeBytes(dev.blocks[..], ino), needed);
    ghost var a := AllocFrom(t.d, InodeBytes(t.d, ino), 0, needed);
    if rc != E_OK {
      if !Completes(t.fail, |t.done|) {
        RanCut(t, p, dev.Disk(), dev.failAfter);
      }
      return;
    }
    rc, t := WriteData(dev, NodeOf(raw).direct, buf, needed, t);
    if rc != E_OK {
      if !Completes(t.fail, |t.done|) {
        assert t.done <= p.writes;
        RanCut(t, p, dev.Disk(), dev.failAfter);
      }
      return;
    }
    assert t.done[..|t.done|] == t.done;
    var w := InodeWrite(dev.blocks[..], ino, SetSize(raw, |buf|));
    rc, t := dev.WriteNext(w.lba, w.data, t);
    assert t.done == p.writes;
    if rc != E_OK {
      RanCut(t, p, dev.Disk(), dev.failAfter);
    }
  }

  /** `mcsfs1_write`. */
  method WriteFile(dev: Device, past: uint8, name: Name, buf: seq<uint8>, flushFails: bool) returns (rc: int)
    requires DiskSize(dev.blocks.Length)
    modifies dev, dev.blocks
    ensures Ran(old(dev.Disk()), old(dev.failAfter), Flushed(WritePlan(old(dev.Disk()), past, name, buf), flushFails),
                dev.Disk(), dev.failAfter, rc)
  {
    hide Apply, FindFrom, SlotAt, NodeOf, StorePlan, InodeBytes;
    ghost var d, f := dev.Disk(), dev.failAfter;
    if |buf| > MAX_FILE {
      RanNothing(d, f, E_RANGE);
      return E_RANGE;
    }
    rc := ValidName(name);
    if rc != E_OK {
      RanNothing(d, f, rc);
      return;
    }
    var dir := dev.blocks[ROOT_DIR_LBA];
    var slot := FindSlot(dir, past, name);
    if slot == DIR_SLOTS {
      RanNothing(d, f, E_NOENT);
      return E_NOENT;
    }
    var ino := SlotAt(dir, slot).ino;
    if ino == 0 || ino > MAX_INODES {
      RanNothing(d, f, E_INVAL);
      return E_INVAL;
    }
    if NodeOf(InodeBytes(dev.blocks[..], ino)).mode != MODE_FILE {
      RanNothing(d, f, E_ISDIR);
      return E_ISDIR;
    }
    rc := StoreFile(dev, ino, buf);
    RanFlushed(d, f, WritePlan(d, past, name, buf), dev.Disk(), dev.failAfter, rc, flushFails);
    rc := AfterFlush(rc, flushFails);
  }

  // ----- read -----

  /** The copy loop of `mcsfs1_read`. */
  method CopyOut(dev: Device, node: Node) returns (rc: int, out: seq<uint8>)
    requires |node.direct| == DIRECT_BLOCKS && node.size <= MAX_FILE
    ensures (forall j :: 0 <= j < BlocksOf(node.size) ==> 0 < node.direct[j] < dev.blocks.Length) ==>
              rc == E_OK && Readable(node, dev.blocks.Length) && out == FileOf(dev.Disk(), node)
  {
    hide BlocksOf;
    BlocksOfNode(node);
    out := [];
    var needed, i := BlocksOf(node.size), 0;
    while i < needed
      invariant 0 <= i <= needed <= DIRECT_BLOCKS
      invariant forall j :: 0 <= j < i ==> 0 < node.direct[j] < dev.blocks.Length
      invariant out == Gather(dev.Disk(), node.direct, i)[..if BLOCK_SIZE * i <= node.size then BLOCK_SIZE * i else node.size]
    {
      if node.direct[i] == 0 || node.direct[i] >= dev.blocks.Length {
        return E_CORRUPT, out;
      }
      var block := dev.blocks[node.direct[i]];
      var remain := node.size - |out|;
      var chunk := if remain > BLOCK_SIZE then BLOCK_SIZE else remain;
      CopyStep(dev.Disk(), node, i);
      out := out + block[..chunk];
      i := i + 1;
    }
    rc := E_OK;
  }

  lemma CopyStep(d: Disk, node: Node, i: nat)
    requires |node.direct| == DIRECT_BLOCKS && i < BlocksOf(node.size) <= DIRECT_BLOCKS
    requires forall j :: 0 <= j <= i ==> node.direct[j] < |d|
    ensures BLOCK_SIZE * i <= node.size
    ensures var have, next := BLOCK_SIZE * i, BLOCK_SIZE * (i + 1);
            var upto := if next <= node.size then next else node.size;
            Gather(d, node.direct, i + 1)[..upto] == Gather(d, node.direct, i)[..have] + d[node.direct[i]][..upto - have]
  {
  }

  /** `mcsfs1_read`: on a sound image it returns exactly the contents of the file. */
  method ReadFile(dev: Device, past: uint8, name: Name, cap: nat) returns (rc: int, out: seq<uint8>)
    requires DiskSize(dev.blocks.Length)
    ensures DiskOk(dev.Disk()) ==>
              if NameRc(name) != E_OK then rc == NameRc(name)
              else
                match Contents(dev.Disk(), past, name)
                case None => rc == E_NOENT
                case Some(bytes) => if cap < |bytes| then rc == E_RANGE else rc == E_OK && out == bytes
  {
    hide ViewOf, SuperOk, Inv, FindFrom, SlotAt, NodeOf, InodeBytes, FindIn, FileOf, CStr, BlocksOf;
    out := [];
    rc := ValidName(name);
    if rc != E_OK {
      return;
    }
    var dir := dev.blocks[ROOT_DIR_LBA];
    var slot := FindSlot(dir, past, name);
    ghost var d := dev.Disk();
    if DiskOk(d) {
      FindIsFindIn(d, past, name);
      BitsFields(d);
      if slot < DIR_SLOTS {
        InUse(d, slot);
        FoundFile(d, slot);
      }
    }
    if slot == DIR_SLOTS {
      rc := E_NOENT;
      return;
    }
    var ino := SlotAt(dir, slot).ino;
    if ino == 0 || ino > MAX_INODES {
      rc := E_INVAL;
      return;
    }
    var node := NodeOf(InodeBytes(dev.blocks[..], ino));
    if node.mode != MODE_FILE {
      rc := E_ISDIR;
      return;
    }
    if cap < node.size || node.size > MAX_FILE {
      rc := E_RANGE;
      return;
    }
    rc, out := CopyOut(dev, node);
  }

  lemma FoundFile(d: Disk, slot: nat)
    requires DiskOk(d) && slot < DIR_SLOTS && ViewOf(d).slots[slot].ino != 0
    ensures var v := ViewOf(d);
            && 0 < v.slots[slot].ino <= MAX_INODES
            && var node := v.nodes[v.slots[slot].ino];
            && node == NodeOf(InodeBytes(d, v.slots[slot].ino))
            && node.mode == MODE_FILE && |node.direct| == DIRECT_BLOCKS && node.size <= MAX_FILE
            && Readable(node, |d|) && BlocksOf(node.size) <= DIRECT_BLOCKS
            && forall j :: 0 <= j < BlocksOf(node.size) ==> 0 < node.direct[j] < |d|
  {
    hide ViewOf, SuperOk, RootOk, SlotsApart, NodeOf, InodeBytes;
    var v := ViewOf(d);
    assert SlotOk(v, v.slots[slot], |d|);
    NodeField(d, v.slots[slot].ino);
    BlocksOfNode(v.nodes[v.slots[slot].ino]);
  }

  // ----- fsck -----

  /** The direct-block loop of fsck for one inode. */
  method CheckBlocks(node: Node, bb: Block, n: nat) returns (ok: bool)
    requires |node.direct| == DIRECT_BLOCKS && node.size <= MAX_FILE && n <= MAX_DISK
    ensures ok <==> forall j :: 0 <= j < NeededFor(node.size) && j < DIRECT_BLOCKS ==>
                      DATA_START_LBA <= node.direct[j] < n && node.direct[j] in BitsOf(bb)
  {
    hide GetBit, NeededFor, BitsOf;
    NeededFits(node.size);
    var j := 0;
    while j < NeededFor(node.size)
      invariant 0 <= j <= NeededFor(node.size) <= DIRECT_BLOCKS
      invariant forall i :: 0 <= i < j ==> DATA_START_LBA <= node.direct[i] < n && node.direct[i] in BitsOf(bb)
    {
      var lba := node.direct[j];
      if lba < DATA_START_LBA || lba >= n {
        return false;
      }
      BitClear(bb, lba);
      if !GetBit(bb, lba) {
        return false;
      }
      j := j + 1;
    }
    return true;
  }

  method CheckReserved(bb: Block) returns (ok: bool)
    ensures ok <==> forall b: nat :: b < DATA_START_LBA ==> b in BitsOf(bb)
  {
    hide GetBit, BitsOf;
    var b := 0;
    while b < DATA_START_LBA
      invariant 0 <= b <= DATA_START_LBA
      invariant forall c: nat :: c < b ==> c in BitsOf(bb)
    {
      BitClear(bb, b);
      if !GetBit(bb, b) {
        return false;
      }
      b := b + 1;
    }
    return true;
  }

  /** The slot loop of fsck. */
  method CheckSlots(dev: Device) returns (ok: bool)
    requires DiskSize(dev.blocks.Length)
    ensures var d := dev.Disk(); var v := ViewOf(d);
            ok <==> forall i :: 0 <= i < DIR_SLOTS && v.slots[i].ino != 0 ==> FsckSlot(v, v.slots[i], |d|)
  {
    hide ViewOf, GetBit, SlotAt, NodeOf, InodeBytes, BitsOf, NeededFor;
    ghost var d := dev.Disk();
    ghost var v := ViewOf(d);
    BitsFields(d);
    var ib, bb, dir := dev.blocks[INODE_BMAP_LBA], dev.blocks[BLOCK_BMAP_LBA], dev.blocks[ROOT_DIR_LBA];
    var i := 0;
    while i < DIR_SLOTS
      invariant 0 <= i <= DIR_SLOTS
      invariant forall j :: 0 <= j < i && v.slots[j].ino != 0 ==> FsckSlot(v, v.slots[j], |d|)
    {
      var s := SlotAt(dir, i);
      assert s == v.slots[i];
      if s.ino != 0 {
        if s.ino > MAX_INODES {
          return false;
        }
        BitClear(ib, s.ino);
        if s.kind != MODE_FILE as uint8 || !GetBit(ib, s.ino) {
          return false;
        }
        NodeField(d, s.ino);
        var node := NodeOf(InodeBytes(dev.blocks[..], s.ino));
        if node.mode != MODE_FILE || node.size > MAX_FILE {
          return false;
        }
        var good := CheckBlocks(node, bb, dev.blocks.Length);
        if !good {
          return false;
        }
      }
      i := i + 1;
    }
    return true;
  }

  /** `mcsfs1_fsck`, on devices of any size up to what the bitmaps can describe. */
  method Fsck(dev: Device) returns (rc: int)
    requires dev.blocks.Length <= MAX_DISK
    ensures rc == if dev.blocks.Length == 0 then E_INVAL else if FsckOk(dev.Disk()) then E_OK else E_CORRUPT
  {
    hide ViewOf, GetBit, NodeOf, InodeBytes, BitsOf, FsckSlot, Get32;
    ghost var d := dev.Disk();
    if dev.blocks.Length == 0 {
      return E_INVAL;
    }
    if !SuperOk(dev.blocks[SB_LBA], dev.blocks.Length) {
      return E_CORRUPT;
    }
    BitsFields(d);
    NodeField(d, ROOT_INO);
    BitClear(dev.blocks[INODE_BMAP_LBA], ROOT_INO);
    if !GetBit(dev.blocks[INODE_BMAP_LBA], ROOT_INO) {
      return E_CORRUPT;
    }
    var reserved := CheckReserved(dev.blocks[BLOCK_BMAP_LBA]);
    if !reserved {
      return E_CORRUPT;
    }
    var root := NodeOf(InodeBytes(dev.blocks[..], ROOT_INO));
    if root.mode != MODE_DIR || root.direct[0] != ROOT_DIR_LBA {
      return E_CORRUPT;
    }
    var slots := CheckSlots(dev);
    rc := if slots then E_OK else E_CORRUPT;
  }

  // ----- format -----

  /** Four consecutive words. */
  function PutWords(b: Block, o: nat, v0: uint32, v1: uint32, v2: uint32, v3: uint32): (r: Block)
    requires o + 16 <= BLOCK_SIZE
    ensures Get32(r, o) == v0 && Get32(r, o + 4) == v1 && Get32(r, o + 8) == v2 && Get32(r, o + 12) == v3
    ensures forall p {:trigger Get32(r, p)} :: 0 <= p && p + 4 <= BLOCK_SIZE && Apart(p, 4, o, 16) ==> Get32(r, p) == Get32(b, p)
  {
    hide Get32, Splice;
    Put32(Put32(Put32(Put32(b, o, v0), o + 4, v1), o + 8, v2), o + 12, v3)
  }

  function SuperBlock(zero: Block, n: uint32): (b: Block) {
    var b1 := PutWords(zero, 0, MAGIC, VERSION, BLOCK_SIZE, n);
    var b2 := PutWords(b1, 16, MAX_INODES, INODE_BMAP_LBA, BLOCK_BMAP_LBA, INODE_TABLE_LBA);
    var b3 := PutWords(b2, 32, INODE_TABLE_BLOCKS, ROOT_INO, ROOT_DIR_LBA, DATA_START_LBA);
    Put32(b3, 48, 1)
  }

  lemma SuperBlockOk(zero: Block, n: uint32)
    requires DATA_START_LBA < n
    ensures SuperOk(SuperBlock(zero, n), n)
  {
    hide Get32, Splice, Put32, PutWords;
  }

  /** Sets the first `n` bits of an empty bitmap. */
  method MarkBelow(n: nat) returns (bm: Block)
    requires n <= MAX_DISK
    ensures forall b :: 0 <= b < MAX_DISK ==> GetBit(bm, b) == (b < n)
  {
    hide PutBit, GetBit;
    bm := ZeroBlock;
    ZeroBits();
    var i := 0;
    while i < n
      invariant 0 <= i <= n
      invariant forall b :: 0 <= b < MAX_DISK ==> GetBit(bm, b) == (b < i)
    {
      bm := PutBit(bm, i, true);
      i := i + 1;
    }
  }

  lemma ZeroBits()
    ensures forall b :: 0 <= b < MAX_DISK ==> !GetBit(ZeroBlock, b)
  {
    forall b | 0 <= b < MAX_DISK
      ensures !GetBit(ZeroBlock, b)
    {
      ZeroBit(b % 8);
    }
  }

  lemma {:induction false} ZeroBit(k: nat)
    ensures !Bit(0, k)
  {
    if k > 0 {
      ZeroBit(k - 1);
    }
  }

  function RootInode(): (r: RawInode)
    ensures NodeOf(r).mode == MODE_DIR && NodeOf(r).direct[0] == ROOT_DIR_LBA
  {
    hide Get16, Get32, Splice;
    Put32(Put32(Put16(Put16(Zeros(INODE_SIZE), 0, MODE_DIR), 2, 1), 4, BLOCK_SIZE), 8, ROOT_DIR_LBA)
  }

  /** The zeroing loop of format. */
  method ZeroDevice(dev: Device) returns (rc: int, ghost t: Trace)
    requires DiskSize(dev.blocks.Length)
    modifies dev, dev.blocks
    ensures t.d == old(dev.Disk()) && t.fail == old(dev.failAfter)
    ensures Performed(t.d, t.fail, t.done, dev.Disk(), dev.failAfter)
    ensures rc == if Completes(t.fail, |t.done|) then E_OK else E_IO
    ensures t.done <= ZeroWrites(dev.blocks.Length)
    ensures rc == E_OK ==> t.done == ZeroWrites(dev.blocks.Length) && dev.Disk() == ZeroImage(dev.blocks.Length)
  {
    hide Apply;
    var n := dev.blocks.Length;
    t := dev.Start();
    rc := E_OK;
    var lba := 0;
    while lba < n
      invariant 0 <= lba <= n && rc == E_OK
      invariant t.d == old(dev.Disk()) && t.fail == old(dev.failAfter) && dev.Follows(t)
      invariant t.done == ZeroWrites(n)[..lba]
      invariant forall l :: 0 <= l < lba ==> dev.Disk()[l] == ZeroBlock
    {
      rc, t := dev.WriteNext(lba, ZeroBlock, t);
      assert t.done == ZeroWrites(n)[..lba + 1];
      if rc != E_OK {
        return;
      }
      lba := lba + 1;
    }
    assert ZeroWrites(n)[..n] == ZeroWrites(n);
    assert dev.Disk() == ZeroImage(n);
  }

  /** The superblock, bitmaps and root inode. */
  method FreshImage(n: nat) returns (f: Fresh)
    requires DiskSize(n)
    ensures FreshOk(f, n)
  {
    hide SuperBlock, RootInode, NodeOf, GetBit, SuperOk;
    var ib := MarkBelow(2);
    var bb := MarkBelow(DATA_START_LBA);
    SuperBlockOk(ZeroBlock, n);
    f := Fresh(SuperBlock(ZeroBlock, n), ib, bb, RootInode());
  }

  /** `mcsfs1_format`. */
  method Format(dev: Device, flushFails: bool) returns (rc: int, ghost f: Fresh)
    modifies dev, dev.blocks
    ensures !(MIN_BLOCKS <= dev.blocks.Length <= MAX_DISK) ==> rc == E_INVAL && dev.Disk() == old(dev.Disk())
    ensures MIN_BLOCKS <= dev.blocks.Length <= MAX_DISK ==>
              && FreshOk(f, dev.blocks.Length)
              && Ran(old(dev.Disk()), old(dev.failAfter), Flushed(Plan(FormatWrites(dev.blocks.Length, f), E_OK), flushFails),
                     dev.Disk(), dev.failAfter, rc)
  {
    hide Apply, FreshOk, ImageWrites, ZeroWrites, Performed;
    f := Fresh(ZeroBlock, ZeroBlock, ZeroBlock, ZeroRaw);
    var n := dev.blocks.Length;
    if n < MIN_BLOCKS || n > MAX_DISK {
      return E_INVAL, f;
    }
    var image := FreshImage(n);
    f := image;
    ghost var p := Plan(FormatWrites(n, f), E_OK);
    ghost var t;
    rc, t := ZeroDevice(dev);
    if rc != E_OK {
      RanCut(t, p, dev.Disk(), dev.failAfter);
      RanFlushed(t.d, t.fail, p, dev.Disk(), dev.failAfter, rc, flushFails);
      return;
    }
    var ws := ImageWrites(dev.blocks[..], image);
    assert p.writes == ZeroWrites(n) + ws;
    var i := 0;
    while i < |ws|
      invariant 0 <= i <= |ws| && rc == E_OK
      invariant t.d == old(dev.Disk()) && t.fail == old(dev.failAfter) && dev.Follows(t)
      invariant t.done == ZeroWrites(n) + ws[..i]
    {
      rc, t := dev.WriteNext(ws[i].lba, ws[i].data, t);
      assert t.done == ZeroWrites(n) + ws[..i + 1];
      if rc != E_OK {
        RanCut(t, p, dev.Disk(), dev.failAfter);
        RanFlushed(t.d, t.fail, p, dev.Disk(), dev.failAfter, rc, flushFails);
        return;
      }
      i := i + 1;
    }
    assert ws[..i] == ws;
    RanFlushed(t.d, t.fail, p, dev.Disk(), dev.failAfter, rc, flushFails);
    rc := AfterFlush(rc, flushFails);
  }
}
