/**
 The file operations of MCSFS1J (`kernel/fs/mcsfs1j/m16_mcsfs_journal.c`) on a device that stops accepting writes at an
 arbitrary point. Each is proved to perform the block writes of its plan up to that point, with the return code of the
 plan or of the fault.
 */
module JournalFsDevice {
  import opened Bytes
  import opened BlockDevice
  import opened Journal
  import opened JournalDevice
  import opened JournalFs

  // ----- searches -----

  method Streq(a: seq<uint8>, name: Name) returns (same: bool)
    requires |a| == MAX_NAME
    ensures same == StreqFrom(a, name, 0)
  {
    var i := 0;
    while i < MAX_NAME
      invariant 0 <= i <= MAX_NAME
      invariant StreqFrom(a, name, 0) == StreqFrom(a, name, i)
    {
      if a[i] != ByteOf(name, i) {
        return false;
      }
      if a[i] == 0 {
        return true;
      }
      i := i + 1;
    }
    return true;
  }

  /** The bitmap searches of `m16_find_free_inode` and `m16_find_free_block`. */
  method FindFreeBit(bm: Block, lo: nat, hi: nat) returns (bit: int)
    requires lo <= hi <= 8 * BLOCK_SIZE
    ensures var r := FirstClear(bm, lo, hi); bit == if r < hi then r else E_NOSPC
  {
    var i := lo;
    while i < hi
      invariant lo <= i <= hi
      invariant FirstClear(bm, lo, hi) == FirstClear(bm, i, hi)
    {
      if !GetBit(bm, i) {
        return i;
      }
      i := i + 1;
    }
    return E_NOSPC;
  }

  method FindDirent(dir: Block, name: Name) returns (slot: int)
    ensures var r := FindFrom(dir, name, 0); slot == if r < DIR_SLOTS then r else E_NOENT
  {
    hide StreqFrom, Get32;
    var i := 0;
    while i < DIR_SLOTS
      invariant 0 <= i <= DIR_SLOTS
      invariant FindFrom(dir, name, 0) == FindFrom(dir, name, i)
    {
      var e := DirentAt(dir, i);
      var same := Streq(e.name, name);
      if e.used != 0 && same {
        return i;
      }
      i := i + 1;
    }
    return E_NOENT;
  }

  method FindFreeDirent(dir: Block) returns (slot: int)
    ensures var r := FreeSlotFrom(dir, 0); slot == if r < DIR_SLOTS then r else E_NOSPC
  {
    hide Get32;
    var i := 0;
    while i < DIR_SLOTS
      invariant 0 <= i <= DIR_SLOTS
      invariant FreeSlotFrom(dir, 0) == FreeSlotFrom(dir, i)
    {
      if DirentAt(dir, i).used == 0 {
        return i;
      }
      i := i + 1;
    }
    return E_NOSPC;
  }

  method LoadInodeTable(dev: Device) returns (t: seq<uint8>)
    requires dev.blocks.Length == MAX_BLOCKS
    ensures t == Table(dev.Disk())
  {
    t := [];
    var i := 0;
    while i < INODE_TABLE_BLOCKS
      invariant 0 <= i <= INODE_TABLE_BLOCKS
      invariant |t| == BLOCK_SIZE * i && t == Table(dev.Disk())[..BLOCK_SIZE * i]
    {
      var b := dev.blocks[INODE_TABLE_LBA + i];
      assert b == dev.Disk()[INODE_TABLE_LBA + i] == Table(dev.Disk())[BLOCK_SIZE * i..BLOCK_SIZE * (i + 1)];
      t := t + b;
      i := i + 1;
    }
  }

  // ----- mount and write -----

  method Mount(dev: Device) returns (rc: int)
    requires dev.blocks.Length == MAX_BLOCKS
    modifies dev, dev.blocks
    ensures Ran(old(dev.Disk()), old(dev.failAfter), MountPlan(old(dev.Disk())), dev.Disk(), dev.failAfter, rc)
    ensures rc == E_OK ==> dev.Disk() == Recovered(old(dev.Disk())) && SuperOk(dev.Disk()[0])
  {
    hide RecoverPlan, Apply, SuperOk;
    ghost var d, f := dev.Disk(), dev.failAfter;
    rc := JournalRecover(dev);
    ghost var check := Plan([], if SuperOk(Recovered(d)[0]) then E_OK else E_CORRUPT);
    if rc != E_OK {
      RanFails(d, f, RecoverPlan(d), dev.Disk(), dev.failAfter, check, rc);
      return;
    }
    ghost var e, f' := dev.Disk(), dev.failAfter;
    rc := if SuperOk(dev.blocks[0]) then E_OK else E_CORRUPT;
    RanNothing(e, f', rc);
    RanThen(d, f, RecoverPlan(d), e, f', Plan([], rc), e, f', rc);
  }

  /** The part of the file write after the mount. */
  method Store(dev: Device, name: Name, data: seq<uint8>, stop: bool) returns (rc: int)
    requires dev.blocks.Length == MAX_BLOCKS && ValidName(name) && |data| <= BLOCK_SIZE
    modifies dev, dev.blocks
    ensures Ran(old(dev.Disk()), old(dev.failAfter), StorePlan(old(dev.Disk()), name, data, stop), dev.Disk(), dev.failAfter, rc)
  {
    hide Apply, CommitPlan, FindFrom, FirstClear, FreeSlotFrom, MetaTx, FileTx;
    ghost var d, f := dev.Disk(), dev.failAfter;
    RanNothing(d, f, E_EXISTS);
    RanNothing(d, f, E_NOSPC);
    var ib, bb, dir := dev.blocks[INODE_BITMAP_LBA], dev.blocks[BLOCK_BITMAP_LBA], dev.blocks[ROOT_DIR_LBA];
    var found := FindDirent(dir, name);
    if found >= 0 {
      return E_EXISTS;
    }
    var ino := FindFreeBit(ib, 1, MAX_INODES);
    if ino < 0 {
      return ino;
    }
    var blk := FindFreeBit(bb, DATA_START_LBA, MAX_BLOCKS);
    if blk < 0 {
      return blk;
    }
    var slot := FindFreeDirent(dir);
    if slot < 0 {
      return slot;
    }
    var s1: uint32 := (Get32(dev.blocks[0], 52) + 1) % 0x1_0000_0000;
    var s2: uint32 := (Get32(dev.blocks[0], 52) + 2) % 0x1_0000_0000;
    var meta := MetaTx(dev.blocks[..], ino, blk, |data|);
    rc := JournalCommit(dev, meta, s1, false);
    ghost var p1 := CommitPlan(meta, s1, false);
    var file := FileTx(dir, slot, ino, blk, name, data);
    ghost var p2 := CommitPlan(file, s2, stop);
    assert StorePlan(d, name, data, stop) == Then(p1, p2);
    ghost var e, f' := dev.Disk(), dev.failAfter;
    if rc != E_OK {
      RanFails(d, f, p1, e, f', p2, rc);
      return;
    }
    rc := JournalCommit(dev, file, s2, stop);
    RanThen(d, f, p1, e, f', p2, dev.Disk(), dev.failAfter, rc);
  }

  /** `m16_write_file_ex`; `m16_write_file` is the case `stop == false`. */
  method WriteFileEx(dev: Device, name: Name, data: seq<uint8>, stop: bool) returns (rc: int)
    requires dev.blocks.Length == MAX_BLOCKS
    modifies dev, dev.blocks
    ensures Ran(old(dev.Disk()), old(dev.failAfter), WriteFilePlan(old(dev.Disk()), name, data, stop),
                dev.Disk(), dev.failAfter, rc)
  {
    hide Apply, MountPlan, StorePlan;
    ghost var d, f := dev.Disk(), dev.failAfter;
    if !ValidName(name) {
      RanNothing(d, f, E_TOOLONG);
      return E_TOOLONG;
    }
    if |data| > BLOCK_SIZE {
      RanNothing(d, f, E_INVAL);
      return E_INVAL;
    }
    rc := Mount(dev);
    ghost var q := StorePlan(Recovered(d), name, data, stop);
    ghost var e, f' := dev.Disk(), dev.failAfter;
    if rc != E_OK {
      RanFails(d, f, MountPlan(d), e, f', q, rc);
      return;
    }
    rc := Store(dev, name, data, stop);
    RanThen(d, f, MountPlan(d), e, f', q, dev.Disk(), dev.failAfter, rc);
  }

  // ----- read -----

  /** `m16_read_file`: on a disk fsck accepts it returns exactly the bytes of the file. */
  method ReadFile(dev: Device, name: Name, cap: uint32) returns (rc: int, out: seq<uint8>, ghost mounted: int)
    requires dev.blocks.Length == MAX_BLOCKS
    modifies dev, dev.blocks
    ensures Ran(old(dev.Disk()), old(dev.failAfter), MountPlan(old(dev.Disk())), dev.Disk(), dev.failAfter, mounted)
    ensures mounted != E_OK ==> rc == mounted
    ensures mounted == E_OK && Clean(dev.Disk()) ==>
              match Contents(dev.Disk(), name)
              case None => rc == E_NOENT
              case Some(bytes) => if |bytes| > cap then rc == E_INVAL else rc == E_OK && out == bytes
  {
    hide Apply, MountPlan, Get32, FindFrom, SuperOk, RootOk, AreaMarked, GetBit;
    out := [];
    rc := Mount(dev);
    mounted := rc;
    if rc != E_OK {
      return;
    }
    var t := LoadInodeTable(dev);
    var dir := dev.blocks[ROOT_DIR_LBA];
    var slot := FindDirent(dir, name);
    if slot < 0 {
      rc := slot;
      return;
    }
    var ino := DirentAt(dir, slot).ino;
    if ino >= MAX_INODES || InodeAt(t, ino).used == 0 || InodeAt(t, ino).kind != KIND_FILE {
      rc := E_CORRUPT;
      return;
    }
    var n := InodeAt(t, ino);
    if n.size > cap || n.block >= MAX_BLOCKS {
      rc := E_INVAL;
      return;
    }
    var b := dev.blocks[n.block];
    out := b[..if n.size <= BLOCK_SIZE then n.size else BLOCK_SIZE];
  }

  // ----- fsck -----

  function FsckPlan(d: Disk): (p: Plan)
    requires |d| == MAX_BLOCKS
    ensures InRange(p.writes, MAX_BLOCKS)
  {
    Then(MountPlan(d), Plan([], if Clean(Recovered(d)) then E_OK else E_CORRUPT))
  }

  method CheckArea(bb: Block) returns (ok: bool)
    ensures ok <==> forall b :: 0 <= b < DATA_START_LBA ==> GetBit(bb, b)
  {
    var b := 0;
    while b < DATA_START_LBA
      invariant 0 <= b <= DATA_START_LBA
      invariant forall c :: 0 <= c < b ==> GetBit(bb, c)
    {
      if !GetBit(bb, b) {
        return false;
      }
      b := b + 1;
    }
    return true;
  }

  /** `m16_fsck` returns OK exactly on disks that recover, mount and check out. */
  method Fsck(dev: Device) returns (rc: int)
    requires dev.blocks.Length == MAX_BLOCKS
    modifies dev, dev.blocks
    ensures Ran(old(dev.Disk()), old(dev.failAfter), FsckPlan(old(dev.Disk())), dev.Disk(), dev.failAfter, rc)
  {
    hide Apply, MountPlan, Get32, GetBit, SuperOk, Table;
    ghost var d, f := dev.Disk(), dev.failAfter;
    rc := Mount(dev);
    ghost var q := Plan([], if Clean(Recovered(d)) then E_OK else E_CORRUPT);
    ghost var e, f' := dev.Disk(), dev.failAfter;
    if rc != E_OK {
      RanFails(d, f, MountPlan(d), e, f', q, rc);
      return;
    }
    var ok := CheckMounted(dev);
    rc := if ok then E_OK else E_CORRUPT;
    RanNothing(e, f', rc);
    RanThen(d, f, MountPlan(d), e, f', q, e, f', rc);
  }

  /** The checks of fsck on a mounted disk. */
  method CheckMounted(dev: Device) returns (ok: bool)
    requires dev.blocks.Length == MAX_BLOCKS
    ensures ok && SuperOk(dev.Disk()[0]) <==> Clean(dev.Disk())
  {
    hide Get32, GetBit, SuperOk, InodeAt, DirentAt;
    ghost var d := dev.Disk();
    var ib, bb, dir := dev.blocks[INODE_BITMAP_LBA], dev.blocks[BLOCK_BITMAP_LBA], dev.blocks[ROOT_DIR_LBA];
    var t := LoadInodeTable(dev);
    var root := InodeAt(t, 0);
    if !GetBit(ib, 0) || root.used != 1 || root.kind != KIND_DIR || root.block != ROOT_DIR_LBA {
      return false;
    }
    var area := CheckArea(bb);
    if !area {
      return false;
    }
    var i := 0;
    while i < DIR_SLOTS
      invariant 0 <= i <= DIR_SLOTS
      invariant forall j :: 0 <= j < i && DirentAt(dir, j).used != 0 ==> EntryOk(d, DirentAt(dir, j))
    {
      var e := DirentAt(dir, i);
      if e.used != 0 {
        if e.ino >= MAX_INODES || !GetBit(ib, e.ino) {
          return false;
        }
        var n := InodeAt(t, e.ino);
        if n.used == 0 || n.kind != KIND_FILE || n.size > BLOCK_SIZE {
          return false;
        }
        if n.block < DATA_START_LBA || n.block >= MAX_BLOCKS || !GetBit(bb, n.block) {
          return false;
        }
      }
      i := i + 1;
    }
    return true;
  }

  // ----- format -----

  /** The superblock, bitmaps and inode table that `m16_format` writes. */
  method FreshImage() returns (f: Fresh)
    ensures FreshOk(f)
  {
    hide GetBit, InodeAt, PutBit, PutInode, SuperBlock, SuperOk;
    var ib := PutBit(ZeroBlock, 0, true);
    var bb: Block := ZeroBlock;
    var i := 0;
    while i < DATA_START_LBA
      invariant 0 <= i <= DATA_START_LBA
      invariant forall b :: 0 <= b < i ==> GetBit(bb, b)
    {
      bb := PutBit(bb, i, true);
      i := i + 1;
    }
    var size := MAX_INODES * INODE_SIZE;
    var t := PutInode(Zeros(size), 0, Inode(1, KIND_DIR, 0, ROOT_DIR_LBA));
    PutInodeAt(Zeros(size), 0, Inode(1, KIND_DIR, 0, ROOT_DIR_LBA), 0);
    f := Fresh(SuperBlock(), ib, bb, t);
  }

  /** `m16_format`: the blocks are zeroed directly, then written through the fault counter. */
  method Format(dev: Device) returns (rc: int, ghost f: Fresh)
    requires dev.blocks.Length == MAX_BLOCKS
    modifies dev, dev.blocks
    ensures FreshOk(f)
    ensures Ran(seq(MAX_BLOCKS, _ => ZeroBlock), old(dev.failAfter), Plan(FormatWrites(f), E_OK), dev.Disk(), dev.failAfter, rc)
  {
    hide Apply, FreshOk;
    var l := 0;
    while l < MAX_BLOCKS
      invariant 0 <= l <= MAX_BLOCKS
      invariant forall i :: 0 <= i < l ==> dev.blocks[i] == ZeroBlock
      invariant dev.failAfter == old(dev.failAfter)
    {
      dev.blocks[l] := ZeroBlock;
      l := l + 1;
    }
    assert dev.Disk() == seq(MAX_BLOCKS, _ => ZeroBlock);
    var image := FreshImage();
    f := image;
    var ws := FormatWrites(image);
    ghost var p := Plan(FormatWrites(f), E_OK);
    ghost var t := dev.Start();
    rc := E_OK;
    var i := 0;
    while i < |ws|
      invariant 0 <= i <= |ws| && rc == E_OK
      invariant t.d == seq(MAX_BLOCKS, _ => ZeroBlock) && t.fail == old(dev.failAfter) && dev.Follows(t)
      invariant t.done == ws[..i]
    {
      rc, t := dev.WriteNext(ws[i].lba, ws[i].data, t);
      assert t.done == ws[..i + 1];
      if rc != E_OK {
        RanCut(t, p, dev.Disk(), dev.failAfter);
        return;
      }
      i := i + 1;
    }
    assert ws[..i] == ws;
  }
}
