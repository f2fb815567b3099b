/**
 Files on top of the journal (`kernel/fs/mcsfs1j/m16_mcsfs_journal.c`): lookup, the two-transaction file write, fsck, and
 what survives a crash.

 A file write commits twice: first the bitmaps and the inode table, then the directory and the data. The file exists from
 the commit header of the second transaction on; before it the inode and the block are taken but belong to nobody.
 */
module JournalFs {
  import opened Bytes
  import opened BlockDevice
  import opened Journal

  const MAGIC: uint64 := 0x4d43534631564a31
  const INODE_BITMAP_LBA := JOURNAL_START + JOURNAL_BLOCKS
  const BLOCK_BITMAP_LBA := INODE_BITMAP_LBA + 1
  const INODE_TABLE_LBA := BLOCK_BITMAP_LBA + 1
  const INODE_TABLE_BLOCKS := 4
  const ROOT_DIR_LBA := INODE_TABLE_LBA + INODE_TABLE_BLOCKS
  const DATA_START_LBA := ROOT_DIR_LBA + 1
  const MAX_INODES := 16
  const MAX_NAME := 32
  const INODE_SIZE := 128
  const DIRENT_SIZE := 40
  const DIR_SLOTS := BLOCK_SIZE / DIRENT_SIZE
  const KIND_FILE := 1
  const KIND_DIR := 2

  const E_NOSPC := -3
  const E_EXISTS := -4
  const E_NOENT := -5
  const E_TOOLONG := -7

  // ----- on-disk structures -----

  predicate SuperOk(sb: Block) {
    && Get64(sb, 0) == MAGIC
    && Get32(sb, 8) == VERSION
    && Get32(sb, 12) == BLOCK_SIZE
    && Get32(sb, 48) == DATA_START_LBA
    && Get32(sb, 44) == ROOT_DIR_LBA
  }

  /** The inode table as one buffer, the way it is loaded. */
  function Table(d: Disk): (t: seq<uint8>)
    requires |d| == MAX_BLOCKS
    ensures |t| == MAX_INODES * INODE_SIZE
  {
    var t: seq<uint8> := d[INODE_TABLE_LBA];
    t + d[INODE_TABLE_LBA + 1] + d[INODE_TABLE_LBA + 2] + d[INODE_TABLE_LBA + 3]
  }

  datatype Inode = Inode(used: uint32, kind: uint32, size: uint32, block: uint32)

  function InodeAt(t: seq<uint8>, i: nat): (n: Inode)
    requires |t| == MAX_INODES * INODE_SIZE && i < MAX_INODES
  {
    var o := INODE_SIZE * i;
    Inode(Get32(t, o), Get32(t, o + 4), Get32(t, o + 8), Get32(t, o + 12))
  }

  /** The table with four fields of inode `i` overwritten. */
  function PutInode(t: seq<uint8>, i: nat, n: Inode): (r: seq<uint8>)
    requires |t| == MAX_INODES * INODE_SIZE && i < MAX_INODES
    ensures |r| == |t|
  {
    hide Get32, Splice;
    var o := INODE_SIZE * i;
    Put32(Put32(Put32(Put32(t, o, n.used), o + 4, n.kind), o + 8, n.size), o + 12, n.block)
  }

  lemma PutInodeAt(t: seq<uint8>, i: nat, n: Inode, j: nat)
    requires |t| == MAX_INODES * INODE_SIZE && i < MAX_INODES && j < MAX_INODES
    ensures InodeAt(PutInode(t, i, n), j) == if j == i then n else InodeAt(t, j)
  {
    hide Get32, Splice, Enc32;
  }

  datatype Dirent = Dirent(used: uint32, ino: uint32, name: seq<uint8>)

  function DirentAt(dir: Block, i: nat): (e: Dirent)
    requires i < DIR_SLOTS
    ensures |e.name| == MAX_NAME
  {
    var o := DIRENT_SIZE * i;
    Dirent(Get32(dir, o), Get32(dir, o + 4), dir[o + 8..o + DIRENT_SIZE])
  }

  function PutDirent(dir: Block, i: nat, e: Dirent): (r: Block)
    requires i < DIR_SLOTS && |e.name| == MAX_NAME
  {
    var o := DIRENT_SIZE * i;
    Splice(Put32(Put32(dir, o, e.used), o + 4, e.ino), o + 8, e.name)
  }

  lemma PutDirentFields(dir: Block, i: nat, e: Dirent, j: nat)
    requires i < DIR_SLOTS && |e.name| == MAX_NAME && j < DIR_SLOTS
    ensures var x, y := DirentAt(PutDirent(dir, i, e), j), DirentAt(dir, j);
            x.used == (if j == i then e.used else y.used) && x.ino == if j == i then e.ino else y.ino
  {
    hide Get32, Splice;
    var o, p := DIRENT_SIZE * i, DIRENT_SIZE * j;
    var b := Put32(Put32(dir, o, e.used), o + 4, e.ino);
    Get32Apart(b, o + 8, e.name, p);
    Get32Apart(b, o + 8, e.name, p + 4);
  }

  lemma PutDirentName(dir: Block, i: nat, e: Dirent, j: nat)
    requires i < DIR_SLOTS && |e.name| == MAX_NAME && j < DIR_SLOTS
    ensures DirentAt(PutDirent(dir, i, e), j).name == if j == i then e.name else DirentAt(dir, j).name
  {
    hide Get32, Enc32, Splice;
    var o, p := DIRENT_SIZE * i, DIRENT_SIZE * j;
    var a := Splice(dir, o, Enc32(e.used));
    var b := Splice(a, o + 4, Enc32(e.ino));
    assert PutDirent(dir, i, e) == Splice(b, o + 8, e.name);
    if j == i {
      SpliceSame(b, o + 8, e.name);
    } else {
      SpliceApart(dir, o, Enc32(e.used), p + 8, MAX_NAME);
      SpliceApart(a, o + 4, Enc32(e.ino), p + 8, MAX_NAME);
      SpliceApart(b, o + 8, e.name, p + 8, MAX_NAME);
    }
  }

  lemma PutDirentAt(dir: Block, i: nat, e: Dirent, j: nat)
    requires i < DIR_SLOTS && |e.name| == MAX_NAME && j < DIR_SLOTS
    ensures DirentAt(PutDirent(dir, i, e), j) == if j == i then e else DirentAt(dir, j)
  {
    hide PutDirent, DirentAt;
    PutDirentFields(dir, i, e, j);
    PutDirentName(dir, i, e, j);
  }

  // ----- names -----

  function ByteOf(name: Name, i: nat): (b: uint8) {
    if i < |name| then name[i] else 0
  }

  /** `m16_streq` from position `i` on. */
  predicate StreqFrom(a: seq<uint8>, name: Name, i: nat)
    requires |a| == MAX_NAME && i <= MAX_NAME
    decreases MAX_NAME - i
  {
    if i == MAX_NAME then true
    else if a[i] != ByteOf(name, i) then false
    else if a[i] == 0 then true
    else StreqFrom(a, name, i + 1)
  }

  predicate Matches(e: Dirent, name: Name)
    requires |e.name| == MAX_NAME
  {
    e.used != 0 && StreqFrom(e.name, name, 0)
  }

  predicate ValidName(name: Name) {
    0 < |name| < MAX_NAME
  }

  function Padded(name: Name): (a: seq<uint8>)
    requires |name| <= MAX_NAME
    ensures |a| == MAX_NAME
  {
    name + Zeros(MAX_NAME - |name|)
  }

  /** Against a stored name the bounded comparison decides equality, for names of any length. */
  lemma {:induction false} StreqPadded(stored: Name, name: Name, i: nat)
    requires |stored| < MAX_NAME && i <= |stored|
    requires |name| >= i && name[..i] == stored[..i]
    ensures StreqFrom(Padded(stored), name, i) <==> name == stored
    decreases |stored| - i
  {
    var a := Padded(stored);
    if i == |stored| {
      assert stored[..i] == stored;
      assert a[i] == 0;
      if |name| > i {
        assert name[i] in name;
      } else {
        assert name == name[..i];
      }
    } else {
      assert a[i] == stored[i] && stored[i] in stored;
      if i < |name| && name[i] == stored[i] {
        assert name[..i + 1] == name[..i] + [name[i]] == stored[..i + 1];
        StreqPadded(stored, name, i + 1);
      }
    }
  }

  // ----- searches -----

  function FindFrom(dir: Block, name: Name, i: nat): (r: nat)
    requires i <= DIR_SLOTS
    ensures i <= r <= DIR_SLOTS
    ensures forall j :: i <= j < r ==> !Matches(DirentAt(dir, j), name)
    ensures r < DIR_SLOTS ==> Matches(DirentAt(dir, r), name)
    decreases DIR_SLOTS - i
  {
    if i == DIR_SLOTS || Matches(DirentAt(dir, i), name) then i else FindFrom(dir, name, i + 1)
  }

  function FreeSlotFrom(dir: Block, i: nat): (r: nat)
    requires i <= DIR_SLOTS
    ensures i <= r <= DIR_SLOTS
    ensures forall j :: i <= j < r ==> DirentAt(dir, j).used != 0
    ensures r < DIR_SLOTS ==> DirentAt(dir, r).used == 0
    decreases DIR_SLOTS - i
  {
    if i == DIR_SLOTS || DirentAt(dir, i).used == 0 then i else FreeSlotFrom(dir, i + 1)
  }

  // ----- the checked state -----

  /** What fsck demands of a used directory entry. */
  predicate EntryOk(d: Disk, e: Dirent)
    requires |d| == MAX_BLOCKS
  {
    && e.ino < MAX_INODES
    && GetBit(d[INODE_BITMAP_LBA], e.ino)
    && var n := InodeAt(Table(d), e.ino);
    && n.used != 0 && n.kind == KIND_FILE && n.size <= BLOCK_SIZE
    && DATA_START_LBA <= n.block < MAX_BLOCKS
    && GetBit(d[BLOCK_BITMAP_LBA], n.block)
  }

  predicate RootOk(d: Disk)
    requires |d| == MAX_BLOCKS
  {
    && GetBit(d[INODE_BITMAP_LBA], 0)
    && var n := InodeAt(Table(d), 0);
    && n.used == 1 && n.kind == KIND_DIR && n.block == ROOT_DIR_LBA
  }

  predicate AreaMarked(d: Disk)
    requires |d| == MAX_BLOCKS
  {
    forall b :: 0 <= b < DATA_START_LBA ==> GetBit(d[BLOCK_BITMAP_LBA], b)
  }

  /** fsck finds nothing wrong with the mounted disk. */
  predicate Clean(d: Disk)
    requires |d| == MAX_BLOCKS
  {
    && SuperOk(d[0]) && RootOk(d) && AreaMarked(d)
    && forall i :: 0 <= i < DIR_SLOTS && DirentAt(d[ROOT_DIR_LBA], i).used != 0 ==> EntryOk(d, DirentAt(d[ROOT_DIR_LBA], i))
  }

  /** The bytes of the file a used entry names. */
  function FileOf(d: Disk, e: Dirent): (s: seq<uint8>)
    requires |d| == MAX_BLOCKS && EntryOk(d, e)
  {
    var n := InodeAt(Table(d), e.ino);
    d[n.block][..n.size]
  }

  /** The file system as a map from names to byte strings. */
  function Contents(d: Disk, name: Name): (c: Option<seq<uint8>>)
    requires |d| == MAX_BLOCKS && Clean(d)
  {
    var s := FindFrom(d[ROOT_DIR_LBA], name, 0);
    if s == DIR_SLOTS then None else Some(FileOf(d, DirentAt(d[ROOT_DIR_LBA], s)))
  }

  /** Distinct entries own distinct inodes and distinct data blocks. */
  predicate Owned(d: Disk)
    requires |d| == MAX_BLOCKS && Clean(d)
  {
    forall i, j :: 0 <= i < j < DIR_SLOTS ==>
      var e, f := DirentAt(d[ROOT_DIR_LBA], i), DirentAt(d[ROOT_DIR_LBA], j);
      e.used != 0 && f.used != 0 ==>
        e.ino != f.ino && InodeAt(Table(d), e.ino).block != InodeAt(Table(d), f.ino).block
  }

  // ----- writing a file -----

  /** The two bitmaps and the inode table, with inode `ino` and block `blk` taken. */
  function MetaTx(d: Disk, ino: nat, blk: nat, size: uint32): (tx: Tx)
    requires |d| == MAX_BLOCKS && ino < MAX_INODES && blk < MAX_BLOCKS
  {
    var t := PutInode(Table(d), ino, Inode(1, KIND_FILE, size, blk));
    [ Write(INODE_BITMAP_LBA, PutBit(d[INODE_BITMAP_LBA], ino, true)),
      Write(BLOCK_BITMAP_LBA, PutBit(d[BLOCK_BITMAP_LBA], blk, true)),
      Write(INODE_TABLE_LBA, t[..512]),
      Write(INODE_TABLE_LBA + 1, t[512..1024]),
      Write(INODE_TABLE_LBA + 2, t[1024..1536]),
      Write(INODE_TABLE_LBA + 3, t[1536..]) ]
  }

  function PaddedData(data: seq<uint8>): (b: Block)
    requires |data| <= BLOCK_SIZE
    ensures b[..|data|] == data
  {
    data + Zeros(BLOCK_SIZE - |data|)
  }

  /** The root directory with the new entry, and the data block. */
  function FileTx(dir: Block, slot: nat, ino: nat, blk: nat, name: Name, data: seq<uint8>): (tx: Tx)
    requires slot < DIR_SLOTS && ino < MAX_INODES && blk < MAX_BLOCKS
    requires ValidName(name) && |data| <= BLOCK_SIZE
  {
    [Write(ROOT_DIR_LBA, PutDirent(dir, slot, Dirent(1, ino, Padded(name)))), Write(blk, PaddedData(data))]
  }

  /** The sequence number of the commit `n` past the generation in the superblock. */
  function Seqno(super: Block, n: nat): (s: uint32) {
    (Get32(super, 52) + n) % 0x1_0000_0000
  }

  function CommitMeta(d: Disk, ino: nat, blk: nat, size: uint32): (p: Plan)
    requires |d| == MAX_BLOCKS && ino < MAX_INODES && blk < MAX_BLOCKS
    ensures InRange(p.writes, MAX_BLOCKS)
  {
    hide MetaTx, CommitPlan;
    CommitPlan(MetaTx(d, ino, blk, size), Seqno(d[0], 1), false)
  }

  function CommitFile(d: Disk, slot: nat, ino: nat, blk: nat, name: Name, data: seq<uint8>, stop: bool): (p: Plan)
    requires |d| == MAX_BLOCKS && slot < DIR_SLOTS && ino < MAX_INODES && blk < MAX_BLOCKS
    requires ValidName(name) && |data| <= BLOCK_SIZE
    ensures InRange(p.writes, MAX_BLOCKS)
  {
    hide FileTx, CommitPlan;
    CommitPlan(FileTx(d[ROOT_DIR_LBA], slot, ino, blk, name, data), Seqno(d[0], 2), stop)
  }

  /** The two commits of a file write, under consecutive sequence numbers. */
  function CommitBoth(d: Disk, slot: nat, ino: nat, blk: nat, name: Name, data: seq<uint8>, stop: bool): (p: Plan)
    requires |d| == MAX_BLOCKS && slot < DIR_SLOTS && ino < MAX_INODES && blk < MAX_BLOCKS
    requires ValidName(name) && |data| <= BLOCK_SIZE
    ensures InRange(p.writes, MAX_BLOCKS)
  {
    hide CommitMeta, CommitFile;
    Then(CommitMeta(d, ino, blk, |data|), CommitFile(d, slot, ino, blk, name, data, stop))
  }

  /** The mounted part of `m16_write_file_ex`. */
  function StorePlan(d: Disk, name: Name, data: seq<uint8>, stop: bool): (p: Plan)
    requires |d| == MAX_BLOCKS && ValidName(name) && |data| <= BLOCK_SIZE
    ensures InRange(p.writes, MAX_BLOCKS)
  {
    var dir := d[ROOT_DIR_LBA];
    var ino := FirstClear(d[INODE_BITMAP_LBA], 1, MAX_INODES);
    var blk := FirstClear(d[BLOCK_BITMAP_LBA], DATA_START_LBA, MAX_BLOCKS);
    var slot := FreeSlotFrom(dir, 0);
    if FindFrom(dir, name, 0) < DIR_SLOTS then Plan([], E_EXISTS)
    else if ino == MAX_INODES || blk == MAX_BLOCKS || slot == DIR_SLOTS then Plan([], E_NOSPC)
    else CommitBoth(d, slot, ino, blk, name, data, stop)
  }

  function MountPlan(d: Disk): (p: Plan)
    requires |d| == MAX_BLOCKS
    ensures InRange(p.writes, MAX_BLOCKS)
  {
    Then(RecoverPlan(d), Plan([], if SuperOk(Recovered(d)[0]) then E_OK else E_CORRUPT))
  }

  /** All block writes of `m16_write_file_ex`. */
  function WriteFilePlan(d: Disk, name: Name, data: seq<uint8>, stop: bool): (p: Plan)
    requires |d| == MAX_BLOCKS
    ensures InRange(p.writes, MAX_BLOCKS)
  {
    if !ValidName(name) then Plan([], E_TOOLONG)
    else if |data| > BLOCK_SIZE then Plan([], E_INVAL)
    else Then(MountPlan(d), StorePlan(Recovered(d), name, data, stop))
  }

  // ----- the metadata transaction -----

  /** No used entry names inode `ino` or stores its data in block `blk`. */
  predicate Unowned(d: Disk, ino: nat, blk: nat)
    requires |d| == MAX_BLOCKS && Clean(d)
  {
    forall i :: 0 <= i < DIR_SLOTS ==>
      var e := DirentAt(d[ROOT_DIR_LBA], i);
      e.used != 0 ==> e.ino != ino && InodeAt(Table(d), e.ino).block != blk
  }

  lemma MetaBlocks(d: Disk, ino: nat, blk: nat, size: uint32)
    requires |d| == MAX_BLOCKS && ino < MAX_INODES && blk < MAX_BLOCKS
    ensures GoodTx(MetaTx(d, ino, blk, size))
    ensures var e := Apply(d, MetaTx(d, ino, blk, size));
            && e[INODE_BITMAP_LBA] == PutBit(d[INODE_BITMAP_LBA], ino, true)
            && e[BLOCK_BITMAP_LBA] == PutBit(d[BLOCK_BITMAP_LBA], blk, true)
            && Table(e) == PutInode(Table(d), ino, Inode(1, KIND_FILE, size, blk))
            && e[0] == d[0]
            && forall l :: ROOT_DIR_LBA <= l < MAX_BLOCKS ==> e[l] == d[l]
  {
    hide PutBit, PutInode, Apply;
    var tx := MetaTx(d, ino, blk, size);
    assert tx == [tx[0]] + [tx[1]] + [tx[2]] + [tx[3]] + [tx[4]] + [tx[5]];
    ApplyOne(d, tx[0]);
    ApplySnoc(d, [tx[0]], tx[1]);
    ApplySnoc(d, [tx[0]] + [tx[1]], tx[2]);
    ApplySnoc(d, [tx[0]] + [tx[1]] + [tx[2]], tx[3]);
    ApplySnoc(d, [tx[0]] + [tx[1]] + [tx[2]] + [tx[3]], tx[4]);
    ApplySnoc(d, [tx[0]] + [tx[1]] + [tx[2]] + [tx[3]] + [tx[4]], tx[5]);
    var t := PutInode(Table(d), ino, Inode(1, KIND_FILE, size, blk));
    assert t[..512] + t[512..1024] + t[1024..1536] + t[1536..] == t;
  }

  /** A free inode and a free block belong to no entry. */
  lemma FreeIsUnowned(d: Disk, ino: nat, blk: nat)
    requires |d| == MAX_BLOCKS && Clean(d) && ino < MAX_INODES && blk < MAX_BLOCKS
    requires !GetBit(d[INODE_BITMAP_LBA], ino) && !GetBit(d[BLOCK_BITMAP_LBA], blk)
    ensures Unowned(d, ino, blk)
  {
    hide GetBit, InodeAt, SuperOk, RootOk, AreaMarked;
    forall i | 0 <= i < DIR_SLOTS && DirentAt(d[ROOT_DIR_LBA], i).used != 0
      ensures DirentAt(d[ROOT_DIR_LBA], i).ino != ino
      ensures InodeAt(Table(d), DirentAt(d[ROOT_DIR_LBA], i).ino).block != blk
    {
      assert EntryOk(d, DirentAt(d[ROOT_DIR_LBA], i));
    }
  }

  /** An entry that checks out still does, and names the same bytes, after the metadata transaction. */
  lemma EntryKept(d: Disk, e: Disk, ino: nat, blk: nat, size: uint32, f: Dirent)
    requires |d| == |e| == MAX_BLOCKS && ino < MAX_INODES && blk < MAX_BLOCKS
    requires EntryOk(d, f) && f.ino != ino
    requires e[INODE_BITMAP_LBA] == PutBit(d[INODE_BITMAP_LBA], ino, true)
    requires e[BLOCK_BITMAP_LBA] == PutBit(d[BLOCK_BITMAP_LBA], blk, true)
    requires Table(e) == PutInode(Table(d), ino, Inode(1, KIND_FILE, size, blk))
    requires forall l :: ROOT_DIR_LBA <= l < MAX_BLOCKS ==> e[l] == d[l]
    ensures EntryOk(e, f) && InodeAt(Table(e), f.ino) == InodeAt(Table(d), f.ino) && FileOf(e, f) == FileOf(d, f)
  {
    hide GetBit, InodeAt, Table, PutInode;
    PutInodeAt(Table(d), ino, Inode(1, KIND_FILE, size, blk), f.ino);
  }

  lemma MetaStep(d: Disk, ino: nat, blk: nat, size: uint32)
    requires |d| == MAX_BLOCKS && Clean(d) && 0 < ino < MAX_INODES && blk < MAX_BLOCKS
    requires !GetBit(d[INODE_BITMAP_LBA], ino) && !GetBit(d[BLOCK_BITMAP_LBA], blk)
    ensures GoodTx(MetaTx(d, ino, blk, size))
    ensures var e := Apply(d, MetaTx(d, ino, blk, size));
            && Clean(e)
            && (forall n: Name :: Contents(e, n) == Contents(d, n))
            && (Owned(d) ==> Owned(e))
            && Unowned(e, ino, blk)
            && e[ROOT_DIR_LBA] == d[ROOT_DIR_LBA]
            && GetBit(e[INODE_BITMAP_LBA], ino) && GetBit(e[BLOCK_BITMAP_LBA], blk)
            && InodeAt(Table(e), ino) == Inode(1, KIND_FILE, size, blk)
  {
    hide GetBit, InodeAt, SuperOk, Table, DirentAt, MetaTx, FindFrom, PutInode;
    MetaBlocks(d, ino, blk, size);
    PutInodeAt(Table(d), ino, Inode(1, KIND_FILE, size, blk), ino);
    PutInodeAt(Table(d), ino, Inode(1, KIND_FILE, size, blk), 0);
    var e := Apply(d, MetaTx(d, ino, blk, size));
    FreeIsUnowned(d, ino, blk);
    forall i | 0 <= i < DIR_SLOTS && DirentAt(d[ROOT_DIR_LBA], i).used != 0
      ensures var f := DirentAt(d[ROOT_DIR_LBA], i);
              EntryOk(e, f) && InodeAt(Table(e), f.ino) == InodeAt(Table(d), f.ino) && FileOf(e, f) == FileOf(d, f)
    {
      EntryKept(d, e, ino, blk, size, DirentAt(d[ROOT_DIR_LBA], i));
    }
  }

  // ----- the directory transaction -----

  lemma FindIs(dir: Block, n: Name, r: nat)
    requires r <= DIR_SLOTS
    requires forall j :: 0 <= j < r ==> !Matches(DirentAt(dir, j), n)
    requires r < DIR_SLOTS ==> Matches(DirentAt(dir, r), n)
    ensures FindFrom(dir, n, 0) == r
  {
    hide Matches, DirentAt;
  }

  lemma FindAfterPut(dir: Block, slot: nat, ino: nat, name: Name, n: Name)
    requires slot < DIR_SLOTS && ino < MAX_INODES && ValidName(name)
    requires DirentAt(dir, slot).used == 0 && FindFrom(dir, name, 0) == DIR_SLOTS
    ensures FindFrom(PutDirent(dir, slot, Dirent(1, ino, Padded(name))), n, 0) ==
            if n == name then slot else FindFrom(dir, n, 0)
  {
    hide DirentAt, PutDirent, StreqFrom, FindFrom, Padded;
    var e := Dirent(1, ino, Padded(name));
    var dir' := PutDirent(dir, slot, e);
    StreqPadded(name, n, 0);
    forall j | 0 <= j < DIR_SLOTS
      ensures Matches(DirentAt(dir', j), n) == if j == slot then n == name else Matches(DirentAt(dir, j), n)
    {
      PutDirentAt(dir, slot, e, j);
    }
    FindIs(dir', n, if n == name then slot else FindFrom(dir, n, 0));
  }

  lemma FileBlocks(d: Disk, slot: nat, ino: nat, blk: nat, name: Name, data: seq<uint8>)
    requires |d| == MAX_BLOCKS && slot < DIR_SLOTS && ino < MAX_INODES && DATA_START_LBA <= blk < MAX_BLOCKS
    requires ValidName(name) && |data| <= BLOCK_SIZE
    ensures GoodTx(FileTx(d[ROOT_DIR_LBA], slot, ino, blk, name, data))
    ensures var e := Apply(d, FileTx(d[ROOT_DIR_LBA], slot, ino, blk, name, data));
            && e[ROOT_DIR_LBA] == PutDirent(d[ROOT_DIR_LBA], slot, Dirent(1, ino, Padded(name)))
            && e[blk] == PaddedData(data)
            && Table(e) == Table(d)
            && forall l :: 0 <= l < MAX_BLOCKS && l != ROOT_DIR_LBA && l != blk ==> e[l] == d[l]
  {
    hide PutDirent, Apply;
    var tx := FileTx(d[ROOT_DIR_LBA], slot, ino, blk, name, data);
    assert tx == [tx[0]] + [tx[1]];
    ApplyOne(d, tx[0]);
    ApplySnoc(d, [tx[0]], tx[1]);
  }

  lemma FileStep(d: Disk, slot: nat, ino: nat, blk: nat, name: Name, data: seq<uint8>)
    requires |d| == MAX_BLOCKS && Clean(d) && slot < DIR_SLOTS
    requires ino < MAX_INODES && DATA_START_LBA <= blk < MAX_BLOCKS && Unowned(d, ino, blk)
    requires GetBit(d[INODE_BITMAP_LBA], ino) && GetBit(d[BLOCK_BITMAP_LBA], blk)
    requires ValidName(name) && |data| <= BLOCK_SIZE
    requires InodeAt(Table(d), ino) == Inode(1, KIND_FILE, |data|, blk)
    requires DirentAt(d[ROOT_DIR_LBA], slot).used == 0 && FindFrom(d[ROOT_DIR_LBA], name, 0) == DIR_SLOTS
    ensures GoodTx(FileTx(d[ROOT_DIR_LBA], slot, ino, blk, name, data))
    ensures var e := Apply(d, FileTx(d[ROOT_DIR_LBA], slot, ino, blk, name, data));
            && Clean(e)
            && (forall n: Name :: Contents(e, n) == if n == name then Some(data) else Contents(d, n))
            && (Owned(d) ==> Owned(e))
  {
    hide GetBit, InodeAt, SuperOk, Table, DirentAt, PutDirent, FileTx, FindFrom;
    var dir := d[ROOT_DIR_LBA];
    FileBlocks(d, slot, ino, blk, name, data);
    var e := Apply(d, FileTx(dir, slot, ino, blk, name, data));
    var entry := Dirent(1, ino, Padded(name));
    var dir' := e[ROOT_DIR_LBA];
    forall j | 0 <= j < DIR_SLOTS
      ensures DirentAt(dir', j) == if j == slot then entry else DirentAt(dir, j)
      ensures DirentAt(dir', j).used != 0 ==> EntryOk(e, DirentAt(dir', j))
      ensures j != slot && DirentAt(dir, j).used != 0 ==> FileOf(e, DirentAt(dir, j)) == FileOf(d, DirentAt(dir, j))
    {
      PutDirentAt(dir, slot, entry, j);
    }
    forall n: Name
      ensures Contents(e, n) == if n == name then Some(data) else Contents(d, n)
    {
      FindAfterPut(dir, slot, ino, name, n);
    }
  }

  // ----- crashes -----

  /** Nothing above depends on the journal blocks. */
  lemma HomeDecides(d: Disk, e: Disk)
    requires |d| == |e| == MAX_BLOCKS && SameHome(d, e) && Clean(d)
    ensures Clean(e)
    ensures forall n: Name :: Contents(e, n) == Contents(d, n)
    ensures Owned(d) ==> Owned(e)
  {
    hide GetBit, InodeAt, SuperOk, DirentAt, FindFrom;
    assert Table(e) == Table(d);
    forall f: Dirent | EntryOk(d, f)
      ensures EntryOk(e, f) && FileOf(e, f) == FileOf(d, f)
    {
    }
  }

  /** Writes of a successful file write up to and including the second commit header. */
  const COMMIT_POINT := 27

  /** `r` is a sound, unjournalled disk that holds the files of `d`, and `name` with `data` too if `stored`. */
  ghost predicate Holds(r: Disk, d: Disk, stored: bool, name: Name, data: seq<uint8>)
    requires |r| == |d| == MAX_BLOCKS && Clean(d)
  {
    && JournalEmpty(r)
    && Clean(r)
    && (Owned(d) ==> Owned(r))
    && forall n: Name :: Contents(r, n) == if stored && n == name then Some(data) else Contents(d, n)
  }

  /** After the first `k` of the writes, recovery succeeds and yields such a disk. */
  ghost predicate Survives(d: Disk, ws: seq<Write>, k: nat, stored: bool, name: Name, data: seq<uint8>)
    requires |d| == MAX_BLOCKS && Clean(d) && InRange(ws, MAX_BLOCKS) && k <= |ws|
  {
    var e := Apply(d, ws[..k]);
    SafeJournal(e) && RecoverPlan(e).rc == E_OK && Holds(Recovered(e), d, stored, name, data)
  }

  lemma MetaCut(d: Disk, ino: nat, blk: nat, size: uint32, seqno: uint32, k: nat, name: Name, data: seq<uint8>)
    requires |d| == MAX_BLOCKS && Clean(d) && JournalEmpty(d) && 0 < ino < MAX_INODES && blk < MAX_BLOCKS
    requires !GetBit(d[INODE_BITMAP_LBA], ino) && !GetBit(d[BLOCK_BITMAP_LBA], blk)
    requires k <= |CommitPlan(MetaTx(d, ino, blk, size), seqno, false).writes|
    ensures Survives(d, CommitPlan(MetaTx(d, ino, blk, size), seqno, false).writes, k, false, name, data)
  {
    hide GetBit, Clean, Contents, Owned, MetaTx, CommitPlan, Apply, RecoverPlan, SafeJournal, JournalEmpty;
    var tx := MetaTx(d, ino, blk, size);
    MetaStep(d, ino, blk, size);
    CommitAtomic(d, tx, seqno, false, k);
    var e := Apply(d, CommitPlan(tx, seqno, false).writes[..k]);
    HomeDecides(if k < 2 * |tx| + 2 then d else Apply(d, tx), Recovered(e));
  }

  lemma FileCut(d: Disk, slot: nat, ino: nat, blk: nat, name: Name, data: seq<uint8>, seqno: uint32, stop: bool, k: nat)
    requires |d| == MAX_BLOCKS && Clean(d) && JournalEmpty(d) && slot < DIR_SLOTS
    requires ino < MAX_INODES && DATA_START_LBA <= blk < MAX_BLOCKS && Unowned(d, ino, blk)
    requires GetBit(d[INODE_BITMAP_LBA], ino) && GetBit(d[BLOCK_BITMAP_LBA], blk)
    requires ValidName(name) && |data| <= BLOCK_SIZE
    requires InodeAt(Table(d), ino) == Inode(1, KIND_FILE, |data|, blk)
    requires DirentAt(d[ROOT_DIR_LBA], slot).used == 0 && FindFrom(d[ROOT_DIR_LBA], name, 0) == DIR_SLOTS
    requires k <= |CommitPlan(FileTx(d[ROOT_DIR_LBA], slot, ino, blk, name, data), seqno, stop).writes|
    ensures Survives(d, CommitPlan(FileTx(d[ROOT_DIR_LBA], slot, ino, blk, name, data), seqno, stop).writes, k, k >= 6,
                     name, data)
  {
    hide GetBit, Clean, Contents, Owned, Unowned, CommitPlan, Apply, RecoverPlan, SafeJournal, JournalEmpty,
      InodeAt, DirentAt, FindFrom, PutDirent;
    var tx := FileTx(d[ROOT_DIR_LBA], slot, ino, blk, name, data);
    FileStep(d, slot, ino, blk, name, data);
    CommitAtomic(d, tx, seqno, stop, k);
    var e := Apply(d, CommitPlan(tx, seqno, stop).writes[..k]);
    HomeDecides(if k < 6 then d else Apply(d, tx), Recovered(e));
  }

  /** Between the two transactions: the new inode and block are taken and belong to nobody yet. */
  lemma MetaDone(d: Disk, ino: nat, blk: nat, size: uint32, seqno: uint32)
    requires |d| == MAX_BLOCKS && Clean(d) && 0 < ino < MAX_INODES && blk < MAX_BLOCKS
    requires !GetBit(d[INODE_BITMAP_LBA], ino) && !GetBit(d[BLOCK_BITMAP_LBA], blk)
    ensures CommitPlan(MetaTx(d, ino, blk, size), seqno, false).rc == E_OK
    ensures var e := Apply(d, CommitPlan(MetaTx(d, ino, blk, size), seqno, false).writes);
            && JournalEmpty(e) && Clean(e) && Unowned(e, ino, blk)
            && (forall n: Name :: Contents(e, n) == Contents(d, n))
            && (Owned(d) ==> Owned(e))
            && e[ROOT_DIR_LBA] == d[ROOT_DIR_LBA]
            && GetBit(e[INODE_BITMAP_LBA], ino) && GetBit(e[BLOCK_BITMAP_LBA], blk)
            && InodeAt(Table(e), ino) == Inode(1, KIND_FILE, size, blk)
  {
    hide GetBit, Clean, Contents, Owned, MetaTx, CommitPlan, Apply, JournalEmpty, InodeAt, DirentAt;
    var tx := MetaTx(d, ino, blk, size);
    MetaStep(d, ino, blk, size);
    CommitDone(d, tx, seqno);
    var c := Apply(d, tx);
    var e := Apply(d, CommitPlan(tx, seqno, false).writes);
    HomeDecides(c, e);
    assert Table(e) == Table(c);
  }

  lemma StoreCutCommits(d: Disk, slot: nat, ino: nat, blk: nat, name: Name, data: seq<uint8>,
                        p1: Plan, p2: Plan, s1: uint32, s2: uint32, stop: bool, k: nat)
    requires |d| == MAX_BLOCKS && Clean(d) && JournalEmpty(d) && slot < DIR_SLOTS
    requires 0 < ino < MAX_INODES && DATA_START_LBA <= blk < MAX_BLOCKS
    requires !GetBit(d[INODE_BITMAP_LBA], ino) && !GetBit(d[BLOCK_BITMAP_LBA], blk)
    requires ValidName(name) && |data| <= BLOCK_SIZE
    requires DirentAt(d[ROOT_DIR_LBA], slot).used == 0 && FindFrom(d[ROOT_DIR_LBA], name, 0) == DIR_SLOTS
    requires p1 == CommitPlan(MetaTx(d, ino, blk, |data|), s1, false)
    requires p2 == CommitPlan(FileTx(d[ROOT_DIR_LBA], slot, ino, blk, name, data), s2, stop)
    requires k <= |p1.writes + p2.writes|
    ensures InRange(p1.writes + p2.writes, MAX_BLOCKS)
    ensures Survives(d, p1.writes + p2.writes, k, k >= COMMIT_POINT, name, data)
  {
    hide GetBit, InodeAt, DirentAt, FindFrom, Clean, Contents, Owned, JournalEmpty, Unowned, SafeJournal,
      RecoverPlan, CommitPlan, FileTx, Apply, PutInode, PutBit, LogPhase;
    var ws1, ws2 := p1.writes, p2.writes;
    MetaDone(d, ino, blk, |data|, s1);
    MetaBlocks(d, ino, blk, |data|);
    CommitPlanGood(MetaTx(d, ino, blk, |data|), s1, false);
    assert |ws1| == 21;
    var d1 := Apply(d, ws1);
    if k <= |ws1| {
      assert (ws1 + ws2)[..k] == ws1[..k];
      MetaCut(d, ino, blk, |data|, s1, k, name, data);
      FileCut(d1, slot, ino, blk, name, data, s2, stop, 0);
    } else {
      var m := k - |ws1|;
      FileCut(d1, slot, ino, blk, name, data, s2, stop, m);
      assert (ws1 + ws2)[..k] == ws1 + ws2[..m];
      ApplyConcat(d, ws1, ws2[..m]);
    }
  }

  /** A mounted file write cut off after any number of block writes. */
  lemma StoreCut(d: Disk, name: Name, data: seq<uint8>, stop: bool, k: nat)
    requires |d| == MAX_BLOCKS && Clean(d) && JournalEmpty(d)
    requires ValidName(name) && |data| <= BLOCK_SIZE
    requires k <= |StorePlan(d, name, data, stop).writes|
    ensures Survives(d, StorePlan(d, name, data, stop).writes, k, k >= COMMIT_POINT, name, data)
  {
    hide GetBit, InodeAt, DirentAt, FindFrom, Clean, Contents, Owned, JournalEmpty, Unowned, SafeJournal,
      RecoverPlan, CommitPlan, MetaTx, FileTx, FirstClear, FreeSlotFrom;
    var dir := d[ROOT_DIR_LBA];
    var ino := FirstClear(d[INODE_BITMAP_LBA], 1, MAX_INODES);
    var blk := FirstClear(d[BLOCK_BITMAP_LBA], DATA_START_LBA, MAX_BLOCKS);
    var slot := FreeSlotFrom(dir, 0);
    if FindFrom(dir, name, 0) < DIR_SLOTS || ino == MAX_INODES || blk == MAX_BLOCKS || slot == DIR_SLOTS {
      RecoverEmpty(d);
    } else {
      var s1: uint32 := (Get32(d[0], 52) + 1) % 0x1_0000_0000;
      var s2: uint32 := (Get32(d[0], 52) + 2) % 0x1_0000_0000;
      var p1 := CommitPlan(MetaTx(d, ino, blk, |data|), s1, false);
      var p2 := CommitPlan(FileTx(dir, slot, ino, blk, name, data), s2, stop);
      MetaDone(d, ino, blk, |data|, s1);
      StoreCutCommits(d, slot, ino, blk, name, data, p1, p2, s1, s2, stop, k);
    }
  }

  // ----- formatting -----

  function SuperBlock(): (b: Block)
    ensures SuperOk(b)
  {
    hide Get32, Get64, Splice;
    var b1 := Put32(Put32(Put64(ZeroBlock, 0, MAGIC), 8, VERSION), 12, BLOCK_SIZE);
    var b2 := Put32(Put32(Put32(b1, 16, MAX_BLOCKS), 20, JOURNAL_START), 24, JOURNAL_BLOCKS);
    var b3 := Put32(Put32(b2, 28, INODE_BITMAP_LBA), 32, BLOCK_BITMAP_LBA);
    var b4 := Put32(Put32(b3, 36, INODE_TABLE_LBA), 40, INODE_TABLE_BLOCKS);
    Put32(Put32(Put32(b4, 44, ROOT_DIR_LBA), 48, DATA_START_LBA), 52, 1)
  }

  /** Superblock, bitmaps and inode table of a file system that holds only its root directory. */
  datatype Fresh = Fresh(sb: Block, ib: Block, bb: Block, table: seq<uint8>)

  predicate FreshOk(f: Fresh) {
    && SuperOk(f.sb)
    && GetBit(f.ib, 0)
    && (forall b :: 0 <= b < DATA_START_LBA ==> GetBit(f.bb, b))
    && |f.table| == MAX_INODES * INODE_SIZE
    && InodeAt(f.table, 0) == Inode(1, KIND_DIR, 0, ROOT_DIR_LBA)
  }

  function FormatWrites(f: Fresh): (ws: seq<Write>)
    requires FreshOk(f)
    ensures InRange(ws, MAX_BLOCKS)
  {
    [ Write(0, f.sb),
      Write(INODE_BITMAP_LBA, f.ib),
      Write(BLOCK_BITMAP_LBA, f.bb),
      Write(INODE_TABLE_LBA, f.table[..512]),
      Write(INODE_TABLE_LBA + 1, f.table[512..1024]),
      Write(INODE_TABLE_LBA + 2, f.table[1024..1536]),
      Write(INODE_TABLE_LBA + 3, f.table[1536..]),
      Write(ROOT_DIR_LBA, ZeroBlock),
      Clear ]
  }

  lemma {:induction false} LastOfDistinct(ws: seq<Write>, k: nat)
    requires k < |ws|
    requires forall i, j :: 0 <= i < j < |ws| ==> ws[i].lba != ws[j].lba
    ensures Touches(ws, ws[k].lba) && Last(ws, ws[k].lba) == ws[k].data
  {
    assert ws[k].lba == ws[k].lba;
    var n := |ws| - 1;
    if k < n {
      assert ws[..n][k] == ws[k];
      LastOfDistinct(ws[..n], k);
    }
  }

  lemma FormatDistinct(f: Fresh)
    requires FreshOk(f)
    ensures forall i, j :: 0 <= i < j < |FormatWrites(f)| ==> FormatWrites(f)[i].lba != FormatWrites(f)[j].lba
  {
    hide GetBit, InodeAt, SuperOk;
  }

  lemma FormatWrote(d: Disk, f: Fresh, k: nat)
    requires |d| == MAX_BLOCKS && FreshOk(f) && k < |FormatWrites(f)|
    ensures var w := FormatWrites(f)[k]; Apply(d, FormatWrites(f))[w.lba] == w.data
  {
    hide Apply, Last, Touches, GetBit, InodeAt, SuperOk, FormatWrites;
    FormatDistinct(f);
    LastOfDistinct(FormatWrites(f), k);
    ApplyAt(d, FormatWrites(f), FormatWrites(f)[k].lba);
  }

  lemma TableParts(e: Disk, t: seq<uint8>)
    requires |e| == MAX_BLOCKS && |t| == 2048
    requires e[INODE_TABLE_LBA] == t[..512] && e[INODE_TABLE_LBA + 1] == t[512..1024]
    requires e[INODE_TABLE_LBA + 2] == t[1024..1536] && e[INODE_TABLE_LBA + 3] == t[1536..]
    ensures Table(e) == t
  {
    assert t[..512] + t[512..1024] + t[1024..1536] + t[1536..] == t;
  }

  lemma FormatBlocks(d: Disk, f: Fresh)
    requires |d| == MAX_BLOCKS && FreshOk(f)
    ensures var e := Apply(d, FormatWrites(f));
            && e[0] == f.sb && e[JOURNAL_START] == ZeroBlock
            && e[INODE_BITMAP_LBA] == f.ib && e[BLOCK_BITMAP_LBA] == f.bb
            && Table(e) == f.table && e[ROOT_DIR_LBA] == ZeroBlock
  {
    hide Apply, GetBit, InodeAt, SuperOk, Table;
    FormatWrote(d, f, 0);
    FormatWrote(d, f, 1);
    FormatWrote(d, f, 2);
    FormatWrote(d, f, 3);
    FormatWrote(d, f, 4);
    FormatWrote(d, f, 5);
    FormatWrote(d, f, 6);
    FormatWrote(d, f, 7);
    FormatWrote(d, f, 8);
    TableParts(Apply(d, FormatWrites(f)), f.table);
  }

  lemma ZeroDirent(i: nat)
    requires i < DIR_SLOTS
    ensures DirentAt(ZeroBlock, i).used == 0
  {
  }

  /** A fresh file system checks out, holds no files, and has an empty journal. */
  lemma FormatHolds(d: Disk, f: Fresh)
    requires |d| == MAX_BLOCKS && FreshOk(f)
    ensures var e := Apply(d, FormatWrites(f));
            && JournalEmpty(e) && Clean(e) && Owned(e)
            && forall n: Name :: Contents(e, n) == None
  {
    hide Apply, FormatWrites, SuperOk, GetBit, InodeAt, DirentAt, Table;
    FormatBlocks(d, f);
    forall i | 0 <= i < DIR_SLOTS
      ensures DirentAt(ZeroBlock, i).used == 0
    {
      ZeroDirent(i);
    }
  }

  /** A mounted file write that is not refused reaches its commit point; one that is refused writes nothing. */
  lemma StoreReaches(d: Disk, name: Name, data: seq<uint8>, stop: bool)
    requires |d| == MAX_BLOCKS && Clean(d) && ValidName(name) && |data| <= BLOCK_SIZE
    ensures var p := StorePlan(d, name, data, stop);
            && (p.rc == E_OK <==> |p.writes| >= COMMIT_POINT)
            && (p.rc != E_OK ==> p.writes == [])
            && (p.rc == E_OK ==> Contents(d, name) == None)
  {
    hide GetBit, InodeAt, DirentAt, FindFrom, EntryOk, SuperOk, RootOk, AreaMarked, CommitPlan, FirstClear, FreeSlotFrom,
      LogPhase, PutDirent, PutInode, PutBit, Table;
    var dir := d[ROOT_DIR_LBA];
    var ino := FirstClear(d[INODE_BITMAP_LBA], 1, MAX_INODES);
    var blk := FirstClear(d[BLOCK_BITMAP_LBA], DATA_START_LBA, MAX_BLOCKS);
    var slot := FreeSlotFrom(dir, 0);
    if FindFrom(dir, name, 0) == DIR_SLOTS && ino < MAX_INODES && blk < MAX_BLOCKS && slot < DIR_SLOTS {
      var s1: uint32 := (Get32(d[0], 52) + 1) % 0x1_0000_0000;
      var s2: uint32 := (Get32(d[0], 52) + 2) % 0x1_0000_0000;
      CommitPlanGood(MetaTx(d, ino, blk, |data|), s1, false);
      CommitPlanGood(FileTx(dir, slot, ino, blk, name, data), s2, stop);
    }
  }
}
