/**
 The MCSFS1 disk image (`fs/mcsfs1/mcsfs1.c`): superblock, bitmaps, inode table, root directory, and the typed view of a
 disk. Inodes and directory entries share blocks, so every update of one is a read-modify-write of its block that has to
 leave the others alone.
 */
module Mcsfs1Layout {
  import opened Bytes
  import opened BlockDevice

  const MAGIC: uint32 := 0x31465343
  const VERSION := 1
  const SB_LBA := 0
  const INODE_BMAP_LBA := 1
  const BLOCK_BMAP_LBA := 2
  const INODE_TABLE_LBA := 3
  const INODE_TABLE_BLOCKS := 4
  const ROOT_DIR_LBA := 7
  const DATA_START_LBA := 8
  const MIN_BLOCKS := 16
  const MAX_DISK := 8 * BLOCK_SIZE
  const MAX_INODES := 32
  const DIRECT_BLOCKS := 8
  const MAX_NAME := 27
  const ROOT_INO := 1
  const MODE_FILE := 1
  const MODE_DIR := 2
  const INODE_SIZE := 60
  const INODES_PER_BLOCK := BLOCK_SIZE / INODE_SIZE
  const DIRENT_SIZE := 32
  const DIR_SLOTS := 16

  const E_NOSPC := -3
  const E_EXIST := -4
  const E_NOENT := -5
  const E_NAMETOOLONG := -6
  const E_CORRUPT := -7
  const E_ISDIR := -8
  const E_RANGE := -9

  /** Sizes of a device that can be mounted; the bitmaps have a bit for each of up to 4096 blocks. */
  predicate DiskSize(n: nat) {
    DATA_START_LBA < n <= MAX_DISK
  }

  predicate SuperOk(sb: Block, blockCount: nat) {
    && Get32(sb, 0) == MAGIC && Get32(sb, 4) == VERSION && Get32(sb, 8) == BLOCK_SIZE
    && Get32(sb, 12) == blockCount && Get32(sb, 16) == MAX_INODES
    && Get32(sb, 20) == INODE_BMAP_LBA && Get32(sb, 24) == BLOCK_BMAP_LBA && Get32(sb, 28) == INODE_TABLE_LBA
    && Get32(sb, 36) == ROOT_INO && Get32(sb, 40) == ROOT_DIR_LBA && Get32(sb, 44) == DATA_START_LBA
    && DATA_START_LBA < blockCount
  }

  // ----- inodes -----

  /** The 60 bytes of one on-disk inode. */
  type RawInode = r: seq<uint8> | |r| == INODE_SIZE witness Zeros(INODE_SIZE)

  /** The fields of an inode that any operation looks at. */
  datatype Node = Node(mode: int, size: uint32, direct: seq<uint32>)

  function NodeOf(r: RawInode): (n: Node)
    ensures |n.direct| == DIRECT_BLOCKS
  {
    Node(Get16(r, 0), Get32(r, 4), seq(DIRECT_BLOCKS, j requires 0 <= j < DIRECT_BLOCKS => Get32(r, 8 + 4 * j)))
  }

  function TableLba(ino: nat): (l: nat)
    requires 1 <= ino <= MAX_INODES
    ensures INODE_TABLE_LBA <= l < ROOT_DIR_LBA
  {
    INODE_TABLE_LBA + (ino - 1) / INODES_PER_BLOCK
  }

  function TableOff(ino: nat): (o: nat)
    requires 1 <= ino <= MAX_INODES
    ensures o + INODE_SIZE <= BLOCK_SIZE
  {
    (ino - 1) % INODES_PER_BLOCK * INODE_SIZE
  }

  function InodeBytes(d: Disk, ino: nat): (r: RawInode)
    requires |d| > DATA_START_LBA && 1 <= ino <= MAX_INODES
  {
    d[TableLba(ino)][TableOff(ino)..TableOff(ino) + INODE_SIZE]
  }

  /** The read-modify-write of `write_inode`. */
  function InodeWrite(d: Disk, ino: nat, r: RawInode): (w: Write)
    requires |d| > DATA_START_LBA && 1 <= ino <= MAX_INODES
    ensures w.lba == TableLba(ino)
  {
    Write(TableLba(ino), Splice(d[TableLba(ino)], TableOff(ino), r))
  }

  lemma TableApart(i: nat, j: nat)
    requires 1 <= i <= MAX_INODES && 1 <= j <= MAX_INODES && i != j && TableLba(i) == TableLba(j)
    ensures Apart(TableOff(i), INODE_SIZE, TableOff(j), INODE_SIZE)
  {
  }

  /** Inodes share table blocks; writing one leaves the other 31 alone. */
  lemma InodeWriteAt(d: Disk, ino: nat, r: RawInode, i: nat)
    requires |d| > DATA_START_LBA && 1 <= ino <= MAX_INODES && 1 <= i <= MAX_INODES
    ensures var w := InodeWrite(d, ino, r);
            InodeBytes(d[w.lba := w.data], i) == if i == ino then r else InodeBytes(d, i)
  {
    hide TableLba, TableOff, Splice;
    if TableLba(i) == TableLba(ino) {
      if i == ino {
        SpliceSame(d[TableLba(ino)], TableOff(ino), r);
      } else {
        TableApart(ino, i);
        SpliceApart(d[TableLba(ino)], TableOff(ino), r, TableOff(i), INODE_SIZE);
      }
    }
  }

  /** The mode of a regular file, and one link. */
  function SetFile(r: RawInode): (r': RawInode)
    ensures NodeOf(r') == NodeOf(r).(mode := MODE_FILE)
  {
    hide Get16, Get32, Splice;
    Put16(Put16(r, 0, MODE_FILE), 2, 1)
  }

  function FreshInode(lba: uint32): (r: RawInode)
    ensures NodeOf(r) == Node(MODE_FILE, 0, [lba, 0, 0, 0, 0, 0, 0, 0])
  {
    ZeroInode();
    hide NodeOf, SetFile, SetDirect, Zeros;
    SetFile(SetDirect(Zeros(INODE_SIZE), 0, lba))
  }

  lemma ZeroInode()
    ensures NodeOf(Zeros(INODE_SIZE)) == Node(0, 0, [0, 0, 0, 0, 0, 0, 0, 0])
  {
  }

  function SetDirect(r: RawInode, j: nat, lba: uint32): (r': RawInode)
    requires j < DIRECT_BLOCKS
    ensures NodeOf(r') == NodeOf(r).(direct := NodeOf(r).direct[j := lba])
  {
    hide Get16, Get32, Splice;
    Put32(r, 8 + 4 * j, lba)
  }

  function SetSize(r: RawInode, size: uint32): (r': RawInode)
    ensures NodeOf(r') == NodeOf(r).(size := size)
  {
    hide Get16, Get32, Splice;
    Put32(r, 4, size)
  }

  // ----- directory slots -----

  /** A directory slot; `field` is the whole 27-byte name field. */
  datatype Slot = Slot(ino: uint32, kind: uint8, field: seq<uint8>)

  function SlotAt(dir: Block, i: nat): (s: Slot)
    requires i < DIR_SLOTS
    ensures |s.field| == MAX_NAME
  {
    var o := DIRENT_SIZE * i;
    Slot(Get32(dir, o), dir[o + 4], dir[o + 5..o + DIRENT_SIZE])
  }

  function SlotBytes(s: Slot): (b: seq<uint8>)
    requires |s.field| == MAX_NAME
    ensures |b| == DIRENT_SIZE
  {
    Enc32(s.ino) + [s.kind] + s.field
  }

  function PutSlot(dir: Block, i: nat, s: Slot): (r: Block)
    requires i < DIR_SLOTS && |s.field| == MAX_NAME
  {
    Splice(dir, DIRENT_SIZE * i, SlotBytes(s))
  }

  lemma PutSlotAt(dir: Block, i: nat, s: Slot, j: nat)
    requires i < DIR_SLOTS && |s.field| == MAX_NAME && j < DIR_SLOTS
    ensures SlotAt(PutSlot(dir, i, s), j) == if j == i then s else SlotAt(dir, j)
  {
    hide Get32;
    var o, p, b := DIRENT_SIZE * i, DIRENT_SIZE * j, SlotBytes(s);
    var r := PutSlot(dir, i, s);
    if j == i {
      SpliceSame(dir, o, b);
      assert r[o..o + DIRENT_SIZE] == b;
      assert r[o..o + 4] == b[..4] == Enc32(s.ino);
      DecEnc32(r, o, s.ino);
      assert r[o + 4] == b[4] == s.kind;
      assert r[o + 5..o + DIRENT_SIZE] == b[5..] == s.field;
    } else {
      SpliceApart(dir, o, b, p, DIRENT_SIZE);
      assert r[p..p + DIRENT_SIZE] == dir[p..p + DIRENT_SIZE];
      assert r[p..p + 4] == r[p..p + DIRENT_SIZE][..4] == dir[p..p + 4];
      Get32Local(r, p, dir, p);
      assert r[p + 4] == r[p..p + DIRENT_SIZE][4] == dir[p + 4];
      assert r[p + 5..p + DIRENT_SIZE] == r[p..p + DIRENT_SIZE][5..] == dir[p + 5..p + DIRENT_SIZE];
    }
  }

  lemma DecEnc32(b: seq<uint8>, o: nat, v: uint32)
    requires o + 4 <= |b| && b[o..o + 4] == Enc32(v)
    ensures Get32(b, o) == v
  {
    var s := b[o..o + 4];
    assert s[0] == b[o] && s[1] == b[o + 1] && s[2] == b[o + 2] && s[3] == b[o + 3];
  }

  // ----- the view -----

  /** The bits set in a bitmap block. */
  function BitsOf(bm: Block): (s: set<nat>) {
    set i: nat | i < MAX_DISK && GetBit(bm, i)
  }

  datatype View = View(slots: seq<Slot>, nodes: seq<Node>, inodes: set<nat>, blocks: set<nat>)

  function ViewOf(d: Disk): (v: View)
    requires |d| > DATA_START_LBA
    ensures |v.slots| == DIR_SLOTS && |v.nodes| == MAX_INODES + 1
  {
    View(seq(DIR_SLOTS, i requires 0 <= i < DIR_SLOTS => SlotAt(d[ROOT_DIR_LBA], i)),
         seq(MAX_INODES + 1, i requires 0 <= i <= MAX_INODES => if i == 0 then Node(0, 0, []) else NodeOf(InodeBytes(d, i))),
         BitsOf(d[INODE_BMAP_LBA]),
         BitsOf(d[BLOCK_BMAP_LBA]))
  }

  lemma BitsPut(bm: Block, i: nat, on: bool)
    requires i < MAX_DISK
    ensures BitsOf(PutBit(bm, i, on)) == if on then BitsOf(bm) + {i} else BitsOf(bm) - {i}
  {
    hide GetBit;
  }

  /** What one block write does to the view. */
  lemma ViewWrite(d: Disk, w: Write)
    requires |d| > DATA_START_LBA && w.lba < |d|
    ensures var v, v' := ViewOf(d), ViewOf(d[w.lba := w.data]);
            && (w.lba == INODE_BMAP_LBA ==> v' == v.(inodes := BitsOf(w.data)))
            && (w.lba == BLOCK_BMAP_LBA ==> v' == v.(blocks := BitsOf(w.data)))
            && (w.lba >= DATA_START_LBA ==> v' == v)
  {
    hide NodeOf, SlotAt, BitsOf;
    var e := d[w.lba := w.data];
    if w.lba < INODE_TABLE_LBA || w.lba > ROOT_DIR_LBA {
      assert forall i :: 1 <= i <= MAX_INODES ==> InodeBytes(e, i) == InodeBytes(d, i);
      assert ViewOf(e).nodes == ViewOf(d).nodes;
      assert ViewOf(e).slots == ViewOf(d).slots;
    }
  }

  lemma ViewInodeWrite(d: Disk, ino: nat, r: RawInode)
    requires |d| > DATA_START_LBA && 1 <= ino <= MAX_INODES
    ensures var w := InodeWrite(d, ino, r);
            ViewOf(d[w.lba := w.data]) == ViewOf(d).(nodes := ViewOf(d).nodes[ino := NodeOf(r)])
  {
    hide NodeOf, SlotAt, BitsOf, InodeBytes;
    var w := InodeWrite(d, ino, r);
    var e := d[w.lba := w.data];
    forall i | 1 <= i <= MAX_INODES
      ensures InodeBytes(e, i) == if i == ino then r else InodeBytes(d, i)
    {
      InodeWriteAt(d, ino, r, i);
    }
    assert ViewOf(e).nodes == ViewOf(d).nodes[ino := NodeOf(r)];
    assert ViewOf(e).slots == ViewOf(d).slots;
  }

  lemma ViewSlotWrite(d: Disk, i: nat, s: Slot)
    requires |d| > DATA_START_LBA && i < DIR_SLOTS && |s.field| == MAX_NAME
    ensures ViewOf(d[ROOT_DIR_LBA := PutSlot(d[ROOT_DIR_LBA], i, s)]) == ViewOf(d).(slots := ViewOf(d).slots[i := s])
  {
    hide NodeOf, SlotAt, BitsOf, PutSlot;
    var e := d[ROOT_DIR_LBA := PutSlot(d[ROOT_DIR_LBA], i, s)];
    forall j | 0 <= j < DIR_SLOTS
      ensures SlotAt(e[ROOT_DIR_LBA], j) == if j == i then s else SlotAt(d[ROOT_DIR_LBA], j)
    {
      PutSlotAt(d[ROOT_DIR_LBA], i, s, j);
    }
    assert forall j :: 1 <= j <= MAX_INODES ==> InodeBytes(e, j) == InodeBytes(d, j);
    assert ViewOf(e).nodes == ViewOf(d).nodes;
    assert ViewOf(e).slots == ViewOf(d).slots[i := s];
  }
}
