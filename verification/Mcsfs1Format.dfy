/**
 MCSFS1 format (`fs/mcsfs1/mcsfs1.c`): the device is zeroed block by block, then the superblock, the two bitmaps and the
 root inode are written.

 The image is sound and holds no files, whatever was on the device before.
 */
module Mcsfs1Format {
  import opened Bytes
  import opened BlockDevice
  import opened Mcsfs1Layout
  import opened Mcsfs1State
  import opened Mcsfs1Create
  import opened Mcsfs1Runs
  import opened Mcsfs1Refine

  /** Superblock, bitmaps and root inode as `mcsfs1_format` builds them in memory. */
  datatype Fresh = Fresh(sb: Block, ib: Block, bb: Block, root: RawInode)

  predicate FreshOk(f: Fresh, n: nat) {
    && SuperOk(f.sb, n)
    && (forall i :: 0 <= i < MAX_DISK ==> GetBit(f.ib, i) == (i <= ROOT_INO))
    && (forall b :: 0 <= b < MAX_DISK ==> GetBit(f.bb, b) == (b < DATA_START_LBA))
    && NodeOf(f.root).mode == MODE_DIR && NodeOf(f.root).direct[0] == ROOT_DIR_LBA
  }

  function ZeroWrites(n: nat): (ws: seq<Write>)
    requires n <= MAX_DISK
    ensures |ws| == n && InRange(ws, n)
    ensures forall l :: 0 <= l < n ==> ws[l] == Write(l, ZeroBlock)
  {
    seq(n, l requires 0 <= l < n => Write(l, ZeroBlock))
  }

  const ZeroImage := (n: nat) => seq(n, _ => ZeroBlock)

  lemma {:induction false} ZeroesAll(d: Disk, k: nat)
    requires k <= |d| <= MAX_DISK
    ensures var e := Apply(d, ZeroWrites(|d|)[..k]);
            (forall l :: 0 <= l < k ==> e[l] == ZeroBlock) && (forall l :: k <= l < |d| ==> e[l] == d[l])
  {
    hide Apply;
    var ws := ZeroWrites(|d|);
    if k == 0 {
      ApplyNone(d, ws[..0]);
    } else {
      ZeroesAll(d, k - 1);
      ApplyStep(d, ws, k - 1);
    }
  }

  /** The writes after the image has been zeroed. */
  function ImageWrites(z: Disk, f: Fresh): (ws: seq<Write>)
    requires DiskSize(|z|) && FreshOk(f, |z|)
    ensures InRange(ws, |z|) && |ws| == 4
  {
    [ Write(SB_LBA, f.sb), Write(INODE_BMAP_LBA, f.ib), Write(BLOCK_BMAP_LBA, f.bb), InodeWrite(z, ROOT_INO, f.root) ]
  }

  /** `mcsfs1_format` on a device of an acceptable size. */
  function FormatWrites(n: nat, f: Fresh): (ws: seq<Write>)
    requires DiskSize(n) && FreshOk(f, n)
    ensures InRange(ws, n)
  {
    ZeroWrites(n) + ImageWrites(ZeroImage(n), f)
  }

  lemma ZeroView(z: Disk)
    requires |z| > DATA_START_LBA && forall l :: 0 <= l < |z| ==> z[l] == ZeroBlock
    ensures var v := ViewOf(z);
            forall i :: 0 <= i < DIR_SLOTS ==> v.slots[i].ino == 0
  {
    forall i | 0 <= i < DIR_SLOTS
      ensures SlotAt(ZeroBlock, i).ino == 0
    {
    }
  }

  lemma FreshView(z: Disk, f: Fresh)
    requires DiskSize(|z|) && (forall l :: 0 <= l < |z| ==> z[l] == ZeroBlock) && FreshOk(f, |z|)
    ensures var e := Apply(z, ImageWrites(z, f));
            && e[SB_LBA] == f.sb
            && var v := ViewOf(e);
            && (forall i :: 0 <= i < DIR_SLOTS ==> v.slots[i].ino == 0)
            && v.inodes == BitsOf(f.ib) && v.blocks == BitsOf(f.bb) && v.nodes[ROOT_INO] == NodeOf(f.root)
  {
    hide ViewOf, BitsOf, NodeOf, SuperOk, GetBit, Splice, Apply, InodeWrite;
    ZeroView(z);
    var ws := ImageWrites(z, f);
    var d1, d2, d3, d4 := ApplyFour(z, ws);
    assert ws[..4] == ws;
    SuperWrite(z, f.sb);
    ViewWrite(d1, ws[1]);
    ViewWrite(d2, ws[2]);
    InodeWriteSame(z, d3, ROOT_INO, f.root);
    ViewInodeWrite(d3, ROOT_INO, f.root);
  }

  lemma InodeWriteSame(d: Disk, e: Disk, ino: nat, r: RawInode)
    requires |d| == |e| > DATA_START_LBA && 1 <= ino <= MAX_INODES && d[TableLba(ino)] == e[TableLba(ino)]
    ensures InodeWrite(d, ino, r) == InodeWrite(e, ino, r)
  {
  }

  lemma SuperWrite(d: Disk, sb: Block)
    requires |d| > DATA_START_LBA
    ensures ViewOf(d[SB_LBA := sb]) == ViewOf(d)
  {
    hide NodeOf, SlotAt, BitsOf;
    var e := d[SB_LBA := sb];
    assert forall i :: 1 <= i <= MAX_INODES ==> InodeBytes(e, i) == InodeBytes(d, i);
    assert ViewOf(e).nodes == ViewOf(d).nodes;
    assert ViewOf(e).slots == ViewOf(d).slots;
  }

  lemma FreshInv(v: View, n: nat, f: Fresh)
    requires DiskSize(n) && FreshOk(f, n) && |v.slots| == DIR_SLOTS && |v.nodes| == MAX_INODES + 1
    requires forall i :: 0 <= i < DIR_SLOTS ==> v.slots[i].ino == 0
    requires v.inodes == BitsOf(f.ib) && v.blocks == BitsOf(f.bb) && v.nodes[ROOT_INO] == NodeOf(f.root)
    ensures Inv(v, n)
  {
    hide GetBit, NodeOf, SuperOk;
    BitClear(f.ib, ROOT_INO);
    forall b: nat | b < DATA_START_LBA
      ensures b in v.blocks
    {
      BitClear(f.bb, b);
    }
  }

  lemma FreshSuper(f: Fresh, n: nat)
    requires FreshOk(f, n)
    ensures SuperOk(f.sb, n)
  {
  }

  lemma NothingFound(l: Listing)
    requires forall i :: 0 <= i < DIR_SLOTS ==> l[i] == None
    ensures Agrees(l, map[])
  {
    hide FindIn;
    forall past: uint8, n: Name
      ensures Found(l, past, n) == None
    {
      FoundNone(l, past, n);
    }
  }

  lemma FormatSound(d: Disk, f: Fresh)
    requires DiskSize(|d|) && FreshOk(f, |d|)
    ensures var e := Apply(d, FormatWrites(|d|, f));
            DiskOk(e) && forall i :: 0 <= i < DIR_SLOTS ==> ViewOf(e).slots[i].ino == 0
  {
    hide ViewOf, FreshOk, Inv, SuperOk, Apply, ImageWrites, BitsOf, NodeOf;
    var z := ZeroImage(|d|);
    ZeroesAll(d, |d|);
    var zw := ZeroWrites(|d|);
    assert zw[..|d|] == zw;
    assert Apply(d, zw) == z;
    ApplyConcat(d, zw, ImageWrites(z, f));
    var e := Apply(d, FormatWrites(|d|, f));
    FreshView(z, f);
    FreshInv(ViewOf(e), |d|, f);
    FreshSuper(f, |d|);
  }

  /** A formatted image is sound, passes fsck, lists no file and stands for the empty map. */
  lemma FormatRepresents(d: Disk, f: Fresh)
    requires DiskSize(|d|) && FreshOk(f, |d|)
    ensures var e := Apply(d, FormatWrites(|d|, f));
            && Represents(e, map[]) && FsckOk(e) && Plain(ListingOf(e))
            && forall i :: 0 <= i < DIR_SLOTS ==> ListingOf(e)[i] == None
  {
    hide FreshOk, DiskOk, Apply, FormatWrites, FsckOk, ViewOf, ListingOf, CStr, FileOf;
    FormatSound(d, f);
    var e := Apply(d, FormatWrites(|d|, f));
    SoundPassesFsck(e);
    assert forall i :: 0 <= i < DIR_SLOTS ==> FileAt(e, i) == None;
    NothingFound(ListingOf(e));
  }
}
