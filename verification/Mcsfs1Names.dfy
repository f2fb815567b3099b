/**
 When MCSFS1 create succeeds, and a run that loses a file (`fs/mcsfs1/mcsfs1.c`).

 The run is two creates on a fresh image. The first, of a name of 27 bytes, can be looked up; the second fills the slot
 behind it, and from then on the first file cannot be found any more, though it keeps its slot, inode and block.
 */
module Mcsfs1Names {
  import opened Bytes
  import opened BlockDevice
  import opened Mcsfs1Layout
  import opened Mcsfs1State
  import opened Mcsfs1Steps
  import opened Mcsfs1Create
  import opened Mcsfs1Runs
  import opened Mcsfs1Refine
  import opened Mcsfs1Format

  /** A create that was not refused ends with the directory write on the prepared disk `p`. */
  lemma CreateEnds(d: Disk, slot: nat, ino: nat, lba: nat, name: Name) returns (p: Disk)
    requires DiskOk(d) && slot < DIR_SLOTS && 2 <= ino <= MAX_INODES && DATA_START_LBA <= lba < |d| && |name| <= MAX_NAME
    requires var v := ViewOf(d); ino !in v.inodes && lba !in v.blocks
    ensures |p| == |d| && p[ROOT_DIR_LBA] == d[ROOT_DIR_LBA]
    ensures Apply(d, CreateWrites(d, slot, ino, lba, name)) ==
            p[ROOT_DIR_LBA := PutSlot(d[ROOT_DIR_LBA], slot, Slot(ino, MODE_FILE as uint8, Field(name)))]
    ensures var v := ViewOf(d);
            ViewOf(p) == WithNode(v.(inodes := v.inodes + {ino}, blocks := v.blocks + {lba}), ino, NodeOf(FreshInode(lba)))
  {
    hide ViewOf, Inv, SuperOk, PutBit, PutSlot, Field, SameFiles, InodeWrite, FreshInode, NodeOf, Apply;
    var ws := CreateWrites(d, slot, ino, lba, name);
    var _, _, d3, _ := ApplyFour(d, ws);
    assert ws[..4] == ws;
    var _, _, prepared := CreatePrepared(d, ino, lba);
    p := prepared;
  }

  lemma CreateView(d: Disk, slot: nat, ino: nat, lba: nat, name: Name)
    requires DiskOk(d) && slot < DIR_SLOTS && 2 <= ino <= MAX_INODES && DATA_START_LBA <= lba < |d| && |name| <= MAX_NAME
    requires var v := ViewOf(d); ino !in v.inodes && lba !in v.blocks
    ensures var v, e := ViewOf(d), Apply(d, CreateWrites(d, slot, ino, lba, name));
            && e[ROOT_DIR_LBA] == PutSlot(d[ROOT_DIR_LBA], slot, Slot(ino, MODE_FILE as uint8, Field(name)))
            && ViewOf(e).slots == v.slots[slot := Slot(ino, MODE_FILE as uint8, Field(name))]
            && ViewOf(e).inodes == v.inodes + {ino} && ViewOf(e).blocks == v.blocks + {lba}
            && ViewOf(e).nodes == v.nodes[ino := NodeOf(FreshInode(lba))]
  {
    hide ViewOf, Inv, SuperOk, PutSlot, Field, FreshInode, NodeOf, Apply, CreateWrites;
    var p := CreateEnds(d, slot, ino, lba, name);
    ViewSlotWrite(p, slot, Slot(ino, MODE_FILE as uint8, Field(name)));
  }

  /** Some bit of the bitmap from `lo` to before `hi` is clear. */
  ghost predicate SomeClear(bits: set<nat>, lo: nat, hi: nat) {
    exists i: nat :: lo <= i < hi && i !in bits
  }

  lemma FirstClearFinds(bm: Block, lo: nat, hi: nat)
    requires lo <= hi <= MAX_DISK
    ensures FirstClear(bm, lo, hi) < hi <==> SomeClear(BitsOf(bm), lo, hi)
  {
    hide GetBit, FirstClear, BitsOf;
    var r := FirstClear(bm, lo, hi);
    if r < hi {
      BitClear(bm, r);
    }
    if SomeClear(BitsOf(bm), lo, hi) {
      var i: nat :| lo <= i < hi && i !in BitsOf(bm);
      BitClear(bm, i);
    }
  }

  /** Create succeeds exactly on a valid name that a lookup does not find, with a slot, an inode and a block to spare. */
  lemma CreateSucceedsIff(d: Disk, past: uint8, name: Name)
    requires DiskOk(d) && DiskSize(|d|)
    ensures var v, l := ViewOf(d), ListingOf(d);
            CreatePlan(d, past, name).rc == E_OK <==>
              && NameRc(name) == E_OK && FindIn(l, past, name, 0) == DIR_SLOTS && FirstFree(l, 0) < DIR_SLOTS
              && SomeClear(v.inodes, 2, MAX_INODES + 1) && SomeClear(v.blocks, DATA_START_LBA, |d|)
  {
    hide ViewOf, Inv, SuperOk, CreateWrites, BitsOf, FindFrom, FindIn, FirstClear, FreeSlotFrom, FirstFree, ListingOf, SomeClear;
    BitsFields(d);
    if NameRc(name) == E_OK {
      FindIsFindIn(d, past, name);
      FreeSlotIsFirst(d);
      FirstClearFinds(d[INODE_BMAP_LBA], 2, MAX_INODES + 1);
      FirstClearFinds(d[BLOCK_BMAP_LBA], DATA_START_LBA, |d|);
    }
  }

  /** A create that succeeds takes the first free inode and the first free block. */
  lemma CreateUses(d: Disk, ev: Event) returns (ino: nat, lba: nat)
    requires DiskOk(d) && DiskSize(|d|) && ev.op.Create? && ev.cut < 0 && EventPlan(d, ev).rc == E_OK
    ensures DiskOk(After(d, ev))
    ensures ViewOf(After(d, ev)).inodes == ViewOf(d).inodes + {ino} && ViewOf(After(d, ev)).blocks == ViewOf(d).blocks + {lba}
    ensures ino >= 2 && ino !in ViewOf(d).inodes && forall i: nat :: 2 <= i < ino ==> i in ViewOf(d).inodes
    ensures lba >= DATA_START_LBA && lba !in ViewOf(d).blocks && forall b: nat :: DATA_START_LBA <= b < lba ==> b in ViewOf(d).blocks
  {
    hide ViewOf, Inv, SuperOk, CreateWrites, FindFrom, FreeSlotFrom, FirstClear, BitsOf, GetBit, Apply, NodeOf, FreshInode,
      Effect, RcAllowed, ListingOf, PutSlot, Field;
    EventExact(d, ev);
    ino := FirstClear(d[INODE_BMAP_LBA], 2, MAX_INODES + 1);
    lba := FirstClear(d[BLOCK_BMAP_LBA], DATA_START_LBA, |d|);
    BitsFields(d);
    forall i: nat | i < MAX_DISK
      ensures i in ViewOf(d).inodes <==> GetBit(d[INODE_BMAP_LBA], i)
      ensures i in ViewOf(d).blocks <==> GetBit(d[BLOCK_BMAP_LBA], i)
    {
      BitClear(d[INODE_BMAP_LBA], i);
      BitClear(d[BLOCK_BMAP_LBA], i);
    }
    var p := EventPlan(d, ev);
    CreateView(d, FreeSlotFrom(d[ROOT_DIR_LBA], 0), ino, lba, ev.name);
    assert p.writes[..|p.writes|] == p.writes;
  }

  // ----- the run -----

  /** Exactly the first `k` inodes and data blocks of the image are taken. */
  ghost predicate Taken(v: View, k: nat) {
    && (forall i: nat :: i < MAX_DISK ==> (i in v.inodes <==> i < 2 + k))
    && (forall b: nat :: b < MAX_DISK ==> (b in v.blocks <==> b < DATA_START_LBA + k))
  }

  /** A sound image with the files `l`, on which `k` creates have succeeded since it was formatted. */
  ghost predicate Grown(d: Disk, l: Listing, k: nat) {
    MIN_BLOCKS <= |d| <= MAX_DISK && Lists(d, |d|, l) && Taken(ViewOf(d), k)
  }

  /** The call returns OK and leaves `e`. */
  ghost predicate Succeeds(d: Disk, ev: Event, e: Disk) {
    DiskSize(|d|) && EventPlan(d, ev).rc == E_OK && e == After(d, ev)
  }

  lemma FreshGrown(d: Disk, f: Fresh, e: Disk)
    requires DiskSize(|d|) && |d| >= MIN_BLOCKS && FreshOk(f, |d|) && e == Apply(d, FormatWrites(|d|, f))
    ensures DiskOk(e) && Grown(e, ListingOf(e), 0) && forall i :: 0 <= i < DIR_SLOTS ==> ListingOf(e)[i] == None
  {
    hide ViewOf, Inv, SuperOk, Apply, ImageWrites, BitsOf, NodeOf, GetBit, ListingOf, FsckOk, Agrees, Plain;
    var z := ZeroImage(|d|);
    ZeroesAll(d, |d|);
    var zw := ZeroWrites(|d|);
    assert zw[..|d|] == zw;
    assert Apply(d, zw) == z;
    ApplyConcat(d, zw, ImageWrites(z, f));
    FormatRepresents(d, f);
    FreshView(z, f);
    forall i: nat | i < MAX_DISK
      ensures i in ViewOf(e).inodes <==> i <= ROOT_INO
      ensures i in ViewOf(e).blocks <==> i < DATA_START_LBA
    {
      BitClear(f.ib, i);
      BitClear(f.bb, i);
    }
  }

  /** The next create of the run, of a name the list does not have. */
  lemma Grow(d: Disk, ev: Event, l: Listing, k: nat) returns (e: Disk)
    requires Grown(d, l, k) && k < MIN_BLOCKS - DATA_START_LBA && ev.op.Create? && ev.cut < 0 && NameRc(ev.name) == E_OK
    requires FirstFree(l, 0) < DIR_SLOTS && FindIn(l, ev.past, ev.name, 0) == DIR_SLOTS
    ensures Succeeds(d, ev, e) && |e| == |d| && Grown(e, Created(l, ev.name, E_OK, 4), k + 1)
  {
    hide ViewOf, Inv, SuperOk, After, CreatePlan, ListingOf, FindIn, FirstFree, NameRc;
    assert 2 + k !in ViewOf(d).inodes && DATA_START_LBA + k !in ViewOf(d).blocks;
    CreateSucceedsIff(d, ev.past, ev.name);
    CallWhole(d, ev);
    e := After(d, ev);
    var ino, lba := CreateUses(d, ev);
    assert ino == 2 + k && lba == DATA_START_LBA + k;
  }

  /** A list with files in its first `k` slots and no others, none of them called `n`. */
  lemma FrontOnly(l: Listing, k: nat, past: uint8, n: Name)
    requires k < DIR_SLOTS
    requires forall i :: 0 <= i < DIR_SLOTS ==> if i < k then l[i].Some? && l[i].value.name != n else l[i] == None
    ensures FirstFree(l, 0) == k && FindIn(l, past, n, 0) == DIR_SLOTS
  {
    assert l[k] == None;
    FindInIs(l, past, n, DIR_SLOTS);
  }

  /**
   On a fresh image, create any name of 27 bytes and then any other name. Both return OK; after the first the new file is
   found, after the second it is not, whatever byte lies behind the lookup's buffer.
   */
  lemma LostFileRun(d: Disk, f: Fresh, ev1: Event, ev2: Event, past: uint8) returns (e0: Disk, e1: Disk, e2: Disk)
    requires DiskSize(|d|) && |d| >= MIN_BLOCKS && FreshOk(f, |d|)
    requires ev1.op.Create? && ev2.op.Create? && ev1.cut < 0 && ev2.cut < 0 && ev1.name != ev2.name
    requires NameRc(ev1.name) == NameRc(ev2.name) == E_OK && |ev1.name| == MAX_NAME
    ensures e0 == Apply(d, FormatWrites(|d|, f)) && Succeeds(e0, ev1, e1) && Succeeds(e1, ev2, e2)
    ensures DiskOk(e1) && Contents(e1, past, ev1.name) == Some([])
    ensures DiskOk(e2) && Contents(e2, past, ev1.name) == None
  {
    hide ViewOf, Inv, SuperOk, ListingOf, FindIn, FirstFree, NameRc, FormatWrites, Apply, FreshOk, Succeeds, Taken;
    e0 := Apply(d, FormatWrites(|d|, f));
    FreshGrown(d, f, e0);
    var l := ListingOf(e0);
    FrontOnly(l, 0, ev1.past, ev1.name);
    e1 := Grow(e0, ev1, l, 0);
    var l1 := l[0 := Some(File(ev1.name, []))];
    FrontOnly(l1, 1, ev2.past, ev2.name);
    e2 := Grow(e1, ev2, l1, 1);
    FoundAt(l1, past, ev1.name, 0);
    FoundAt(l1[1 := Some(File(ev2.name, []))], past, ev1.name, 0);
  }
}
