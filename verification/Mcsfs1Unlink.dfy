/**
 MCSFS1 unlink (`fs/mcsfs1/mcsfs1.c`): the block writes it issues, and the state after every one of them.

 The directory entry goes first, so the file is gone with the first write; the bitmaps follow, and what they give back
 belongs to nobody by then.
 */
module Mcsfs1Unlink {
  import opened Bytes
  import opened BlockDevice
  import opened Mcsfs1Layout
  import opened Mcsfs1State
  import opened Mcsfs1Steps
  import opened Mcsfs1Create

  /** The block bits that `free_inode_and_blocks` clears, from entry `j` on. */
  function ClearDirect(bm: Block, direct: seq<uint32>, n: nat, j: nat): (r: Block)
    requires j <= |direct| && n <= MAX_DISK
    decreases |direct| - j
  {
    if j == |direct| then bm
    else ClearDirect(if direct[j] != 0 && direct[j] < n then PutBit(bm, direct[j], false) else bm, direct, n, j + 1)
  }

  function Freed(direct: seq<uint32>, n: nat, j: nat): (s: set<nat>)
    requires j <= |direct|
  {
    set i | j <= i < |direct| && direct[i] != 0 && direct[i] < n :: direct[i]
  }

  lemma {:induction false} ClearDirectBits(bm: Block, direct: seq<uint32>, n: nat, j: nat)
    requires j <= |direct| && n <= MAX_DISK
    ensures BitsOf(ClearDirect(bm, direct, n, j)) == BitsOf(bm) - Freed(direct, n, j)
    decreases |direct| - j
  {
    hide PutBit, BitsOf;
    if j < |direct| {
      if direct[j] != 0 && direct[j] < n {
        BitsPut(bm, direct[j], false);
        ClearDirectBits(PutBit(bm, direct[j], false), direct, n, j + 1);
        assert Freed(direct, n, j) == {direct[j] as nat} + Freed(direct, n, j + 1);
      } else {
        ClearDirectBits(bm, direct, n, j + 1);
        assert Freed(direct, n, j) == Freed(direct, n, j + 1);
      }
    } else {
      assert Freed(direct, n, j) == {};
    }
  }

  const ZeroRaw: RawInode := Zeros(INODE_SIZE)

  function UnlinkWrites(d: Disk, slot: nat, ino: nat): (ws: seq<Write>)
    requires DiskSize(|d|) && slot < DIR_SLOTS && 1 <= ino <= MAX_INODES
    ensures InRange(ws, |d|) && |ws| == 4
  {
    [ Write(ROOT_DIR_LBA, PutSlot(d[ROOT_DIR_LBA], slot, EmptySlot)),
      Write(INODE_BMAP_LBA, PutBit(d[INODE_BMAP_LBA], ino, false)),
      Write(BLOCK_BMAP_LBA, ClearDirect(d[BLOCK_BMAP_LBA], NodeOf(InodeBytes(d, ino)).direct, |d|, 0)),
      InodeWrite(d, ino, ZeroRaw) ]
  }

  /** `mcsfs1_unlink`. */
  function UnlinkPlan(d: Disk, past: uint8, name: Name): (p: Plan)
    requires DiskSize(|d|)
    ensures InRange(p.writes, |d|)
  {
    if NameRc(name) != E_OK then Plan([], NameRc(name))
    else
      var slot := FindFrom(d[ROOT_DIR_LBA], past, name, 0);
      if slot == DIR_SLOTS then Plan([], E_NOENT)
      else
        var ino := SlotAt(d[ROOT_DIR_LBA], slot).ino;
        if ino == 0 || ino > MAX_INODES then Plan([], E_INVAL)
        else if NodeOf(InodeBytes(d, ino)).mode != MODE_FILE then Plan([], E_ISDIR)
        else Plan(UnlinkWrites(d, slot, ino), E_OK)
  }

  /** Emptying slot `s` leaves its inode unreachable and its blocks unowned. */
  lemma Orphaned(v: View, n: nat, s: nat)
    requires Inv(v, n) && s < DIR_SLOTS && v.slots[s].ino != 0
    ensures SlotOk(v, v.slots[s], n)
    ensures var w := WithSlot(v, s, EmptySlot);
            var bs := Freed(v.nodes[v.slots[s].ino].direct, n, 0);
            && Inv(w, n) && Unreachable(w, v.slots[s].ino) && NotOwned(w, bs)
            && forall b :: b in bs ==> b >= DATA_START_LBA
  {
    hide NeededFor, RootOk;
    var node := v.nodes[v.slots[s].ino];
    var w := WithSlot(v, s, EmptySlot);
    ClearSlot(v, n, s);
    assert SlotOk(v, v.slots[s], n);
    forall i | 0 <= i < DIR_SLOTS && i != s && v.slots[i].ino != 0
      ensures v.slots[i].ino != v.slots[s].ino && v.slots[i].ino <= MAX_INODES
      ensures Disjoint(node, v.nodes[v.slots[i].ino])
    {
      assert SlotOk(v, v.slots[i], n);
      assert SlotsApart(v, v.slots[s], v.slots[i]);
    }
  }

  /** With the directory write the file is gone. */
  lemma SlotCleared(d: Disk, s: nat)
    requires DiskOk(d) && s < DIR_SLOTS
    ensures var e := d[ROOT_DIR_LBA := PutSlot(d[ROOT_DIR_LBA], s, EmptySlot)];
            && Lists(e, |d|, ListingOf(d)[s := None])
            && ViewOf(e) == WithSlot(ViewOf(d), s, EmptySlot)
  {
    hide ViewOf, SuperOk, PutSlot, CStr, RootOk, NodeOk, Disjoint, FileOf;
    var v := ViewOf(d);
    var e := d[ROOT_DIR_LBA := PutSlot(d[ROOT_DIR_LBA], s, EmptySlot)];
    ViewSlotWrite(d, s, EmptySlot);
    ClearSlot(v, |d|, s);
    forall i | 0 <= i < DIR_SLOTS
      ensures FileAt(e, i) == if i == s then None else FileAt(d, i)
    {
      if i != s && v.slots[i].ino != 0 {
        assert SlotOk(v, v.slots[i], |d|);
        KeepFile(d, e, v.nodes[v.slots[i].ino], v.blocks);
      }
    }
  }

  /** The three writes after the directory write only give back what nobody owns any more. */
  lemma GivenBack(d: Disk, ino: nat, ib: Block, bb: Block, bs: set<nat>)
    requires DiskOk(d) && 2 <= ino <= MAX_INODES && Unreachable(ViewOf(d), ino) && NotOwned(ViewOf(d), bs)
    requires forall b :: b in bs ==> b >= DATA_START_LBA
    requires BitsOf(ib) == ViewOf(d).inodes - {ino} && BitsOf(bb) == ViewOf(d).blocks - bs
    ensures var d1 := d[INODE_BMAP_LBA := ib];
            var d2 := d1[BLOCK_BMAP_LBA := bb];
            var w := InodeWrite(d2, ino, ZeroRaw);
            var d3 := d2[w.lba := w.data];
            && DiskOk(d1) && DiskOk(d2) && DiskOk(d3)
            && SameFiles(d, d1) && SameFiles(d, d2) && SameFiles(d, d3)
  {
    hide ViewOf, Inv, SuperOk, NodeOf, BitsOf, InodeWrite, NotOwned;
    var d1 := d[INODE_BMAP_LBA := ib];
    var d2 := d1[BLOCK_BMAP_LBA := bb];
    ViewWrite(d, Write(INODE_BMAP_LBA, ib));
    UnmarkInode(ViewOf(d), |d|, ino);
    ViewWrite(d1, Write(BLOCK_BMAP_LBA, bb));
    NotOwnedKept(ViewOf(d), ViewOf(d1), bs);
    UnmarkBlocks(ViewOf(d1), |d|, bs);
    InodeWritten(d2, ino, ZeroRaw);
  }

  lemma NotOwnedKept(v: View, w: View, bs: set<nat>)
    requires |v.nodes| == |w.nodes| == MAX_INODES + 1 && v.slots == w.slots && v.nodes == w.nodes && NotOwned(v, bs)
    ensures NotOwned(w, bs)
  {
  }

  lemma ListsThen(d: Disk, e: Disk, n: nat, l: Listing)
    requires Lists(d, n, l) && n > DATA_START_LBA && DiskOk(e) && |e| == n && SameFiles(d, e)
    ensures Lists(e, n, l)
  {
    hide DiskOk, ListingOf, SameFiles;
    KeptLists(d, e);
  }

  /** The bitmaps unlink writes. */
  lemma UnlinkBits(d: Disk, slot: nat, ino: nat)
    requires DiskSize(|d|) && slot < DIR_SLOTS && 1 <= ino <= MAX_INODES
    ensures var v, ws := ViewOf(d), UnlinkWrites(d, slot, ino);
            && BitsOf(ws[1].data) == v.inodes - {ino}
            && BitsOf(ws[2].data) == v.blocks - Freed(v.nodes[ino].direct, |d|, 0)
  {
    hide ViewOf, PutSlot, PutBit, BitsOf, NodeOf, InodeBytes, ClearDirect, InodeWrite;
    BitsFields(d);
    NodeField(d, ino);
    BitsPut(d[INODE_BMAP_LBA], ino, false);
    ClearDirectBits(d[BLOCK_BMAP_LBA], ViewOf(d).nodes[ino].direct, |d|, 0);
  }

  lemma UnlinkDisks(d: Disk, slot: nat)
    requires DiskOk(d) && slot < DIR_SLOTS && ViewOf(d).slots[slot].ino != 0
    ensures SlotOk(ViewOf(d), ViewOf(d).slots[slot], |d|)
    ensures var l, ws := ListingOf(d)[slot := None], UnlinkWrites(d, slot, ViewOf(d).slots[slot].ino);
            var d1 := d[ws[0].lba := ws[0].data];
            var d2 := d1[ws[1].lba := ws[1].data];
            var d3 := d2[ws[2].lba := ws[2].data];
            var d4 := d3[ws[3].lba := ws[3].data];
            Lists(d1, |d|, l) && Lists(d2, |d|, l) && Lists(d3, |d|, l) && Lists(d4, |d|, l)
  {
    hide ViewOf, Inv, SuperOk, PutSlot, PutBit, CStr, NodeOk, BitsOf, NodeOf, InodeBytes, ClearDirect, NotOwned, Unreachable,
      SameFiles, ListingOf, Splice, Disjoint, Freed;
    var v := ViewOf(d);
    Orphaned(v, |d|, slot);
    var ino := v.slots[slot].ino;
    var l, ws := ListingOf(d)[slot := None], UnlinkWrites(d, slot, ino);
    UnlinkBits(d, slot, ino);
    SlotCleared(d, slot);
    var d1 := d[ws[0].lba := ws[0].data];
    var d2 := d1[ws[1].lba := ws[1].data];
    var d3 := d2[ws[2].lba := ws[2].data];
    assert InodeWrite(d3, ino, ZeroRaw) == InodeWrite(d, ino, ZeroRaw);
    GivenBack(d1, ino, ws[1].data, ws[2].data, Freed(v.nodes[ino].direct, |d|, 0));
    ListsThen(d1, d2, |d|, l);
    ListsThen(d1, d3, |d|, l);
    ListsThen(d1, d3[ws[3].lba := ws[3].data], |d|, l);
  }

  lemma UnlinkStates(d: Disk, slot: nat, k: nat)
    requires DiskOk(d) && slot < DIR_SLOTS && ViewOf(d).slots[slot].ino != 0 && k <= 4
    ensures SlotOk(ViewOf(d), ViewOf(d).slots[slot], |d|)
    ensures var p, l := Plan(UnlinkWrites(d, slot, ViewOf(d).slots[slot].ino), E_OK), ListingOf(d);
            CutLists(d, p, k, if k == 0 then l else l[slot := None])
  {
    hide ViewOf, Inv, SuperOk, CStr, NodeOk, ListingOf, UnlinkWrites, Lists, Apply, SameFiles;
    UnlinkDisks(d, slot);
    var _, _, _, _ := ApplyFour(d, UnlinkWrites(d, slot, ViewOf(d).slots[slot].ino));
    SameItself(d);
    KeptLists(d, d);
  }

  lemma NodeField(d: Disk, ino: nat)
    requires |d| > DATA_START_LBA && 1 <= ino <= MAX_INODES
    ensures ViewOf(d).nodes[ino] == NodeOf(InodeBytes(d, ino))
  {
    hide SlotAt, NodeOf, BitsOf, InodeBytes;
  }

  /** The list after `k` block writes of an unlink that returns `rc`: the file is gone with the first. */
  function Unlinked(l: Listing, past: uint8, name: Name, rc: int, k: nat): (r: Listing) {
    var s := FindIn(l, past, name, 0);
    if rc == E_OK && k > 0 && s < DIR_SLOTS then l[s := None] else l
  }

  function UnlinkRc(l: Listing, past: uint8, name: Name): (rc: int) {
    if NameRc(name) != E_OK then NameRc(name)
    else if FindIn(l, past, name, 0) == DIR_SLOTS then E_NOENT
    else E_OK
  }

  /**
   Unlink, cut off after any number of block writes, on any sound image: the image stays sound, the file the lookup finds
   is gone with the first write, and nothing else changes.
   */
  lemma UnlinkCut(d: Disk, past: uint8, name: Name, k: nat)
    requires DiskOk(d) && k <= |UnlinkPlan(d, past, name).writes|
    ensures var p, l := UnlinkPlan(d, past, name), ListingOf(d);
            && p.rc == UnlinkRc(l, past, name)
            && |p.writes| == (if p.rc == E_OK then 4 else 0)
            && CutLists(d, p, k, Unlinked(l, past, name, p.rc, k))
  {
    hide ViewOf, Inv, SuperOk, ListingOf, UnlinkWrites, FindFrom, SlotAt, FindIn, NodeOf, CStr, InodeBytes, NodeOk;
    var p := UnlinkPlan(d, past, name);
    SameItself(d);
    KeptLists(d, d);
    if NameRc(name) == E_OK {
      FindIsFindIn(d, past, name);
      var v, slot := ViewOf(d), FindIn(ListingOf(d), past, name, 0);
      if slot < DIR_SLOTS {
        InUse(d, slot);
        BitsFields(d);
        UnlinkStates(d, slot, k);
        NodeField(d, v.slots[slot].ino);
        FileMode(v, v.slots[slot], |d|);
      }
    }
  }

  lemma InUse(d: Disk, slot: nat)
    requires DiskOk(d) && slot < DIR_SLOTS
    ensures ListingOf(d)[slot].Some? <==> ViewOf(d).slots[slot].ino != 0
  {
    hide ViewOf, Inv, SuperOk, CStr, FileOf;
    assert ListingOf(d)[slot] == FileAt(d, slot);
  }

  lemma FileMode(v: View, s: Slot, n: nat)
    requires |v.nodes| == MAX_INODES + 1 && SlotOk(v, s, n)
    ensures v.nodes[s.ino].mode == MODE_FILE
  {
  }
}
