/**
 MCSFS1 create (`fs/mcsfs1/mcsfs1.c`): the block writes it issues, and the state after every one of them.

 Four writes: inode bitmap, block bitmap, inode, directory. Until the last one nothing refers to what the first three
 set aside, so the files are those from before; with it the new file appears, empty.
 */
module Mcsfs1Create {
  import opened Bytes
  import opened BlockDevice
  import opened Mcsfs1Layout
  import opened Mcsfs1State
  import opened Mcsfs1Steps

  const SLASH: uint8 := 47

  /** `valid_name`. */
  function NameRc(name: Name): (rc: int)
    ensures rc == E_OK ==> 1 <= |name| <= MAX_NAME
  {
    if |name| == 0 then E_INVAL
    else if |name| > MAX_NAME then E_NAMETOOLONG
    else if SLASH in name then E_INVAL
    else E_OK
  }

  function FreeSlotFrom(dir: Block, i: nat): (r: nat)
    requires i <= DIR_SLOTS
    ensures i <= r <= DIR_SLOTS
    ensures forall j :: i <= j < r ==> SlotAt(dir, j).ino != 0
    ensures r < DIR_SLOTS ==> SlotAt(dir, r).ino == 0
    decreases DIR_SLOTS - i
  {
    if i == DIR_SLOTS || SlotAt(dir, i).ino == 0 then i else FreeSlotFrom(dir, i + 1)
  }

  // ----- create -----

  function CreateWrites(d: Disk, slot: nat, ino: nat, lba: nat, name: Name): (ws: seq<Write>)
    requires DiskSize(|d|) && slot < DIR_SLOTS && 1 <= ino <= MAX_INODES && lba < |d| && |name| <= MAX_NAME
    ensures InRange(ws, |d|) && |ws| == 4
  {
    [ Write(INODE_BMAP_LBA, PutBit(d[INODE_BMAP_LBA], ino, true)),
      Write(BLOCK_BMAP_LBA, PutBit(d[BLOCK_BMAP_LBA], lba, true)),
      InodeWrite(d, ino, FreshInode(lba)),
      Write(ROOT_DIR_LBA, PutSlot(d[ROOT_DIR_LBA], slot, Slot(ino, MODE_FILE as uint8, Field(name)))) ]
  }

  /** `mcsfs1_create`. */
  function CreatePlan(d: Disk, past: uint8, name: Name): (p: Plan)
    requires DiskSize(|d|)
    ensures InRange(p.writes, |d|)
  {
    if NameRc(name) != E_OK then Plan([], NameRc(name))
    else if FindFrom(d[ROOT_DIR_LBA], past, name, 0) < DIR_SLOTS then Plan([], E_EXIST)
    else
      var slot := FreeSlotFrom(d[ROOT_DIR_LBA], 0);
      var ino := FirstClear(d[INODE_BMAP_LBA], 2, MAX_INODES + 1);
      var lba := FirstClear(d[BLOCK_BMAP_LBA], DATA_START_LBA, |d|);
      if slot == DIR_SLOTS || ino > MAX_INODES || lba == |d| then Plan([], E_NOSPC)
      else Plan(CreateWrites(d, slot, ino, lba, name), E_OK)
  }

  /** `e` is a sound image of `n` blocks whose directory reads `l`. */
  predicate Lists(e: Disk, n: nat, l: Listing) {
    |e| == n && DiskOk(e) && ListingOf(e) == l
  }

  /** After the first `k` writes of the plan the image is sound and its directory reads `l`. */
  predicate CutLists(d: Disk, p: Plan, k: nat, l: Listing) {
    InRange(p.writes, |d|) && k <= |p.writes| && Lists(Apply(d, p.writes[..k]), |d|, l)
  }

  lemma KeptLists(d: Disk, e: Disk)
    requires DiskOk(d) && DiskOk(e) && |d| == |e| && SameFiles(d, e)
    ensures Lists(e, |d|, ListingOf(d))
  {
    hide DiskOk, SameFiles, ListingOf;
    KeepFiles(d, e);
  }

  /** After the two bitmap writes: the inode and the block are taken, no file has changed. */
  lemma CreateMarked(d: Disk, ino: nat, lba: nat)
    requires DiskOk(d) && 1 <= ino <= MAX_INODES && lba < |d|
    ensures var d1 := d[INODE_BMAP_LBA := PutBit(d[INODE_BMAP_LBA], ino, true)];
            var d2 := d1[BLOCK_BMAP_LBA := PutBit(d[BLOCK_BMAP_LBA], lba, true)];
            && DiskOk(d1) && SameFiles(d, d1)
            && DiskOk(d2) && SameFiles(d, d2)
            && ViewOf(d2) == ViewOf(d).(inodes := ViewOf(d).inodes + {ino}, blocks := ViewOf(d).blocks + {lba})
  {
    hide BitsOf, ViewOf, SuperOk, Inv, PutBit;
    var v := ViewOf(d);
    var w1 := Write(INODE_BMAP_LBA, PutBit(d[INODE_BMAP_LBA], ino, true));
    var w2 := Write(BLOCK_BMAP_LBA, PutBit(d[BLOCK_BMAP_LBA], lba, true));
    var d1 := d[w1.lba := w1.data];
    BitsFields(d);
    BitsPut(d[INODE_BMAP_LBA], ino, true);
    BitsPut(d[BLOCK_BMAP_LBA], lba, true);
    ViewWrite(d, w1);
    ViewWrite(d1, w2);
    MarkInode(v, |d|, ino);
    MarkBlock(ViewOf(d1), |d|, lba);
  }

  lemma BitsFields(d: Disk)
    requires |d| > DATA_START_LBA
    ensures ViewOf(d).inodes == BitsOf(d[INODE_BMAP_LBA]) && ViewOf(d).blocks == BitsOf(d[BLOCK_BMAP_LBA])
    ensures forall i :: 0 <= i < DIR_SLOTS ==> ViewOf(d).slots[i] == SlotAt(d[ROOT_DIR_LBA], i)
  {
    hide BitsOf, SlotAt, NodeOf;
  }

  lemma InodeWritten(d: Disk, ino: nat, r: RawInode)
    requires DiskOk(d) && 2 <= ino <= MAX_INODES && Unreachable(ViewOf(d), ino)
    ensures var w := InodeWrite(d, ino, r);
            var e := d[w.lba := w.data];
            DiskOk(e) && SameFiles(d, e) && ViewOf(e) == WithNode(ViewOf(d), ino, NodeOf(r))
  {
    hide ViewOf, SuperOk, Inv, NodeOf, Splice;
    ViewInodeWrite(d, ino, r);
    RewriteUnreachable(ViewOf(d), |d|, ino, NodeOf(r));
  }

  /** The directory write makes the new, empty file appear. */
  lemma SlotWritten(d: Disk, slot: nat, ino: nat, lba: nat, name: Name)
    requires DiskOk(d) && slot < DIR_SLOTS && 2 <= ino <= MAX_INODES && DATA_START_LBA <= lba < |d|
    requires var v := ViewOf(d);
             && v.slots[slot].ino == 0 && Unreachable(v, ino) && ino in v.inodes && lba in v.blocks && NotOwned(v, {lba})
             && v.nodes[ino] == Node(MODE_FILE, 0, [lba, 0, 0, 0, 0, 0, 0, 0])
    requires |name| <= MAX_NAME
    ensures var e := d[ROOT_DIR_LBA := PutSlot(d[ROOT_DIR_LBA], slot, Slot(ino, MODE_FILE as uint8, Field(name)))];
            Lists(e, |d|, ListingOf(d)[slot := Some(File(name, []))])
  {
    hide ViewOf, SuperOk, PutSlot, CStr, RootOk, NodeOk, Disjoint, FileAt;
    var v, s := ViewOf(d), Slot(ino, MODE_FILE as uint8, Field(name));
    var e := d[ROOT_DIR_LBA := PutSlot(d[ROOT_DIR_LBA], slot, s)];
    ViewSlotWrite(d, slot, s);
    var node := v.nodes[ino];
    OneBlockNode(node, lba, v.blocks, |d|);
    forall j | 0 <= j < DIR_SLOTS
      ensures SlotsApart(v, s, v.slots[j]) && SlotsApart(v, v.slots[j], s)
    {
      if v.slots[j].ino != 0 {
        assert SlotOk(v, v.slots[j], |d|);
        OneBlockApart(v, v.slots[j], node, lba, |d|);
      }
    }
    AddSlot(v, |d|, slot, s);
    forall i | 0 <= i < DIR_SLOTS
      ensures FileAt(e, i) == if i == slot then Some(File(name, [])) else FileAt(d, i)
    {
      SlotFile(d, e, slot, s, i);
    }
  }

  lemma OneBlockNode(node: Node, lba: nat, blocks: set<nat>, n: nat)
    requires DATA_START_LBA <= lba < n <= MAX_DISK && lba in blocks
    requires node == Node(MODE_FILE, 0, [lba, 0, 0, 0, 0, 0, 0, 0])
    ensures NodeOk(node, blocks, n)
  {
  }

  lemma OneBlockApart(v: View, t: Slot, node: Node, lba: nat, n: nat)
    requires |v.nodes| == MAX_INODES + 1 && SlotOk(v, t, n) && t in v.slots && NotOwned(v, {lba}) && lba != 0
    requires node.direct == [lba, 0, 0, 0, 0, 0, 0, 0]
    ensures Disjoint(node, v.nodes[t.ino]) && Disjoint(v.nodes[t.ino], node)
  {
    hide NeededFor;
    var i :| 0 <= i < |v.slots| && v.slots[i] == t;
    assert forall j :: 0 <= j < DIRECT_BLOCKS ==> v.nodes[v.slots[i].ino].direct[j] !in {lba};
  }

  lemma SlotFile(d: Disk, e: Disk, slot: nat, s: Slot, i: nat)
    requires DiskOk(d) && DiskOk(e) && |e| == |d| && slot < DIR_SLOTS && i < DIR_SLOTS
    requires ViewOf(e) == WithSlot(ViewOf(d), slot, s)
    requires 1 <= s.ino <= MAX_INODES && ViewOf(d).nodes[s.ino].size == 0
    requires forall l :: DATA_START_LBA <= l < |d| ==> d[l] == e[l]
    ensures FileAt(e, i) == if i == slot then Some(File(CStr(s.field), [])) else FileAt(d, i)
  {
    hide ViewOf, SuperOk, CStr, RootOk, NodeOk, FileOf, Disjoint;
    var v := ViewOf(d);
    if i != slot && v.slots[i].ino != 0 {
      assert SlotOk(v, v.slots[i], |d|);
      KeepFile(d, e, v.nodes[v.slots[i].ino], v.blocks);
    }
  }

  /** An inode and a block whose bits are clear belong to no file. */
  lemma FreeIsFree(v: View, n: nat, ino: nat, lba: nat)
    requires Inv(v, n) && ino >= 2 && lba >= DATA_START_LBA && ino !in v.inodes && lba !in v.blocks
    ensures Unreachable(v, ino) && NotOwned(v, {lba})
  {
    hide NeededFor;
    forall i | 0 <= i < DIR_SLOTS && v.slots[i].ino != 0
      ensures v.slots[i].ino != ino
      ensures forall j :: 0 <= j < DIRECT_BLOCKS ==> v.nodes[v.slots[i].ino].direct[j] != lba
    {
      assert SlotOk(v, v.slots[i], n);
    }
  }

  /** The three writes before the directory write. */
  lemma CreatePrepared(d: Disk, ino: nat, lba: nat) returns (d1: Disk, d2: Disk, d3: Disk)
    requires DiskOk(d) && 2 <= ino <= MAX_INODES && DATA_START_LBA <= lba < |d|
    requires var v := ViewOf(d); ino !in v.inodes && lba !in v.blocks
    ensures |d1| == |d2| == |d3| == |d|
    ensures d1 == d[INODE_BMAP_LBA := PutBit(d[INODE_BMAP_LBA], ino, true)]
    ensures d2 == d1[BLOCK_BMAP_LBA := PutBit(d[BLOCK_BMAP_LBA], lba, true)]
    ensures var w := InodeWrite(d, ino, FreshInode(lba)); d3 == d2[w.lba := w.data]
    ensures DiskOk(d1) && DiskOk(d2) && DiskOk(d3)
    ensures SameFiles(d, d1) && SameFiles(d, d2) && SameFiles(d, d3)
    ensures var v := ViewOf(d);
            ViewOf(d3) == WithNode(v.(inodes := v.inodes + {ino}, blocks := v.blocks + {lba}), ino, NodeOf(FreshInode(lba)))
  {
    hide ViewOf, Inv, SuperOk, PutBit, NotOwned, FreshInode, NodeOf, Splice;
    CreateMarked(d, ino, lba);
    FreeOnDisk(d, ino, lba);
    d1 := d[INODE_BMAP_LBA := PutBit(d[INODE_BMAP_LBA], ino, true)];
    d2 := d1[BLOCK_BMAP_LBA := PutBit(d[BLOCK_BMAP_LBA], lba, true)];
    var w := InodeWrite(d, ino, FreshInode(lba));
    d3 := d2[w.lba := w.data];
    assert InodeWrite(d2, ino, FreshInode(lba)) == w;
    InodeWritten(d2, ino, FreshInode(lba));
  }

  lemma FreeOnDisk(d: Disk, ino: nat, lba: nat)
    requires DiskOk(d) && ino >= 2 && lba >= DATA_START_LBA
    requires var v := ViewOf(d); ino !in v.inodes && lba !in v.blocks
    ensures Unreachable(ViewOf(d), ino) && NotOwned(ViewOf(d), {lba})
  {
    hide ViewOf, SuperOk, Inv, Unreachable, NotOwned;
    FreeIsFree(ViewOf(d), |d|, ino, lba);
  }

  lemma CreateStates(d: Disk, slot: nat, ino: nat, lba: nat, name: Name, k: nat)
    requires DiskOk(d) && slot < DIR_SLOTS && 2 <= ino <= MAX_INODES && DATA_START_LBA <= lba < |d| && k <= 4
    requires |name| <= MAX_NAME
    requires var v := ViewOf(d); v.slots[slot].ino == 0 && ino !in v.inodes && lba !in v.blocks
    ensures var p, l := Plan(CreateWrites(d, slot, ino, lba, name), E_OK), ListingOf(d);
            CutLists(d, p, k, if k < 4 then l else l[slot := Some(File(name, []))])
  {
    hide ViewOf, Inv, SuperOk, PutBit, PutSlot, Field, NotOwned, Unreachable, SameFiles, ListingOf, InodeWrite, FreshInode, NodeOf;
    var ws := CreateWrites(d, slot, ino, lba, name);
    var d1, d2, d3 := CreatePrepared(d, ino, lba);
    FreeOnDisk(d, ino, lba);
    KeptLists(d, d1);
    KeptLists(d, d2);
    KeptLists(d, d3);
    var _, _, _, _ := ApplyFour(d, ws);
    SlotReady(ViewOf(d), ViewOf(d3), slot, ino, lba);
    SlotWritten(d3, slot, ino, lba, name);
  }

  /** The prepared view meets what the directory write needs. */
  lemma SlotReady(v: View, w: View, slot: nat, ino: nat, lba: nat)
    requires |v.slots| == DIR_SLOTS && |v.nodes| == MAX_INODES + 1
    requires slot < DIR_SLOTS && 2 <= ino <= MAX_INODES && DATA_START_LBA <= lba < MAX_DISK
    requires Unreachable(v, ino) && NotOwned(v, {lba}) && v.slots[slot].ino == 0
    requires w == WithNode(v.(inodes := v.inodes + {ino}, blocks := v.blocks + {lba}), ino, NodeOf(FreshInode(lba)))
    ensures w.slots[slot].ino == 0 && Unreachable(w, ino) && ino in w.inodes && lba in w.blocks && NotOwned(w, {lba})
    ensures w.nodes[ino] == Node(MODE_FILE, 0, [lba, 0, 0, 0, 0, 0, 0, 0])
  {
    hide FreshInode, NodeOf;
  }

  /** The first slot of the list without a file. */
  function FirstFree(l: Listing, i: nat): (r: nat)
    requires i <= DIR_SLOTS
    ensures i <= r <= DIR_SLOTS
    ensures forall j :: i <= j < r ==> l[j].Some?
    ensures r < DIR_SLOTS ==> l[r].None?
    decreases DIR_SLOTS - i
  {
    if i == DIR_SLOTS || l[i].None? then i else FirstFree(l, i + 1)
  }

  lemma FreeSlotIsFirst(d: Disk)
    requires DiskOk(d)
    ensures FreeSlotFrom(d[ROOT_DIR_LBA], 0) == FirstFree(ListingOf(d), 0)
  {
    hide ViewOf, Inv, SuperOk, SlotAt, FreeSlotFrom, FirstFree, CStr, FileOf;
    BitsFields(d);
    var r := FreeSlotFrom(d[ROOT_DIR_LBA], 0);
    assert forall i :: 0 <= i < DIR_SLOTS ==> (FileAt(d, i).None? <==> SlotAt(d[ROOT_DIR_LBA], i).ino == 0);
  }

  /** The list after `k` block writes of a create that returns `rc`: the file appears with the fourth. */
  function Created(l: Listing, name: Name, rc: int, k: nat): (r: Listing) {
    var s := FirstFree(l, 0);
    if rc == E_OK && k >= 4 && s < DIR_SLOTS then l[s := Some(File(name, []))] else l
  }

  /** The codes create may return; whether there is room for an inode and a block is not in the list. */
  predicate CreateRc(l: Listing, past: uint8, name: Name, rc: int) {
    if NameRc(name) != E_OK then rc == NameRc(name)
    else if FindIn(l, past, name, 0) < DIR_SLOTS then rc == E_EXIST
    else if FirstFree(l, 0) == DIR_SLOTS then rc == E_NOSPC
    else rc == E_OK || rc == E_NOSPC
  }

  /**
   Create, cut off after any number of block writes, on any sound image and for any name: the image stays sound, and the
   new file appears in the first free slot with the last write, and nothing else changes.
   */
  lemma CreateCut(d: Disk, past: uint8, name: Name, k: nat)
    requires DiskOk(d) && k <= |CreatePlan(d, past, name).writes|
    ensures var p, l := CreatePlan(d, past, name), ListingOf(d);
            && CreateRc(l, past, name, p.rc)
            && |p.writes| == (if p.rc == E_OK then 4 else 0)
            && CutLists(d, p, k, Created(l, name, p.rc, k))
  {
    hide ViewOf, Inv, SuperOk, ListingOf, CreateWrites, FindFrom, FreeSlotFrom, FirstClear, SlotAt, BitsOf, GetBit, FindIn, FirstFree;
    var p := CreatePlan(d, past, name);
    SameItself(d);
    KeptLists(d, d);
    if NameRc(name) == E_OK {
      FindIsFindIn(d, past, name);
      FreeSlotIsFirst(d);
      if p.rc == E_OK {
        var slot := FreeSlotFrom(d[ROOT_DIR_LBA], 0);
        var ino := FirstClear(d[INODE_BMAP_LBA], 2, MAX_INODES + 1);
        var lba := FirstClear(d[BLOCK_BMAP_LBA], DATA_START_LBA, |d|);
        BitsFields(d);
        BitClear(d[INODE_BMAP_LBA], ino);
        BitClear(d[BLOCK_BMAP_LBA], lba);
        CreateStates(d, slot, ino, lba, name, k);
      }
    }
  }

  lemma SameItself(d: Disk)
    requires |d| > DATA_START_LBA
    ensures SameFiles(d, d)
  {
    hide ViewOf;
  }

  lemma BitClear(bm: Block, i: nat)
    requires i < MAX_DISK
    ensures i in BitsOf(bm) <==> GetBit(bm, i)
  {
    hide GetBit;
  }
}
