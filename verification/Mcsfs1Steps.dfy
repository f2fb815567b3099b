/**
 What each kind of block write does to the MCSFS1 ownership invariant and to the files.

 Marking and unmarking inodes and blocks, rewriting an inode nothing refers to, adding and clearing a directory entry,
 replacing the inode of a listed file.
 */
module Mcsfs1Steps {
  import opened Bytes
  import opened BlockDevice
  import opened Mcsfs1Layout
  import opened Mcsfs1State

  predicate Unreachable(v: View, ino: nat) {
    forall i :: 0 <= i < |v.slots| ==> v.slots[i].ino != ino
  }

  function WithNode(v: View, ino: nat, node: Node): (r: View)
    requires ino < |v.nodes|
  {
    v.(nodes := v.nodes[ino := node])
  }

  function WithSlot(v: View, i: nat, s: Slot): (r: View)
    requires i < |v.slots|
  {
    v.(slots := v.slots[i := s])
  }

  const EmptySlot := Slot(0, 0, Zeros(MAX_NAME))

  // ----- the invariant, one write at a time -----

  lemma MarkInode(v: View, n: nat, x: nat)
    requires Inv(v, n)
    ensures Inv(v.(inodes := v.inodes + {x}), n)
  {
    hide NodeOk, Disjoint;
    var v' := v.(inodes := v.inodes + {x});
    assert forall i, j :: 0 <= i < DIR_SLOTS && 0 <= j < DIR_SLOTS && i != j ==>
      SlotsApart(v, v.slots[i], v.slots[j]) && SlotsApart(v', v.slots[i], v.slots[j]);
  }

  lemma MarkBlock(v: View, n: nat, b: nat)
    requires Inv(v, n)
    ensures Inv(v.(blocks := v.blocks + {b}), n)
  {
    hide Disjoint, NeededFor;
    var v' := v.(blocks := v.blocks + {b});
    assert forall i, j :: 0 <= i < DIR_SLOTS && 0 <= j < DIR_SLOTS && i != j ==>
      SlotsApart(v, v.slots[i], v.slots[j]) && SlotsApart(v', v.slots[i], v.slots[j]);
    assert forall i :: 0 <= i < DIR_SLOTS && v.slots[i].ino != 0 ==> SlotOk(v, v.slots[i], n) && SlotOk(v', v.slots[i], n);
  }

  lemma UnmarkInode(v: View, n: nat, x: nat)
    requires Inv(v, n) && x != ROOT_INO && Unreachable(v, x)
    ensures Inv(v.(inodes := v.inodes - {x}), n)
  {
    hide NodeOk, Disjoint;
    var v' := v.(inodes := v.inodes - {x});
    assert forall i, j :: 0 <= i < DIR_SLOTS && 0 <= j < DIR_SLOTS && i != j ==>
      SlotsApart(v, v.slots[i], v.slots[j]) && SlotsApart(v', v.slots[i], v.slots[j]);
  }

  /** No file in the directory stores data in any of these blocks. */
  predicate NotOwned(v: View, bs: set<nat>)
    requires |v.nodes| == MAX_INODES + 1
  {
    forall i, j :: 0 <= i < |v.slots| && 0 < v.slots[i].ino <= MAX_INODES && 0 <= j < |v.nodes[v.slots[i].ino].direct| ==>
      v.nodes[v.slots[i].ino].direct[j] !in bs
  }

  lemma UnmarkBlocks(v: View, n: nat, bs: set<nat>)
    requires Inv(v, n) && NotOwned(v, bs) && forall b :: b in bs ==> b >= DATA_START_LBA
    ensures Inv(v.(blocks := v.blocks - bs), n)
  {
    hide Disjoint, NeededFor;
    var v' := v.(blocks := v.blocks - bs);
    assert forall i, j :: 0 <= i < DIR_SLOTS && 0 <= j < DIR_SLOTS && i != j ==>
      SlotsApart(v, v.slots[i], v.slots[j]) && SlotsApart(v', v.slots[i], v.slots[j]);
    forall i | 0 <= i < DIR_SLOTS && v.slots[i].ino != 0
      ensures SlotOk(v', v.slots[i], n)
    {
      assert SlotOk(v, v.slots[i], n);
    }
  }

  lemma RewriteUnreachable(v: View, n: nat, ino: nat, node: Node)
    requires Inv(v, n) && 2 <= ino <= MAX_INODES && Unreachable(v, ino)
    ensures Inv(WithNode(v, ino, node), n)
  {
    hide Disjoint, NodeOk;
    var v' := WithNode(v, ino, node);
    assert forall i, j :: 0 <= i < DIR_SLOTS && 0 <= j < DIR_SLOTS && i != j ==>
      SlotsApart(v, v.slots[i], v.slots[j]) && SlotsApart(v', v.slots[i], v.slots[j]);
    assert forall i :: 0 <= i < DIR_SLOTS && v.slots[i].ino != 0 ==> SlotOk(v, v.slots[i], n) && SlotOk(v', v.slots[i], n);
  }

  lemma ClearSlot(v: View, n: nat, i: nat)
    requires Inv(v, n) && i < DIR_SLOTS
    ensures Inv(WithSlot(v, i, EmptySlot), n)
  {
    hide Disjoint, NodeOk;
    var v' := WithSlot(v, i, EmptySlot);
    forall a, b | 0 <= a < DIR_SLOTS && 0 <= b < DIR_SLOTS && a != b
      ensures SlotsApart(v', v'.slots[a], v'.slots[b])
    {
      assert SlotsApart(v, v.slots[a], v.slots[b]);
    }
    assert forall a :: 0 <= a < DIR_SLOTS && v'.slots[a].ino != 0 ==> SlotOk(v, v.slots[a], n) && SlotOk(v', v'.slots[a], n);
  }

  lemma AddSlot(v: View, n: nat, i: nat, s: Slot)
    requires Inv(v, n) && i < DIR_SLOTS && v.slots[i].ino == 0
    requires SlotOk(v, s, n)
    requires forall j :: 0 <= j < DIR_SLOTS ==> SlotsApart(v, s, v.slots[j]) && SlotsApart(v, v.slots[j], s)
    ensures Inv(WithSlot(v, i, s), n)
  {
    hide Disjoint, NodeOk;
    var v' := WithSlot(v, i, s);
    forall a, b | 0 <= a < DIR_SLOTS && 0 <= b < DIR_SLOTS && a != b
      ensures SlotsApart(v', v'.slots[a], v'.slots[b])
    {
      assert SlotsApart(v, v.slots[a], v.slots[b]);
    }
    assert forall a :: 0 <= a < DIR_SLOTS && v'.slots[a].ino != 0 ==> SlotOk(v, v'.slots[a], n) && SlotOk(v', v'.slots[a], n);
  }

  /** A file's inode is replaced by one that is fit on its own and shares no block with another file. */
  lemma ReplaceNode(v: View, n: nat, s: nat, node: Node)
    requires Inv(v, n) && s < DIR_SLOTS && v.slots[s].ino != 0
    requires NodeOk(node, v.blocks, n)
    requires forall i :: 0 <= i < DIR_SLOTS && i != s && v.slots[i].ino != 0 ==>
               SlotOk(v, v.slots[i], n) && Disjoint(v.nodes[v.slots[i].ino], node) && Disjoint(node, v.nodes[v.slots[i].ino])
    ensures Inv(WithNode(v, v.slots[s].ino, node), n)
  {
    hide Disjoint, NodeOk;
    var v' := WithNode(v, v.slots[s].ino, node);
    assert SlotOk(v, v.slots[s], n);
    forall a, b | 0 <= a < DIR_SLOTS && 0 <= b < DIR_SLOTS && a != b
      ensures SlotsApart(v', v'.slots[a], v'.slots[b])
    {
      assert SlotsApart(v, v.slots[a], v.slots[b]);
      assert SlotsApart(v, v.slots[a], v.slots[s]) || a == s;
      assert SlotsApart(v, v.slots[s], v.slots[b]) || b == s;
    }
    forall a | 0 <= a < DIR_SLOTS && v'.slots[a].ino != 0
      ensures SlotOk(v', v'.slots[a], n)
    {
      assert SlotOk(v, v.slots[a], n);
    }
  }

  // ----- files that stay put -----

  /** Same slots, same inodes of the files in the directory, same data blocks. */
  predicate SameFiles(d: Disk, e: Disk)
    requires |d| == |e| > DATA_START_LBA
  {
    var v, w := ViewOf(d), ViewOf(e);
    && v.slots == w.slots
    && (forall i :: 0 <= i < DIR_SLOTS && 0 < v.slots[i].ino <= MAX_INODES ==> w.nodes[v.slots[i].ino] == v.nodes[v.slots[i].ino])
    && (forall l :: DATA_START_LBA <= l < |d| ==> d[l] == e[l])
  }

  lemma FileLocal(d: Disk, e: Disk, node: Node, blocks: set<nat>)
    requires |d| == |e| && NodeOk(node, blocks, |d|)
    requires forall j :: 0 <= j < DIRECT_BLOCKS && node.direct[j] != 0 ==> d[node.direct[j]] == e[node.direct[j]]
    ensures FileOf(d, node) == FileOf(e, node)
  {
    hide BlocksOf;
    BlocksOfNode(node);
    GatherLocal(d, e, node.direct, BlocksOf(node.size));
  }

  lemma BlocksOfNode(node: Node)
    requires node.size <= DIRECT_BLOCKS * BLOCK_SIZE
    ensures BlocksOf(node.size) <= NeededFor(node.size) <= DIRECT_BLOCKS
  {
  }

  /** The directory and all files are as they were. */
  lemma KeepFiles(d: Disk, e: Disk)
    requires DiskOk(d) && DiskOk(e) && |d| == |e| && SameFiles(d, e)
    ensures ListingOf(e) == ListingOf(d)
  {
    hide NodeOk, CStr, ViewOf, RootOk, SuperOk, FileOf, SlotsApart;
    var v := ViewOf(d);
    forall i | 0 <= i < DIR_SLOTS
      ensures FileAt(e, i) == FileAt(d, i)
    {
      if v.slots[i].ino != 0 {
        assert SlotOk(v, v.slots[i], |d|);
        KeepFile(d, e, v.nodes[v.slots[i].ino], v.blocks);
      }
    }
  }

  lemma KeepFile(d: Disk, e: Disk, node: Node, blocks: set<nat>)
    requires |d| == |e| && NodeOk(node, blocks, |d|)
    requires forall l :: DATA_START_LBA <= l < |d| ==> d[l] == e[l]
    ensures FileOf(d, node) == FileOf(e, node)
  {
    FileLocal(d, e, node, blocks);
  }
}
