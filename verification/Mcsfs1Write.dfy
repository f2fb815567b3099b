/**
 MCSFS1 write (`fs/mcsfs1/mcsfs1.c`): block allocation, data writes, inode write, and the state after every block write.

 Allocation marks blocks that no inode on disk refers to yet, so running out of space leaves every file as it was. The
 data writes change only blocks of the one file or blocks nobody has; the inode write makes the new contents readable.
 */
module Mcsfs1Write {
  import opened Bytes
  import opened BlockDevice
  import opened Mcsfs1Layout
  import opened Mcsfs1State
  import opened Mcsfs1Steps
  import opened Mcsfs1Create
  import opened Mcsfs1Unlink

  const MAX_FILE := DIRECT_BLOCKS * BLOCK_SIZE

  /** The result of the allocation loop: what it wrote, the inode in memory, and its return code. */
  datatype Alloc = Alloc(writes: seq<Write>, raw: RawInode, rc: int)

  /** The allocation loop of `mcsfs1_write` from direct entry `i` on; each allocation stores both bitmaps. */
  function AllocFrom(d: Disk, raw: RawInode, i: nat, needed: nat): (a: Alloc)
    requires DiskSize(|d|) && i <= needed <= DIRECT_BLOCKS
    ensures InRange(a.writes, |d|)
    decreases needed - i
  {
    if i == needed then Alloc([], raw, E_OK)
    else if NodeOf(raw).direct[i] != 0 then AllocFrom(d, raw, i + 1, needed)
    else
      var b := FirstClear(d[BLOCK_BMAP_LBA], DATA_START_LBA, |d|);
      if b == |d| then Alloc([], raw, E_NOSPC)
      else
        var bb := PutBit(d[BLOCK_BMAP_LBA], b, true);
        var rest := AllocFrom(d[BLOCK_BMAP_LBA := bb], SetDirect(raw, i, b), i + 1, needed);
        Alloc([Write(INODE_BMAP_LBA, d[INODE_BMAP_LBA]), Write(BLOCK_BMAP_LBA, bb)] + rest.writes, rest.raw, rest.rc)
  }

  /** Block `i` of the data, padded with zeros. */
  function Chunk(buf: seq<uint8>, i: nat): (b: Block)
    requires BLOCK_SIZE * i <= |buf|
  {
    var rest := buf[BLOCK_SIZE * i..];
    if |rest| >= BLOCK_SIZE then rest[..BLOCK_SIZE] else rest + Zeros(BLOCK_SIZE - |rest|)
  }

  /** The data loop from block `i` on. */
  function DataFrom(direct: seq<uint32>, buf: seq<uint8>, n: nat, i: nat, needed: nat): (p: Plan)
    requires i <= needed <= |direct| && BLOCK_SIZE * (needed - 1) <= |buf|
    ensures InRange(p.writes, n)
    decreases needed - i
  {
    if i == needed then Plan([], E_OK)
    else if direct[i] >= n then Plan([], E_INVAL)
    else
      var rest := DataFrom(direct, buf, n, i + 1, needed);
      Plan([Write(direct[i], Chunk(buf, i))] + rest.writes, rest.rc)
  }

  /** `mcsfs1_write` once the inode has been read. */
  function StorePlan(d: Disk, ino: nat, buf: seq<uint8>): (p: Plan)
    requires DiskSize(|d|) && 1 <= ino <= MAX_INODES && |buf| <= MAX_FILE
    ensures InRange(p.writes, |d|)
  {
    var needed := NeededFor(|buf|);
    var a := AllocFrom(d, InodeBytes(d, ino), 0, needed);
    if a.rc != E_OK then Plan(a.writes, a.rc)
    else
      var p := DataFrom(NodeOf(a.raw).direct, buf, |d|, 0, needed);
      var ws := a.writes + p.writes;
      if p.rc != E_OK then Plan(ws, p.rc)
      else Plan(ws + [InodeWrite(Apply(d, ws), ino, SetSize(a.raw, |buf|))], E_OK)
  }

  /** `mcsfs1_write`. */
  function WritePlan(d: Disk, past: uint8, name: Name, buf: seq<uint8>): (p: Plan)
    requires DiskSize(|d|)
    ensures InRange(p.writes, |d|)
  {
    if |buf| > MAX_FILE then Plan([], E_RANGE)
    else if NameRc(name) != E_OK then Plan([], NameRc(name))
    else
      var slot := FindFrom(d[ROOT_DIR_LBA], past, name, 0);
      if slot == DIR_SLOTS then Plan([], E_NOENT)
      else
        var ino := SlotAt(d[ROOT_DIR_LBA], slot).ino;
        if ino == 0 || ino > MAX_INODES then Plan([], E_INVAL)
        else if NodeOf(InodeBytes(d, ino)).mode != MODE_FILE then Plan([], E_ISDIR)
        else StorePlan(d, ino, buf)
  }

  // ----- allocation -----

  /** Writing `node` as the inode of the file in slot `s` would keep the invariant. */
  predicate Staged(v: View, n: nat, s: nat, node: Node) {
    && |v.slots| == DIR_SLOTS && |v.nodes| == MAX_INODES + 1
    && Inv(v, n) && s < DIR_SLOTS && 0 < v.slots[s].ino <= MAX_INODES
    && Inv(WithNode(v, v.slots[s].ino, node), n)
  }

  lemma StagedNode(v: View, n: nat, s: nat, node: Node, i: nat)
    requires Staged(v, n, s, node) && i < DIR_SLOTS && v.slots[i].ino != 0
    ensures NodeOk(node, v.blocks, n) && SlotOk(v, v.slots[i], n)
    ensures i != s ==>
              && v.slots[i].ino != v.slots[s].ino
              && Disjoint(node, v.nodes[v.slots[i].ino]) && Disjoint(v.nodes[v.slots[i].ino], node)
  {
    hide NodeOk, Disjoint, RootOk;
    var w := WithNode(v, v.slots[s].ino, node);
    assert SlotOk(w, w.slots[s], n) && SlotOk(v, v.slots[i], n);
    if i != s {
      assert SlotsApart(w, w.slots[s], w.slots[i]) && SlotsApart(w, w.slots[i], w.slots[s]);
    }
  }

  lemma StageBlock(v: View, n: nat, s: nat, node: Node, i: nat, b: nat)
    requires Staged(v, n, s, node) && i < DIRECT_BLOCKS && |node.direct| == DIRECT_BLOCKS && node.direct[i] == 0
    requires DATA_START_LBA <= b < n <= MAX_DISK && b !in v.blocks
    ensures Staged(v.(blocks := v.blocks + {b}), n, s, node.(direct := node.direct[i := b]))
  {
    hide RootOk, Inv;
    var w := v.(blocks := v.blocks + {b});
    var node' := node.(direct := node.direct[i := b]);
    MarkBlock(v, n, b);
    StagedNode(v, n, s, node, s);
    forall j | 0 <= j < DIR_SLOTS && j != s && w.slots[j].ino != 0
      ensures SlotOk(w, w.slots[j], n) && Disjoint(w.nodes[w.slots[j].ino], node') && Disjoint(node', w.nodes[w.slots[j].ino])
    {
      StagedNode(v, n, s, node, j);
    }
    NodeWithBlock(node, v.blocks, n, i, b);
    ReplaceNode(w, n, s, node');
  }

  lemma NodeWithBlock(node: Node, blocks: set<nat>, n: nat, i: nat, b: nat)
    requires NodeOk(node, blocks, n) && i < DIRECT_BLOCKS && node.direct[i] == 0
    requires DATA_START_LBA <= b < n <= MAX_DISK && b !in blocks
    ensures NodeOk(node.(direct := node.direct[i := b]), blocks + {b}, n)
  {
    hide NeededFor;
  }

  /** What the allocation loop has achieved when it is done. */
  predicate Allocated(d: Disk, e: Disk, s: nat, raw: RawInode, a: Alloc, i: nat, needed: nat)
    requires |d| > DATA_START_LBA
  {
    && |e| == |d| && DiskOk(e) && SameFiles(d, e)
    && Staged(ViewOf(e), |d|, s, NodeOf(a.raw))
    && NodeOf(a.raw).size == NodeOf(raw).size
    && (forall j :: 0 <= j < DIRECT_BLOCKS && NodeOf(raw).direct[j] != 0 ==> NodeOf(a.raw).direct[j] == NodeOf(raw).direct[j])
    && (a.rc == E_OK ==> forall j :: i <= j < needed && j < DIRECT_BLOCKS ==> NodeOf(a.raw).direct[j] != 0)
    && (a.rc == E_OK || a.rc == E_NOSPC)
  }

  lemma MarkedOnDisk(d: Disk, b: nat)
    requires DiskOk(d) && DATA_START_LBA <= b < |d|
    ensures var e := d[BLOCK_BMAP_LBA := PutBit(d[BLOCK_BMAP_LBA], b, true)];
            DiskOk(e) && SameFiles(d, e) && ViewOf(e) == ViewOf(d).(blocks := ViewOf(d).blocks + {b})
  {
    hide BitsOf, ViewOf, SuperOk, Inv, PutBit;
    BitsFields(d);
    BitsPut(d[BLOCK_BMAP_LBA], b, true);
    ViewWrite(d, Write(BLOCK_BMAP_LBA, PutBit(d[BLOCK_BMAP_LBA], b, true)));
    MarkBlock(ViewOf(d), |d|, b);
  }

  lemma SameFilesTrans(d: Disk, e: Disk, f: Disk)
    requires |d| == |e| == |f| > DATA_START_LBA && SameFiles(d, e) && SameFiles(e, f)
    ensures SameFiles(d, f)
  {
    hide ViewOf;
  }

  /** One allocation, then the rest of the loop. */
  lemma AllocStep(d: Disk, raw: RawInode, i: nat, needed: nat, b: nat, k: nat)
    requires DiskSize(|d|) && i < needed <= DIRECT_BLOCKS && NodeOf(raw).direct[i] == 0
    requires b == FirstClear(d[BLOCK_BMAP_LBA], DATA_START_LBA, |d|) && b < |d|
    ensures var a := AllocFrom(d, raw, i, needed);
            var e := d[BLOCK_BMAP_LBA := PutBit(d[BLOCK_BMAP_LBA], b, true)];
            var rest := AllocFrom(e, SetDirect(raw, i, b), i + 1, needed);
            && a.raw == rest.raw && a.rc == rest.rc && |a.writes| == 2 + |rest.writes|
            && (k <= |a.writes| ==> Apply(d, a.writes[..k]) == if k < 2 then d else Apply(e, rest.writes[..k - 2]))
  {
    hide NodeOf, PutBit, SetDirect, FirstClear;
    var a := AllocFrom(d, raw, i, needed);
    var bb := PutBit(d[BLOCK_BMAP_LBA], b, true);
    var e := d[BLOCK_BMAP_LBA := bb];
    var rest := AllocFrom(e, SetDirect(raw, i, b), i + 1, needed);
    var pair := [Write(INODE_BMAP_LBA, d[INODE_BMAP_LBA]), Write(BLOCK_BMAP_LBA, bb)];
    assert a.writes == pair + rest.writes;
    ApplyOne(d, pair[0]);
    ApplySnoc(d, [pair[0]], pair[1]);
    assert [pair[0]] + [pair[1]] == pair;
    assert d[INODE_BMAP_LBA := d[INODE_BMAP_LBA]] == d;
    if k <= |a.writes| {
      if k < 2 {
        assert a.writes[..k] == if k == 0 then [] else [pair[0]];
      } else {
        assert a.writes[..k] == pair + rest.writes[..k - 2];
        ApplyConcat(d, pair, rest.writes[..k - 2]);
      }
    }
  }

  lemma {:induction false} AllocStates(d: Disk, s: nat, raw: RawInode, i: nat, needed: nat, k: nat)
    requires DiskOk(d) && Staged(ViewOf(d), |d|, s, NodeOf(raw)) && i <= needed <= DIRECT_BLOCKS
    requires k <= |AllocFrom(d, raw, i, needed).writes|
    ensures var a := AllocFrom(d, raw, i, needed);
            && (var e := Apply(d, a.writes[..k]); DiskOk(e) && SameFiles(d, e))
            && Allocated(d, Apply(d, a.writes), s, raw, a, i, needed)
    decreases needed - i
  {
    hide NodeOf, PutBit, SetDirect, FirstClear, ViewOf, Inv, SuperOk, Staged, Apply, GetBit;
    var a := AllocFrom(d, raw, i, needed);
    if i == needed {
      ApplyNone(d, a.writes);
      ApplyNone(d, a.writes[..k]);
    } else if NodeOf(raw).direct[i] != 0 {
      AllocStates(d, s, raw, i + 1, needed, k);
    } else {
      var b := FirstClear(d[BLOCK_BMAP_LBA], DATA_START_LBA, |d|);
      if b == |d| {
        ApplyNone(d, a.writes);
        ApplyNone(d, a.writes[..k]);
      } else {
        AllocMore(d, s, raw, i, needed, b, k);
      }
    }
  }

  lemma {:induction false} AllocMore(d: Disk, s: nat, raw: RawInode, i: nat, needed: nat, b: nat, k: nat)
    requires DiskOk(d) && Staged(ViewOf(d), |d|, s, NodeOf(raw)) && i < needed <= DIRECT_BLOCKS
    requires NodeOf(raw).direct[i] == 0 && b == FirstClear(d[BLOCK_BMAP_LBA], DATA_START_LBA, |d|) && b < |d|
    requires k <= |AllocFrom(d, raw, i, needed).writes|
    ensures var a := AllocFrom(d, raw, i, needed);
            && (var e := Apply(d, a.writes[..k]); DiskOk(e) && SameFiles(d, e))
            && Allocated(d, Apply(d, a.writes), s, raw, a, i, needed)
    decreases needed - i, 0
  {
    hide NodeOf, PutBit, ViewOf, Inv, SuperOk, Staged, Apply, GetBit, SameFiles, AllocFrom, BitsOf;
    var a := AllocFrom(d, raw, i, needed);
    var e := d[BLOCK_BMAP_LBA := PutBit(d[BLOCK_BMAP_LBA], b, true)];
    var raw' := SetDirect(raw, i, b);
    var rest := AllocFrom(e, raw', i + 1, needed);
    AllocStep(d, raw, i, needed, b, k);
    AllocStep(d, raw, i, needed, b, |a.writes|);
    assert a.writes[..|a.writes|] == a.writes && rest.writes[..|rest.writes|] == rest.writes;
    BitsFields(d);
    BitClear(d[BLOCK_BMAP_LBA], b);
    MarkedOnDisk(d, b);
    StageBlock(ViewOf(d), |d|, s, NodeOf(raw), i, b);
    AllocStates(e, s, raw', i + 1, needed, if k < 2 then 0 else k - 2);
    var f := Apply(e, rest.writes);
    SameFilesTrans(d, e, f);
    if k >= 2 {
      SameFilesTrans(d, e, Apply(e, rest.writes[..k - 2]));
    } else {
      SameItself(d);
    }
  }

  // ----- data -----

  lemma {:induction false} DataShape(direct: seq<uint32>, buf: seq<uint8>, n: nat, i: nat, needed: nat)
    requires i <= needed <= |direct| && BLOCK_SIZE * (needed - 1) <= |buf|
    requires forall j :: i <= j < needed ==> direct[j] < n
    ensures var p := DataFrom(direct, buf, n, i, needed);
            && p.rc == E_OK && |p.writes| == needed - i
            && forall j :: 0 <= j < needed - i ==> p.writes[j] == Write(direct[i + j], Chunk(buf, i + j))
    decreases needed - i
  {
    hide Chunk;
    if i < needed {
      DataShape(direct, buf, n, i + 1, needed);
      var p, rest := DataFrom(direct, buf, n, i, needed), DataFrom(direct, buf, n, i + 1, needed);
      forall j | 0 <= j < needed - i
        ensures p.writes[j] == Write(direct[i + j], Chunk(buf, i + j))
      {
        if j > 0 {
          assert p.writes[j] == rest.writes[j - 1];
        }
      }
    }
  }

  /** After `k` data writes the first `k` blocks of the file hold the data and no other block has changed. */
  lemma {:induction false} DataApplied(d: Disk, direct: seq<uint32>, buf: seq<uint8>, needed: nat, k: nat)
    requires k <= needed <= |direct| && BLOCK_SIZE * (needed - 1) <= |buf|
    requires forall j :: 0 <= j < needed ==> direct[j] < |d|
    requires forall i, j :: 0 <= i < j < needed ==> direct[i] != direct[j]
    requires |DataFrom(direct, buf, |d|, 0, needed).writes| == needed
    ensures var e := Apply(d, DataFrom(direct, buf, |d|, 0, needed).writes[..k]);
            && (forall j :: 0 <= j < k ==> e[direct[j]] == Chunk(buf, j))
            && (forall l :: 0 <= l < |d| && (forall j :: 0 <= j < k ==> direct[j] != l) ==> e[l] == d[l])
  {
    hide Chunk, Apply, DataFrom;
    var ws := DataFrom(direct, buf, |d|, 0, needed).writes;
    if k == 0 {
      ApplyNone(d, ws[..0]);
    } else {
      DataApplied(d, direct, buf, needed, k - 1);
      DataShape(direct, buf, |d|, 0, needed);
      ApplyStep(d, ws, k - 1);
    }
  }

  lemma AppendChunk(buf: seq<uint8>, k: nat)
    requires BLOCK_SIZE * k <= |buf|
    ensures var h, end := buf[..BLOCK_SIZE * k] + Chunk(buf, k), BLOCK_SIZE * (k + 1);
            if end <= |buf| then h == buf[..end] else |h| == end && h[..|buf|] == buf
  {
    var at := BLOCK_SIZE * k;
    if at + BLOCK_SIZE <= |buf| {
      assert Chunk(buf, k) == buf[at..at + BLOCK_SIZE];
    } else {
      assert Chunk(buf, k)[..|buf| - at] == buf[at..];
    }
  }

  lemma {:induction false} GatherChunks(d: Disk, direct: seq<uint32>, buf: seq<uint8>, k: nat)
    requires k <= |direct| && BLOCK_SIZE * (k - 1) <= |buf|
    requires forall j :: 0 <= j < k ==> direct[j] < |d| && d[direct[j]] == Chunk(buf, j)
    ensures var g := Gather(d, direct, k);
            if BLOCK_SIZE * k <= |buf| then g == buf[..BLOCK_SIZE * k] else g[..|buf|] == buf
  {
    hide Chunk;
    if k > 0 {
      GatherChunks(d, direct, buf, k - 1);
      AppendChunk(buf, k - 1);
    }
  }

  /** A file of which the first `m` blocks have been overwritten from `buf`, padded with zeros, and no others. */
  function Mixed(was: seq<uint8>, buf: seq<uint8>, m: nat): (r: seq<uint8>)
    ensures |r| == |was|
  {
    seq(|was|, i requires 0 <= i < |was| =>
      if i >= BLOCK_SIZE * m then was[i] else if i < |buf| then buf[i] else 0)
  }

  function WithData(l: Listing, s: nat, data: seq<uint8>): (r: Listing)
    requires s < DIR_SLOTS && l[s].Some?
  {
    l[s := Some(File(l[s].value.name, data))]
  }

  lemma {:induction false} GatherAt(d: Disk, direct: seq<uint32>, k: nat, i: nat)
    requires k <= |direct| && (forall j :: 0 <= j < k ==> direct[j] < |d|) && i < BLOCK_SIZE * k
    ensures i / BLOCK_SIZE < k && Gather(d, direct, k)[i] == d[direct[i / BLOCK_SIZE]][i % BLOCK_SIZE]
  {
    if i < BLOCK_SIZE * (k - 1) {
      GatherAt(d, direct, k - 1, i);
    }
  }

  lemma ChunkAt(buf: seq<uint8>, j: nat, t: nat)
    requires BLOCK_SIZE * j <= |buf| && t < BLOCK_SIZE
    ensures Chunk(buf, j)[t] == if BLOCK_SIZE * j + t < |buf| then buf[BLOCK_SIZE * j + t] else 0
  {
  }

  /** `node` has all the blocks of `prior`, and perhaps more. */
  predicate Extends(node: Node, prior: Node) {
    |node.direct| == |prior.direct| == DIRECT_BLOCKS &&
    forall j :: 0 <= j < DIRECT_BLOCKS && prior.direct[j] != 0 ==> node.direct[j] == prior.direct[j]
  }

  /** The first `k` blocks of `node` hold the data; no other block has changed. */
  predicate DataIn(d: Disk, e: Disk, direct: seq<uint32>, buf: seq<uint8>, k: nat) {
    && |e| == |d| && k <= |direct| && BLOCK_SIZE * (k - 1) <= |buf|
    && (forall j :: 0 <= j < k ==> DATA_START_LBA <= direct[j] < |d| && e[direct[j]] == Chunk(buf, j))
    && (forall l :: 0 <= l < |d| && (forall j :: 0 <= j < k ==> direct[j] != l) ==> e[l] == d[l])
  }

  /** The file itself, read through its old inode while its blocks are being overwritten. */
  lemma MixedFile(d: Disk, e: Disk, prior: Node, node: Node, blocks: set<nat>, buf: seq<uint8>, k: nat)
    requires NodeOk(prior, blocks, |d|) && NodeOk(node, blocks, |d|) && Extends(node, prior)
    requires DataIn(d, e, node.direct, buf, k)
    ensures Readable(prior, |d|) && Readable(prior, |e|) && FileOf(e, prior) == Mixed(FileOf(d, prior), buf, k)
  {
    hide Chunk, BlocksOf, Gather;
    BlocksOfNode(prior);
    var n := BlocksOf(prior.size);
    forall i | 0 <= i < prior.size
      ensures FileOf(e, prior)[i] == Mixed(FileOf(d, prior), buf, k)[i]
    {
      GatherAt(d, prior.direct, n, i);
      GatherAt(e, prior.direct, n, i);
      var j := i / BLOCK_SIZE;
      assert prior.direct[j] != 0 && node.direct[j] == prior.direct[j];
      if j < k {
        ChunkAt(buf, j, i % BLOCK_SIZE);
      } else {
        assert forall q :: 0 <= q < k ==> node.direct[q] != node.direct[j];
      }
    }
  }

  /** Writing to blocks of the staged inode changes the one file, block by block, and no other. */
  lemma DataLists(d: Disk, e: Disk, s: nat, node: Node, buf: seq<uint8>, k: nat)
    requires DiskOk(d) && |e| == |d| && Staged(ViewOf(d), |d|, s, node) && ViewOf(e) == ViewOf(d) && e[SB_LBA] == d[SB_LBA]
    requires Extends(node, ViewOf(d).nodes[ViewOf(d).slots[s].ino]) && DataIn(d, e, node.direct, buf, k)
    ensures ListingOf(d)[s].Some?
    ensures Lists(e, |d|, WithData(ListingOf(d), s, Mixed(ListingOf(d)[s].value.data, buf, k)))
  {
    hide ViewOf, SuperOk, Inv, CStr, NodeOk, FileOf, Disjoint, RootOk, SlotsApart, Mixed, Chunk;
    var v := ViewOf(d);
    assert DiskOk(e) by { hide Staged; }
    StagedNode(v, |d|, s, node, s);
    var f := FileAt(d, s).value;
    forall i | 0 <= i < DIR_SLOTS
      ensures FileAt(e, i) == if i == s then Some(File(f.name, Mixed(f.data, buf, k))) else FileAt(d, i)
    {
      if v.slots[i].ino != 0 {
        StagedNode(v, |d|, s, node, i);
        if i == s {
          MixedFile(d, e, v.nodes[v.slots[s].ino], node, v.blocks, buf, k);
        } else {
          OtherFile(d, e, v.nodes[v.slots[i].ino], node, v.blocks, buf, k);
        }
      }
    }
  }

  lemma OtherFile(d: Disk, e: Disk, other: Node, node: Node, blocks: set<nat>, buf: seq<uint8>, k: nat)
    requires NodeOk(other, blocks, |d|) && |node.direct| == DIRECT_BLOCKS && Disjoint(other, node)
    requires DataIn(d, e, node.direct, buf, k)
    ensures FileOf(d, other) == FileOf(e, other)
  {
    hide NeededFor, FileOf, Chunk;
    FileLocal(d, e, other, blocks);
  }

  lemma ViewLow(d: Disk, e: Disk)
    requires |d| == |e| > DATA_START_LBA && forall l :: 0 <= l < DATA_START_LBA ==> e[l] == d[l]
    ensures ViewOf(e) == ViewOf(d)
  {
    hide NodeOf, SlotAt, BitsOf;
    assert forall i :: 1 <= i <= MAX_INODES ==> InodeBytes(e, i) == InodeBytes(d, i);
    assert ViewOf(e).nodes == ViewOf(d).nodes;
    assert ViewOf(e).slots == ViewOf(d).slots;
  }

  // ----- the inode write -----

  lemma NodeWithSize(node: Node, blocks: set<nat>, n: nat, size: nat)
    requires NodeOk(node, blocks, n) && size <= MAX_FILE
    requires forall j :: 0 <= j < NeededFor(size) && j < DIRECT_BLOCKS ==> node.direct[j] != 0
    ensures NodeOk(node.(size := size), blocks, n)
  {
  }

  /** The inode write at the end makes the new contents visible. */
  lemma FinalInode(d: Disk, s: nat, node: Node, raw: RawInode, buf: seq<uint8>)
    requires DiskOk(d) && Staged(ViewOf(d), |d|, s, node) && |buf| <= MAX_FILE
    requires |node.direct| == DIRECT_BLOCKS && NodeOf(raw) == node.(size := |buf|)
    requires forall j :: 0 <= j < NeededFor(|buf|) ==> 0 < node.direct[j] < |d| && d[node.direct[j]] == Chunk(buf, j)
    ensures ListingOf(d)[s].Some?
    ensures var w := InodeWrite(d, ViewOf(d).slots[s].ino, raw);
            Lists(d[w.lba := w.data], |d|, WithData(ListingOf(d), s, buf))
  {
    hide ViewOf, SuperOk, CStr, NodeOk, Disjoint, RootOk, NodeOf, Inv, FileOf, InodeWrite, Chunk;
    var v := ViewOf(d);
    var ino := v.slots[s].ino;
    var node' := node.(size := |buf|);
    var w := InodeWrite(d, ino, raw);
    var e := d[w.lba := w.data];
    ViewInodeWrite(d, ino, raw);
    StagedNode(v, |d|, s, node, s);
    NodeWithSize(node, v.blocks, |d|, |buf|);
    forall i | 0 <= i < DIR_SLOTS && i != s && v.slots[i].ino != 0
      ensures SlotOk(v, v.slots[i], |d|) && v.slots[i].ino != ino
      ensures Disjoint(v.nodes[v.slots[i].ino], node') && Disjoint(node', v.nodes[v.slots[i].ino])
    {
      StagedNode(v, |d|, s, node, i);
      SizeApart(node, node', v.nodes[v.slots[i].ino]);
    }
    ReplaceNode(v, |d|, s, node');
    forall i | 0 <= i < DIR_SLOTS
      ensures FileAt(e, i) == if i == s then Some(File(CStr(v.slots[s].field), buf)) else FileAt(d, i)
    {
      FinalFile(d, e, s, node', buf, i);
    }
  }

  lemma SizeApart(a: Node, b: Node, c: Node)
    requires a.direct == b.direct && Disjoint(a, c) && Disjoint(c, a)
    ensures Disjoint(b, c) && Disjoint(c, b)
  {
  }

  lemma FinalFile(d: Disk, e: Disk, s: nat, node: Node, buf: seq<uint8>, i: nat)
    requires DiskOk(d) && DiskOk(e) && |e| == |d| && s < DIR_SLOTS && 0 < ViewOf(d).slots[s].ino <= MAX_INODES
    requires ViewOf(e) == WithNode(ViewOf(d), ViewOf(d).slots[s].ino, node) && i < DIR_SLOTS
    requires forall l :: DATA_START_LBA <= l < |d| ==> e[l] == d[l]
    requires NodeOk(node, ViewOf(d).blocks, |d|) && node.size == |buf|
    requires forall j :: 0 <= j < NeededFor(|buf|) ==> d[node.direct[j]] == Chunk(buf, j)
    ensures FileAt(e, i) == if i == s then Some(File(CStr(ViewOf(d).slots[s].field), buf)) else FileAt(d, i)
  {
    hide ViewOf, SuperOk, CStr, NodeOk, Disjoint, RootOk, FileOf, Chunk;
    var v := ViewOf(d);
    if v.slots[i].ino != 0 {
      assert SlotOk(v, v.slots[i], |d|);
      if i != s {
        assert SlotsApart(v, v.slots[i], v.slots[s]);
        KeepFile(d, e, v.nodes[v.slots[i].ino], v.blocks);
      } else {
        FileIsBuf(d, e, node, v.blocks, buf);
      }
    }
  }

  lemma FileIsBuf(d: Disk, e: Disk, node: Node, blocks: set<nat>, buf: seq<uint8>)
    requires |e| == |d| && NodeOk(node, blocks, |d|) && node.size == |buf|
    requires forall l :: DATA_START_LBA <= l < |d| ==> e[l] == d[l]
    requires forall j :: 0 <= j < NeededFor(|buf|) ==> d[node.direct[j]] == Chunk(buf, j)
    ensures FileOf(e, node) == buf
  {
    hide Chunk;
    BlocksOfNode(node);
    var k := BlocksOf(|buf|);
    GatherChunks(e, node.direct, buf, k);
    assert |buf| == BLOCK_SIZE * k ==> buf[..BLOCK_SIZE * k] == buf;
  }

  // ----- the whole write -----

  lemma StagedOnDisk(d: Disk, s: nat)
    requires DiskOk(d) && s < DIR_SLOTS && ViewOf(d).slots[s].ino != 0
    ensures SlotOk(ViewOf(d), ViewOf(d).slots[s], |d|)
    ensures var ino := ViewOf(d).slots[s].ino;
            Staged(ViewOf(d), |d|, s, NodeOf(InodeBytes(d, ino))) && NodeOf(InodeBytes(d, ino)) == ViewOf(d).nodes[ino]
  {
    hide ViewOf, NodeOf, NodeOk, RootOk, SlotsApart, SuperOk, InodeBytes;
    var v := ViewOf(d);
    assert SlotOk(v, v.slots[s], |d|);
    var ino := v.slots[s].ino;
    NodeField(d, ino);
    assert WithNode(v, ino, v.nodes[ino]) == v;
  }

  lemma StagedDirect(v: View, n: nat, s: nat, node: Node)
    requires Staged(v, n, s, node)
    ensures |node.direct| == DIRECT_BLOCKS
    ensures forall j :: 0 <= j < DIRECT_BLOCKS && node.direct[j] != 0 ==> DATA_START_LBA <= node.direct[j] < n
    ensures forall i, j :: 0 <= i < j < DIRECT_BLOCKS && node.direct[i] != 0 ==> node.direct[i] != node.direct[j]
  {
    hide Inv, NeededFor;
    StagedNode(v, n, s, node, s);
  }

  /** The data phase, from the disk the allocation loop left: block by block the old contents give way to the new. */
  lemma DataStates(d: Disk, s: nat, node: Node, buf: seq<uint8>, needed: nat, k: nat)
    requires DiskOk(d) && Staged(ViewOf(d), |d|, s, node) && needed <= DIRECT_BLOCKS == |node.direct| && k <= needed
    requires BLOCK_SIZE * (needed - 1) <= |buf| && Extends(node, ViewOf(d).nodes[ViewOf(d).slots[s].ino])
    requires forall j :: 0 <= j < needed ==> node.direct[j] != 0
    ensures ListingOf(d)[s].Some?
    ensures var p, l := DataFrom(node.direct, buf, |d|, 0, needed), ListingOf(d);
            && p.rc == E_OK && |p.writes| == needed
            && CutLists(d, p, k, WithData(l, s, Mixed(l[s].value.data, buf, k)))
            && ViewOf(Apply(d, p.writes[..k])) == ViewOf(d) && DataIn(d, Apply(d, p.writes[..k]), node.direct, buf, k)
  {
    hide ViewOf, SuperOk, Inv, NodeOk, ListingOf, Apply, Chunk, DataFrom, Staged, Mixed, Extends;
    StagedDirect(ViewOf(d), |d|, s, node);
    DataShape(node.direct, buf, |d|, 0, needed);
    DataApplied(d, node.direct, buf, needed, k);
    var e := Apply(d, DataFrom(node.direct, buf, |d|, 0, needed).writes[..k]);
    ViewLow(d, e);
    DataLists(d, e, s, node, buf, k);
  }

  lemma NeededFits(len: nat)
    requires len <= MAX_FILE
    ensures NeededFor(len) <= DIRECT_BLOCKS && BLOCK_SIZE * (NeededFor(len) - 1) <= len
  {
  }

  /** The inode write that ends it, on the disk `d2` with the data. */
  lemma StoreInode(d1: Disk, d2: Disk, s: nat, node: Node, raw: RawInode, buf: seq<uint8>)
    requires DiskOk(d1) && |d2| == |d1| && |buf| <= MAX_FILE && s < DIR_SLOTS && ListingOf(d1)[s].Some?
    requires Staged(ViewOf(d1), |d1|, s, node) && ViewOf(d2) == ViewOf(d1)
    requires Lists(d2, |d1|, WithData(ListingOf(d1), s, Mixed(ListingOf(d1)[s].value.data, buf, NeededFor(|buf|))))
    requires |node.direct| == DIRECT_BLOCKS && NodeOf(raw) == node.(size := |buf|)
    requires DataIn(d1, d2, node.direct, buf, NeededFor(|buf|))
    ensures 1 <= ViewOf(d1).slots[s].ino <= MAX_INODES
    ensures var w := InodeWrite(d2, ViewOf(d1).slots[s].ino, raw);
            w.lba < |d1| && Lists(d2[w.lba := w.data], |d1|, WithData(ListingOf(d1), s, buf))
  {
    hide ViewOf, SuperOk, Inv, ListingOf, Chunk, InodeWrite, NodeOf, Mixed, NodeOk;
    FinalInode(d2, s, node, raw, buf);
  }

  /** How many data blocks the first `k` writes of a write plan include; one more once the inode has been written. */
  function DataDone(p: Plan, buf: seq<uint8>, k: nat): (m: nat) {
    var rest := |p.writes| - k;
    if rest > NeededFor(|buf|) then 0 else NeededFor(|buf|) + 1 - if rest < 0 then 0 else rest
  }

  /** The list once `m` data blocks, or the inode too, have been written. */
  function Stored(l: Listing, s: nat, buf: seq<uint8>, m: nat): (r: Listing)
    requires s < DIR_SLOTS && l[s].Some?
  {
    WithData(l, s, if m <= NeededFor(|buf|) then Mixed(l[s].value.data, buf, m) else buf)
  }

  lemma StoredNone(l: Listing, s: nat, buf: seq<uint8>)
    requires s < DIR_SLOTS && l[s].Some?
    ensures Stored(l, s, buf, 0) == l
  {
    assert Mixed(l[s].value.data, buf, 0) == l[s].value.data;
  }

  /** Writes after a successful allocation, which left `d1`. */
  lemma StoreRest(d1: Disk, s: nat, a: Alloc, buf: seq<uint8>, m: nat)
    requires DiskOk(d1) && |buf| <= MAX_FILE && s < DIR_SLOTS && Staged(ViewOf(d1), |d1|, s, NodeOf(a.raw))
    requires Extends(NodeOf(a.raw), ViewOf(d1).nodes[ViewOf(d1).slots[s].ino])
    requires forall j :: 0 <= j < NeededFor(|buf|) && j < DIRECT_BLOCKS ==> NodeOf(a.raw).direct[j] != 0
    requires m <= NeededFor(|buf|) + 1
    ensures ListingOf(d1)[s].Some? && NeededFor(|buf|) <= DIRECT_BLOCKS && BLOCK_SIZE * (NeededFor(|buf|) - 1) <= |buf|
    ensures var p, l := DataFrom(NodeOf(a.raw).direct, buf, |d1|, 0, NeededFor(|buf|)), ListingOf(d1);
            && p.rc == E_OK && |p.writes| == NeededFor(|buf|)
            && var w := InodeWrite(Apply(d1, p.writes), ViewOf(d1).slots[s].ino, SetSize(a.raw, |buf|));
            CutLists(d1, Plan(p.writes + [w], E_OK), m, Stored(l, s, buf, m))
  {
    hide ViewOf, SuperOk, Inv, NodeOk, Apply, Chunk, DataFrom, Staged, InodeWrite, NodeOf, Lists, ListingOf, Mixed,
      NeededFor, Extends;
    var node, needed := NodeOf(a.raw), NeededFor(|buf|);
    NeededFits(|buf|);
    var p := DataFrom(node.direct, buf, |d1|, 0, needed);
    DataStates(d1, s, node, buf, needed, needed);
    assert p.writes[..needed] == p.writes;
    var d2 := Apply(d1, p.writes);
    StoreInode(d1, d2, s, node, SetSize(a.raw, |buf|), buf);
    var w := InodeWrite(d2, ViewOf(d1).slots[s].ino, SetSize(a.raw, |buf|));
    if m <= needed {
      DataStates(d1, s, node, buf, needed, m);
      assert (p.writes + [w])[..m] == p.writes[..m];
    } else {
      assert (p.writes + [w])[..m] == p.writes + [w];
      ApplySnoc(d1, p.writes, w);
    }
  }

  /** The allocation loop leaves the listing and every inode on disk as they were. */
  lemma AllocLists(d: Disk, s: nat, needed: nat, k: nat)
    requires DiskOk(d) && s < DIR_SLOTS && 0 < ViewOf(d).slots[s].ino <= MAX_INODES && needed <= DIRECT_BLOCKS
    requires Staged(ViewOf(d), |d|, s, NodeOf(InodeBytes(d, ViewOf(d).slots[s].ino)))
    requires k <= |AllocFrom(d, InodeBytes(d, ViewOf(d).slots[s].ino), 0, needed).writes|
    ensures var raw := InodeBytes(d, ViewOf(d).slots[s].ino);
            var a := AllocFrom(d, raw, 0, needed);
            && CutLists(d, Plan(a.writes, a.rc), k, ListingOf(d))
            && Allocated(d, Apply(d, a.writes), s, raw, a, 0, needed)
  {
    hide ViewOf, SuperOk, Inv, Staged, NodeOf, Apply, InodeBytes, AllocFrom, Lists, SameFiles, ListingOf;
    var raw := InodeBytes(d, ViewOf(d).slots[s].ino);
    AllocStates(d, s, raw, 0, needed, k);
    KeptLists(d, Apply(d, AllocFrom(d, raw, 0, needed).writes[..k]));
  }

  /** What the allocation loop leaves behind is what the data phase starts from. */
  lemma AllocDone(d: Disk, d1: Disk, s: nat, a: Alloc, needed: nat)
    requires DiskOk(d) && s < DIR_SLOTS && 0 < ViewOf(d).slots[s].ino <= MAX_INODES
    requires NodeOf(InodeBytes(d, ViewOf(d).slots[s].ino)) == ViewOf(d).nodes[ViewOf(d).slots[s].ino]
    requires Allocated(d, d1, s, InodeBytes(d, ViewOf(d).slots[s].ino), a, 0, needed)
    ensures |d1| == |d| && ViewOf(d1).slots == ViewOf(d).slots && ListingOf(d1) == ListingOf(d)
    ensures Extends(NodeOf(a.raw), ViewOf(d1).nodes[ViewOf(d1).slots[s].ino])
  {
    hide ViewOf, SuperOk, Inv, Staged, InodeBytes, ListingOf;
    KeepFiles(d, d1);
  }

  lemma StoreCut(d: Disk, s: nat, buf: seq<uint8>, k: nat)
    requires DiskOk(d) && s < DIR_SLOTS && ViewOf(d).slots[s].ino != 0 && |buf| <= MAX_FILE && ListingOf(d)[s].Some?
    ensures SlotOk(ViewOf(d), ViewOf(d).slots[s], |d|)
    ensures var p, l := StorePlan(d, ViewOf(d).slots[s].ino, buf), ListingOf(d);
            && (p.rc == E_OK || p.rc == E_NOSPC)
            && (k <= |p.writes| ==>
                  CutLists(d, p, k, if p.rc == E_OK then Stored(l, s, buf, DataDone(p, buf, k)) else l))
  {
    hide ViewOf, SuperOk, Inv, NodeOk, ListingOf, DataFrom, Staged, SameFiles, InodeWrite, NodeOf, Apply, Lists,
      SetSize, AllocFrom, NeededFor, InodeBytes, Stored, Extends;
    StagedOnDisk(d, s);
    NeededFits(|buf|);
    var ino, needed := ViewOf(d).slots[s].ino, NeededFor(|buf|);
    var a := AllocFrom(d, InodeBytes(d, ino), 0, needed);
    var p := StorePlan(d, ino, buf);
    AllocLists(d, s, needed, 0);
    var d1 := Apply(d, a.writes);
    AllocDone(d, d1, s, a, needed);
    StoredNone(ListingOf(d), s, buf);
    if a.rc == E_OK {
      var m := if k <= |a.writes| then 0 else if k - |a.writes| <= needed + 1 then k - |a.writes| else 0;
      StoreRest(d1, s, a, buf, m);
      var data := DataFrom(NodeOf(a.raw).direct, buf, |d|, 0, needed).writes;
      ApplyConcat(d, a.writes, data);
      var w := InodeWrite(Apply(d1, data), ino, SetSize(a.raw, |buf|));
      assert p.writes == a.writes + (data + [w]);
      if k <= |a.writes| {
        AllocLists(d, s, needed, k);
        assert p.writes[..k] == a.writes[..k];
      } else if k <= |p.writes| {
        assert p.writes[..k] == a.writes + (data + [w])[..m];
        ApplyConcat(d, a.writes, (data + [w])[..m]);
      }
    } else if k <= |p.writes| {
      AllocLists(d, s, needed, k);
    }
  }

  /** The list after `k` block writes of a write that returns `rc`. */
  function Overwritten(l: Listing, past: uint8, name: Name, buf: seq<uint8>, p: Plan, k: nat): (r: Listing) {
    var s := FindIn(l, past, name, 0);
    if p.rc == E_OK && s < DIR_SLOTS then Stored(l, s, buf, DataDone(p, buf, k)) else l
  }

  /** The codes write may return; whether there are enough free blocks is not in the list. */
  predicate WriteRc(l: Listing, past: uint8, name: Name, buf: seq<uint8>, rc: int) {
    if |buf| > MAX_FILE then rc == E_RANGE
    else if NameRc(name) != E_OK then rc == NameRc(name)
    else if FindIn(l, past, name, 0) == DIR_SLOTS then rc == E_NOENT
    else rc == E_OK || rc == E_NOSPC
  }

  /**
   Write, cut off after any number of block writes, on any sound image: the image stays sound and no other file changes;
   a refused write, even one that runs out of space halfway through its allocations, changes no file; in between, the
   file holds the new data in exactly the blocks written so far; a finished write holds exactly the data.
   */
  lemma WriteCut(d: Disk, past: uint8, name: Name, buf: seq<uint8>, k: nat)
    requires DiskOk(d) && k <= |WritePlan(d, past, name, buf).writes|
    ensures var p, l := WritePlan(d, past, name, buf), ListingOf(d);
            WriteRc(l, past, name, buf, p.rc) && CutLists(d, p, k, Overwritten(l, past, name, buf, p, k))
  {
    hide ViewOf, Inv, SuperOk, ListingOf, StorePlan, FindFrom, SlotAt, FindIn, NodeOf, InodeBytes, NodeOk, Apply, SameFiles,
      Stored, DataDone, NameRc;
    var p := WritePlan(d, past, name, buf);
    SameItself(d);
    KeptLists(d, d);
    ApplyNone(d, []);
    if |buf| <= MAX_FILE && NameRc(name) == E_OK {
      FindIsFindIn(d, past, name);
      var v, slot := ViewOf(d), FindIn(ListingOf(d), past, name, 0);
      if slot < DIR_SLOTS {
        InUse(d, slot);
        BitsFields(d);
        StoreCut(d, slot, buf, k);
        NodeField(d, v.slots[slot].ino);
        FileMode(v, v.slots[slot], |d|);
      }
    }
  }
}
