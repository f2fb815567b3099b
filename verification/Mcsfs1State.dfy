/**
 MCSFS1 states: name lookup, the ownership invariant, and the directory as a list of sixteen slots. The invariant says of
 the typed view that every listed file has its own marked inode and its own marked blocks in the data area, also those
 beyond its size. It says nothing about names; what lookups find is read off the list.
 */
module Mcsfs1State {
  import opened Bytes
  import opened BlockDevice
  import opened Mcsfs1Layout

  // ----- names -----

  /** The C string at the start of a buffer: everything before the first zero byte. */
  function CStr(s: seq<uint8>): (r: Name)
    ensures |r| <= |s| && r == s[..|r|]
    ensures |r| < |s| ==> s[|r|] == 0
  {
    if s == [] || s[0] == 0 then []
    else
      assert s[..1 + |CStr(s[1..])|] == [s[0]] + CStr(s[1..]);
      [s[0]] + CStr(s[1..])
  }

  lemma CStrIs(s: seq<uint8>, r: Name)
    requires |r| <= |s| && r == s[..|r|]
    requires |r| < |s| ==> s[|r|] == 0
    ensures CStr(s) == r
  {
  }

  function Field(name: Name): (f: seq<uint8>)
    requires |name| <= MAX_NAME
    ensures |f| == MAX_NAME && CStr(f) == name
  {
    CStrIs(name + Zeros(MAX_NAME - |name|), name);
    name + Zeros(MAX_NAME - |name|)
  }

  /** `mcsfs_strlen_bound` from offset `off`. */
  function Strlen(buf: seq<uint8>, off: nat, max: nat): (n: nat)
    requires off + max <= |buf|
    decreases max
  {
    if max == 0 || buf[off] == 0 then 0 else 1 + Strlen(buf, off + 1, max - 1)
  }

  lemma {:induction false} StrlenIs(buf: seq<uint8>, off: nat, max: nat, n: nat)
    requires off + max <= |buf| && n <= max
    requires forall k :: off <= k < off + n ==> buf[k] != 0
    requires n < max ==> buf[off + n] == 0
    ensures Strlen(buf, off, max) == n
    decreases max
  {
    if n > 0 {
      StrlenIs(buf, off + 1, max - 1, n - 1);
    }
  }

  /** The byte that follows the name field of slot `i`; for the last slot it lies behind the directory buffer. */
  function ByteAfter(dir: Block, past: uint8, i: nat): (b: uint8)
    requires i < DIR_SLOTS
  {
    (dir + [past])[DIRENT_SIZE * (i + 1)]
  }

  /** The comparison of `find_dirent`, whose length scan runs one byte past the name field. */
  predicate Finds(dir: Block, past: uint8, i: nat, name: Name)
    requires i < DIR_SLOTS && |name| <= MAX_NAME
  {
    var o := DIRENT_SIZE * i + 5;
    && SlotAt(dir, i).ino != 0
    && Strlen(dir + [past], o, MAX_NAME + 1) == |name|
    && dir[o..o + |name|] == name
  }

  /** A lookup sees slot `i` under its stored name unless that name fills the field and a nonzero byte follows it. */
  predicate Visible(dir: Block, past: uint8, i: nat)
    requires i < DIR_SLOTS
  {
    |CStr(SlotAt(dir, i).field)| < MAX_NAME || ByteAfter(dir, past, i) == 0
  }

  /** What the length scan returns on the name field of slot `i`. */
  lemma ScanLength(dir: Block, past: uint8, i: nat)
    requires i < DIR_SLOTS
    ensures var c := CStr(SlotAt(dir, i).field);
            Strlen(dir + [past], DIRENT_SIZE * i + 5, MAX_NAME + 1) == if Visible(dir, past, i) then |c| else MAX_NAME + 1
  {
    hide Get32, Strlen, CStr;
    var buf, o, f := dir + [past], DIRENT_SIZE * i + 5, SlotAt(dir, i).field;
    var c := CStr(f);
    forall k | o <= k < o + |c|
      ensures buf[k] != 0
    {
      assert buf[k] == f[k - o] == c[k - o] && c[k - o] in c;
    }
    if |c| < MAX_NAME {
      assert buf[o + |c|] == f[|c|];
      StrlenIs(buf, o, MAX_NAME + 1, |c|);
    } else if Visible(dir, past, i) {
      StrlenIs(buf, o, MAX_NAME + 1, MAX_NAME);
    } else {
      StrlenIs(buf, o, MAX_NAME + 1, MAX_NAME + 1);
    }
  }

  lemma FindsIff(dir: Block, past: uint8, i: nat, name: Name)
    requires i < DIR_SLOTS && |name| <= MAX_NAME
    ensures Finds(dir, past, i, name) <==>
              SlotAt(dir, i).ino != 0 && CStr(SlotAt(dir, i).field) == name && Visible(dir, past, i)
  {
    hide Get32, Strlen, CStr, Visible;
    var o, f := DIRENT_SIZE * i + 5, SlotAt(dir, i).field;
    assert dir[o..o + |name|] == f[..|name|];
    ScanLength(dir, past, i);
  }

  function FindFrom(dir: Block, past: uint8, name: Name, i: nat): (r: nat)
    requires i <= DIR_SLOTS && |name| <= MAX_NAME
    ensures i <= r <= DIR_SLOTS
    ensures forall j :: i <= j < r ==> !Finds(dir, past, j, name)
    ensures r < DIR_SLOTS ==> Finds(dir, past, r, name)
    decreases DIR_SLOTS - i
  {
    if i == DIR_SLOTS || Finds(dir, past, i, name) then i else FindFrom(dir, past, name, i + 1)
  }

  // ----- the invariant -----

  /** Data blocks a file of this size occupies. */
  function BlocksOf(size: nat): (n: nat)
    ensures size <= BLOCK_SIZE * n && (size == 0 || size > BLOCK_SIZE * (n - 1))
  {
    (size + BLOCK_SIZE - 1) / BLOCK_SIZE
  }

  /** Data blocks fsck wants present: at least one. */
  function NeededFor(size: nat): (n: nat)
    ensures n >= 1
  {
    if size == 0 then 1 else BlocksOf(size)
  }

  predicate NodeOk(node: Node, blocks: set<nat>, n: nat) {
    && |node.direct| == DIRECT_BLOCKS
    && node.mode == MODE_FILE && node.size <= DIRECT_BLOCKS * BLOCK_SIZE
    && (forall j :: 0 <= j < NeededFor(node.size) ==> node.direct[j] != 0)
    && (forall j :: 0 <= j < DIRECT_BLOCKS && node.direct[j] != 0 ==>
          DATA_START_LBA <= node.direct[j] < n && node.direct[j] in blocks)
    && (forall i, j :: 0 <= i < j < DIRECT_BLOCKS && node.direct[i] != 0 ==> node.direct[i] != node.direct[j])
  }

  predicate SlotOk(v: View, s: Slot, n: nat)
    requires |v.nodes| == MAX_INODES + 1
  {
    && 2 <= s.ino <= MAX_INODES && s.kind == MODE_FILE as uint8 && s.ino in v.inodes
    && NodeOk(v.nodes[s.ino], v.blocks, n)
  }

  predicate Disjoint(a: Node, b: Node) {
    forall i, j :: 0 <= i < |a.direct| && 0 <= j < |b.direct| && a.direct[i] != 0 ==> a.direct[i] != b.direct[j]
  }

  /** Two slots in use share neither inode nor data block. */
  predicate SlotsApart(v: View, s: Slot, t: Slot)
    requires |v.nodes| == MAX_INODES + 1
  {
    s.ino != 0 && t.ino != 0 ==>
      && s.ino != t.ino
      && (s.ino <= MAX_INODES && t.ino <= MAX_INODES ==> Disjoint(v.nodes[s.ino], v.nodes[t.ino]))
  }

  predicate RootOk(v: View)
    requires |v.nodes| == MAX_INODES + 1
  {
    && ROOT_INO in v.inodes
    && (forall b: nat :: b < DATA_START_LBA ==> b in v.blocks)
    && v.nodes[ROOT_INO].mode == MODE_DIR
    && |v.nodes[ROOT_INO].direct| == DIRECT_BLOCKS && v.nodes[ROOT_INO].direct[0] == ROOT_DIR_LBA
  }

  /** The ownership invariant. */
  predicate Inv(v: View, n: nat) {
    && |v.slots| == DIR_SLOTS && |v.nodes| == MAX_INODES + 1
    && RootOk(v)
    && (forall i :: 0 <= i < DIR_SLOTS && v.slots[i].ino != 0 ==> SlotOk(v, v.slots[i], n))
    && (forall i, j :: 0 <= i < DIR_SLOTS && 0 <= j < DIR_SLOTS && i != j ==> SlotsApart(v, v.slots[i], v.slots[j]))
  }

  predicate DiskOk(d: Disk) {
    DiskSize(|d|) && SuperOk(d[SB_LBA], |d|) && Inv(ViewOf(d), |d|)
  }

  // ----- contents -----

  /** The first `k` data blocks of a file, one after the other. */
  function Gather(d: Disk, direct: seq<uint32>, k: nat): (s: seq<uint8>)
    requires k <= |direct| && forall j :: 0 <= j < k ==> direct[j] < |d|
    ensures |s| == BLOCK_SIZE * k
  {
    if k == 0 then [] else Gather(d, direct, k - 1) + d[direct[k - 1]]
  }

  predicate Readable(node: Node, n: nat) {
    && |node.direct| == DIRECT_BLOCKS && node.size <= DIRECT_BLOCKS * BLOCK_SIZE
    && forall j :: 0 <= j < BlocksOf(node.size) ==> node.direct[j] < n
  }

  function FileOf(d: Disk, node: Node): (s: seq<uint8>)
    requires Readable(node, |d|)
    ensures |s| == node.size
  {
    Gather(d, node.direct, BlocksOf(node.size))[..node.size]
  }

  // ----- the directory as a list -----

  datatype File = File(name: Name, data: seq<uint8>)

  /** Slot by slot, the file it holds. */
  type Listing = l: seq<Option<File>> | |l| == DIR_SLOTS witness seq(DIR_SLOTS, _ => None)

  function FileAt(d: Disk, i: nat): (f: Option<File>)
    requires DiskOk(d) && i < DIR_SLOTS
  {
    var v := ViewOf(d);
    if v.slots[i].ino == 0 then None
    else
      assert SlotOk(v, v.slots[i], |d|);
      Some(File(CStr(v.slots[i].field), FileOf(d, v.nodes[v.slots[i].ino])))
  }

  function ListingOf(d: Disk): (l: Listing)
    requires DiskOk(d)
    ensures forall i :: 0 <= i < DIR_SLOTS ==> l[i] == FileAt(d, i)
  {
    hide DiskOk, FileAt;
    seq(DIR_SLOTS, i requires 0 <= i < DIR_SLOTS => FileAt(d, i))
  }

  /** A lookup sees the file in slot `i`: its name does not fill the field, or a zero byte follows. */
  predicate Sees(l: Listing, past: uint8, i: nat)
    requires i < DIR_SLOTS && l[i].Some?
  {
    |l[i].value.name| < MAX_NAME || if i + 1 < DIR_SLOTS then l[i + 1].None? else past == 0
  }

  predicate Hits(l: Listing, past: uint8, i: nat, name: Name)
    requires i < DIR_SLOTS
  {
    l[i].Some? && l[i].value.name == name && Sees(l, past, i)
  }

  /** The first slot from `i` on that a lookup of `name` sees it in. */
  function FindIn(l: Listing, past: uint8, name: Name, i: nat): (r: nat)
    requires i <= DIR_SLOTS
    ensures i <= r <= DIR_SLOTS
    ensures forall j :: i <= j < r ==> !Hits(l, past, j, name)
    ensures r < DIR_SLOTS ==> Hits(l, past, r, name)
    decreases DIR_SLOTS - i
  {
    if i == DIR_SLOTS || Hits(l, past, i, name) then i else FindIn(l, past, name, i + 1)
  }

  lemma FindInIs(l: Listing, past: uint8, name: Name, r: nat)
    requires r <= DIR_SLOTS
    requires forall j :: 0 <= j < r ==> !Hits(l, past, j, name)
    requires r < DIR_SLOTS ==> Hits(l, past, r, name)
    ensures FindIn(l, past, name, 0) == r
  {
    hide Hits;
  }

  /** The bytes a lookup of `name` leads to. */
  function Found(l: Listing, past: uint8, name: Name): (c: Option<seq<uint8>>) {
    var s := FindIn(l, past, name, 0);
    if s < DIR_SLOTS then Some(l[s].value.data) else None
  }

  /** The file system as a map from names to byte strings, as lookups see it. */
  function Contents(d: Disk, past: uint8, name: Name): (c: Option<seq<uint8>>)
    requires DiskOk(d)
  {
    Found(ListingOf(d), past, name)
  }

  lemma LowByte(b: Block, o: nat)
    requires o + 4 <= BLOCK_SIZE && Get32(b, o) < 256
    ensures b[o] as int == Get32(b, o)
  {
  }

  /** On a sound image the byte behind a name field is the inode number of the next slot, so zero means a free slot. */
  lemma ByteAfterIs(d: Disk, past: uint8, i: nat)
    requires DiskOk(d) && i < DIR_SLOTS
    ensures ByteAfter(d[ROOT_DIR_LBA], past, i) == 0 <==>
              if i + 1 < DIR_SLOTS then ViewOf(d).slots[i + 1].ino == 0 else past == 0
  {
    hide SuperOk, NodeOf, BitsOf, RootOk, NodeOk, SlotsApart, Get32, CStr;
    var dir, v := d[ROOT_DIR_LBA], ViewOf(d);
    if i + 1 < DIR_SLOTS {
      assert v.slots[i + 1] == SlotAt(dir, i + 1);
      assert v.slots[i + 1].ino != 0 ==> SlotOk(v, v.slots[i + 1], |d|);
      LowByte(dir, DIRENT_SIZE * (i + 1));
    }
  }

  /** On a sound image, whatever its names, the lookup of the source finds what the list says. */
  lemma FindIsFindIn(d: Disk, past: uint8, name: Name)
    requires DiskOk(d) && |name| <= MAX_NAME
    ensures FindFrom(d[ROOT_DIR_LBA], past, name, 0) == FindIn(ListingOf(d), past, name, 0)
  {
    hide Finds, SlotAt, CStr, Inv, SuperOk, ByteAfter, FindFrom, FindIn, BitsOf, NodeOf, FileOf;
    var dir, l := d[ROOT_DIR_LBA], ListingOf(d);
    forall i | 0 <= i < DIR_SLOTS
      ensures Finds(dir, past, i, name) <==> Hits(l, past, i, name)
    {
      FindsIff(dir, past, i, name);
      ByteAfterIs(d, past, i);
      assert ViewOf(d).slots[i] == SlotAt(dir, i);
      assert i + 1 < DIR_SLOTS ==> l[i + 1] == FileAt(d, i + 1);
    }
    FindInIs(l, past, name, FindFrom(dir, past, name, 0));
  }

  lemma {:induction false} GatherLocal(d: Disk, e: Disk, direct: seq<uint32>, k: nat)
    requires k <= |direct| && |d| == |e| && forall j :: 0 <= j < k ==> direct[j] < |d| && d[direct[j]] == e[direct[j]]
    ensures Gather(d, direct, k) == Gather(e, direct, k)
  {
    if k > 0 {
      GatherLocal(d, e, direct, k - 1);
    }
  }
}
