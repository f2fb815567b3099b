/** The heap in memory: linked block headers, rewritten in place by split and coalesce. */
module KmemHeap {
  import opened Kmem
  import opened KmemLive

  const MAGIC := 0x4d43534f53484541
  /** The arena ends at least this far below the end of the address space. */
  const TOP := 0xFFFF_FFFF_FFFF_FF00
  const GUARD := 1048576

  /** A block header in memory; addresses are numbers, 0 is the null pointer. */
  datatype Header = Header(magic: nat, size: nat, free: bool, prev: nat, next: nat)

  type Headers = map<nat, Header>

  function Addr(base: nat, bs: seq<Blk>, i: nat): (a: nat)
    requires i <= |bs|
  {
    base + Offset(bs, i)
  }

  function PrevOf(base: nat, bs: seq<Blk>, i: nat): (a: nat)
    requires i < |bs|
  {
    if i == 0 then 0 else Addr(base, bs, i - 1)
  }

  function NextOf(base: nat, bs: seq<Blk>, i: nat): (a: nat)
    requires i < |bs|
  {
    if i + 1 == |bs| then 0 else Addr(base, bs, i + 1)
  }

  function HeaderOf(base: nat, bs: seq<Blk>, i: nat): (h: Header)
    requires i < |bs|
  {
    Header(MAGIC, bs[i].size, bs[i].free, PrevOf(base, bs, i), NextOf(base, bs, i))
  }

  predicate NodeAt(base: nat, hdr: Headers, bs: seq<Blk>, i: nat)
    requires i < |bs|
  {
    Addr(base, bs, i) in hdr && hdr[Addr(base, bs, i)] == HeaderOf(base, bs, i)
  }

  /** The headers in memory are the doubly linked list of the blocks `bs`, laid out from `base`. */
  predicate Linked(base: nat, hdr: Headers, bs: seq<Blk>) {
    base > 0 && forall i :: 0 <= i < |bs| ==> NodeAt(base, hdr, bs, i)
  }

  lemma AddrsDiffer(base: nat, bs: seq<Blk>, i: nat, j: nat)
    requires i < |bs| && j <= |bs| && i != j
    ensures Addr(base, bs, i) != Addr(base, bs, j)
  {
    if i < j {
      OffsetMonotone(bs, i, j);
    } else {
      OffsetMonotone(bs, j, i);
    }
  }

  // ----- header writes -----

  function SetPrev(hdr: Headers, at: nat, prev: nat): (r: Headers) {
    if at != 0 && at in hdr then hdr[at := hdr[at].(prev := prev)] else hdr
  }

  /** The header writes of `kmem_split_if_useful`. */
  function SplitHeaders(hdr: Headers, cur: nat, wanted: nat): (r: Headers)
    requires cur in hdr && hdr[cur].size >= wanted + HEADER
  {
    var h, rest := hdr[cur], cur + HEADER + wanted;
    SetPrev(hdr[rest := Header(MAGIC, h.size - wanted - HEADER, true, cur, h.next)], h.next, rest)
      [cur := Header(h.magic, wanted, h.free, h.prev, rest)]
  }

  /** The header writes of one round of `kmem_coalesce_forward`. */
  function MergeHeaders(hdr: Headers, cur: nat): (r: Headers)
    requires cur in hdr && hdr[cur].next in hdr
  {
    var h, n := hdr[cur], hdr[cur].next;
    var x := hdr[n];
    SetPrev(hdr[cur := Header(h.magic, h.size + HEADER + x.size, h.free, h.prev, x.next)], x.next, cur)
      [n := Header(0, 0, x.free, 0, 0)]
  }

  function Split(bs: seq<Blk>, i: nat, wanted: nat): (r: seq<Blk>)
    requires i < |bs| && bs[i].size >= wanted + HEADER
    ensures |r| == |bs| + 1
  {
    bs[..i] + [Blk(wanted, bs[i].free), Blk(bs[i].size - wanted - HEADER, true)] + bs[i + 1..]
  }

  lemma SplitOffset(bs: seq<Blk>, i: nat, wanted: nat)
    requires i < |bs| && bs[i].size >= wanted + HEADER
    ensures var r := Split(bs, i, wanted);
            && (forall j :: 0 <= j <= i ==> Offset(r, j) == Offset(bs, j))
            && Offset(r, i + 1) == Offset(bs, i) + HEADER + wanted
            && (forall j :: i < j <= |bs| ==> Offset(r, j + 1) == Offset(bs, j))
  {
    var r := Split(bs, i, wanted);
    var y, x, a, c := [Blk(wanted, bs[i].free), Blk(bs[i].size - wanted - HEADER, true)], [bs[i]], bs[..i], bs[i + 1..];
    assert bs == a + x + c;
    assert Offset(x, 1) == HEADER + bs[i].size;
    assert Offset(y, 1) == HEADER + wanted;
    forall j | 0 <= j <= i
      ensures Offset(r, j) == Offset(bs, j)
    {
      assert r[..j] == bs[..j];
      OffsetPrefix(r, bs, j);
    }
    forall j | i < j <= |bs|
      ensures Offset(r, j + 1) == Offset(bs, j)
    {
      OffsetSpliced(a, x, y, c, j - i - 1);
    }
  }

  /** Split rewrites exactly the list it should. */
  lemma SplitLinked(base: nat, hdr: Headers, bs: seq<Blk>, i: nat, wanted: nat)
    requires Linked(base, hdr, bs) && i < |bs| && bs[i].size > wanted + HEADER
    ensures Addr(base, bs, i) in hdr && hdr[Addr(base, bs, i)].size == bs[i].size
    ensures Linked(base, SplitHeaders(hdr, Addr(base, bs, i), wanted), Split(bs, i, wanted))
  {
    hide Offset;
    var cur, r := Addr(base, bs, i), Split(bs, i, wanted);
    assert NodeAt(base, hdr, bs, i);
    var hdr' := SplitHeaders(hdr, cur, wanted);
    var rest := cur + HEADER + wanted;
    SplitOffset(bs, i, wanted);
    forall k | 0 <= k < |r|
      ensures NodeAt(base, hdr', r, k)
    {
      FreshApart(bs, i, wanted);
      if k < i {
        assert NodeAt(base, hdr, bs, k);
        AddrsDiffer(base, bs, k, i);
        assert r[k] == bs[k];
        if i + 1 < |bs| {
          AddrsDiffer(base, bs, k, i + 1);
        }
        BeforeFresh(base, bs, k, i, wanted);
      } else if k > i + 1 {
        var j := k - 1;
        assert r[k] == bs[j];
        assert NodeAt(base, hdr, bs, j);
        AddrsDiffer(base, bs, j, i);
        AfterFresh(base, bs, i, j, wanted);
        if j != i + 1 {
          AddrsDiffer(base, bs, j, i + 1);
        }
      } else if i + 1 < |bs| {
        AddrsDiffer(base, bs, i, i + 1);
        AfterFresh(base, bs, i, i + 1, wanted);
      }
    }
  }

  lemma FreshApart(bs: seq<Blk>, i: nat, wanted: nat)
    requires i < |bs| && bs[i].size > wanted + HEADER
    ensures Offset(bs, i) < Offset(bs, i) + HEADER + wanted < Offset(bs, i + 1)
  {
  }

  lemma BeforeFresh(base: nat, bs: seq<Blk>, k: nat, i: nat, wanted: nat)
    requires k < i < |bs|
    ensures Addr(base, bs, k) < Addr(base, bs, i) + HEADER + wanted
  {
    OffsetMonotone(bs, k, i);
  }

  lemma AfterFresh(base: nat, bs: seq<Blk>, i: nat, j: nat, wanted: nat)
    requires i < j <= |bs| && bs[i].size > wanted + HEADER
    ensures Addr(base, bs, i) + HEADER + wanted < Addr(base, bs, j)
  {
    OffsetMonotone(bs, i, j);
  }

  lemma MergedNode(base: nat, hdr: Headers, bs: seq<Blk>, i: nat)
    requires Linked(base, hdr, bs) && i + 1 < |bs|
    requires var cur := Addr(base, bs, i); cur in hdr && hdr[cur].next in hdr
    ensures NodeAt(base, MergeHeaders(hdr, Addr(base, bs, i)), Merge(bs, i), i)
  {
    hide Offset;
    assert NodeAt(base, hdr, bs, i) && NodeAt(base, hdr, bs, i + 1);
    MergeOffset(bs, i);
    AddrsDiffer(base, bs, i, i + 1);
    if i + 2 < |bs| {
      assert NodeAt(base, hdr, bs, i + 2);
      AddrsDiffer(base, bs, i + 1, i + 2);
      AddrsDiffer(base, bs, i, i + 2);
    }
  }

  lemma MergeNode(base: nat, hdr: Headers, bs: seq<Blk>, i: nat, j: nat)
    requires Linked(base, hdr, bs) && i + 1 < |bs| && j < |bs| && j != i && j != i + 1
    requires var cur := Addr(base, bs, i); cur in hdr && hdr[cur].next in hdr
    ensures NodeAt(base, MergeHeaders(hdr, Addr(base, bs, i)), Merge(bs, i), if j <= i then j else j - 1)
  {
    hide Offset;
    assert NodeAt(base, hdr, bs, i) && NodeAt(base, hdr, bs, i + 1) && NodeAt(base, hdr, bs, j);
    MergeOffset(bs, i);
    AddrsDiffer(base, bs, j, i + 1);
    AddrsDiffer(base, bs, j, i);
    assert Merge(bs, i)[if j <= i then j else j - 1] == bs[j];
    if i + 2 < |bs| && j != i + 2 {
      AddrsDiffer(base, bs, j, i + 2);
    }
  }

  /** One round of coalescing rewrites exactly the list it should. */
  lemma MergeLinked(base: nat, hdr: Headers, bs: seq<Blk>, i: nat)
    requires Linked(base, hdr, bs) && i + 1 < |bs|
    ensures var cur := Addr(base, bs, i); cur in hdr && hdr[cur].next in hdr
    ensures Linked(base, MergeHeaders(hdr, Addr(base, bs, i)), Merge(bs, i))
  {
    hide Offset, MergeHeaders, Merge;
    assert NodeAt(base, hdr, bs, i) && NodeAt(base, hdr, bs, i + 1);
    forall k | 0 <= k < |bs| - 1
      ensures NodeAt(base, MergeHeaders(hdr, Addr(base, bs, i)), Merge(bs, i), k)
    {
      if k == i {
        MergedNode(base, hdr, bs, i);
      } else {
        MergeNode(base, hdr, bs, i, if k < i then k else k + 1);
      }
    }
  }

  lemma SetFreeLinked(base: nat, hdr: Headers, bs: seq<Blk>, i: nat, free: bool)
    requires Linked(base, hdr, bs) && i < |bs|
    ensures var cur := Addr(base, bs, i);
            && cur in hdr
            && Linked(base, hdr[cur := hdr[cur].(free := free)], bs[i := Blk(bs[i].size, free)])
  {
    hide Offset;
    var cur, r := Addr(base, bs, i), bs[i := Blk(bs[i].size, free)];
    assert NodeAt(base, hdr, bs, i);
    forall k | 0 <= k <= |bs|
      ensures Offset(r, k) == Offset(bs, k)
    {
      FlagOffset(bs, i, free, k);
    }
    var hdr' := hdr[cur := hdr[cur].(free := free)];
    forall k | 0 <= k < |bs|
      ensures NodeAt(base, hdr', r, k)
    {
      assert NodeAt(base, hdr, bs, k);
      if k != i {
        AddrsDiffer(base, bs, k, i);
      }
    }
  }

  // ----- the magic number marks blocks and nothing else -----

  ghost predicate IsBlock(base: nat, bs: seq<Blk>, a: nat) {
    exists i: nat :: i < |bs| && Addr(base, bs, i) == a
  }

  ghost predicate OnlyBlocks(base: nat, hdr: Headers, bs: seq<Blk>) {
    forall a :: a in hdr && hdr[a].magic == MAGIC ==> IsBlock(base, bs, a)
  }

  lemma SplitOnly(base: nat, hdr: Headers, bs: seq<Blk>, i: nat, wanted: nat)
    requires Linked(base, hdr, bs) && OnlyBlocks(base, hdr, bs) && i < |bs| && bs[i].size > wanted + HEADER
    requires Addr(base, bs, i) in hdr && hdr[Addr(base, bs, i)].size == bs[i].size
    ensures OnlyBlocks(base, SplitHeaders(hdr, Addr(base, bs, i), wanted), Split(bs, i, wanted))
  {
    hide Offset;
    var cur, r := Addr(base, bs, i), Split(bs, i, wanted);
    var hdr' := SplitHeaders(hdr, cur, wanted);
    SplitOffset(bs, i, wanted);
    forall a | a in hdr' && hdr'[a].magic == MAGIC
      ensures IsBlock(base, r, a)
    {
      if a == cur + HEADER + wanted {
        assert Addr(base, r, i + 1) == a;
      } else if a == cur {
        assert Addr(base, r, i) == a;
      } else {
        assert a in hdr && hdr[a].magic == MAGIC;
        var j: nat :| j < |bs| && Addr(base, bs, j) == a;
        assert Addr(base, r, if j <= i then j else j + 1) == a;
      }
    }
  }

  lemma MergeOnly(base: nat, hdr: Headers, bs: seq<Blk>, i: nat)
    requires Linked(base, hdr, bs) && OnlyBlocks(base, hdr, bs) && i + 1 < |bs|
    requires var cur := Addr(base, bs, i); cur in hdr && hdr[cur].next in hdr
    ensures OnlyBlocks(base, MergeHeaders(hdr, Addr(base, bs, i)), Merge(bs, i))
  {
    hide Offset;
    var cur, r := Addr(base, bs, i), Merge(bs, i);
    assert NodeAt(base, hdr, bs, i);
    var hdr' := MergeHeaders(hdr, cur);
    MergeOffset(bs, i);
    forall a | a in hdr' && hdr'[a].magic == MAGIC
      ensures IsBlock(base, r, a)
    {
      assert a in hdr && hdr[a].magic == MAGIC && a != Addr(base, bs, i + 1);
      var j: nat :| j < |bs| && Addr(base, bs, j) == a;
      assert Addr(base, r, if j <= i then j else j - 1) == a;
    }
  }

  lemma FlagOnly(base: nat, hdr: Headers, bs: seq<Blk>, i: nat, free: bool)
    requires Linked(base, hdr, bs) && OnlyBlocks(base, hdr, bs) && i < |bs|
    requires Addr(base, bs, i) in hdr
    ensures var cur := Addr(base, bs, i);
            OnlyBlocks(base, hdr[cur := hdr[cur].(free := free)], bs[i := Blk(bs[i].size, free)])
  {
    hide Offset;
    var cur, r := Addr(base, bs, i), bs[i := Blk(bs[i].size, free)];
    var hdr' := hdr[cur := hdr[cur].(free := free)];
    forall a | a in hdr' && hdr'[a].magic == MAGIC
      ensures IsBlock(base, r, a)
    {
      assert a in hdr && hdr[a].magic == MAGIC;
      var j: nat :| j < |bs| && Addr(base, bs, j) == a;
      FlagOffset(bs, i, free, j);
      assert Addr(base, r, j) == a;
    }
  }

  /** Handing out a block is a split, if useful, and clearing its free flag. */
  lemma TakeIsSplit(bs: seq<Blk>, i: nat, wanted: nat)
    requires i < |bs| && bs[i].size >= wanted
    ensures var c := if bs[i].size > wanted + HEADER + MIN_SPLIT then Split(bs, i, wanted) else bs;
            i < |c| && AllocAt(bs, i, wanted) == c[i := Blk(c[i].size, false)]
  {
    var c := if bs[i].size > wanted + HEADER + MIN_SPLIT then Split(bs, i, wanted) else bs;
    assert AllocAt(bs, i, wanted) == c[i := Blk(c[i].size, false)];
  }

  datatype Stats = Stats(total: nat, used: nat, free: nat, blocks: nat, freeBlocks: nat, largest: nat)

  function StatsOf(bs: seq<Blk>, total: nat): (s: Stats) {
    Stats(total, UsedBytes(bs, |bs|), FreeBytes(bs, |bs|), |bs|, FreeCount(bs, |bs|), LargestFree(bs, |bs|))
  }

  class Heap {
    var base: nat
    var end: nat
    var head: nat
    var initialized: bool
    var hdr: Headers
    ghost var blocks: seq<Blk>

    /** The list without the rule that free neighbours are merged: what holds in the middle of a release. */
    ghost predicate Laid()
      reads this
    {
      && initialized && blocks != [] && Linked(base, hdr, blocks) && Sized(blocks)
      && OnlyBlocks(base, hdr, blocks)
      && head == base && base % ALIGN == 0 && end == base + Offset(blocks, |blocks|) <= TOP
    }

    ghost predicate Valid()
      reads this
    {
      initialized ==> Laid() && Inv(blocks, end - base)
    }

    constructor ()
      ensures Valid() && !initialized
    {
      base, end, head, initialized, hdr, blocks := 0, 0, 0, false, map[], [];
    }

    /** `kmem_init`: the usable arena is one free block. */
    method Init(arena: nat, bytes: nat) returns (rc: int)
      requires arena + bytes <= TOP
      modifies this
      ensures var start := AlignUp(arena);
              var usable := (bytes - (start - arena)) / ALIGN * ALIGN;
              rc == if arena == 0 || bytes < HEADER + MIN_SPLIT then -1
                    else if bytes <= start - arena + HEADER + MIN_SPLIT then -3
                    else if usable <= HEADER + MIN_SPLIT then -4
                    else 0
      ensures rc != 0 ==> initialized == old(initialized) && blocks == old(blocks) && hdr == old(hdr)
      ensures rc == 0 ==>
                && Valid() && initialized
                && base == AlignUp(arena) && end == base + (bytes - (base - arena)) / ALIGN * ALIGN
                && blocks == [Blk(end - base - HEADER, true)]
    {
      if arena == 0 || bytes < HEADER + MIN_SPLIT {
        return -1;
      }
      var start := AlignUp(arena);
      var lost := start - arena;
      if bytes <= lost + HEADER + MIN_SPLIT {
        return -3;
      }
      var usable := (bytes - lost) / ALIGN * ALIGN;
      if usable <= HEADER + MIN_SPLIT {
        return -4;
      }
      base, end, head := start, start + usable, start;
      hdr := map[start := Header(MAGIC, usable - HEADER, true, 0, 0)];
      initialized := true;
      blocks := [Blk(usable - HEADER, true)];
      StartInv(usable);
      assert Offset(blocks, 0) == 0;
      assert NodeAt(base, hdr, blocks, 0);
      assert Addr(base, blocks, 0) == start;
      rc := Validate();
    }

    /** `kmem_validate`. */
    method Validate() returns (rc: int)
      requires initialized ==> Laid()
      ensures rc == if !initialized then -1 else if |blocks| <= GUARD then 0 else -3
    {
      hide Offset, Sized;
      if !initialized || base == 0 || end <= base || head == 0 {
        LaidOut();
        return -1;
      }
      if head != base {
        return -2;
      }
      var prev, cursor, guard, cur := 0, base, 0, head;
      StartAddr(base, blocks);
      while cur != 0
        invariant 0 <= guard <= |blocks| && guard <= GUARD
        invariant cursor == Addr(base, blocks, guard)
        invariant cur == if guard < |blocks| then Addr(base, blocks, guard) else 0
        invariant prev == if guard == 0 then 0 else Addr(base, blocks, guard - 1)
        decreases |blocks| - guard
      {
        ghost var i := guard;
        assert NodeAt(base, hdr, blocks, i);
        NodeFits(base, blocks, i);
        guard := guard + 1;
        if guard > GUARD {
          return -3;
        }
        if cur != cursor {
          return -4;
        }
        if cur < base || cur + HEADER > end {
          return -5;
        }
        if hdr[cur].magic != MAGIC {
          return -6;
        }
        if hdr[cur].prev != prev {
          return -7;
        }
        if hdr[cur].size > end - (cur + HEADER) {
          return -8;
        }
        cursor := AlignUp(cur + HEADER + hdr[cur].size);
        if cursor == 0 || cursor > end {
          return -9;
        }
        prev := cur;
        cur := hdr[cur].next;
      }
      return 0;
    }

    lemma LaidOut()
      requires initialized ==> Laid()
      ensures initialized ==> base != 0 && end > base && head != 0
    {
      if initialized {
        OffsetMonotone(blocks, 0, |blocks|);
      }
    }

    lemma StartAddr(base: nat, bs: seq<Blk>)
      ensures Addr(base, bs, 0) == base
    {
    }

    lemma OffsetNext(bs: seq<Blk>, i: nat)
      requires i < |bs|
      ensures Offset(bs, i + 1) == Offset(bs, i) + HEADER + bs[i].size
    {
    }

    lemma AlignedUp(a: nat)
      requires a % ALIGN == 0
      ensures AlignUp(a) == a
    {
    }

    lemma NodeFits(base: nat, bs: seq<Blk>, i: nat)
      requires i < |bs| && base % ALIGN == 0 && Sized(bs)
      ensures Addr(base, bs, i) + HEADER + bs[i].size == Addr(base, bs, i + 1) <= base + Offset(bs, |bs|)
      ensures AlignUp(Addr(base, bs, i + 1)) == Addr(base, bs, i + 1)
    {
      hide Offset, AlignUp, Sized;
      OffsetNext(bs, i);
      OffsetMonotone(bs, i, |bs|);
      OffsetAligned(bs, i + 1);
      AlignedUp(Addr(base, bs, i + 1));
    }

    /** `kmem_split_if_useful`. */
    method SplitIfUseful(cur: nat, wanted: nat, ghost i: nat)
      requires Laid() && i < |blocks| && cur == Addr(base, blocks, i) && blocks[i].size >= wanted > 0 && wanted % ALIGN == 0
      modifies this`hdr, this`blocks
      ensures Laid() && blocks == if old(blocks)[i].size > wanted + HEADER + MIN_SPLIT
                                  then Split(old(blocks), i, wanted) else old(blocks)
    {
      hide Offset;
      assert NodeAt(base, hdr, blocks, i);
      NodeFits(base, blocks, i);
      if hdr[cur].size < wanted + HEADER + MIN_SPLIT {
        return;
      }
      var rest := AlignUp(cur + HEADER + wanted);
      PayloadAligned(base, blocks, i, wanted);
      if rest + HEADER >= end {
        return;
      }
      var consumed := rest - (cur + HEADER);
      if hdr[cur].size <= consumed + HEADER + MIN_SPLIT {
        return;
      }
      SplitLinked(base, hdr, blocks, i, wanted);
      SplitOnly(base, hdr, blocks, i, wanted);
      SplitOffset(blocks, i, wanted);
      SplitSized(blocks, i, wanted);
      hdr := SplitHeaders(hdr, cur, wanted);
      blocks := Split(blocks, i, wanted);
    }

    lemma PayloadAligned(base: nat, bs: seq<Blk>, i: nat, wanted: nat)
      requires i < |bs| && base % ALIGN == 0 && Sized(bs) && wanted % ALIGN == 0
      ensures AlignUp(Addr(base, bs, i) + HEADER + wanted) == Addr(base, bs, i) + HEADER + wanted
    {
      OffsetAligned(bs, i);
    }

    lemma RestAligned(size: nat, wanted: nat)
      requires size > wanted + HEADER && size % ALIGN == 0 && wanted % ALIGN == 0
      ensures (size - wanted - HEADER) % ALIGN == 0
    {
    }

    lemma SplitSized(bs: seq<Blk>, i: nat, wanted: nat)
      requires i < |bs| && bs[i].size > wanted + HEADER && wanted > 0 && Sized(bs) && wanted % ALIGN == 0
      ensures Sized(Split(bs, i, wanted))
    {
      var r := Split(bs, i, wanted);
      RestAligned(bs[i].size, wanted);
      forall k | 0 <= k < |r|
        ensures r[k].size > 0 && r[k].size % ALIGN == 0
      {
        assert k < i ==> r[k] == bs[k];
        assert k > i + 1 ==> r[k] == bs[k - 1];
      }
    }

    /** `kmem_alloc`; the null pointer reports failure. */
    method Alloc(bytes: nat) returns (ptr: nat)
      requires Valid()
      modifies this`hdr, this`blocks
      ensures Valid()
      ensures var bs, w := old(blocks), Wanted(bytes);
              var i := FirstFit(bs, w, 0);
              if !initialized || w == 0 || i == |bs| then ptr == 0 && blocks == bs && hdr == old(hdr)
              else ptr == Addr(base, bs, i) + HEADER && blocks == AllocAt(bs, i, w)
    {
      hide Offset, AllocAt, Split;
      ptr := 0;
      if !initialized || bytes == 0 {
        return;
      }
      var wanted := Wanted(bytes);
      if wanted == 0 {
        return;
      }
      ghost var bs := blocks;
      ghost var i := 0;
      StartAddr(base, bs);
      var cur := head;
      while cur != 0
        invariant 0 <= i <= |bs| && blocks == bs && hdr == old(hdr) && Laid()
        invariant cur == if i < |bs| then Addr(base, bs, i) else 0
        invariant FirstFit(bs, wanted, 0) == FirstFit(bs, wanted, i)
        decreases |bs| - i
      {
        assert NodeAt(base, hdr, bs, i);
        if hdr[cur].magic != MAGIC {
          return;
        }
        if hdr[cur].free && hdr[cur].size >= wanted {
          AllocKeepsInv(bs, end - base, i, wanted);
          SplitIfUseful(cur, wanted, i);
          TakeIsSplit(bs, i, wanted);
          SplitStays(base, bs, i, wanted);
          SetFreeLinked(base, hdr, blocks, i, false);
          FlagOnly(base, hdr, blocks, i, false);
          hdr := hdr[cur := hdr[cur].(free := false)];
          blocks := AllocAt(bs, i, wanted);
          return cur + HEADER;
        }
        cur := hdr[cur].next;
        i := i + 1;
      }
      return;
    }

    /** `kmem_calloc` without the clearing of the payload. */
    method Calloc(count: nat, bytes: nat) returns (ptr: nat)
      requires Valid()
      modifies this`hdr, this`blocks
      ensures Valid()
      ensures var bs, w := old(blocks), if count * bytes > SIZE_MAX then 0 else Wanted(count * bytes);
              var i := FirstFit(bs, w, 0);
              if !initialized || w == 0 || i == |bs| then ptr == 0 && blocks == bs
              else ptr == Addr(base, bs, i) + HEADER && blocks == AllocAt(bs, i, w)
    {
      ptr := 0;
      if count != 0 && bytes > SIZE_MAX / count {
        TooMany(count, bytes);
        return;
      }
      if count != 0 {
        Fits(count, bytes);
      }
      ptr := Alloc(count * bytes);
    }

    lemma TooMany(count: nat, bytes: nat)
      requires count != 0 && bytes > SIZE_MAX / count
      ensures count * bytes > SIZE_MAX
    {
      assert SIZE_MAX < (SIZE_MAX / count + 1) * count;
      assert (SIZE_MAX / count + 1) * count <= bytes * count;
    }

    lemma Fits(count: nat, bytes: nat)
      requires count != 0 && bytes <= SIZE_MAX / count
      ensures count * bytes <= SIZE_MAX
    {
      assert bytes * count <= SIZE_MAX / count * count <= SIZE_MAX;
    }

    lemma SplitStays(base: nat, bs: seq<Blk>, i: nat, wanted: nat)
      requires i < |bs| && bs[i].size >= wanted
      ensures bs[i].size > wanted + HEADER + MIN_SPLIT ==> Addr(base, Split(bs, i, wanted), i) == Addr(base, bs, i)
    {
      if bs[i].size > wanted + HEADER + MIN_SPLIT {
        SplitOffset(bs, i, wanted);
      }
    }

    /** `kmem_coalesce_forward`. */
    method CoalesceForward(cur: nat, ghost i: nat)
      requires Laid() && i < |blocks| && cur == Addr(base, blocks, i)
      modifies this`hdr, this`blocks
      ensures Laid() && blocks == CoalesceAt(old(blocks), i) && cur == Addr(base, blocks, i)
    {
      hide Offset, Merge;
      while true
        invariant Laid() && i < |blocks| && cur == Addr(base, blocks, i)
        invariant CoalesceAt(old(blocks), i) == CoalesceAt(blocks, i)
        decreases |blocks|
      {
        assert NodeAt(base, hdr, blocks, i);
        var next := hdr[cur].next;
        if next == 0 {
          return;
        }
        assert NodeAt(base, hdr, blocks, i + 1);
        if !hdr[next].free {
          return;
        }
        NodeFits(base, blocks, i);
        var expected := AlignUp(cur + HEADER + hdr[cur].size);
        assert expected == next;
        MergeLinked(base, hdr, blocks, i);
        MergeOnly(base, hdr, blocks, i);
        MergeOffset(blocks, i);
        MergeKeeps(blocks, i, Offset(blocks, |blocks|));
        hdr := MergeHeaders(hdr, cur);
        blocks := Merge(blocks, i);
      }
    }

    /** The block of `blocks` whose payload starts at `ptr`, or their number. */
    ghost function BlockAt(ptr: nat): (i: nat)
      reads this
    {
      if ptr < base then |blocks| else Find(blocks, ptr - base, 0)
    }

    /**
     `kmem_free_checked` on any pointer: it releases the pointers it handed out, and detects a second release and a
     pointer into the middle of a block. The word in front of the pointer is `stray` if the heap never wrote it; a client
     that stores the magic number there cannot be told from the heap.
     */
    method FreeChecked(ptr: nat, stray: nat) returns (rc: int)
      requires Valid() && stray != MAGIC
      modifies this`hdr, this`blocks
      ensures Valid()
      ensures var bs, i := old(blocks), old(BlockAt(ptr));
              if initialized && ptr != 0 && i < |bs| && !bs[i].free then
                blocks == FreeAt(bs, i) && rc == if |blocks| <= GUARD then 0 else -3
              else
                && blocks == bs && hdr == old(hdr)
                && rc == if ptr == 0 then 0
                         else if !initialized || ptr < base || ptr >= end then -1
                         else if ptr % ALIGN != 0 then -2
                         else if i == |bs| then -3
                         else -4
    {
      hide Offset, CoalesceAt;
      if ptr == 0 {
        return 0;
      }
      if !initialized || ptr < base || ptr >= end {
        if initialized {
          Locate(ptr);
        }
        return -1;
      }
      Locate(ptr);
      if ptr % ALIGN != 0 {
        return -2;
      }
      if ptr < base + HEADER {
        return -3;
      }
      var cur := ptr - HEADER;
      var magic := if cur in hdr then hdr[cur].magic else stray;
      if magic != MAGIC {
        return -3;
      }
      if hdr[cur].free {
        return -4;
      }
      rc := Release(cur, BlockAt(ptr));
    }

    /** A pointer is the payload of a block exactly when the magic number stands in front of it. */
    lemma Locate(ptr: nat)
      requires Valid() && initialized
      ensures var i := BlockAt(ptr);
              if i < |blocks| then
                && ptr - HEADER == Addr(base, blocks, i) && base + HEADER <= ptr < end && ptr % ALIGN == 0
                && NodeAt(base, hdr, blocks, i)
              else ptr >= base + HEADER && ptr - HEADER in hdr ==> hdr[ptr - HEADER].magic != MAGIC
    {
      hide Offset;
      var i := BlockAt(ptr);
      if i < |blocks| {
        assert NodeAt(base, hdr, blocks, i);
        InArena(base, blocks, i);
      }
    }

    /** The release proper, of the used block `i` at `cur`. */
    method Release(cur: nat, ghost i: nat) returns (rc: int)
      requires Valid() && initialized && i < |blocks| && !blocks[i].free && cur == Addr(base, blocks, i)
      modifies this`hdr, this`blocks
      ensures Valid() && initialized && blocks == FreeAt(old(blocks), i)
      ensures rc == if |blocks| <= GUARD then 0 else -3
    {
      hide Offset, CoalesceAt;
      assert NodeAt(base, hdr, blocks, i);
      FreeKeepsInv(blocks, end - base, i);
      SetFreeLinked(base, hdr, blocks, i, true);
      FlagOnly(base, hdr, blocks, i, true);
      FlagOffset(blocks, i, true, |blocks|);
      FlagOffset(blocks, i, true, i);
      hdr := hdr[cur := hdr[cur].(free := true)];
      blocks := blocks[i := Blk(blocks[i].size, true)];
      ghost var c := blocks;
      CoalesceForward(cur, i);
      assert NodeAt(base, hdr, blocks, i);
      CoalescePrefix(c, i);
      var prev := hdr[cur].prev;
      if prev != 0 {
        assert NodeAt(base, hdr, blocks, i - 1);
        if hdr[prev].free {
          CoalesceForward(prev, i - 1);
        }
      }
      rc := Validate();
    }

    lemma {:induction false} CoalescePrefix(bs: seq<Blk>, i: nat)
      requires i < |bs|
      ensures CoalesceAt(bs, i)[..i] == bs[..i]
      decreases |bs|
    {
      if i + 1 < |bs| && bs[i + 1].free {
        CoalescePrefix(Merge(bs, i), i);
        assert Merge(bs, i)[..i] == bs[..i];
      }
    }

    lemma InArena(base: nat, bs: seq<Blk>, i: nat)
      requires i < |bs| && base % ALIGN == 0 && Sized(bs)
      ensures base <= Addr(base, bs, i) < base + Offset(bs, |bs|)
      ensures (Addr(base, bs, i) + HEADER) % ALIGN == 0
      ensures Addr(base, bs, i) + HEADER + bs[i].size <= base + Offset(bs, |bs|)
    {
      OffsetMonotone(bs, i, |bs|);
      OffsetAligned(bs, i);
    }

    /** `kmem_get_stats`. */
    method GetStats() returns (st: Stats)
      requires Valid()
      ensures st == if initialized then StatsOf(blocks, end - base) else Stats(0, 0, 0, 0, 0, 0)
    {
      hide Offset;
      st := Stats(0, 0, 0, 0, 0, 0);
      if !initialized {
        return;
      }
      LaidOut();
      StartAddr(base, blocks);
      var used, free, count, frees, largest, cur := 0, 0, 0, 0, 0, head;
      while cur != 0
        invariant 0 <= count <= |blocks|
        invariant cur == if count < |blocks| then Addr(base, blocks, count) else 0
        invariant used == UsedBytes(blocks, count) && free == FreeBytes(blocks, count)
        invariant frees == FreeCount(blocks, count) && largest == LargestFree(blocks, count)
        decreases |blocks| - count
      {
        assert NodeAt(base, hdr, blocks, count);
        count := count + 1;
        if hdr[cur].free {
          frees := frees + 1;
          free := free + hdr[cur].size;
          if hdr[cur].size > largest {
            largest := hdr[cur].size;
          }
        } else {
          used := used + hdr[cur].size;
        }
        cur := hdr[cur].next;
      }
      st := Stats(end - base, used, free, count, frees, largest);
    }
  }
}
