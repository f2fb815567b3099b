/** The kernel heap as a list of blocks that tile an arena: first fit, split and coalesce, and what they keep. */
module Kmem {

  const ALIGN := 16
  const HEADER := 48
  const MIN_SPLIT := 32
  const SIZE_MAX := 0xFFFF_FFFF_FFFF_FFFF

  /** One block: the size of its payload and whether it is free. */
  datatype Blk = Blk(size: nat, free: bool)

  function AlignUp(n: nat): (r: nat)
    ensures r % ALIGN == 0 && n <= r < n + ALIGN
  {
    (n + ALIGN - 1) / ALIGN * ALIGN
  }

  /** Bytes taken by the first `i` blocks, headers included. */
  function Offset(bs: seq<Blk>, i: nat): (o: nat)
    requires i <= |bs|
    ensures o >= HEADER * i
  {
    if i == 0 then 0 else Offset(bs, i - 1) + HEADER + bs[i - 1].size
  }

  lemma {:induction false} OffsetPrefix(bs: seq<Blk>, cs: seq<Blk>, i: nat)
    requires i <= |bs| && i <= |cs| && bs[..i] == cs[..i]
    ensures Offset(bs, i) == Offset(cs, i)
  {
    if i > 0 {
      assert bs[..i - 1] == bs[..i][..i - 1] == cs[..i - 1];
      assert bs[i - 1] == bs[..i][i - 1] == cs[i - 1];
      OffsetPrefix(bs, cs, i - 1);
    }
  }

  lemma {:induction false} OffsetMonotone(bs: seq<Blk>, i: nat, j: nat)
    requires i < j <= |bs|
    ensures Offset(bs, i) + HEADER + bs[i].size <= Offset(bs, j)
    decreases j
  {
    if i + 1 < j {
      OffsetMonotone(bs, i, j - 1);
    }
  }

  /** Replacing a stretch of the list by another that covers the same bytes leaves everything behind it in place. */
  lemma {:induction false} OffsetSpliced(a: seq<Blk>, x: seq<Blk>, y: seq<Blk>, c: seq<Blk>, j: nat)
    requires Offset(x, |x|) == Offset(y, |y|) && j <= |c|
    ensures Offset(a + x + c, |a| + |x| + j) == Offset(a + y + c, |a| + |y| + j)
    decreases j
  {
    if j == 0 {
      OffsetAppend(a, x, c);
      OffsetAppend(a, y, c);
    } else {
      OffsetSpliced(a, x, y, c, j - 1);
    }
  }

  lemma {:induction false} OffsetAppend(a: seq<Blk>, x: seq<Blk>, c: seq<Blk>)
    ensures Offset(a + x + c, |a| + |x|) == Offset(a, |a|) + Offset(x, |x|)
    decreases |x|
  {
    if x == [] {
      OffsetPrefix(a + x + c, a, |a|);
    } else {
      var n := |x| - 1;
      assert a + x + c == a + x[..n] + ([x[n]] + c);
      OffsetAppend(a, x[..n], [x[n]] + c);
      OffsetPrefix(x, x[..n], n);
    }
  }

  // ----- the invariant -----

  predicate Sized(bs: seq<Blk>) {
    forall i :: 0 <= i < |bs| ==> bs[i].size > 0 && bs[i].size % ALIGN == 0
  }

  predicate Coalesced(bs: seq<Blk>) {
    forall i :: 0 <= i < |bs| - 1 ==> !(bs[i].free && bs[i + 1].free)
  }

  /** The blocks tile an arena of `total` bytes, sizes are positive and aligned, and no two neighbours are both free. */
  predicate Inv(bs: seq<Blk>, total: nat) {
    bs != [] && Offset(bs, |bs|) == total && Sized(bs) && Coalesced(bs)
  }

  // ----- allocation -----

  /** First fit from block `i` on. */
  function FirstFit(bs: seq<Blk>, wanted: nat, i: nat): (r: nat)
    requires i <= |bs|
    ensures i <= r <= |bs|
    ensures forall j :: i <= j < r ==> !(bs[j].free && bs[j].size >= wanted)
    ensures r < |bs| ==> bs[r].free && bs[r].size >= wanted
    decreases |bs| - i
  {
    if i == |bs| || (bs[i].free && bs[i].size >= wanted) then i else FirstFit(bs, wanted, i + 1)
  }

  /** Block `i` handed out for `wanted` bytes, split when enough is left over. */
  function Taken(b: Blk, wanted: nat): (x: seq<Blk>)
    requires b.size >= wanted
    ensures Offset(x, |x|) == HEADER + b.size
  {
    if b.size > wanted + HEADER + MIN_SPLIT then
      var x := [Blk(wanted, false), Blk(b.size - wanted - HEADER, true)];
      assert Offset(x, 1) == HEADER + wanted;
      x
    else
      assert Offset([Blk(b.size, false)], 1) == HEADER + b.size;
      [Blk(b.size, false)]
  }

  function AllocAt(bs: seq<Blk>, i: nat, wanted: nat): (r: seq<Blk>)
    requires i < |bs| && bs[i].size >= wanted
  {
    bs[..i] + Taken(bs[i], wanted) + bs[i + 1..]
  }

  /** The size `kmem_alloc` looks for; 0 stands for a refused request. */
  function Wanted(bytes: nat): (w: nat) {
    if bytes == 0 || bytes > SIZE_MAX - (ALIGN - 1) then 0 else AlignUp(bytes)
  }

  lemma AllocOffset(bs: seq<Blk>, i: nat, wanted: nat)
    requires i < |bs| && bs[i].size >= wanted
    ensures var r := AllocAt(bs, i, wanted); Offset(r, |r|) == Offset(bs, |bs|)
  {
    hide Offset, Taken;
    var x, y, a, c := Taken(bs[i], wanted), [bs[i]], bs[..i], bs[i + 1..];
    assert bs == a + y + c;
    OffsetSingle(bs[i]);
    OffsetSpliced(a, x, y, c, |c|);
  }

  lemma OffsetSingle(b: Blk)
    ensures Offset([b], 1) == HEADER + b.size
  {
    assert Offset([b], 0) == 0;
  }

  lemma AllocSized(bs: seq<Blk>, i: nat, wanted: nat)
    requires i < |bs| && bs[i].size >= wanted > 0 && wanted % ALIGN == 0 && Sized(bs)
    ensures Sized(AllocAt(bs, i, wanted))
  {
    hide Offset;
    var r, x := AllocAt(bs, i, wanted), Taken(bs[i], wanted);
    forall j | 0 <= j < |r|
      ensures r[j].size > 0 && r[j].size % ALIGN == 0
    {
      if j >= i + |x| {
        assert r[j] == bs[j - |x| + 1];
      } else if j >= i {
        assert r[j] == x[j - i];
      }
    }
  }

  lemma AllocCoalesced(bs: seq<Blk>, i: nat, wanted: nat)
    requires i < |bs| && bs[i].free && bs[i].size >= wanted && Coalesced(bs)
    ensures Coalesced(AllocAt(bs, i, wanted))
  {
    hide Offset;
    var r, x := AllocAt(bs, i, wanted), Taken(bs[i], wanted);
    assert !x[0].free && (i + 1 < |bs| ==> !bs[i + 1].free);
    forall j | 0 <= j < |r| - 1
      ensures !(r[j].free && r[j + 1].free)
    {
      if j + 1 < i {
        assert r[j] == bs[j] && r[j + 1] == bs[j + 1];
      } else if j >= i + |x| {
        assert r[j] == bs[j - |x| + 1] && r[j + 1] == bs[j - |x| + 2];
      } else if j == i + |x| - 1 {
        assert r[j + 1] == bs[i + 1];
      } else {
        assert r[i] == x[0];
      }
    }
  }

  /** Allocation keeps the tiling, the alignment of sizes and the coalescing. */
  lemma AllocKeepsInv(bs: seq<Blk>, total: nat, i: nat, wanted: nat)
    requires Inv(bs, total) && i < |bs| && bs[i].free && bs[i].size >= wanted > 0 && wanted % ALIGN == 0
    ensures Inv(AllocAt(bs, i, wanted), total)
  {
    hide Offset, Sized, Coalesced;
    AllocOffset(bs, i, wanted);
    AllocSized(bs, i, wanted);
    AllocCoalesced(bs, i, wanted);
  }

  // ----- release -----

  /** Block `i` with its successor merged into it. */
  function Merge(bs: seq<Blk>, i: nat): (r: seq<Blk>)
    requires i + 1 < |bs|
    ensures |r| == |bs| - 1
  {
    bs[..i] + [Blk(bs[i].size + HEADER + bs[i + 1].size, bs[i].free)] + bs[i + 2..]
  }

  /** `kmem_coalesce_forward`. */
  function CoalesceAt(bs: seq<Blk>, i: nat): (r: seq<Blk>)
    requires i < |bs|
    ensures i < |r| <= |bs|
    decreases |bs|
  {
    if i + 1 < |bs| && bs[i + 1].free then CoalesceAt(Merge(bs, i), i) else bs
  }

  /** `kmem_free_checked` on the used block `i`. */
  function FreeAt(bs: seq<Blk>, i: nat): (r: seq<Blk>)
    requires i < |bs|
  {
    var cs := CoalesceAt(bs[i := Blk(bs[i].size, true)], i);
    if i > 0 && cs[i - 1].free then CoalesceAt(cs, i - 1) else cs
  }

  lemma MergeOffsetBefore(bs: seq<Blk>, i: nat, j: nat)
    requires i + 1 < |bs| && j <= i
    ensures Offset(Merge(bs, i), j) == Offset(bs, j)
  {
    hide Offset;
    assert Merge(bs, i)[..j] == bs[..j];
    OffsetPrefix(Merge(bs, i), bs, j);
  }

  lemma OffsetPair(a: Blk, b: Blk)
    ensures Offset([a, b], 2) == HEADER + a.size + HEADER + b.size
  {
    assert Offset([a, b], 1) == HEADER + a.size;
  }

  lemma MergeOffsetAfter(bs: seq<Blk>, i: nat, j: nat)
    requires i + 1 < j <= |bs|
    ensures Offset(Merge(bs, i), j - 1) == Offset(bs, j)
  {
    hide Offset;
    var m := Blk(bs[i].size + HEADER + bs[i + 1].size, bs[i].free);
    var x, y, a, c := [m], [bs[i], bs[i + 1]], bs[..i], bs[i + 2..];
    assert bs == a + y + c;
    OffsetSingle(m);
    OffsetPair(bs[i], bs[i + 1]);
    OffsetSpliced(a, x, y, c, j - i - 2);
  }

  lemma MergeOffset(bs: seq<Blk>, i: nat)
    requires i + 1 < |bs|
    ensures forall j :: 0 <= j <= i ==> Offset(Merge(bs, i), j) == Offset(bs, j)
    ensures forall j :: i + 1 < j <= |bs| ==> Offset(Merge(bs, i), j - 1) == Offset(bs, j)
  {
    hide Offset;
    forall j | 0 <= j <= i
      ensures Offset(Merge(bs, i), j) == Offset(bs, j)
    {
      MergeOffsetBefore(bs, i, j);
    }
    forall j | i + 1 < j <= |bs|
      ensures Offset(Merge(bs, i), j - 1) == Offset(bs, j)
    {
      MergeOffsetAfter(bs, i, j);
    }
  }

  // ----- release keeps the invariant -----

  lemma SumAligned(a: nat, b: nat)
    requires a % ALIGN == 0 && b % ALIGN == 0
    ensures (a + HEADER + b) % ALIGN == 0
  {
  }

  lemma MergeSized(bs: seq<Blk>, i: nat)
    requires i + 1 < |bs| && Sized(bs)
    ensures Sized(Merge(bs, i))
  {
    var r := Merge(bs, i);
    SumAligned(bs[i].size, bs[i + 1].size);
    forall k | 0 <= k < |r|
      ensures r[k].size > 0 && r[k].size % ALIGN == 0
    {
      assert k < i ==> r[k] == bs[k];
      assert k > i ==> r[k] == bs[k + 1];
    }
  }

  lemma MergeKeeps(bs: seq<Blk>, i: nat, total: nat)
    requires i + 1 < |bs| && Offset(bs, |bs|) == total && Sized(bs)
    ensures Offset(Merge(bs, i), |bs| - 1) == total && Sized(Merge(bs, i))
  {
    hide Offset, Merge, Sized;
    MergeOffsetAfter(bs, i, |bs|);
    MergeSized(bs, i);
  }

  lemma CoalesceOnce(bs: seq<Blk>, i: nat)
    requires i + 1 < |bs| && bs[i + 1].free && (i + 2 < |bs| ==> !bs[i + 2].free)
    ensures CoalesceAt(bs, i) == Merge(bs, i)
  {
    var r := Merge(bs, i);
    assert i + 1 < |r| ==> r[i + 1] == bs[i + 2];
  }

  /** In a coalesced heap the two coalescing passes merge at most one neighbour on either side. */
  lemma FreeShape(bs: seq<Blk>, i: nat)
    requires i < |bs| && !bs[i].free && Coalesced(bs)
    ensures var c := bs[i := Blk(bs[i].size, true)];
            var d := if i + 1 < |bs| && bs[i + 1].free then Merge(c, i) else c;
            FreeAt(bs, i) == if i > 0 && bs[i - 1].free then Merge(d, i - 1) else d
  {
    var c := bs[i := Blk(bs[i].size, true)];
    if i + 1 < |bs| && bs[i + 1].free {
      CoalesceOnce(c, i);
    }
    var d := CoalesceAt(c, i);
    if i > 0 && bs[i - 1].free {
      assert d[i].free && (i + 1 < |d| ==> !d[i + 1].free);
      CoalesceOnce(d, i - 1);
    }
  }

  lemma SetFreeSized(bs: seq<Blk>, i: nat)
    requires i < |bs| && Sized(bs)
    ensures Sized(bs[i := Blk(bs[i].size, true)])
  {
  }

  /** Release keeps them too. */
  lemma FreeKeepsInv(bs: seq<Blk>, total: nat, i: nat)
    requires Inv(bs, total) && i < |bs| && !bs[i].free
    ensures Inv(FreeAt(bs, i), total)
  {
    hide Offset, CoalesceAt, FreeAt, Coalesced, Sized, Merge;
    FreeShape(bs, i);
    var c := bs[i := Blk(bs[i].size, true)];
    FlagOffset(bs, i, true, |bs|);
    SetFreeSized(bs, i);
    var d := if i + 1 < |bs| && bs[i + 1].free then Merge(c, i) else c;
    if i + 1 < |bs| && bs[i + 1].free {
      MergeKeeps(c, i, total);
    }
    if i > 0 && bs[i - 1].free {
      MergeKeeps(d, i - 1, total);
    }
    FreeCoalesced(bs, i);
  }

  lemma {:induction false} FlagOffset(bs: seq<Blk>, i: nat, free: bool, j: nat)
    requires i < |bs| && j <= |bs|
    ensures Offset(bs[i := Blk(bs[i].size, free)], j) == Offset(bs, j)
  {
    if j > 0 {
      FlagOffset(bs, i, free, j - 1);
    }
  }

  /** Neighbours that are both free start only at the positions from `lo` up to `hi`. */
  predicate PairsIn(bs: seq<Blk>, lo: int, hi: int) {
    forall j :: 0 <= j < |bs| - 1 && bs[j].free && bs[j + 1].free ==> lo <= j < hi
  }

  /** Merging the last such pair removes it and makes no other. */
  lemma MergePairs(bs: seq<Blk>, i: nat, lo: int)
    requires i + 1 < |bs| && bs[i].free && bs[i + 1].free && PairsIn(bs, lo, i + 1)
    ensures PairsIn(Merge(bs, i), lo, i) && Merge(bs, i)[i].free
  {
    var r := Merge(bs, i);
    forall j | 0 <= j < |r| - 1
      ensures r[j].free && r[j + 1].free ==> lo <= j < i
    {
      if j < i {
        assert r[j] == bs[j] && r[j + 1].free == bs[j + 1].free;
      } else {
        assert r[j + 1] == bs[j + 2];
        assert j > i ==> r[j] == bs[j + 1];
      }
    }
  }

  lemma FrontKept(bs: seq<Blk>, i: nat)
    requires 0 < i < |bs|
    ensures i + 1 < |bs| ==> Merge(bs, i)[i - 1] == bs[i - 1]
  {
  }

  lemma FreeCoalesced(bs: seq<Blk>, i: nat)
    requires i < |bs| && !bs[i].free && Coalesced(bs)
    ensures Coalesced(FreeAt(bs, i))
  {
    hide CoalesceAt, FreeAt, Offset, Merge;
    FreeShape(bs, i);
    var c := bs[i := Blk(bs[i].size, true)];
    var next, prev := i + 1 < |bs| && bs[i + 1].free, i > 0 && bs[i - 1].free;
    var lo := if prev then i - 1 else i;
    assert PairsIn(c, lo, if next then i + 1 else i);
    var d := if next then Merge(c, i) else c;
    if next {
      MergePairs(c, i, lo);
    }
    if prev {
      assert d[i - 1].free && d[i].free by {
        FrontKept(c, i);
      }
      MergePairs(d, i - 1, lo);
    }
  }
}
