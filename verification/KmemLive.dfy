/** What clients of the heap see: live pointers, statistics, exact success of allocation, and full release. */
module KmemLive {
  import opened Kmem

  // ----- live pointers -----

  /** `p` (relative to the arena) is the payload of used block `i`, `size` bytes long. */
  predicate LiveAt(bs: seq<Blk>, i: nat, p: nat, size: nat) {
    i < |bs| && !bs[i].free && p == Offset(bs, i) + HEADER && size == bs[i].size
  }

  ghost predicate Live(bs: seq<Blk>, p: nat, size: nat) {
    exists i: nat :: LiveAt(bs, i, p, size)
  }

  /** Live payloads are aligned, inside the arena, and apart from one another, headers between them included. */
  lemma LiveApart(bs: seq<Blk>, total: nat, p: nat, size: nat, q: nat, size': nat)
    requires Inv(bs, total) && Live(bs, p, size) && Live(bs, q, size')
    ensures p % ALIGN == 0 && HEADER <= p && p + size <= total
    ensures p == q ==> size == size'
    ensures p != q ==> p + size + HEADER <= q || q + size' + HEADER <= p
  {
    var i: nat :| LiveAt(bs, i, p, size);
    var j: nat :| LiveAt(bs, j, q, size');
    OffsetMonotone(bs, i, |bs|);
    OffsetAligned(bs, i);
    if i < j {
      OffsetMonotone(bs, i, j);
    } else if j < i {
      OffsetMonotone(bs, j, i);
    }
  }

  lemma {:induction false} OffsetAligned(bs: seq<Blk>, i: nat)
    requires i <= |bs| && Sized(bs)
    ensures Offset(bs, i) % ALIGN == 0
  {
    if i > 0 {
      OffsetAligned(bs, i - 1);
    }
  }

  /** Where block `j` of the heap is after block `i` has been handed out. */
  lemma AllocMoves(bs: seq<Blk>, i: nat, wanted: nat, j: nat)
    requires i < |bs| && bs[i].size >= wanted && j < |bs|
    ensures var r, x := AllocAt(bs, i, wanted), Taken(bs[i], wanted);
            if j <= i then Offset(r, j) == Offset(bs, j) && (j < i ==> r[j] == bs[j])
            else Offset(r, j + |x| - 1) == Offset(bs, j) && r[j + |x| - 1] == bs[j]
  {
    hide Offset, Taken;
    var r, x := AllocAt(bs, i, wanted), Taken(bs[i], wanted);
    TakenShape(bs[i], wanted);
    if j <= i {
      assert r[..j] == bs[..j];
      OffsetPrefix(r, bs, j);
    } else {
      assert bs == bs[..i] + [bs[i]] + bs[i + 1..];
      OffsetSingle(bs[i]);
      OffsetSpliced(bs[..i], x, [bs[i]], bs[i + 1..], j - i - 1);
    }
  }

  /** Allocation adds one live pointer, large enough, and keeps all others. */
  lemma AllocLive(bs: seq<Blk>, total: nat, i: nat, wanted: nat, p: nat, size: nat)
    requires Inv(bs, total) && i < |bs| && bs[i].free && bs[i].size >= wanted && wanted % ALIGN == 0
    ensures var r := AllocAt(bs, i, wanted);
            && Offset(r, i) == Offset(bs, i) && !r[i].free && r[i].size >= wanted
            && (Live(r, p, size) <==>
                  Live(bs, p, size) || (p == Offset(bs, i) + HEADER && size == r[i].size))
  {
    hide Offset, Taken, Inv;
    var r, x := AllocAt(bs, i, wanted), Taken(bs[i], wanted);
    TakenShape(bs[i], wanted);
    AllocMoves(bs, i, wanted, i);
    if Live(bs, p, size) {
      var j: nat :| LiveAt(bs, j, p, size);
      AllocMoves(bs, i, wanted, j);
      assert LiveAt(r, if j < i then j else j + |x| - 1, p, size);
    }
    if p == Offset(bs, i) + HEADER && size == r[i].size {
      assert LiveAt(r, i, p, size);
    }
    if Live(r, p, size) {
      var k: nat :| LiveAt(r, k, p, size);
      if k < i {
        AllocMoves(bs, i, wanted, k);
        assert LiveAt(bs, k, p, size);
      } else if k >= i + |x| {
        AllocMoves(bs, i, wanted, k - |x| + 1);
        assert LiveAt(bs, k - |x| + 1, p, size);
      }
    }
  }

  lemma TakenShape(b: Blk, wanted: nat)
    requires b.size >= wanted
    ensures var x := Taken(b, wanted);
            && 1 <= |x| <= 2 && !x[0].free && x[0].size >= wanted && (|x| == 2 ==> x[1].free)
            && Offset(x, |x|) == HEADER + b.size
  {
  }

  lemma MergeLive(bs: seq<Blk>, i: nat, p: nat, size: nat)
    requires i + 1 < |bs| && bs[i].free && bs[i + 1].free
    ensures Live(Merge(bs, i), p, size) <==> Live(bs, p, size)
  {
    hide Offset;
    var r := Merge(bs, i);
    MergeOffset(bs, i);
    if Live(bs, p, size) {
      var j: nat :| LiveAt(bs, j, p, size);
      assert LiveAt(r, if j < i then j else j - 1, p, size);
    }
    if Live(r, p, size) {
      var k: nat :| LiveAt(r, k, p, size);
      assert LiveAt(bs, if k < i then k else k + 1, p, size);
    }
  }

  lemma {:induction false} CoalesceLive(bs: seq<Blk>, i: nat, p: nat, size: nat)
    requires i < |bs| && bs[i].free
    ensures Live(CoalesceAt(bs, i), p, size) <==> Live(bs, p, size)
    ensures CoalesceAt(bs, i)[..i] == bs[..i] && CoalesceAt(bs, i)[i].free
    decreases |bs|
  {
    if i + 1 < |bs| && bs[i + 1].free {
      MergeLive(bs, i, p, size);
      CoalesceLive(Merge(bs, i), i, p, size);
      assert Merge(bs, i)[..i] == bs[..i];
    }
  }

  /** Release removes exactly the released pointer. */
  lemma FreeLive(bs: seq<Blk>, i: nat, p: nat, size: nat)
    requires i < |bs| && !bs[i].free
    ensures Live(FreeAt(bs, i), p, size) <==> Live(bs, p, size) && p != Offset(bs, i) + HEADER
  {
    hide Offset, CoalesceAt;
    var c := bs[i := Blk(bs[i].size, true)];
    forall j | 0 <= j <= |bs|
      ensures Offset(c, j) == Offset(bs, j)
    {
      FlagOffset(bs, i, true, j);
    }
    assert Live(c, p, size) <==> Live(bs, p, size) && p != Offset(bs, i) + HEADER by {
      if Live(c, p, size) {
        var j: nat :| LiveAt(c, j, p, size);
        assert LiveAt(bs, j, p, size);
        PayloadsDiffer(bs, i, j);
      }
      if Live(bs, p, size) && p != Offset(bs, i) + HEADER {
        var j: nat :| LiveAt(bs, j, p, size);
        assert LiveAt(c, j, p, size);
      }
    }
    CoalesceLive(c, i, p, size);
    var d := CoalesceAt(c, i);
    if i > 0 && d[i - 1].free {
      CoalesceLive(d, i - 1, p, size);
    }
  }

  lemma PayloadsDiffer(bs: seq<Blk>, i: nat, j: nat)
    requires i < |bs| && j < |bs| && i != j
    ensures Offset(bs, i) != Offset(bs, j)
  {
    if i < j {
      OffsetMonotone(bs, i, j);
    } else {
      OffsetMonotone(bs, j, i);
    }
  }

  // ----- statistics -----

  function UsedBytes(bs: seq<Blk>, n: nat): (s: nat)
    requires n <= |bs|
  {
    if n == 0 then 0 else UsedBytes(bs, n - 1) + if bs[n - 1].free then 0 else bs[n - 1].size
  }

  function FreeBytes(bs: seq<Blk>, n: nat): (s: nat)
    requires n <= |bs|
  {
    if n == 0 then 0 else FreeBytes(bs, n - 1) + if bs[n - 1].free then bs[n - 1].size else 0
  }

  function FreeCount(bs: seq<Blk>, n: nat): (s: nat)
    requires n <= |bs|
    ensures s <= n
  {
    if n == 0 then 0 else FreeCount(bs, n - 1) + if bs[n - 1].free then 1 else 0
  }

  function LargestFree(bs: seq<Blk>, n: nat): (m: nat)
    requires n <= |bs|
    ensures forall i :: 0 <= i < n && bs[i].free ==> bs[i].size <= m
    ensures m == 0 || exists i :: 0 <= i < n && bs[i].free && bs[i].size == m
  {
    if n == 0 then 0
    else
      var m := LargestFree(bs, n - 1);
      if bs[n - 1].free && bs[n - 1].size > m then bs[n - 1].size else m
  }

  /** Bytes are conserved: payloads and headers add up to the arena. */
  lemma {:induction false} BytesConserved(bs: seq<Blk>, n: nat)
    requires n <= |bs|
    ensures Offset(bs, n) == UsedBytes(bs, n) + FreeBytes(bs, n) + HEADER * n
  {
    if n > 0 {
      BytesConserved(bs, n - 1);
    }
  }

  /** An allocation succeeds exactly when its rounded size is at most the largest-free statistic. */
  lemma AllocSucceedsIff(bs: seq<Blk>, bytes: nat)
    requires Wanted(bytes) != 0
    ensures FirstFit(bs, Wanted(bytes), 0) < |bs| <==> Wanted(bytes) <= LargestFree(bs, |bs|)
  {
  }

  // ----- full release -----

  /** The block whose payload is at `p`, or the number of blocks. */
  function Find(bs: seq<Blk>, p: nat, i: nat): (r: nat)
    requires i <= |bs|
    ensures i <= r <= |bs| && (r < |bs| ==> Offset(bs, r) + HEADER == p)
    ensures forall j :: i <= j < r ==> Offset(bs, j) + HEADER != p
    decreases |bs| - i
  {
    if i == |bs| || Offset(bs, i) + HEADER == p then i else Find(bs, p, i + 1)
  }

  function FreePtr(bs: seq<Blk>, p: nat): (r: seq<Blk>) {
    var i := Find(bs, p, 0);
    if i < |bs| && !bs[i].free then FreeAt(bs, i) else bs
  }

  function FreeAll(bs: seq<Blk>, ps: seq<nat>): (r: seq<Blk>)
    decreases |ps|
  {
    if ps == [] then bs else FreeAll(FreePtr(bs, ps[0]), ps[1..])
  }

  ghost predicate LivePtr(bs: seq<Blk>, p: nat) {
    exists size: nat :: Live(bs, p, size)
  }

  lemma FreePtrLive(bs: seq<Blk>, total: nat, p: nat)
    requires Inv(bs, total) && LivePtr(bs, p)
    ensures Inv(FreePtr(bs, p), total)
    ensures forall q :: LivePtr(FreePtr(bs, p), q) <==> LivePtr(bs, q) && q != p
  {
    hide Offset, FreeAt;
    var size: nat :| Live(bs, p, size);
    var j: nat :| LiveAt(bs, j, p, size);
    var i := Find(bs, p, 0);
    if i != j {
      PayloadsDiffer(bs, i, j);
    }
    FreeKeepsInv(bs, total, i);
    forall q
      ensures LivePtr(FreePtr(bs, p), q) <==> LivePtr(bs, q) && q != p
    {
      forall s: nat
        ensures Live(FreePtr(bs, p), q, s) <==> Live(bs, q, s) && q != p
      {
        FreeLive(bs, i, q, s);
      }
    }
  }

  lemma UsedIsLive(bs: seq<Blk>, i: nat)
    requires i < |bs|
    ensures !bs[i].free ==> LivePtr(bs, Offset(bs, i) + HEADER)
  {
    if !bs[i].free {
      assert LiveAt(bs, i, Offset(bs, i) + HEADER, bs[i].size);
      assert Live(bs, Offset(bs, i) + HEADER, bs[i].size);
    }
  }

  /** A coalesced heap of more than one block has a live pointer. */
  lemma OneOrLive(bs: seq<Blk>)
    requires bs != [] && Coalesced(bs)
    ensures |bs| == 1 || exists p :: LivePtr(bs, p)
  {
    if |bs| > 1 {
      assert !(bs[0].free && bs[0 + 1].free);
      UsedIsLive(bs, 0);
      UsedIsLive(bs, 1);
    }
  }

  lemma NoneLive(bs: seq<Blk>, total: nat)
    requires Inv(bs, total) && forall p :: !LivePtr(bs, p)
    ensures bs == [Blk(total - HEADER, true)]
  {
    OneOrLive(bs);
    UsedIsLive(bs, 0);
    assert Offset(bs, 1) == HEADER + bs[0].size;
  }

  /** Freeing all live pointers, in whatever order, always ends with one free block of the initial size. */
  lemma {:induction false} FreeAllRestores(bs: seq<Blk>, total: nat, ps: seq<nat>)
    requires Inv(bs, total)
    requires forall p :: p in ps <==> LivePtr(bs, p)
    requires forall i, j :: 0 <= i < j < |ps| ==> ps[i] != ps[j]
    ensures FreeAll(bs, ps) == [Blk(total - HEADER, true)]
    decreases |ps|
  {
    hide LivePtr, FreePtr;
    if ps == [] {
      NoneLive(bs, total);
    } else {
      var p, rest := ps[0], ps[1..];
      assert p in ps && ps == [p] + rest;
      FreePtrLive(bs, total, p);
      forall q
        ensures q in rest <==> LivePtr(FreePtr(bs, p), q)
      {
        assert q in ps <==> q == p || q in rest;
        assert forall k :: 0 <= k < |rest| ==> rest[k] == ps[k + 1] != p;
      }
      FreeAllRestores(FreePtr(bs, p), total, rest);
    }
  }

  // ----- runs -----

  datatype Op = Alloc(bytes: nat) | Free(ptr: nat)

  /** One call; freeing anything but a live pointer is refused. */
  function Apply(bs: seq<Blk>, op: Op): (r: seq<Blk>) {
    match op
    case Alloc(bytes) =>
      var w := Wanted(bytes);
      var i := FirstFit(bs, w, 0);
      if w == 0 || i == |bs| then bs else AllocAt(bs, i, w)
    case Free(p) => FreePtr(bs, p)
  }

  function Run(bs: seq<Blk>, ops: seq<Op>): (r: seq<Blk>) {
    if ops == [] then bs else Apply(Run(bs, ops[..|ops| - 1]), ops[|ops| - 1])
  }

  /** Over every run the blocks tile the arena, sizes stay aligned and no two neighbours are both free. */
  lemma {:induction false} RunKeepsInv(total: nat, ops: seq<Op>)
    requires total > HEADER && total % ALIGN == 0
    ensures Inv(Run([Blk(total - HEADER, true)], ops), total)
    decreases |ops|
  {
    hide Offset, AllocAt, FreeAt, Inv;
    var start := [Blk(total - HEADER, true)];
    if ops == [] {
      StartInv(total);
    } else {
      var before, op := ops[..|ops| - 1], ops[|ops| - 1];
      RunKeepsInv(total, before);
      var bs := Run(start, before);
      match op {
        case Alloc(bytes) =>
          var w := Wanted(bytes);
          var i := FirstFit(bs, w, 0);
          if w != 0 && i < |bs| {
            AllocKeepsInv(bs, total, i, w);
          }
        case Free(p) =>
          var i := Find(bs, p, 0);
          if i < |bs| && !bs[i].free {
            FreeKeepsInv(bs, total, i);
          }
      }
    }
  }

  lemma StartInv(total: nat)
    requires total > HEADER && total % ALIGN == 0
    ensures Inv([Blk(total - HEADER, true)], total)
  {
    var bs := [Blk(total - HEADER, true)];
    assert Offset(bs, 1) == Offset(bs, 0) + HEADER + bs[0].size;
  }
}
