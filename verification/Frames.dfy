/**
 The physical frame allocator of `src/pmm.c` on values: which frames are used, how many are free, and the hint below
 which no frame is free.
 */
module Frames {
  const PAGE: nat := 4096
  const WORD: nat := 0x1_0000_0000_0000_0000
  const INVALID_FRAME: nat := WORD - 1

  /** The last page of the address space; rounding an address above it up to a page wraps around to 0. */
  const TOP: nat := WORD - PAGE

  type Address = a: nat | a < WORD

  datatype Region = Region(base: Address, length: Address, usable: bool)

  datatype Frames = Frames(used: seq<bool>, free: nat, hint: nat)

  function CountFree(used: seq<bool>): (n: nat)
    ensures n <= |used|
  {
    if used == [] then 0 else CountFree(used[..|used| - 1]) + if used[|used| - 1] then 0 else 1
  }

  lemma {:induction false} CountUpdate(used: seq<bool>, f: nat, on: bool)
    requires f < |used|
    ensures CountFree(used[f := on]) == CountFree(used) + (if used[f] then 1 else 0) - if on then 1 else 0
  {
    var n := |used| - 1;
    var r := used[f := on];
    if f == n {
      assert r[..n] == used[..n];
    } else {
      CountUpdate(used[..n], f, on);
      assert r[..n] == used[..n][f := on];
    }
  }

  lemma {:induction false} NoneFree(used: seq<bool>)
    ensures CountFree(used) == 0 <==> forall f :: 0 <= f < |used| ==> used[f]
  {
    if used != [] {
      var n := |used| - 1;
      NoneFree(used[..n]);
      assert forall f :: 0 <= f < n ==> used[..n][f] == used[f];
    }
  }

  ghost predicate Counted(s: Frames) {
    s.free == CountFree(s.used) && s.hint <= |s.used|
  }

  /** The count is that of the bits, and no frame below the hint is free. */
  ghost predicate Core(s: Frames) {
    Counted(s) && forall f :: 0 <= f < s.hint ==> s.used[f]
  }

  /** Frame 0 is never free. */
  ghost predicate Inv(s: Frames) {
    Core(s) && s.used != [] && s.used[0]
  }

  // ----- single frames and ranges -----

  function FreeFrame(s: Frames, f: nat): (t: Frames) {
    if f < |s.used| && s.used[f] then
      Frames(s.used[f := false], s.free + 1, if f < s.hint then f else s.hint)
    else s
  }

  function UseFrame(s: Frames, f: nat): (t: Frames) {
    if f < |s.used| && !s.used[f] then
      s.(used := s.used[f := true], free := if s.free > 0 then s.free - 1 else 0)
    else s
  }

  lemma FrameKeepsCore(s: Frames, f: nat)
    requires Core(s)
    ensures Core(FreeFrame(s, f)) && Core(UseFrame(s, f))
  {
    if f < |s.used| {
      CountUpdate(s.used, f, false);
      CountUpdate(s.used, f, true);
    }
  }

  function FreeRange(s: Frames, lo: nat, hi: nat): (t: Frames)
    requires lo <= hi
  {
    if lo == hi then s else FreeFrame(FreeRange(s, lo, hi - 1), hi - 1)
  }

  function UseRange(s: Frames, lo: nat, hi: nat): (t: Frames)
    requires lo <= hi
  {
    if lo == hi then s else UseFrame(UseRange(s, lo, hi - 1), hi - 1)
  }

  lemma {:induction false} FreeRangeIs(s: Frames, lo: nat, hi: nat)
    requires lo <= hi <= |s.used| && Core(s)
    ensures var r := FreeRange(s, lo, hi);
            && Core(r) && |r.used| == |s.used|
            && (forall f :: 0 <= f < |s.used| ==> r.used[f] == (s.used[f] && !(lo <= f < hi)))
  {
    if lo < hi {
      FreeRangeIs(s, lo, hi - 1);
      FrameKeepsCore(FreeRange(s, lo, hi - 1), hi - 1);
    }
  }

  lemma {:induction false} UseRangeIs(s: Frames, lo: nat, hi: nat)
    requires lo <= hi <= |s.used| && Core(s)
    ensures var r := UseRange(s, lo, hi);
            && Core(r) && |r.used| == |s.used| && r.free <= s.free
            && (forall f :: 0 <= f < |s.used| ==> r.used[f] == (s.used[f] || lo <= f < hi))
  {
    if lo < hi {
      UseRangeIs(s, lo, hi - 1);
      FrameKeepsCore(UseRange(s, lo, hi - 1), hi - 1);
    }
  }

  // ----- regions -----

  function AlignDown(a: nat): (r: nat) {
    a / PAGE * PAGE
  }

  /** In 64 bits. */
  function AlignUp(a: nat): (r: nat) {
    AlignDown((a + PAGE - 1) % WORD)
  }

  function End(r: Region): (a: nat) {
    r.base + r.length
  }

  /** The frames, from first to before last, that a usable region frees; those of a machine with `n` frames. */
  function FreedSpan(r: Region, n: nat): (span: (nat, nat))
    ensures span.0 <= span.1 <= n
  {
    if r.length == 0 || End(r) >= WORD then (0, 0) else
    var (start, stop) := (AlignUp(r.base), AlignDown(End(r)));
    if stop <= start || start >= n * PAGE then (0, 0)
    else (start / PAGE, if stop > n * PAGE then n else stop / PAGE)
  }

  /** The frames that any other region takes. */
  function TakenSpan(r: Region, n: nat): (span: (nat, nat))
    ensures span.0 <= span.1 <= n
  {
    if r.length == 0 || End(r) >= WORD then (0, 0) else
    var (start, stop) := (AlignDown(r.base), AlignUp(End(r)));
    if stop <= start || start >= n * PAGE then (0, 0)
    else (start / PAGE, if stop > n * PAGE then n else stop / PAGE)
  }

  /** The frame lies wholly inside the region. */
  predicate Inside(r: Region, f: nat) {
    r.base <= f * PAGE && (f + 1) * PAGE <= End(r)
  }

  /** The frame and the region, which is not empty, have a byte in common. */
  predicate Meets(r: Region, f: nat) {
    r.length > 0 && r.base < (f + 1) * PAGE && f * PAGE < End(r)
  }

  predicate Gives(r: Region, n: nat, f: nat) {
    FreedSpan(r, n).0 <= f < FreedSpan(r, n).1
  }

  predicate Takes(r: Region, n: nat, f: nat) {
    TakenSpan(r, n).0 <= f < TakenSpan(r, n).1
  }

  /** A machine has whole frames only, all of them below the end of the address space. */
  predicate Machine(n: nat) {
    0 < n && n * PAGE <= TOP
  }

  /**
   The region is empty, or starts at or below the last page and ends within the address space, or passes the end of
   the address space above all frames of the machine.
   */
  predicate GivesRight(r: Region, n: nat) {
    || r.length == 0
    || (r.base <= TOP && End(r) < WORD)
    || (End(r) >= WORD && r.base > (n - 1) * PAGE)
  }

  /** The region is empty, or ends at or below the last page, or starts above all frames of the machine. */
  predicate TakesRight(r: Region, n: nat) {
    r.length == 0 || End(r) <= TOP || r.base >= n * PAGE
  }

  /** A usable region frees exactly the frames wholly inside it, if and only if it is one of those three. */
  lemma GivesExact(r: Region, n: nat)
    requires Machine(n)
    ensures (forall f: nat :: f < n ==> (Gives(r, n, f) <==> Inside(r, f))) <==> GivesRight(r, n)
  {
    if r.length > 0 && End(r) < WORD && r.base > TOP {
      assert Gives(r, n, 0) && !Inside(r, 0);
    } else if End(r) >= WORD {
      var f := n - 1;
      assert r.base <= f * PAGE ==> Inside(r, f) && !Gives(r, n, f);
    }
  }

  /** Any other region takes exactly the frames it meets, if and only if it is one of those three. */
  lemma TakesExact(r: Region, n: nat)
    requires Machine(n)
    ensures (forall f: nat :: f < n ==> (Takes(r, n, f) <==> Meets(r, f))) <==> TakesRight(r, n)
  {
    if r.length > 0 && End(r) > TOP && r.base < n * PAGE {
      var f := r.base / PAGE;
      assert Meets(r, f) && !Takes(r, n, f);
    }
  }

  // ----- building the map -----

  function FreeAll(s: Frames, rs: seq<Region>): (t: Frames) {
    if rs == [] then s else
    var (t, r) := (FreeAll(s, rs[..|rs| - 1]), rs[|rs| - 1]);
    if r.usable then FreeRange(t, FreedSpan(r, |s.used|).0, FreedSpan(r, |s.used|).1) else t
  }

  function TakeAll(s: Frames, rs: seq<Region>): (t: Frames) {
    if rs == [] then s else
    var (t, r) := (TakeAll(s, rs[..|rs| - 1]), rs[|rs| - 1]);
    if r.usable then t else UseRange(t, TakenSpan(r, |s.used|).0, TakenSpan(r, |s.used|).1)
  }

  /** `pmm_init_from_map`: everything used, then usable regions freed, then frame 0 and all other regions taken. */
  function FromMap(rs: seq<Region>, n: nat): (t: Frames)
    requires n > 0
  {
    var blank := Frames(seq(n, _ => true), 0, 0);
    TakeAll(UseRange(FreeAll(blank, rs), 0, 1), rs)
  }

  ghost predicate Given(rs: seq<Region>, n: nat, f: nat) {
    exists r :: r in rs && r.usable && Gives(r, n, f)
  }

  ghost predicate Taken(rs: seq<Region>, n: nat, f: nat) {
    exists r :: r in rs && !r.usable && Takes(r, n, f)
  }

  lemma {:induction false} FreeAllIs(s: Frames, rs: seq<Region>)
    requires Core(s)
    ensures var t := FreeAll(s, rs);
            && Core(t) && |t.used| == |s.used|
            && (forall f :: 0 <= f < |s.used| ==> t.used[f] == (s.used[f] && !Given(rs, |s.used|, f)))
  {
    if rs != [] {
      var (head, r, n) := (rs[..|rs| - 1], rs[|rs| - 1], |s.used|);
      FreeAllIs(s, head);
      var span := FreedSpan(r, n);
      FreeRangeIs(FreeAll(s, head), span.0, span.1);
      forall f: nat | f < n
        ensures Given(rs, n, f) == (Given(head, n, f) || (r.usable && Gives(r, n, f)))
      {
        assert rs == head + [r];
      }
    }
  }

  lemma {:induction false} TakeAllIs(s: Frames, rs: seq<Region>)
    requires Core(s)
    ensures var t := TakeAll(s, rs);
            && Core(t) && |t.used| == |s.used|
            && (forall f :: 0 <= f < |s.used| ==> t.used[f] == (s.used[f] || Taken(rs, |s.used|, f)))
  {
    if rs != [] {
      var (head, r, n) := (rs[..|rs| - 1], rs[|rs| - 1], |s.used|);
      TakeAllIs(s, head);
      var span := TakenSpan(r, n);
      UseRangeIs(TakeAll(s, head), span.0, span.1);
      forall f: nat | f < n
        ensures Taken(rs, n, f) == (Taken(head, n, f) || (!r.usable && Takes(r, n, f)))
      {
        assert rs == head + [r];
      }
    }
  }

  lemma {:induction false} BlankCore(used: seq<bool>)
    requires forall f :: 0 <= f < |used| ==> used[f]
    ensures Core(Frames(used, 0, 0))
  {
    NoneFree(used);
  }

  /** After initialisation, from any list of regions, a frame is free if it is given, not taken, and not frame 0. */
  lemma FromMapIs(rs: seq<Region>, n: nat)
    requires n > 0
    ensures var s := FromMap(rs, n);
            && Inv(s) && |s.used| == n
            && (forall f :: 0 <= f < n ==> (!s.used[f] <==> f != 0 && Given(rs, n, f) && !Taken(rs, n, f)))
  {
    var blank := Frames(seq(n, _ => true), 0, 0);
    BlankCore(blank.used);
    FreeAllIs(blank, rs);
    UseRangeIs(FreeAll(blank, rs), 0, 1);
    TakeAllIs(UseRange(FreeAll(blank, rs), 0, 1), rs);
  }

  /** No region is one that initialisation misreads. */
  ghost predicate Regular(rs: seq<Region>, n: nat) {
    forall r :: r in rs ==> if r.usable then GivesRight(r, n) else TakesRight(r, n)
  }

  /** The frame lies wholly inside some usable region and meets no other region, and is not frame 0. */
  ghost predicate Due(rs: seq<Region>, f: nat) {
    && f != 0
    && (exists r :: r in rs && r.usable && Inside(r, f))
    && !(exists r :: r in rs && !r.usable && Meets(r, f))
  }

  /** The free frames are those that are due, overlapping, unaligned and empty regions included. */
  lemma FreeExactly(rs: seq<Region>, n: nat, f: nat)
    requires Machine(n) && Regular(rs, n) && f < n
    ensures |FromMap(rs, n).used| == n
    ensures !FromMap(rs, n).used[f] <==> Due(rs, f)
  {
    hide FromMap, FreedSpan, TakenSpan, Inside, Meets, GivesRight, TakesRight;
    FromMapIs(rs, n);
    forall r | r in rs
      ensures if r.usable then Gives(r, n, f) == Inside(r, f) else Takes(r, n, f) == Meets(r, f)
    {
      GivesExact(r, n);
      TakesExact(r, n);
    }
    if Given(rs, n, f) {
      var r :| r in rs && r.usable && Gives(r, n, f);
      assert Inside(r, f);
    }
    if Taken(rs, n, f) {
      var r :| r in rs && !r.usable && Takes(r, n, f);
      assert Meets(r, f);
    }
  }

  ghost predicate FreeRight(rs: seq<Region>, n: nat)
    requires n > 0
  {
    var used := FromMap(rs, n).used;
    |used| == n && forall f: nat :: f < n ==> (!used[f] <==> Due(rs, f))
  }

  /** No usable region can be spared from the condition: alone in the map it makes the free frames wrong. */
  lemma GivesRightNeeded(r: Region, n: nat)
    requires Machine(n) && n > 1 && r.usable
    ensures FreeRight([r], n) <==> GivesRight(r, n)
  {
    hide FromMap;
    FromMapIs([r], n);
    if GivesRight(r, n) {
      forall f: nat | f < n
        ensures !FromMap([r], n).used[f] <==> Due([r], f)
      {
        FreeExactly([r], n, f);
      }
    } else {
      assert r in [r];
      assert Given([r], n, n - 1) <==> Gives(r, n, n - 1);
      assert Due([r], n - 1) <==> Inside(r, n - 1);
    }
  }

  /** Nor any other region: it makes them wrong in a map that otherwise gives everything. */
  lemma TakesRightNeeded(r: Region, n: nat)
    requires Machine(n) && n > 1 && !r.usable
    ensures FreeRight([Region(0, TOP, true), r], n) <==> TakesRight(r, n)
  {
    hide FromMap;
    var all := Region(0, TOP, true);
    var rs := [all, r];
    assert rs[0] == all && rs[1] == r;
    FromMapIs(rs, n);
    if TakesRight(r, n) {
      forall f: nat | f < n
        ensures !FromMap(rs, n).used[f] <==> Due(rs, f)
      {
        FreeExactly(rs, n, f);
      }
    } else {
      assert Gives(all, n, n - 1);
      assert Taken(rs, n, n - 1) <==> Takes(r, n, n - 1);
      assert Meets(r, n - 1);
      assert !Due(rs, n - 1);
    }
  }

  /**
   What goes wrong at the top of the address space: a usable region that starts above the last page, and holds no whole
   frame, frees every frame of the machine but frame 0.
   */
  lemma WrapFreesAll(r: Region, n: nat)
    requires Machine(n) && r.usable && r.base > TOP && r.length > 0 && End(r) < WORD
    ensures |FromMap([r], n).used| == n
    ensures forall f :: 0 < f < n ==> !FromMap([r], n).used[f] && !Due([r], f)
  {
    hide FromMap;
    FromMapIs([r], n);
    assert r in [r];
    forall f | 0 < f < n
      ensures Given([r], n, f) && !Taken([r], n, f) && !Due([r], f)
    {
      assert Gives(r, n, f);
    }
  }

  /** The order of the regions, and repetitions among them, make no difference, for any regions at all. */
  lemma OrderIrrelevant(rs: seq<Region>, rs': seq<Region>, n: nat)
    requires n > 0 && forall r :: r in rs <==> r in rs'
    ensures FromMap(rs, n).used == FromMap(rs', n).used
  {
    FromMapIs(rs, n);
    FromMapIs(rs', n);
    forall f | 0 <= f < n
      ensures Given(rs, n, f) == Given(rs', n, f) && Taken(rs, n, f) == Taken(rs', n, f)
    {
    }
  }

  // ----- operations -----

  /** The first free frame from `lo` on, or `hi`. */
  function FirstFree(used: seq<bool>, lo: nat, hi: nat): (f: nat)
    requires lo <= hi <= |used|
    ensures lo <= f <= hi && (f < hi ==> !used[f]) && forall g :: lo <= g < f ==> used[g]
    decreases hi - lo
  {
    if lo == hi || !used[lo] then lo else FirstFree(used, lo + 1, hi)
  }

  function Claim(s: Frames, f: nat): (t: Frames) {
    UseFrame(s, f).(hint := f + 1)
  }

  /** `pmm_alloc_frame`: search from the hint to the end, then from the start to the hint. */
  function Alloc(s: Frames): (r: (Frames, nat))
    requires s.hint <= |s.used|
  {
    if s.free == 0 then (s, INVALID_FRAME) else
    var a := FirstFree(s.used, s.hint, |s.used|);
    if a < |s.used| then (Claim(s, a), a * PAGE) else
    var b := FirstFree(s.used, 0, s.hint);
    if b < s.hint then (Claim(s, b), b * PAGE) else (s, INVALID_FRAME)
  }

  /** `pmm_free_frame`: refused for unaligned addresses, frame 0, addresses past the end and frames already free. */
  function Free(s: Frames, a: nat): (r: (Frames, bool)) {
    if a % PAGE != 0 || a == 0 || a >= |s.used| * PAGE || !s.used[a / PAGE] then (s, false)
    else (FreeFrame(s, a / PAGE), true)
  }

  function Reserve(s: Frames, base: Address, length: Address): (r: (Frames, bool)) {
    if length == 0 then (s, false) else
    var span := TakenSpan(Region(base, length, false), |s.used|);
    (UseRange(s, span.0, span.1), true)
  }

  /** The search from the hint finds the lowest free frame of all, and the search below the hint never finds any. */
  lemma AllocLowest(s: Frames)
    requires Inv(s)
    ensures FirstFree(s.used, 0, s.hint) == s.hint
    ensures var (s', a) := Alloc(s);
            var f := FirstFree(s.used, 0, |s.used|);
            if s.free == 0 then s' == s && a == INVALID_FRAME && f == |s.used|
            else
              && 0 < f < |s.used| && a == f * PAGE
              && s'.used == s.used[f := true] && s'.free == s.free - 1
  {
    NoneFree(s.used);
    assert FirstFree(s.used, 0, |s.used|) == FirstFree(s.used, s.hint, |s.used|);
  }

  datatype Op = AllocOp | FreeOp(a: nat) | ReserveOp(base: Address, length: Address)

  function Step(s: Frames, op: Op): (t: Frames)
    requires s.hint <= |s.used|
  {
    match op
    case AllocOp => Alloc(s).0
    case FreeOp(a) => Free(s, a).0
    case ReserveOp(base, length) => Reserve(s, base, length).0
  }

  lemma StepKeepsInv(s: Frames, op: Op)
    requires Inv(s)
    ensures Inv(Step(s, op)) && |Step(s, op).used| == |s.used|
  {
    match op
    case AllocOp =>
      AllocLowest(s);
      FrameKeepsCore(s, FirstFree(s.used, 0, |s.used|));
      NoneFree(s.used);
    case FreeOp(a) =>
      FrameKeepsCore(s, a / PAGE);
    case ReserveOp(base, length) =>
      var span := TakenSpan(Region(base, length, false), |s.used|);
      UseRangeIs(s, span.0, span.1);
  }

  ghost function Run(s: Frames, ops: seq<Op>): (r: Frames)
    requires Inv(s)
    ensures Inv(r) && |r.used| == |s.used|
    decreases |ops|
  {
    if ops == [] then s else
    StepKeepsInv(s, ops[0]);
    Run(Step(s, ops[0]), ops[1..])
  }

  /**
   In every state that any run from any memory map reaches, an allocation returns the lowest free frame, never frame 0,
   and fails only when the count of free frames is 0, which is when no frame is free.
   */
  lemma AllocAfterRun(rs: seq<Region>, n: nat, ops: seq<Op>)
    requires n > 0
    ensures Inv(FromMap(rs, n)) && |FromMap(rs, n).used| == n
    ensures var s := Run(FromMap(rs, n), ops);
            var a := Alloc(s).1;
            && s.free == CountFree(s.used)
            && (a == INVALID_FRAME <==> forall f :: 0 <= f < n ==> s.used[f])
            && (a != INVALID_FRAME ==>
                  && a % PAGE == 0 && 0 < a / PAGE < n && !s.used[a / PAGE]
                  && forall f :: 0 <= f < a / PAGE ==> s.used[f])
  {
    hide FromMap, CountFree, Alloc;
    FromMapIs(rs, n);
    var s := Run(FromMap(rs, n), ops);
    AllocLowest(s);
    NoneFree(s.used);
  }

  /** A frame that was allocated and is freed again is the lowest free one once more: freeing undoes the allocation. */
  lemma FreeUndoesAlloc(s: Frames)
    requires Inv(s) && s.free > 0
    ensures var (s1, a) := Alloc(s);
            var (s2, ok) := Free(s1, a);
            ok && s2.used == s.used && s2.free == s.free && Alloc(s2).1 == a
  {
    AllocLowest(s);
    var (s1, a) := Alloc(s);
    StepKeepsInv(s, AllocOp);
    StepKeepsInv(s1, FreeOp(a));
    var (s2, ok) := Free(s1, a);
    assert s2.used == s.used;
    AllocLowest(s2);
  }
}
