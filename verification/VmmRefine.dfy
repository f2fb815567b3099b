/** Map and unmap refine a partial map from page addresses to mappings, over whole runs. */
module VmmRefine {
  import opened Vmm
  import opened VmmTree

  ghost predicate SameQueries(sp: Space, sp': Space)
    requires Shaped(sp.mem) && Shaped(sp'.mem)
  {
    forall w :: Page(w) ==> Query(sp', w) == Query(sp, w)
  }

  lemma FreshTail(pool: seq<bv64>, level: Levels, n: nat)
    requires Fresh(pool, level) && pool != []
    ensures Fresh(pool[1..], level)
    ensures Usable(pool[0]) ==> Fresh(pool[1..], level[FrameOf(pool[0]) := n])
  {
    hide Usable, FrameOf, Target;
    var rest := pool[1..];
    assert forall k :: 0 <= k < |rest| ==> rest[k] == pool[k + 1];
  }

  /** One level down: no query changes, and on success the walk for `v` now reaches the next table. */
  lemma NextKeeps(sp: Space, level: Levels, v: bv64, n: nat, t: nat) returns (level': Levels)
    requires Good(sp, level) && n < 3 && Descend(sp.mem, FrameOf(sp.root), v, n) == To(t)
    ensures var s := NextTable(sp, t, Index(v, n));
            && Good(s.sp, level') && SameQueries(sp, s.sp)
            && (s.rc == MAP_OK || s.rc == ERR_NOMEM || s.rc == ERR_INVAL)
            && (s.rc == MAP_OK ==> Descend(s.sp.mem, FrameOf(sp.root), v, n + 1) == To(s.table))
  {
    hide Index, Page, Query, Aligned, FrameOf;
    var i := Index(v, n);
    var s := NextTable(sp, t, i);
    WalkLevel(sp.mem, FrameOf(sp.root), level, v, n);
    level' := level;
    var e := sp.mem[t][i];
    if IsPresent(e) {
      assert Linked(sp.mem, level, t, i);
    } else if sp.pool != [] {
      FreshTail(sp.pool, level, level[t] - 1);
      var p := sp.pool[0];
      if Usable(p) && FrameOf(p) in sp.mem {
        level' := level[FrameOf(p) := level[t] - 1];
        LinkKeepsTree(sp.mem, FrameOf(sp.root), level, t, i, p);
        forall w
          ensures Query(s.sp, w) == Query(sp, w)
        {
          LinkKeepsQuery(sp, s.sp, level, t, i, p, w);
        }
        LinkedWalk(sp.mem, FrameOf(sp.root), level, t, i, p, v, n);
        LinkedEntries(sp.mem, FrameOf(sp.root), level, t, i, p, t, i);
      } else {
        PoolOnly(sp, s.sp);
      }
    }
  }

  lemma PoolOnly(sp: Space, sp': Space)
    requires Shaped(sp.mem) && sp'.mem == sp.mem && sp'.root == sp.root
    ensures SameQueries(sp, sp')
  {
    hide Page, Index, IsPresent, Descend;
  }

  /** The specification of a mapping as map stores it. */
  function NewMapping(paddr: bv64, flags: bv64): (m: Mapping) {
    Mapping(Target(paddr), PRESENT | (flags & ALLOWED))
  }

  /** From the table reached after `n` descents to the end. */
  lemma {:induction false} MapFromKeeps(sp: Space, level: Levels, v: bv64, n: nat, t: nat, paddr: bv64, flags: bv64)
    returns (level': Levels)
    requires Good(sp, level) && n <= 3 && Page(v) && Descend(sp.mem, FrameOf(sp.root), v, n) == To(t)
    ensures var o := MapFrom(sp, t, n, v, paddr, flags);
            && Good(o.sp, level')
            && (forall w :: Page(w) ==>
                  Query(o.sp, w) == if o.rc == MAP_OK && w == v then Found(NewMapping(paddr, flags)) else Query(sp, w))
            && (if Query(sp, v).Found? then o.rc == ERR_EXISTS else o.rc == MAP_OK || o.rc == ERR_NOMEM || o.rc == ERR_INVAL)
    decreases 3 - n
  {
    hide Index, Page, Aligned, FrameOf, NextTable, NewMapping, Leaf, Target, FlagsOf, IsPresent, IsLink;
    if n < 3 {
      var s := NextTable(sp, t, Index(v, n));
      level' := NextKeeps(sp, level, v, n, t);
      FoundGoesOn(sp, level, v, n, t);
      if s.rc == MAP_OK {
        level' := MapFromKeeps(s.sp, level', v, n + 1, s.table, paddr, flags);
      }
    } else {
      level' := level;
      WalkLevel(sp.mem, FrameOf(sp.root), level, v, 3);
      QueryAt(sp, level, v, t);
      var i, e := Index(v, 3), Leaf(paddr, flags);
      if !IsPresent(sp.mem[t][i]) {
        LeafKeepsGood(sp, level, t, i, e);
        LeafIsNew(paddr, flags);
        forall w | Page(w)
          ensures Query(Put(sp, t, i, e), w) == if w == v then Found(NewMapping(paddr, flags)) else Query(sp, w)
        {
          LeafQuery(sp, level, t, v, e, w);
        }
      }
    }
  }

  lemma LeafIsNew(paddr: bv64, flags: bv64)
    ensures var e := Leaf(paddr, flags); IsPresent(e) && Mapping(Target(e), FlagsOf(e)) == NewMapping(paddr, flags)
  {
  }

  /** A page that is mapped has all its tables, so the walk of map finds rather than allocates them. */
  lemma FoundGoesOn(sp: Space, level: Levels, v: bv64, n: nat, t: nat)
    requires Good(sp, level) && n < 3 && Page(v) && Descend(sp.mem, FrameOf(sp.root), v, n) == To(t)
    ensures Query(sp, v).Found? ==> NextTable(sp, t, Index(v, n)).rc == MAP_OK
  {
    hide Index, Page, Aligned, FrameOf, FlagsOf;
    if Query(sp, v).Found? {
      StopsEarly(sp.mem, FrameOf(sp.root), v, n + 1);
    }
  }

  lemma {:induction false} StopsEarly(mem: Memory, root: nat, v: bv64, n: nat)
    requires Shaped(mem) && root in mem && n <= 3 && Descend(mem, root, v, 3).To?
    ensures Descend(mem, root, v, n).To?
    decreases 3 - n
  {
    if n < 3 {
      StopsEarly(mem, root, v, n + 1);
    }
  }

  lemma QueryAt(sp: Space, level: Levels, v: bv64, t: nat)
    requires Good(sp, level) && Page(v) && Descend(sp.mem, FrameOf(sp.root), v, 3) == To(t)
    ensures Query(sp, v).Found? <==> IsPresent(sp.mem[t][Index(v, 3)])
  {
  }

  /**
   Map refines a partial map: success adds exactly one entry, and any failure, even one that comes after new tables
   have been linked, changes no query at any address.
   */
  lemma MapRefines(sp: Space, level: Levels, v: bv64, paddr: bv64, flags: bv64) returns (level': Levels)
    requires Good(sp, level)
    ensures var o := Map(sp, v, paddr, flags);
            && Good(o.sp, level')
            && (forall w :: Page(w) ==>
                  Query(o.sp, w) == if o.rc == MAP_OK && w == v then Found(NewMapping(paddr, flags)) else Query(sp, w))
            && (if !Page(v) || !Aligned(paddr) then o.rc == ERR_INVAL
                else if Query(sp, v).Found? then o.rc == ERR_EXISTS
                else o.rc == MAP_OK || o.rc == ERR_NOMEM || o.rc == ERR_INVAL)
  {
    hide Index, Page, Aligned, FrameOf, MapFrom, NewMapping, Query;
    level' := level;
    if Page(v) && Aligned(paddr) {
      level' := MapFromKeeps(sp, level, v, 0, FrameOf(sp.root), paddr, flags);
    }
  }

  lemma TargetExact(paddr: bv64)
    requires Aligned(paddr)
    ensures Target(paddr) == paddr <==> paddr < 0x10_0000_0000_0000
  {
  }

  /** What is stored is the address asked for exactly below 2^52; above, map drops the high bits and still returns OK. */
  lemma AddressStored(sp: Space, level: Levels, v: bv64, paddr: bv64, flags: bv64)
    requires Good(sp, level) && Map(sp, v, paddr, flags).rc == MAP_OK
    ensures var q := Query(Map(sp, v, paddr, flags).sp, v);
            q.Found? && (q.m.paddr == paddr <==> paddr < 0x10_0000_0000_0000)
  {
    hide Index, FrameOf, MapFrom, Query, Target, Aligned, Good;
    var level' := MapRefines(sp, level, v, paddr, flags);
    TargetExact(paddr);
  }

  // ----- when map runs out of frames -----

  /** Tables on the path of `v` that do not exist yet. */
  function Missing(mem: Memory, root: nat, v: bv64): (k: nat)
    requires Shaped(mem) && root in mem
    ensures k <= 3
  {
    if Descend(mem, root, v, 3).To? then 0
    else if Descend(mem, root, v, 2).To? then 1
    else if Descend(mem, root, v, 1).To? then 2
    else 3
  }

  /** The next `k` answers of the allocator are frames that can serve as tables. */
  predicate Supply(sp: Space, k: nat) {
    k <= |sp.pool| && forall j :: 0 <= j < k ==> Usable(sp.pool[j]) && FrameOf(sp.pool[j]) in sp.mem
  }

  lemma MissingFrom(mem: Memory, root: nat, v: bv64, n: nat)
    requires Shaped(mem) && root in mem && n <= 3 && Descend(mem, root, v, n).To?
    ensures Missing(mem, root, v) <= 3 - n
    ensures n < 3 && Descend(mem, root, v, n + 1).Stop? ==> Missing(mem, root, v) == 3 - n
  {
    hide Index, Follow;
    StopsAll(mem, root, v);
  }

  lemma StopsAll(mem: Memory, root: nat, v: bv64)
    requires Shaped(mem) && root in mem
    ensures Descend(mem, root, v, 3).To? ==> Descend(mem, root, v, 2).To?
    ensures Descend(mem, root, v, 2).To? ==> Descend(mem, root, v, 1).To?
  {
    hide Index, Follow;
  }

  lemma NextNeeds(sp: Space, level: Levels, v: bv64, n: nat, t: nat)
    requires Good(sp, level) && n < 3 && Descend(sp.mem, FrameOf(sp.root), v, n) == To(t)
    ensures var s, root := NextTable(sp, t, Index(v, n)), FrameOf(sp.root);
            var k := Missing(sp.mem, root, v);
            if s.rc == MAP_OK then Supply(s.sp, Missing(s.sp.mem, root, v)) <==> Supply(sp, k)
            else !Supply(sp, k)
  {
    hide Index, Page, Aligned, FrameOf, Target, LinkTable;
    var i, root := Index(v, n), FrameOf(sp.root);
    var s := NextTable(sp, t, i);
    WalkLevel(sp.mem, root, level, v, n);
    MissingFrom(sp.mem, root, v, n);
    if IsPresent(sp.mem[t][i]) {
      assert Linked(sp.mem, level, t, i);
    } else if s.rc == MAP_OK {
      var p := sp.pool[0];
      AllocNeeds(sp, level, v, n, t);
      assert forall j :: 0 <= j < |s.sp.pool| ==> s.sp.pool[j] == sp.pool[j + 1];
      assert Supply(sp, 3 - n) <==> Supply(s.sp, 2 - n) by {
        if Supply(s.sp, 2 - n) {
          assert forall j :: 1 <= j < 3 - n ==> sp.pool[j] == s.sp.pool[j - 1];
        }
      }
    }
  }

  /** After a table has been allocated one table fewer is missing: the new one is empty. */
  lemma AllocNeeds(sp: Space, level: Levels, v: bv64, n: nat, t: nat)
    requires Good(sp, level) && n < 3 && Descend(sp.mem, FrameOf(sp.root), v, n) == To(t)
    requires !IsPresent(sp.mem[t][Index(v, n)]) && NextTable(sp, t, Index(v, n)).rc == MAP_OK
    ensures Missing(NextTable(sp, t, Index(v, n)).sp.mem, FrameOf(sp.root), v) == 2 - n
  {
    hide Index, Page, Aligned, FrameOf, Target, LinkTable, LinkTo;
    var i, root, p := Index(v, n), FrameOf(sp.root), sp.pool[0];
    var mem' := NextTable(sp, t, i).sp.mem;
    WalkLevel(sp.mem, root, level, v, n);
    var _ := NextKeeps(sp, level, v, n, t);
    MissingFrom(mem', root, v, n + 1);
    ZeroEntry();
    if n < 2 {
      LinkedEntries(sp.mem, root, level, t, i, p, FrameOf(p), Index(v, n + 1));
    } else {
      assert Descend(mem', root, v, 3).To?;
    }
  }

  lemma {:induction false} MapFromNeeds(sp: Space, level: Levels, v: bv64, n: nat, t: nat, paddr: bv64, flags: bv64)
    requires Good(sp, level) && n <= 3 && Page(v) && Descend(sp.mem, FrameOf(sp.root), v, n) == To(t)
    requires !Query(sp, v).Found?
    ensures MapFrom(sp, t, n, v, paddr, flags).rc == MAP_OK <==> Supply(sp, Missing(sp.mem, FrameOf(sp.root), v))
    decreases 3 - n
  {
    hide Index, Page, Aligned, FrameOf, NextTable, Supply, Leaf;
    if n < 3 {
      NextNeeds(sp, level, v, n, t);
      var level' := NextKeeps(sp, level, v, n, t);
      var s := NextTable(sp, t, Index(v, n));
      if s.rc == MAP_OK {
        MapFromNeeds(s.sp, level', v, n + 1, s.table, paddr, flags);
      }
    } else {
      QueryAt(sp, level, v, t);
      SupplyNone(sp);
    }
  }

  lemma SupplyNone(sp: Space)
    ensures Supply(sp, 0)
  {
  }

  /** An unmapped page can be mapped exactly when the allocator supplies as many tables as its path lacks. */
  lemma MapSucceedsIff(sp: Space, level: Levels, v: bv64, paddr: bv64, flags: bv64)
    requires Good(sp, level) && Page(v) && Aligned(paddr) && !Query(sp, v).Found?
    ensures Map(sp, v, paddr, flags).rc == MAP_OK <==> Supply(sp, Missing(sp.mem, FrameOf(sp.root), v))
  {
    hide Index, Page, Aligned, FrameOf, Supply, Query, MapFrom;
    MapFromNeeds(sp, level, v, 0, FrameOf(sp.root), paddr, flags);
  }

  /** Unmap removes exactly one entry. */
  lemma UnmapRefines(sp: Space, level: Levels, v: bv64)
    requires Good(sp, level)
    ensures var o := Unmap(sp, v);
            && Good(o.sp, level)
            && (forall w :: Page(w) ==>
                  Query(o.sp, w) == if o.rc == MAP_OK && w == v then Failed(ERR_NOT_FOUND) else Query(sp, w))
            && o.rc == if !Page(v) then ERR_INVAL else if Query(sp, v).Found? then MAP_OK else ERR_NOT_FOUND
  {
    hide Index, Page, Aligned, FrameOf, IsPresent, Target, FlagsOf, Descend;
    WalkLevel(sp.mem, FrameOf(sp.root), level, v, 3);
    var h := Descend(sp.mem, FrameOf(sp.root), v, 3);
    if Page(v) && h.To? && IsPresent(sp.mem[h.table][Index(v, 3)]) {
      ZeroEntry();
      LeafKeepsGood(sp, level, h.table, Index(v, 3), 0);
      forall w | Page(w)
        ensures Query(Put(sp, h.table, Index(v, 3), 0), w) == if w == v then Failed(ERR_NOT_FOUND) else Query(sp, w)
      {
        LeafQuery(sp, level, h.table, v, 0, w);
      }
    }
  }

  // ----- runs -----

  datatype Call = DoMap(v: bv64, paddr: bv64, flags: bv64) | DoUnmap(v: bv64)

  function Run1(sp: Space, c: Call): (o: Outcome)
    requires Shaped(sp.mem)
    ensures Shaped(o.sp.mem)
  {
    match c
    case DoMap(v, paddr, flags) => Map(sp, v, paddr, flags)
    case DoUnmap(v) => Unmap(sp, v)
  }

  function Run(sp: Space, calls: seq<Call>): (r: Space)
    requires Shaped(sp.mem)
    ensures Shaped(r.mem)
  {
    if calls == [] then sp else Run1(Run(sp, calls[..|calls| - 1]), calls[|calls| - 1]).sp
  }

  /** What page `w` maps to after the calls, according to the partial-map specification. */
  function Spec(sp: Space, calls: seq<Call>, w: bv64): (r: Lookup)
    requires Shaped(sp.mem)
  {
    if calls == [] then Failed(ERR_NOT_FOUND)
    else
      var before, c := calls[..|calls| - 1], calls[|calls| - 1];
      if c.v == w && Run1(Run(sp, before), c).rc == MAP_OK then
        (if c.DoMap? then Found(NewMapping(c.paddr, c.flags)) else Failed(ERR_NOT_FOUND))
      else Spec(sp, before, w)
  }

  /** Starting from a zeroed root, every run of map and unmap answers queries as the partial map does. */
  lemma {:induction false} RunRefines(sp: Space, calls: seq<Call>) returns (level: Levels)
    requires Shaped(sp.mem) && Aligned(sp.root) && FrameOf(sp.root) in sp.mem && sp.mem[FrameOf(sp.root)] == ZeroTable()
    requires Fresh(sp.pool, map[FrameOf(sp.root) := 4])
    ensures Good(Run(sp, calls), level)
    ensures forall w :: Page(w) ==> Query(Run(sp, calls), w) == Spec(sp, calls, w)
  {
    hide Index, Page, Aligned, FrameOf, Map, Unmap, NewMapping, Query;
    if calls == [] {
      level := map[FrameOf(sp.root) := 4];
      EmptyTree(sp);
    } else {
      var before, c := calls[..|calls| - 1], calls[|calls| - 1];
      level := RunRefines(sp, before);
      match c {
        case DoMap(v, paddr, flags) => level := MapRefines(Run(sp, before), level, v, paddr, flags);
        case DoUnmap(v) => UnmapRefines(Run(sp, before), level, v);
      }
    }
  }

  lemma EmptyTree(sp: Space)
    requires Shaped(sp.mem) && Aligned(sp.root) && FrameOf(sp.root) in sp.mem && sp.mem[FrameOf(sp.root)] == ZeroTable()
    ensures Tree(sp.mem, FrameOf(sp.root), map[FrameOf(sp.root) := 4])
    ensures forall w :: Page(w) ==> Query(sp, w) == Failed(ERR_NOT_FOUND)
  {
    hide Index, FrameOf, Target, IsPresent, IsLink, FlagsOf, Page, Aligned;
    ZeroEntry();
    var root := FrameOf(sp.root);
    forall w
      ensures Descend(sp.mem, root, w, 3) == Stop(ERR_NOT_FOUND)
    {
      assert Descend(sp.mem, root, w, 1) == Stop(ERR_NOT_FOUND);
      assert Descend(sp.mem, root, w, 2) == Stop(ERR_NOT_FOUND);
    }
  }
}
