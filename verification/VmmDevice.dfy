/** Page tables in memory: the walks and in-place table writes, proved against the value-level definitions. */
module VmmDevice {
  import opened Vmm

  class AddressSpace {
    const root: bv64
    /** The frames phys_to_virt can reach; each is an array of 512 entries. */
    const frames: map<nat, array<bv64>>
    var pool: seq<bv64>
    var returned: seq<bv64>

    ghost predicate Valid() {
      && (forall f :: f in frames ==> frames[f].Length == ENTRIES)
      && (forall f, g :: f in frames && g in frames && f != g ==> frames[f] != frames[g])
    }

    ghost function Tables(): (ts: set<object>) {
      set f | f in frames :: frames[f]
    }

    ghost function Mem(): (m: Memory)
      requires Valid()
      reads Tables()
      ensures Shaped(m) && m.Keys == frames.Keys
    {
      map f | f in frames :: frames[f][..]
    }

    ghost function State(): (sp: Space)
      requires Valid()
      reads this, Tables()
      ensures Shaped(sp.mem)
    {
      Space(Mem(), root, pool, returned)
    }

    /** `vmm_space_init`. */
    constructor (root: bv64, frames: map<nat, array<bv64>>, pool: seq<bv64>)
      ensures this.root == root && this.frames == frames && this.pool == pool && this.returned == []
    {
      this.root := root;
      this.frames := frames;
      this.pool := pool;
      this.returned := [];
    }

    method Store(f: nat, i: nat, e: bv64)
      requires Valid() && f in frames && i < ENTRIES
      modifies Tables()
      ensures Mem() == old(Mem())[f := old(Mem()[f])[i := e]]
    {
      frames[f][i] := e;
      assert forall g :: g in frames && g != f ==> frames[g][..] == old(frames[g][..]);
      assert frames[f][..] == old(frames[f][..])[i := e];
    }

    /** `vmm_zero_page`. */
    method ZeroPage(f: nat)
      requires Valid() && f in frames
      modifies Tables()
      ensures Mem() == old(Mem())[f := ZeroTable()]
    {
      var i := 0;
      while i < ENTRIES
        invariant 0 <= i <= ENTRIES
        invariant forall j :: 0 <= j < i ==> frames[f][j] == 0
        invariant forall g :: g in frames && g != f ==> frames[g][..] == old(frames[g][..])
      {
        frames[f][i] := 0;
        i := i + 1;
      }
      assert frames[f][..] == ZeroTable();
    }

    /** `get_or_alloc_next_table`. */
    method GetOrAllocNextTable(t: nat, i: nat, ghost sp: Space) returns (rc: int, next: nat)
      requires Valid() && t in frames && i < ENTRIES && sp == State()
      modifies this, Tables()
      ensures var s := NextTable(sp, t, i);
              && State() == s.sp && rc == s.rc && (rc == MAP_OK ==> next == s.table && next in frames)
    {
      next := 0;
      var e := frames[t][i];
      if IsPresent(e) {
        if e & HUGE != 0 {
          return ERR_EXISTS, 0;
        }
        if FrameOf(Target(e)) !in frames {
          return ERR_INVAL, 0;
        }
        return MAP_OK, FrameOf(Target(e));
      }
      if pool == [] {
        return ERR_NOMEM, 0;
      }
      var p := pool[0];
      pool := pool[1..];
      if p == INVALID_PHYS || !Aligned(p) {
        return ERR_NOMEM, 0;
      }
      if FrameOf(p) !in frames {
        returned := returned + [p];
        return ERR_INVAL, 0;
      }
      ZeroPage(FrameOf(p));
      Store(t, i, LinkTo(p));
      return MAP_OK, FrameOf(p);
    }

    /** The three descents of map and its leaf write; every level takes the same step. */
    method MapBelow(t: nat, n: nat, v: bv64, paddr: bv64, flags: bv64, ghost sp: Space) returns (rc: int)
      requires Valid() && t in frames && n <= 3 && sp == State()
      modifies this, Tables()
      ensures var o := MapFrom(sp, t, n, v, paddr, flags); State() == o.sp && rc == o.rc
      decreases 3 - n
    {
      hide NextTable, Index, Leaf;
      if n < 3 {
        var next;
        rc, next := GetOrAllocNextTable(t, Index(v, n), sp);
        if rc == MAP_OK {
          rc := MapBelow(next, n + 1, v, paddr, flags, NextTable(sp, t, Index(v, n)).sp);
        }
        return;
      }
      if IsPresent(frames[t][Index(v, 3)]) {
        return ERR_EXISTS;
      }
      Store(t, Index(v, 3), Leaf(paddr, flags));
      return MAP_OK;
    }

    /** `vmm_map_page`. */
    method MapPage(v: bv64, paddr: bv64, flags: bv64) returns (rc: int)
      requires Valid()
      modifies this, Tables()
      ensures var o := Map(old(State()), v, paddr, flags); State() == o.sp && rc == o.rc
    {
      hide MapFrom, Page;
      if !Page(v) || !Aligned(paddr) || !Aligned(root) || FrameOf(root) !in frames {
        return ERR_INVAL;
      }
      rc := MapBelow(FrameOf(root), 0, v, paddr, flags, State());
    }

    /** One level of the walk that query and unmap share. */
    method Hop(t: nat, i: nat, ghost m: Memory) returns (rc: int, next: nat)
      requires Valid() && t in frames && i < ENTRIES && m == Mem()
      ensures m == Mem()
      ensures var h := Follow(m, t, i);
              if h.To? then rc == MAP_OK && next == h.table && next in frames else rc == h.rc != MAP_OK
    {
      var e := frames[t][i];
      if !IsLink(e) {
        return ERR_NOT_FOUND, 0;
      }
      if FrameOf(Target(e)) !in frames {
        return ERR_INVAL, 0;
      }
      return MAP_OK, FrameOf(Target(e));
    }

    /** The walk from the root to the page table. */
    method Walk(v: bv64) returns (rc: int, pt: nat)
      requires Valid() && FrameOf(root) in frames
      ensures var h := Descend(Mem(), FrameOf(root), v, 3);
              if h.To? then rc == MAP_OK && pt == h.table && pt in frames else rc == h.rc != MAP_OK
    {
      hide Index, Follow, Mem, Descend;
      ghost var m, r := Mem(), FrameOf(root);
      WalkStart(m, r, v);
      var pdpt, pd;
      WalkStep(m, r, v, 0);
      rc, pdpt := Hop(FrameOf(root), Index(v, 0), m);
      pt := pdpt;
      if rc != MAP_OK {
        StopStays(m, r, v, 1, 3);
        return;
      }
      WalkStep(m, r, v, 1);
      rc, pd := Hop(pdpt, Index(v, 1), m);
      if rc != MAP_OK {
        StopStays(m, r, v, 2, 3);
        return;
      }
      WalkStep(m, r, v, 2);
      rc, pt := Hop(pd, Index(v, 2), m);
    }

    /** `vmm_query_page`. */
    method QueryPage(v: bv64) returns (r: Lookup)
      requires Valid()
      ensures r == Query(State(), v)
    {
      hide Index, Page, Descend;
      if !Page(v) || !Aligned(root) || FrameOf(root) !in frames {
        return Failed(ERR_INVAL);
      }
      var rc, pt := Walk(v);
      if rc != MAP_OK {
        return Failed(rc);
      }
      var e := frames[pt][Index(v, 3)];
      if !IsPresent(e) {
        return Failed(ERR_NOT_FOUND);
      }
      return Found(Mapping(Target(e), FlagsOf(e)));
    }

    /** `vmm_unmap_page`. */
    method UnmapPage(v: bv64) returns (rc: int)
      requires Valid()
      modifies Tables()
      ensures var o := Unmap(old(State()), v); State() == o.sp && rc == o.rc
    {
      hide Index, Page, Descend;
      if !Page(v) || !Aligned(root) || FrameOf(root) !in frames {
        return ERR_INVAL;
      }
      var pt;
      rc, pt := Walk(v);
      if rc != MAP_OK {
        return;
      }
      if !IsPresent(frames[pt][Index(v, 3)]) {
        return ERR_NOT_FOUND;
      }
      Store(pt, Index(v, 3), 0);
    }
  }

  lemma WalkStart(mem: Memory, root: nat, v: bv64)
    requires Shaped(mem) && root in mem
    ensures Descend(mem, root, v, 0) == To(root)
  {
  }

  lemma WalkStep(mem: Memory, root: nat, v: bv64, n: nat)
    requires Shaped(mem) && root in mem && n < 3
    ensures var h := Descend(mem, root, v, n);
            Descend(mem, root, v, n + 1) == if h.Stop? then h else Follow(mem, h.table, Index(v, n))
  {
    hide Index, Follow;
  }

  lemma {:induction false} StopStays(mem: Memory, root: nat, v: bv64, n: nat, m: nat)
    requires Shaped(mem) && root in mem && n <= m <= 3 && Descend(mem, root, v, n).Stop?
    ensures Descend(mem, root, v, m) == Descend(mem, root, v, n)
  {
    hide Index, Follow;
    if n < m {
      StopStays(mem, root, v, n, m - 1);
    }
  }
}
