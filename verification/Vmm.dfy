/** Four-level page tables: map, unmap and query over a memory of 512-entry tables refine a partial map. */
module Vmm {

  const PRESENT: bv64 := 0x1
  const WRITABLE: bv64 := 0x2
  const HUGE: bv64 := 0x80
  /** Writable, user, write-through, cache-disable, global and no-execute. */
  const ALLOWED: bv64 := 0x8000_0000_0000_011E
  const ADDR_MASK: bv64 := 0x000F_FFFF_FFFF_F000
  const INVALID_PHYS: bv64 := 0xFFFF_FFFF_FFFF_FFFF
  const ENTRIES := 512

  const MAP_OK := 0
  const ERR_INVAL := -1
  const ERR_NOMEM := -2
  const ERR_EXISTS := -3
  const ERR_NOT_FOUND := -4

  // ----- addresses -----

  predicate Aligned(a: bv64) {
    a & 0xFFF == 0
  }

  predicate Canonical(v: bv64) {
    var sign, upper := (v >> 47) & 1, v >> 48;
    if sign == 1 then upper == 0xFFFF else upper == 0
  }

  predicate Page(v: bv64) {
    Canonical(v) && Aligned(v)
  }

  /** The nine address bits that select the entry after `n` descents: 0 for the PML4, 3 for the page table. */
  function IndexBits(v: bv64, n: nat): (b: bv9)
    requires n < 4
  {
    if n == 0 then ((v >> 39) & 0x1FF) as bv9
    else if n == 1 then ((v >> 30) & 0x1FF) as bv9
    else if n == 2 then ((v >> 21) & 0x1FF) as bv9
    else ((v >> 12) & 0x1FF) as bv9
  }

  function Index(v: bv64, n: nat): (i: nat)
    requires n < 4
    ensures i < ENTRIES
  {
    IndexBits(v, n) as int
  }

  lemma IndexBitsEqual(v: bv64, w: bv64, n: nat)
    requires n < 4 && Index(v, n) == Index(w, n)
    ensures IndexBits(v, n) == IndexBits(w, n)
  {
    AsIntInjective(IndexBits(v, n), IndexBits(w, n));
  }

  lemma AsIntInjective(a: bv9, b: bv9)
    requires a as int == b as int
    ensures a == b
  {
  }

  /** The four indices determine a canonical page address. */
  lemma IndicesDetermine(v: bv64, w: bv64)
    requires Page(v) && Page(w)
    requires forall n :: 0 <= n < 4 ==> Index(v, n) == Index(w, n)
    ensures v == w
  {
    hide Index, Page;
    assert Index(v, 0) == Index(w, 0) && Index(v, 1) == Index(w, 1) && Index(v, 2) == Index(w, 2) && Index(v, 3) == Index(w, 3);
    IndexBitsEqual(v, w, 0);
    IndexBitsEqual(v, w, 1);
    IndexBitsEqual(v, w, 2);
    IndexBitsEqual(v, w, 3);
    BitsDetermine(v, w);
  }

  lemma BitsDetermine(v: bv64, w: bv64)
    requires Page(v) && Page(w)
    requires IndexBits(v, 0) == IndexBits(w, 0) && IndexBits(v, 1) == IndexBits(w, 1)
    requires IndexBits(v, 2) == IndexBits(w, 2) && IndexBits(v, 3) == IndexBits(w, 3)
    ensures v == w
  {
  }

  // ----- table entries -----

  predicate IsPresent(e: bv64) {
    e & PRESENT != 0
  }

  predicate IsLink(e: bv64) {
    e & PRESENT != 0 && e & HUGE == 0
  }

  function Target(e: bv64): (p: bv64) {
    e & ADDR_MASK
  }

  /** The frame a physical address lies in; memory is addressed frame by frame. */
  function FrameOf(p: bv64): (f: nat) {
    (p >> 12) as int
  }

  function FlagsOf(e: bv64): (f: bv64) {
    e & !ADDR_MASK
  }

  function LinkTo(p: bv64): (e: bv64)
    ensures IsLink(e) && IsPresent(e)
    ensures Target(p) == p ==> Target(e) == p
  {
    (p & ADDR_MASK) | PRESENT | WRITABLE
  }

  function Leaf(paddr: bv64, flags: bv64): (e: bv64)
    ensures IsPresent(e)
    ensures Target(e) == Target(paddr) && FlagsOf(e) == PRESENT | (flags & ALLOWED)
  {
    (paddr & ADDR_MASK) | PRESENT | (flags & ALLOWED)
  }

  lemma ZeroEntry()
    ensures !IsPresent(0) && !IsLink(0)
  {
  }

  // ----- state -----

  type Table = seq<bv64>

  /** The frames reachable through phys_to_virt, each read as a table. */
  type Memory = map<nat, Table>

  predicate Shaped(mem: Memory) {
    forall t :: t in mem ==> |mem[t]| == ENTRIES
  }

  function ZeroTable(): (t: Table)
    ensures |t| == ENTRIES && forall i :: 0 <= i < ENTRIES ==> t[i] == 0
  {
    seq(ENTRIES, _ => 0)
  }

  /**
   `mem` holds the frames that phys_to_virt can reach; `pool` is what the frame allocator will return, call by call;
   `returned` the frames handed back to it.
   */
  datatype Space = Space(mem: Memory, root: bv64, pool: seq<bv64>, returned: seq<bv64>)

  datatype Mapping = Mapping(paddr: bv64, flags: bv64)

  datatype Lookup = Found(m: Mapping) | Failed(rc: int)

  // ----- query -----

  /** One level of the walk: from table `t` follow the entry at `i`. */
  datatype Hop = To(table: nat) | Stop(rc: int)

  function Follow(mem: Memory, t: nat, i: nat): (h: Hop)
    requires Shaped(mem) && t in mem && i < ENTRIES
    ensures h.To? ==> h.table in mem
  {
    var e := mem[t][i];
    if !IsLink(e) then Stop(ERR_NOT_FOUND)
    else if FrameOf(Target(e)) !in mem then Stop(ERR_INVAL)
    else To(FrameOf(Target(e)))
  }

  /** The table reached after `n` hops for address `v`. */
  function Descend(mem: Memory, root: nat, v: bv64, n: nat): (h: Hop)
    requires Shaped(mem) && root in mem && n <= 3
    ensures h.To? ==> h.table in mem
  {
    if n == 0 then To(root)
    else
      var h := Descend(mem, root, v, n - 1);
      if h.Stop? then h else Follow(mem, h.table, Index(v, n - 1))
  }

  /** `vmm_query_page`. */
  function Query(sp: Space, v: bv64): (r: Lookup)
    requires Shaped(sp.mem)
  {
    if !Page(v) || !Aligned(sp.root) || FrameOf(sp.root) !in sp.mem then Failed(ERR_INVAL)
    else
      var h := Descend(sp.mem, FrameOf(sp.root), v, 3);
      if h.Stop? then Failed(h.rc)
      else
        var e := sp.mem[h.table][Index(v, 3)];
        if !IsPresent(e) then Failed(ERR_NOT_FOUND) else Found(Mapping(Target(e), FlagsOf(e)))
  }

  // ----- map and unmap -----

  datatype Step = Step(sp: Space, rc: int, table: nat)

  function TakeFrame(sp: Space): (r: Space)
    requires sp.pool != []
  {
    Space(sp.mem, sp.root, sp.pool[1..], sp.returned)
  }

  /** Zero the new table, then point entry `i` of `t` at it. */
  function LinkTable(mem: Memory, t: nat, i: nat, p: bv64): (r: Memory)
    requires Shaped(mem) && t in mem && i < ENTRIES && FrameOf(p) in mem
    ensures r.Keys == mem.Keys && Shaped(r)
  {
    var f := FrameOf(p);
    mem[f := ZeroTable()][t := mem[f := ZeroTable()][t][i := LinkTo(p)]]
  }

  /** `get_or_alloc_next_table` on an absent entry. */
  function AllocTable(sp: Space, t: nat, i: nat): (s: Step)
    requires Shaped(sp.mem) && t in sp.mem && i < ENTRIES
    ensures s.rc == MAP_OK ==> s.table in s.sp.mem
    ensures sp.mem.Keys == s.sp.mem.Keys && s.sp.root == sp.root && Shaped(s.sp.mem)
  {
    if sp.pool == [] then Step(sp, ERR_NOMEM, 0)
    else if sp.pool[0] == INVALID_PHYS || !Aligned(sp.pool[0]) then Step(TakeFrame(sp), ERR_NOMEM, 0)
    else if FrameOf(sp.pool[0]) !in sp.mem then
      Step(Space(sp.mem, sp.root, sp.pool[1..], sp.returned + [sp.pool[0]]), ERR_INVAL, 0)
    else
      Step(Space(LinkTable(sp.mem, t, i, sp.pool[0]), sp.root, sp.pool[1..], sp.returned), MAP_OK, FrameOf(sp.pool[0]))
  }

  /** `get_or_alloc_next_table`. */
  function NextTable(sp: Space, t: nat, i: nat): (s: Step)
    requires Shaped(sp.mem) && t in sp.mem && i < ENTRIES
    ensures s.rc == MAP_OK ==> s.table in s.sp.mem
    ensures sp.mem.Keys == s.sp.mem.Keys && s.sp.root == sp.root && Shaped(s.sp.mem)
  {
    var e := sp.mem[t][i];
    if !IsPresent(e) then AllocTable(sp, t, i)
    else if e & HUGE != 0 then Step(sp, ERR_EXISTS, 0)
    else if FrameOf(Target(e)) !in sp.mem then Step(sp, ERR_INVAL, 0)
    else Step(sp, MAP_OK, FrameOf(Target(e)))
  }

  /** The space with one table entry overwritten. */
  function Put(sp: Space, t: nat, i: nat, e: bv64): (r: Space)
    requires Shaped(sp.mem) && t in sp.mem && i < ENTRIES
    ensures r.mem.Keys == sp.mem.Keys && r.root == sp.root && Shaped(r.mem)
  {
    Space(sp.mem[t := sp.mem[t][i := e]], sp.root, sp.pool, sp.returned)
  }

  datatype Outcome = Outcome(sp: Space, rc: int)

  /** `vmm_map_page` from the table reached after `n` descents. */
  function MapFrom(sp: Space, t: nat, n: nat, v: bv64, paddr: bv64, flags: bv64): (o: Outcome)
    requires Shaped(sp.mem) && t in sp.mem && n <= 3
    ensures sp.mem.Keys == o.sp.mem.Keys && o.sp.root == sp.root && Shaped(o.sp.mem)
    decreases 3 - n
  {
    if n < 3 then
      var s := NextTable(sp, t, Index(v, n));
      if s.rc != MAP_OK then Outcome(s.sp, s.rc) else MapFrom(s.sp, s.table, n + 1, v, paddr, flags)
    else
      var i := Index(v, 3);
      if IsPresent(sp.mem[t][i]) then Outcome(sp, ERR_EXISTS)
      else Outcome(Put(sp, t, i, Leaf(paddr, flags)), MAP_OK)
  }

  function Map(sp: Space, v: bv64, paddr: bv64, flags: bv64): (o: Outcome)
    requires Shaped(sp.mem)
    ensures sp.mem.Keys == o.sp.mem.Keys && o.sp.root == sp.root && Shaped(o.sp.mem)
  {
    if !Page(v) || !Aligned(paddr) || !Aligned(sp.root) || FrameOf(sp.root) !in sp.mem then Outcome(sp, ERR_INVAL)
    else MapFrom(sp, FrameOf(sp.root), 0, v, paddr, flags)
  }

  /** `vmm_unmap_page`. */
  function Unmap(sp: Space, v: bv64): (o: Outcome)
    requires Shaped(sp.mem)
    ensures sp.mem.Keys == o.sp.mem.Keys && o.sp.root == sp.root && Shaped(o.sp.mem)
  {
    if !Page(v) || !Aligned(sp.root) || FrameOf(sp.root) !in sp.mem then Outcome(sp, ERR_INVAL)
    else
      var h := Descend(sp.mem, FrameOf(sp.root), v, 3);
      if h.Stop? then Outcome(sp, h.rc)
      else if !IsPresent(sp.mem[h.table][Index(v, 3)]) then Outcome(sp, ERR_NOT_FOUND)
      else Outcome(Put(sp, h.table, Index(v, 3), 0), MAP_OK)
  }
}
