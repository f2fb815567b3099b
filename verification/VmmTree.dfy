/** The tables in use form a tree; linking a fresh table changes no query, writing a leaf changes exactly one. */
module VmmTree {
  import opened Vmm

  /** Tables in use with their level: 4 for the PML4, 1 for a page table. */
  type Levels = map<nat, nat>

  predicate Linked(mem: Memory, level: Levels, t: nat, i: nat)
    requires Shaped(mem) && t in level && i < ENTRIES
  {
    t in mem && level[t] >= 2 && IsPresent(mem[t][i])
  }

  /** The table that entry `i` of `t` points at. */
  function Child(mem: Memory, t: nat, i: nat): (c: nat)
    requires Shaped(mem) && t in mem && i < ENTRIES
  {
    FrameOf(Target(mem[t][i]))
  }

  ghost predicate Tree(mem: Memory, root: nat, level: Levels) {
    && Shaped(mem)
    && root in level && level[root] == 4
    && (forall t :: t in level ==> t in mem && 1 <= level[t] <= 4)
    && (forall t, i :: t in level && 0 <= i < ENTRIES && Linked(mem, level, t, i) ==>
          IsLink(mem[t][i]) && Child(mem, t, i) in level && level[Child(mem, t, i)] == level[t] - 1)
    && (forall t, i, u, j ::
          (t in level && u in level && 0 <= i < ENTRIES && 0 <= j < ENTRIES
           && Linked(mem, level, t, i) && Linked(mem, level, u, j) && Child(mem, t, i) == Child(mem, u, j)) ==> t == u && i == j)
  }

  predicate Usable(p: bv64) {
    p != INVALID_PHYS && Aligned(p)
  }

  /** The allocator hands out frames below 2^52, each once, and none that is already a table. */
  predicate Fresh(pool: seq<bv64>, level: Levels) {
    && (forall k :: 0 <= k < |pool| && Usable(pool[k]) ==> FrameOf(pool[k]) !in level && Target(pool[k]) == pool[k])
    && (forall j, k :: 0 <= j < k < |pool| && Usable(pool[j]) && Usable(pool[k]) ==> FrameOf(pool[j]) != FrameOf(pool[k]))
  }

  ghost predicate Good(sp: Space, level: Levels) {
    Aligned(sp.root) && Tree(sp.mem, FrameOf(sp.root), level) && Fresh(sp.pool, level)
  }

  // ----- walks -----

  lemma {:induction false} WalkLevel(mem: Memory, root: nat, level: Levels, v: bv64, n: nat)
    requires Tree(mem, root, level) && n <= 3
    ensures var h := Descend(mem, root, v, n);
            if h.To? then h.table in level && level[h.table] == 4 - n else h.rc == ERR_NOT_FOUND
  {
    hide Index;
    if n > 0 {
      WalkLevel(mem, root, level, v, n - 1);
      var h := Descend(mem, root, v, n - 1);
      if h.To? {
        LinkIsPresent(mem[h.table][Index(v, n - 1)]);
        assert IsLink(mem[h.table][Index(v, n - 1)]) ==> Linked(mem, level, h.table, Index(v, n - 1));
      }
    }
  }

  lemma LinkIsPresent(e: bv64)
    ensures IsLink(e) ==> IsPresent(e)
  {
  }

  /** Two walks that meet in a table have taken the same entries all the way. */
  lemma {:induction false} WalkInjective(mem: Memory, root: nat, level: Levels, v: bv64, w: bv64, n: nat)
    requires Tree(mem, root, level) && n <= 3
    requires Descend(mem, root, v, n).To? && Descend(mem, root, v, n) == Descend(mem, root, w, n)
    ensures forall k :: 0 <= k < n ==> Index(v, k) == Index(w, k)
  {
    hide Index, IsLink, IsPresent, Target;
    if n > 0 {
      var g, h := Descend(mem, root, v, n - 1), Descend(mem, root, w, n - 1);
      WalkLevel(mem, root, level, v, n - 1);
      WalkLevel(mem, root, level, w, n - 1);
      LinkIsPresent(mem[g.table][Index(v, n - 1)]);
      LinkIsPresent(mem[h.table][Index(w, n - 1)]);
      assert Linked(mem, level, g.table, Index(v, n - 1)) && Linked(mem, level, h.table, Index(w, n - 1));
      WalkInjective(mem, root, level, v, w, n - 1);
    }
  }

  // ----- linking a new table -----

  /** Entry `i` of table `t` is absent and `p` is a frame no table uses. */
  ghost predicate CanLink(mem: Memory, root: nat, level: Levels, t: nat, i: nat, p: bv64) {
    && Tree(mem, root, level) && t in level && level[t] >= 2 && i < ENTRIES
    && !IsPresent(mem[t][i]) && FrameOf(p) in mem && FrameOf(p) !in level && Target(p) == p
  }

  lemma LinkedEntries(mem: Memory, root: nat, level: Levels, t: nat, i: nat, p: bv64, u: nat, j: nat)
    requires CanLink(mem, root, level, t, i, p) && u in mem && j < ENTRIES
    ensures LinkTable(mem, t, i, p)[u][j] ==
            if u == t && j == i then LinkTo(p) else if u == FrameOf(p) then 0 else mem[u][j]
  {
    hide IsPresent, IsLink, Target, LinkTo;
  }

  lemma LinkKeepsTree(mem: Memory, root: nat, level: Levels, t: nat, i: nat, p: bv64)
    requires CanLink(mem, root, level, t, i, p)
    ensures Tree(LinkTable(mem, t, i, p), root, level[FrameOf(p) := level[t] - 1])
  {
    hide IsPresent, IsLink, Target, LinkTo, LinkTable, FrameOf;
    var mem' := LinkTable(mem, t, i, p);
    var level' := level[FrameOf(p) := level[t] - 1];
    ZeroEntry();
    forall u, j | u in mem && 0 <= j < ENTRIES
      ensures mem'[u][j] == if u == t && j == i then LinkTo(p) else if u == FrameOf(p) then 0 else mem[u][j]
    {
      LinkedEntries(mem, root, level, t, i, p, u, j);
    }
    forall u, j | u in level' && 0 <= j < ENTRIES && Linked(mem', level', u, j)
      ensures if u == t && j == i then Child(mem', u, j) == FrameOf(p)
              else u in level && Linked(mem, level, u, j) && mem'[u][j] == mem[u][j]
    {
    }
  }

  /** Walks that got through still do; walks that stopped now stop too, or end in the new, empty table. */
  lemma {:induction false} LinkedWalk(mem: Memory, root: nat, level: Levels, t: nat, i: nat, p: bv64, w: bv64, n: nat)
    requires CanLink(mem, root, level, t, i, p) && n <= 3
    ensures var h, h' := Descend(mem, root, w, n), Descend(LinkTable(mem, t, i, p), root, w, n);
            if h.To? then h' == h else h' == Stop(ERR_NOT_FOUND) || h' == To(FrameOf(p))
  {
    hide IsPresent, Target, LinkTo, LinkTable, Index;
    if n > 0 {
      LinkedWalk(mem, root, level, t, i, p, w, n - 1);
      WalkLevel(mem, root, level, w, n - 1);
      WalkLevel(mem, root, level, w, n);
      var h, h' := Descend(mem, root, w, n - 1), Descend(LinkTable(mem, t, i, p), root, w, n - 1);
      var j := Index(w, n - 1);
      ZeroEntry();
      LinkIsPresent(mem[t][i]);
      if h'.To? {
        LinkedEntries(mem, root, level, t, i, p, h'.table, j);
      }
    }
  }

  /** Linking a fresh zeroed table changes no query. */
  lemma LinkKeepsQuery(sp: Space, sp': Space, level: Levels, t: nat, i: nat, p: bv64, w: bv64)
    requires CanLink(sp.mem, FrameOf(sp.root), level, t, i, p) && Aligned(sp.root)
    requires sp'.mem == LinkTable(sp.mem, t, i, p) && sp'.root == sp.root
    ensures Query(sp', w) == Query(sp, w)
  {
    hide IsPresent, Target, FlagsOf, LinkTo, LinkTable, Index, IsLink, Descend;
    if Page(w) {
      LinkedWalk(sp.mem, FrameOf(sp.root), level, t, i, p, w, 3);
      WalkLevel(sp.mem, FrameOf(sp.root), level, w, 3);
      ZeroEntry();
      var h' := Descend(sp'.mem, FrameOf(sp.root), w, 3);
      if h'.To? {
        LinkedEntries(sp.mem, FrameOf(sp.root), level, t, i, p, h'.table, Index(w, 3));
      }
    }
  }

  // ----- writing a leaf -----

  lemma {:induction false} LeafWalk(sp: Space, level: Levels, t: nat, i: nat, e: bv64, w: bv64, n: nat)
    requires Good(sp, level) && t in level && level[t] == 1 && i < ENTRIES && n <= 3
    ensures Descend(Put(sp, t, i, e).mem, FrameOf(sp.root), w, n) == Descend(sp.mem, FrameOf(sp.root), w, n)
  {
    hide IsPresent, Target, Index, IsLink;
    if n > 0 {
      LeafWalk(sp, level, t, i, e, w, n - 1);
      WalkLevel(sp.mem, FrameOf(sp.root), level, w, n - 1);
    }
  }

  lemma LeafKeepsGood(sp: Space, level: Levels, t: nat, i: nat, e: bv64)
    requires Good(sp, level) && t in level && level[t] == 1 && i < ENTRIES
    ensures Good(Put(sp, t, i, e), level)
  {
    hide IsPresent, Target, IsLink;
    var mem' := Put(sp, t, i, e).mem;
    assert forall u, j :: u in level && 0 <= j < ENTRIES && Linked(mem', level, u, j) ==>
      Linked(sp.mem, level, u, j) && mem'[u][j] == sp.mem[u][j];
  }

  /** Rewriting the leaf of page `v` changes the answer at `v` and nowhere else. */
  lemma LeafQuery(sp: Space, level: Levels, t: nat, v: bv64, e: bv64, w: bv64)
    requires Good(sp, level) && Page(v) && Page(w) && Descend(sp.mem, FrameOf(sp.root), v, 3) == To(t)
    ensures t in level && level[t] == 1
    ensures Query(Put(sp, t, Index(v, 3), e), w) ==
            if w != v then Query(sp, w)
            else if IsPresent(e) then Found(Mapping(Target(e), FlagsOf(e))) else Failed(ERR_NOT_FOUND)
  {
    hide IsPresent, Target, FlagsOf, IsLink, Index, Page, Descend, Aligned;
    WalkLevel(sp.mem, FrameOf(sp.root), level, v, 3);
    WalkLevel(sp.mem, FrameOf(sp.root), level, w, 3);
    LeafWalk(sp, level, t, Index(v, 3), e, w, 3);
    var h := Descend(sp.mem, FrameOf(sp.root), w, 3);
    if w != v && h == To(t) && Index(w, 3) == Index(v, 3) {
      WalkInjective(sp.mem, FrameOf(sp.root), level, v, w, 3);
      IndicesDetermine(v, w);
    }
  }
}
