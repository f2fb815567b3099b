/**
 MCSFS1 over whole runs (`fs/mcsfs1/mcsfs1.c`): fsck at every write boundary, and the exact directory after every call.

 A call may have any name that create accepts and may be cut off after any of its block writes. Between calls the
 directory reads as a list of sixteen slots, and each call changes at most one of them.
 */
module Mcsfs1Runs {
  import opened Bytes
  import opened BlockDevice
  import opened Mcsfs1Layout
  import opened Mcsfs1State
  import opened Mcsfs1Steps
  import opened Mcsfs1Create
  import opened Mcsfs1Unlink
  import opened Mcsfs1Write

  // ----- fsck -----

  /** What `mcsfs1_fsck` checks of one directory slot in use. */
  predicate FsckSlot(v: View, s: Slot, n: nat)
    requires |v.nodes| == MAX_INODES + 1
  {
    && 1 <= s.ino <= MAX_INODES && s.kind == MODE_FILE as uint8 && s.ino in v.inodes
    && var node := v.nodes[s.ino];
    && |node.direct| == DIRECT_BLOCKS
    && node.mode == MODE_FILE && node.size <= MAX_FILE
    && forall j :: 0 <= j < NeededFor(node.size) && j < DIRECT_BLOCKS ==>
         DATA_START_LBA <= node.direct[j] < n && node.direct[j] in v.blocks
  }

  /** `mcsfs1_fsck` returns OK. */
  predicate FsckOk(d: Disk) {
    && DiskSize(|d|) && SuperOk(d[SB_LBA], |d|)
    && var v := ViewOf(d);
    && RootOk(v)
    && forall i :: 0 <= i < DIR_SLOTS && v.slots[i].ino != 0 ==> FsckSlot(v, v.slots[i], |d|)
  }

  /** The invariant is stronger than fsck: it also keeps files, and the blocks beyond a file's size, apart. */
  lemma SoundPassesFsck(d: Disk)
    requires DiskOk(d)
    ensures FsckOk(d)
  {
    hide ViewOf, SuperOk, RootOk;
    var v := ViewOf(d);
    forall i | 0 <= i < DIR_SLOTS && v.slots[i].ino != 0
      ensures FsckSlot(v, v.slots[i], |d|)
    {
      assert SlotOk(v, v.slots[i], |d|);
      BlocksOfNode(v.nodes[v.slots[i].ino]);
    }
  }

  /** All nonzero direct entries of files in the directory are distinct, in the data area, and marked. */
  lemma OwnedBlocks(d: Disk, i: nat, a: nat, j: nat, b: nat)
    requires DiskOk(d) && i < DIR_SLOTS && j < DIR_SLOTS && a < DIRECT_BLOCKS && b < DIRECT_BLOCKS
    requires var v := ViewOf(d); v.slots[i].ino != 0 && v.slots[j].ino != 0
    ensures var v := ViewOf(d);
            && v.slots[i].ino <= MAX_INODES && v.slots[j].ino <= MAX_INODES
            && var x, y := v.nodes[v.slots[i].ino].direct, v.nodes[v.slots[j].ino].direct;
            && |x| == |y| == DIRECT_BLOCKS
            && (x[a] != 0 ==> DATA_START_LBA <= x[a] < |d| && GetBit(d[BLOCK_BMAP_LBA], x[a]))
            && (x[a] != 0 && x[a] == y[b] ==> i == j && a == b)
  {
    hide ViewOf, SuperOk, RootOk, NeededFor, GetBit, BitsOf;
    var v := ViewOf(d);
    assert SlotOk(v, v.slots[i], |d|) && SlotOk(v, v.slots[j], |d|);
    BitsFields(d);
    var x := v.nodes[v.slots[i].ino].direct;
    if x[a] != 0 {
      BitClear(d[BLOCK_BMAP_LBA], x[a]);
    }
    if i != j {
      assert SlotsApart(v, v.slots[i], v.slots[j]);
    }
  }

  // ----- runs -----

  datatype Op = Create | Overwrite(buf: seq<uint8>) | Unlink

  /** A call; `past` is the byte behind the directory buffer, a negative `cut` lets the device keep accepting writes. */
  datatype Event = Event(op: Op, name: Name, past: uint8, cut: int)

  function EventPlan(d: Disk, ev: Event): (p: Plan)
    requires DiskSize(|d|)
    ensures InRange(p.writes, |d|)
  {
    match ev.op
    case Create => CreatePlan(d, ev.past, ev.name)
    case Overwrite(buf) => WritePlan(d, ev.past, ev.name, buf)
    case Unlink => UnlinkPlan(d, ev.past, ev.name)
  }

  function After(d: Disk, ev: Event): (e: Disk)
    requires DiskSize(|d|)
    ensures |e| == |d|
  {
    var p := EventPlan(d, ev);
    Apply(d, p.writes[..Allowed(ev.cut, |p.writes|)])
  }

  /** The list after the first `k` writes of a call with plan `p`. */
  function Effect(l: Listing, ev: Event, p: Plan, k: nat): (r: Listing) {
    match ev.op
    case Create => Created(l, ev.name, p.rc, k)
    case Overwrite(buf) => Overwritten(l, ev.past, ev.name, buf, p, k)
    case Unlink => Unlinked(l, ev.past, ev.name, p.rc, k)
  }

  /** The return codes the list allows. */
  predicate RcAllowed(l: Listing, ev: Event, rc: int) {
    match ev.op
    case Create => CreateRc(l, ev.past, ev.name, rc)
    case Overwrite(buf) => WriteRc(l, ev.past, ev.name, buf, rc)
    case Unlink => rc == UnlinkRc(l, ev.past, ev.name)
  }

  /**
   Whatever the call and its name, and wherever the device stops accepting its writes: the image stays sound, and the
   directory is exactly the one the call's effect up to that point says.
   */
  lemma EventExact(d: Disk, ev: Event)
    requires DiskOk(d)
    ensures var p, l := EventPlan(d, ev), ListingOf(d);
            && RcAllowed(l, ev, p.rc)
            && Lists(After(d, ev), |d|, Effect(l, ev, p, Allowed(ev.cut, |p.writes|)))
  {
    hide Inv, SuperOk, ListingOf, CreatePlan, WritePlan, UnlinkPlan, Lists, ViewOf, CreateRc, WriteRc, UnlinkRc;
    var p := EventPlan(d, ev);
    var k := Allowed(ev.cut, |p.writes|);
    match ev.op {
      case Create => CreateCut(d, ev.past, ev.name, k);
      case Overwrite(buf) => WriteCut(d, ev.past, ev.name, buf, k);
      case Unlink => UnlinkCut(d, ev.past, ev.name, k);
    }
  }

  function Exec(d: Disk, evs: seq<Event>): (e: Disk)
    requires DiskSize(|d|)
    ensures |e| == |d|
    decreases |evs|
  {
    if evs == [] then d else Exec(After(d, evs[0]), evs[1..])
  }

  /** Any run, of any names, with the device cut off at any point of any call, ends in an image fsck accepts. */
  lemma {:induction false} RunsPassFsck(d: Disk, evs: seq<Event>)
    requires DiskOk(d)
    ensures DiskOk(Exec(d, evs)) && FsckOk(Exec(d, evs))
    decreases |evs|
  {
    hide Inv, SuperOk, After, FsckOk, Effect, RcAllowed, ListingOf, ViewOf;
    if evs == [] {
      SoundPassesFsck(d);
    } else {
      EventExact(d, evs[0]);
      RunsPassFsck(After(d, evs[0]), evs[1..]);
    }
  }

  function ListExec(l: Listing, d: Disk, evs: seq<Event>): (r: Listing)
    requires DiskSize(|d|)
    decreases |evs|
  {
    if evs == [] then l
    else
      var p := EventPlan(d, evs[0]);
      ListExec(Effect(l, evs[0], p, Allowed(evs[0].cut, |p.writes|)), After(d, evs[0]), evs[1..])
  }

  /** Over every run, cut calls included, the directory is the list with the effects of the calls. */
  lemma {:induction false} RunsExact(d: Disk, evs: seq<Event>)
    requires DiskOk(d)
    ensures Lists(Exec(d, evs), |d|, ListExec(ListingOf(d), d, evs))
    decreases |evs|
  {
    hide Inv, SuperOk, After, Effect, RcAllowed, ListingOf, ViewOf, EventPlan;
    if evs != [] {
      EventExact(d, evs[0]);
      RunsExact(After(d, evs[0]), evs[1..]);
    }
  }

  /** A call leaves every file alone that does not have its name. */
  lemma EffectElsewhere(l: Listing, ev: Event, p: Plan, k: nat, i: nat)
    requires i < DIR_SLOTS && l[i].Some? && l[i].value.name != ev.name
    ensures Effect(l, ev, p, k)[i] == l[i]
  {
    hide Mixed, NeededFor, FindIn, FirstFree;
  }

  /** Files no call of the run names stay in their slots with their bytes, wherever the calls are cut off. */
  lemma {:induction false} BystandersKept(d: Disk, evs: seq<Event>, i: nat)
    requires DiskOk(d) && i < DIR_SLOTS && ListingOf(d)[i].Some?
    requires forall k :: 0 <= k < |evs| ==> evs[k].name != ListingOf(d)[i].value.name
    ensures DiskOk(Exec(d, evs)) && ListingOf(Exec(d, evs))[i] == ListingOf(d)[i]
    decreases |evs|
  {
    hide Inv, SuperOk, After, Effect, RcAllowed, ListingOf, ViewOf, EventPlan;
    if evs != [] {
      var p := EventPlan(d, evs[0]);
      EventExact(d, evs[0]);
      EffectElsewhere(ListingOf(d), evs[0], p, Allowed(evs[0].cut, |p.writes|), i);
      BystandersKept(After(d, evs[0]), evs[1..], i);
    }
  }
}
