/**
 MCSFS1 against a map from names to byte strings (`fs/mcsfs1/mcsfs1.c`).

 Which file a lookup finds can depend on the neighbouring slot: a name of 27 bytes fills its field, and the length scan
 goes on into the next directory entry. A call can therefore change what lookups of one other name find, namely of a
 27-byte name in the slot in front of the one it fills or empties. The calls refine the map exactly as long as no create
 fills the slot behind a 27-byte name, nor gives a 27-byte name the slot in front of a file.
 */
module Mcsfs1Refine {
  import opened Bytes
  import opened BlockDevice
  import opened Mcsfs1Layout
  import opened Mcsfs1State
  import opened Mcsfs1Create
  import opened Mcsfs1Unlink
  import opened Mcsfs1Write
  import opened Mcsfs1Runs

  // ----- what one call does to lookups -----

  /** The slot a call works on; `DIR_SLOTS` if there is none. */
  function Target(l: Listing, ev: Event): (s: nat)
    ensures s <= DIR_SLOTS
  {
    if ev.op.Create? then FirstFree(l, 0) else FindIn(l, ev.past, ev.name, 0)
  }

  /** The slot in front of `s` holds `n`, and `n` fills its field. */
  predicate Behind(l: Listing, s: nat, n: Name) {
    0 < s <= DIR_SLOTS && l[s - 1].Some? && l[s - 1].value.name == n && |n| >= MAX_NAME
  }

  /** A call changes at most its target slot, which holds a file of its own name before and after, or none. */
  lemma EffectShape(l: Listing, ev: Event, p: Plan, k: nat)
    ensures var s, r := Target(l, ev), Effect(l, ev, p, k);
            || r == l
            || (&& s < DIR_SLOTS && r == l[s := r[s]]
                && (l[s].Some? ==> l[s].value.name == ev.name) && (r[s].Some? ==> r[s].value.name == ev.name)
                && (ev.op.Overwrite? ==> l[s].Some? && r[s].Some?))
  {
    hide Mixed, NeededFor, FindIn, FirstFree;
  }

  lemma SameHits(l: Listing, r: Listing, past: uint8, n: Name)
    requires forall i :: 0 <= i < DIR_SLOTS ==> Hits(l, past, i, n) == Hits(r, past, i, n)
    requires forall i :: 0 <= i < DIR_SLOTS && Hits(l, past, i, n) ==> l[i] == r[i]
    ensures Found(l, past, n) == Found(r, past, n)
  {
    hide Hits;
    FindInIs(r, past, n, FindIn(l, past, n, 0));
  }

  /** Changing one slot leaves the lookup of every name alone but that of the slot and of a full name in front of it. */
  lemma FoundElsewhere(l: Listing, s: nat, c: Option<File>, past: uint8, n: Name)
    requires s < DIR_SLOTS && (l[s].Some? ==> l[s].value.name != n) && (c.Some? ==> c.value.name != n)
    requires Behind(l, s, n) ==> l[s].Some? == c.Some?
    ensures Found(l[s := c], past, n) == Found(l, past, n)
  {
    hide FindIn;
    SameHits(l, l[s := c], past, n);
  }

  /**
   On any sound image, any call, cut off anywhere: the lookup of a name other than its own is as before, unless the call
   fills or empties the slot behind that name and the name fills its field.
   */
  lemma LookupsKept(d: Disk, ev: Event, past: uint8, n: Name)
    requires DiskOk(d) && n != ev.name
    requires !ev.op.Overwrite? ==> !Behind(ListingOf(d), Target(ListingOf(d), ev), n)
    ensures DiskOk(After(d, ev)) && Contents(After(d, ev), past, n) == Contents(d, past, n)
  {
    hide Inv, SuperOk, After, Effect, RcAllowed, ListingOf, ViewOf, EventPlan, Found, FirstFree, FindIn;
    var p, l := EventPlan(d, ev), ListingOf(d);
    var k := Allowed(ev.cut, |p.writes|);
    EventExact(d, ev);
    EffectShape(l, ev, p, k);
    var s, r := Target(l, ev), Effect(l, ev, p, k);
    if r != l {
      FoundElsewhere(l, s, r[s], past, n);
    }
  }

  /** A lookup that has its name in slot `s` or not at all. */
  lemma FoundAt(l: Listing, past: uint8, n: Name, s: nat)
    requires s < DIR_SLOTS && forall i :: 0 <= i < DIR_SLOTS && i != s ==> !Hits(l, past, i, n)
    ensures Found(l, past, n) == if Hits(l, past, s, n) then Some(l[s].value.data) else None
  {
    hide Hits;
    FindInIs(l, past, n, if Hits(l, past, s, n) then s else DIR_SLOTS);
  }

  lemma FoundNone(l: Listing, past: uint8, n: Name)
    ensures Found(l, past, n) == None <==> forall i :: 0 <= i < DIR_SLOTS ==> !Hits(l, past, i, n)
  {
    hide Hits;
  }

  /**
   On any sound image: after a create has returned OK a lookup finds the name if and only if the name does not fill its
   field, or a zero byte follows it (the next slot is free; for the last slot, the byte behind the lookup's buffer is
   zero), or the lookup, which may read another byte behind its buffer than the create did, already found it.
   */
  lemma CreatedFound(d: Disk, past: uint8, name: Name, past': uint8)
    requires DiskOk(d) && DiskSize(|d|) && CreatePlan(d, past, name).rc == E_OK
    ensures var ev, l := Event(Create, name, past, -1), ListingOf(d);
            var s := FirstFree(l, 0);
            && DiskOk(After(d, ev)) && s < DIR_SLOTS
            && (Contents(After(d, ev), past', name) != None <==>
                  || |name| < MAX_NAME || (if s + 1 < DIR_SLOTS then l[s + 1].None? else past' == 0)
                  || Contents(d, past', name) != None)
  {
    hide Inv, SuperOk, After, Effect, ListingOf, ViewOf, CreatePlan, FindIn, FirstFree, Found, NameRc;
    var ev, l := Event(Create, name, past, -1), ListingOf(d);
    EventExact(d, ev);
    CallWhole(d, ev);
    var s := FirstFree(l, 0);
    CreatedHits(l, past, name, past');
    FoundNone(l, past', name);
    FoundNone(l[s := Some(File(name, []))], past', name);
  }

  /** The new slot is hit if nothing follows it; all other slots are hit as before. */
  lemma CreatedHits(l: Listing, past: uint8, name: Name, past': uint8)
    requires FirstFree(l, 0) < DIR_SLOTS && FindIn(l, past, name, 0) == DIR_SLOTS
    ensures var s := FirstFree(l, 0);
            var r := l[s := Some(File(name, []))];
            && (Hits(r, past', s, name) <==> |name| < MAX_NAME || if s + 1 < DIR_SLOTS then l[s + 1].None? else past' == 0)
            && (forall i :: 0 <= i < DIR_SLOTS && i != s ==> Hits(r, past', i, name) == Hits(l, past', i, name))
            && !Hits(l, past', s, name)
  {
    hide FindIn, FirstFree;
    var s := FirstFree(l, 0);
    if s > 0 {
      assert !Hits(l, past, s - 1, name);
    }
  }

  // ----- whole calls -----

  /** The list after a call that nothing cuts off. */
  function Whole(l: Listing, ev: Event, rc: int): (r: Listing) {
    var s := Target(l, ev);
    if rc != E_OK || s == DIR_SLOTS then l
    else
      match ev.op
      case Create => l[s := Some(File(ev.name, []))]
      case Overwrite(buf) => l[s := Some(File(ev.name, buf))]
      case Unlink => l[s := None]
  }

  lemma CallWhole(d: Disk, ev: Event)
    requires DiskOk(d) && ev.cut < 0
    ensures var p, l := EventPlan(d, ev), ListingOf(d);
            Lists(After(d, ev), |d|, Whole(l, ev, p.rc))
  {
    hide Inv, SuperOk, ListingOf, ViewOf, CreatePlan, UnlinkPlan, WritePlan, FindIn, FirstFree, Lists, NeededFor;
    var p := EventPlan(d, ev);
    EventExact(d, ev);
    if ev.op.Create? {
      CreateCut(d, ev.past, ev.name, |p.writes|);
    } else if ev.op.Unlink? {
      UnlinkCut(d, ev.past, ev.name, |p.writes|);
    }
  }

  /** The same name is in no other slot. */
  predicate Alone(l: Listing, s: nat) {
    s < DIR_SLOTS && l[s].Some? && forall i :: 0 <= i < DIR_SLOTS && i != s && l[i].Some? ==> l[i].value.name != l[s].value.name
  }

  lemma ChangedFound(l: Listing, ev: Event, past: uint8, n: Name)
    requires RcAllowed(l, ev, E_OK) && n != ev.name && !ev.op.Overwrite?
    requires Behind(l, Target(l, ev), n) && Alone(l, Target(l, ev) - 1)
    ensures var file := Some(l[Target(l, ev) - 1].value.data);
            && Found(l, past, n) == (if ev.op.Create? then file else None)
            && Found(Whole(l, ev, E_OK), past, n) == if ev.op.Create? then None else file
  {
    hide FindIn, FirstFree, Found;
    var s := Target(l, ev);
    assert s < DIR_SLOTS;
    FoundAt(l, past, n, s - 1);
    FoundAt(Whole(l, ev, E_OK), past, n, s - 1);
  }

  /**
   And that one name it does change: a create that fills the slot behind a 27-byte name hides the file of that name, and
   an unlink that empties the slot brings the file back, with its bytes.
   */
  lemma LookupChanged(d: Disk, ev: Event, past: uint8, n: Name)
    requires DiskOk(d) && ev.cut < 0 && EventPlan(d, ev).rc == E_OK && n != ev.name && !ev.op.Overwrite?
    requires var l := ListingOf(d); Behind(l, Target(l, ev), n) && Alone(l, Target(l, ev) - 1)
    ensures DiskOk(After(d, ev))
    ensures var l := ListingOf(d);
            var file := Some(l[Target(l, ev) - 1].value.data);
            && Contents(d, past, n) == (if ev.op.Create? then file else None)
            && Contents(After(d, ev), past, n) == if ev.op.Create? then None else file
  {
    hide Inv, SuperOk, ListingOf, ViewOf, EventPlan, After, Found, FindIn, FirstFree, Whole, Effect, Alone;
    var l := ListingOf(d);
    EventExact(d, ev);
    CallWhole(d, ev);
    ChangedFound(l, ev, past, n);
  }

  // ----- the map -----

  function Get(m: map<Name, seq<uint8>>, n: Name): (c: Option<seq<uint8>>) {
    if n in m then Some(m[n]) else None
  }

  /** Whatever byte lies behind the buffer, lookups find what the map says. */
  ghost predicate Agrees(l: Listing, m: map<Name, seq<uint8>>) {
    forall past: uint8, n: Name :: Found(l, past, n) == Get(m, n)
  }

  ghost predicate Represents(d: Disk, m: map<Name, seq<uint8>>) {
    DiskOk(d) && Agrees(ListingOf(d), m)
  }

  /** A lookup sees the file in slot `i`, whatever byte follows the directory. */
  predicate Steady(l: Listing, i: nat)
    requires i < DIR_SLOTS && l[i].Some?
  {
    |l[i].value.name| < MAX_NAME || (i + 1 < DIR_SLOTS && l[i + 1].None?)
  }

  /** Every file is seen, and no two have the same name. */
  ghost predicate Plain(l: Listing) {
    && (forall i :: 0 <= i < DIR_SLOTS && l[i].Some? ==> Steady(l, i))
    && (forall i, j :: 0 <= i < j < DIR_SLOTS && l[i].Some? && l[j].Some? ==> l[i].value.name != l[j].value.name)
  }

  /** The specification: what a call that returns `rc` does to the map. */
  function MapAfter(m: map<Name, seq<uint8>>, ev: Event, rc: int): (r: map<Name, seq<uint8>>) {
    if rc != E_OK then m
    else
      match ev.op
      case Create => m[ev.name := []]
      case Overwrite(buf) => m[ev.name := buf]
      case Unlink => m - {ev.name}
  }

  /** The return codes the map allows. */
  predicate RcOnMap(m: map<Name, seq<uint8>>, ev: Event, rc: int) {
    if ev.op.Overwrite? && |ev.op.buf| > MAX_FILE then rc == E_RANGE
    else if NameRc(ev.name) != E_OK then rc == NameRc(ev.name)
    else
      match ev.op
      case Create => if ev.name in m then rc == E_EXIST else rc == E_OK || rc == E_NOSPC
      case Overwrite(_) => if ev.name in m then rc == E_OK || rc == E_NOSPC else rc == E_NOENT
      case Unlink => rc == if ev.name in m then E_OK else E_NOENT
  }

  /** A create that fills no slot behind a 27-byte name, and gives no 27-byte name a slot in front of a file. */
  predicate Safe(l: Listing, ev: Event) {
    var s := FirstFree(l, 0);
    ev.op.Create? && s < DIR_SLOTS ==>
      && (s > 0 && l[s - 1].Some? ==> |l[s - 1].value.name| < MAX_NAME)
      && (|ev.name| < MAX_NAME || (s + 1 < DIR_SLOTS && l[s + 1].None?))
  }

  lemma RcAgrees(l: Listing, m: map<Name, seq<uint8>>, ev: Event, rc: int)
    requires Agrees(l, m) && RcAllowed(l, ev, rc)
    ensures RcOnMap(m, ev, rc)
  {
    hide FindIn, FirstFree, NameRc;
    assert Found(l, ev.past, ev.name) == Get(m, ev.name);
  }

  /** In a plain list, a name is hit where it stands, under any byte behind the buffer. */
  lemma PlainHits(l: Listing, past: uint8, i: nat, n: Name)
    requires Plain(l) && i < DIR_SLOTS
    ensures Hits(l, past, i, n) <==> l[i].Some? && l[i].value.name == n
    ensures Hits(l, past, i, n) ==> Found(l, past, n) == Some(l[i].value.data)
  {
    hide FindIn;
    if Hits(l, past, i, n) {
      FoundAt(l, past, n, i);
    }
  }

  lemma CreateSafe(l: Listing, m: map<Name, seq<uint8>>, ev: Event)
    requires Plain(l) && Agrees(l, m) && ev.op.Create? && Safe(l, ev)
    requires FirstFree(l, 0) < DIR_SLOTS && FindIn(l, ev.past, ev.name, 0) == DIR_SLOTS
    ensures var r := l[FirstFree(l, 0) := Some(File(ev.name, []))]; Plain(r) && Agrees(r, m[ev.name := []])
  {
    hide FindIn, FirstFree, Agrees;
    var s := FirstFree(l, 0);
    var r := l[s := Some(File(ev.name, []))];
    forall i | 0 <= i < DIR_SLOTS && l[i].Some?
      ensures l[i].value.name != ev.name
    {
      PlainHits(l, ev.past, i, ev.name);
    }
    assert Plain(r);
    forall past: uint8, n: Name
      ensures Found(r, past, n) == Get(m[ev.name := []], n)
    {
      if n == ev.name {
        PlainHits(r, past, s, n);
      } else {
        FoundElsewhere(l, s, r[s], past, n);
        AgreesAt(l, m, past, n);
      }
    }
    assert Agrees(r, m[ev.name := []]) by { AgreesIf(r, m[ev.name := []]); }
  }

  lemma AgreesAt(l: Listing, m: map<Name, seq<uint8>>, past: uint8, n: Name)
    requires Agrees(l, m)
    ensures Found(l, past, n) == Get(m, n)
  {
  }

  lemma AgreesIf(l: Listing, m: map<Name, seq<uint8>>)
    requires forall past: uint8, n: Name :: Found(l, past, n) == Get(m, n)
    ensures Agrees(l, m)
  {
  }

  /** Replacing the data of a file, or removing it. */
  lemma ChangeSafe(l: Listing, m: map<Name, seq<uint8>>, s: nat, c: Option<File>)
    requires Plain(l) && Agrees(l, m) && s < DIR_SLOTS && l[s].Some? && (c.Some? ==> c.value.name == l[s].value.name)
    ensures var n := l[s].value.name;
            Plain(l[s := c]) && Agrees(l[s := c], if c.Some? then m[n := c.value.data] else m - {n})
  {
    hide Agrees, FindIn;
    var name, r := l[s].value.name, l[s := c];
    var m' := if c.Some? then m[name := c.value.data] else m - {name};
    assert s > 0 && l[s - 1].Some? ==> Steady(l, s - 1);
    assert Plain(r);
    forall past: uint8, n: Name
      ensures Found(r, past, n) == Get(m', n)
    {
      if n == name {
        FoundAt(r, past, n, s);
        PlainHits(r, past, s, n);
      } else {
        FoundElsewhere(l, s, c, past, n);
        AgreesAt(l, m, past, n);
      }
    }
    assert Agrees(r, m') by { AgreesIf(r, m'); }
  }

  lemma StepSafe(l: Listing, m: map<Name, seq<uint8>>, ev: Event, rc: int)
    requires Plain(l) && Agrees(l, m) && RcAllowed(l, ev, rc) && (rc == E_OK ==> Safe(l, ev))
    ensures Plain(Whole(l, ev, rc)) && Agrees(Whole(l, ev, rc), MapAfter(m, ev, rc))
  {
    hide Agrees, FindIn, FirstFree, Plain, Safe, NameRc;
    var s := Target(l, ev);
    if rc == E_OK {
      match ev.op
      case Create => CreateSafe(l, m, ev);
      case Overwrite(buf) => ChangeSafe(l, m, s, Some(File(ev.name, buf)));
      case Unlink => ChangeSafe(l, m, s, None);
    }
  }

  /** A create that is not safe loses a file: its own, or the one in front. */
  lemma StepUnsafe(l: Listing, m: map<Name, seq<uint8>>, ev: Event, rc: int)
    requires Plain(l) && Agrees(l, m) && RcAllowed(l, ev, rc) && rc == E_OK && !Safe(l, ev)
    ensures !Agrees(Whole(l, ev, rc), MapAfter(m, ev, rc))
  {
    hide FindIn, FirstFree, Agrees, NameRc;
    var s, r := FirstFree(l, 0), Whole(l, ev, rc);
    if |ev.name| >= MAX_NAME && (s + 1 == DIR_SLOTS || l[s + 1].Some?) {
      forall i | 0 <= i < DIR_SLOTS && i != s
        ensures !Hits(r, 1, i, ev.name)
      {
        PlainHits(l, ev.past, i, ev.name);
      }
      FoundAt(r, 1, ev.name, s);
      if Agrees(r, MapAfter(m, ev, rc)) {
        AgreesAt(r, MapAfter(m, ev, rc), 1, ev.name);
      }
    } else {
      LosesFront(l, m, ev, rc);
    }
  }

  lemma LosesFront(l: Listing, m: map<Name, seq<uint8>>, ev: Event, rc: int)
    requires Plain(l) && Agrees(l, m) && RcAllowed(l, ev, rc) && rc == E_OK && ev.op.Create?
    requires var s := FirstFree(l, 0); 0 < s < DIR_SLOTS && l[s - 1].Some? && |l[s - 1].value.name| >= MAX_NAME
    ensures !Agrees(Whole(l, ev, rc), MapAfter(m, ev, rc))
  {
    hide FindIn, FirstFree, Agrees, NameRc;
    var s, r := FirstFree(l, 0), Whole(l, ev, rc);
    var n := l[s - 1].value.name;
    PlainHits(l, ev.past, s - 1, n);
    AgreesAt(l, m, ev.past, n);
    forall i | 0 <= i < DIR_SLOTS && i != s - 1
      ensures !Hits(r, 0, i, n)
    {
      PlainHits(l, ev.past, i, n);
      PlainHits(l, ev.past, i, ev.name);
    }
    FoundAt(r, 0, n, s - 1);
    if Agrees(r, MapAfter(m, ev, rc)) {
      AgreesAt(r, MapAfter(m, ev, rc), 0, n);
    }
  }

  // ----- runs -----

  /** One call on a device that does not fail: it refines the map, return code included, if and only if it is safe. */
  lemma EventRefines(d: Disk, m: map<Name, seq<uint8>>, ev: Event)
    requires Represents(d, m) && Plain(ListingOf(d)) && ev.cut < 0 && DiskSize(|d|)
    ensures var rc := EventPlan(d, ev).rc;
            && RcOnMap(m, ev, rc) && DiskOk(After(d, ev))
            && (Represents(After(d, ev), MapAfter(m, ev, rc)) <==> rc == E_OK ==> Safe(ListingOf(d), ev))
            && (Represents(After(d, ev), MapAfter(m, ev, rc)) ==> Plain(ListingOf(After(d, ev))))
  {
    hide Inv, SuperOk, ListingOf, ViewOf, After, EventPlan, RcAllowed, Agrees, Plain, Safe, Whole, MapAfter, RcOnMap, Effect;
    var rc, l := EventPlan(d, ev).rc, ListingOf(d);
    EventExact(d, ev);
    CallWhole(d, ev);
    RcAgrees(l, m, ev, rc);
    if rc == E_OK && !Safe(l, ev) {
      StepUnsafe(l, m, ev, rc);
    } else {
      StepSafe(l, m, ev, rc);
    }
  }

  function MapExec(m: map<Name, seq<uint8>>, d: Disk, evs: seq<Event>): (r: map<Name, seq<uint8>>)
    requires DiskSize(|d|)
    decreases |evs|
  {
    if evs == [] then m
    else MapExec(MapAfter(m, evs[0], EventPlan(d, evs[0]).rc), After(d, evs[0]), evs[1..])
  }

  /** Every create of the run that returns OK is safe where it happens. */
  ghost predicate SafeRun(d: Disk, evs: seq<Event>)
    requires DiskOk(d) && DiskSize(|d|)
    decreases |evs|
  {
    evs != [] ==>
      && (EventPlan(d, evs[0]).rc == E_OK ==> Safe(ListingOf(d), evs[0]))
      && DiskOk(After(d, evs[0])) && SafeRun(After(d, evs[0]), evs[1..])
  }

  /** The image stands for the map, and goes on doing so after every call. */
  ghost predicate Followed(d: Disk, m: map<Name, seq<uint8>>, evs: seq<Event>)
    requires DiskSize(|d|)
    decreases |evs|
  {
    && Represents(d, m)
    && (evs != [] ==> Followed(After(d, evs[0]), MapAfter(m, evs[0], EventPlan(d, evs[0]).rc), evs[1..]))
  }

  /**
   MCSFS1 refines a map from names to byte strings: on a device that does not fail, over every run from a plain image, the
   image stands for the map after every call if and only if every create that returns OK was safe.
   */
  lemma {:induction false} RunsRefineIff(d: Disk, m: map<Name, seq<uint8>>, evs: seq<Event>)
    requires Represents(d, m) && Plain(ListingOf(d)) && DiskSize(|d|)
    requires forall i :: 0 <= i < |evs| ==> evs[i].cut < 0
    ensures Followed(d, m, evs) <==> SafeRun(d, evs)
    decreases |evs|
  {
    hide Inv, SuperOk, ListingOf, ViewOf, After, EventPlan, Agrees, Plain, Safe, MapAfter, RcOnMap;
    if evs != [] {
      var ev := evs[0];
      var m' := MapAfter(m, ev, EventPlan(d, ev).rc);
      EventRefines(d, m, ev);
      if Represents(After(d, ev), m') {
        RunsRefineIff(After(d, ev), m', evs[1..]);
      }
    }
  }

  /** In particular a run that creates no name of 27 bytes refines the map. */
  lemma {:induction false} ShortNamesRefine(d: Disk, m: map<Name, seq<uint8>>, evs: seq<Event>)
    requires Represents(d, m) && Plain(ListingOf(d)) && DiskSize(|d|)
    requires forall i :: 0 <= i < DIR_SLOTS && ListingOf(d)[i].Some? ==> |ListingOf(d)[i].value.name| < MAX_NAME
    requires forall i :: 0 <= i < |evs| ==> evs[i].cut < 0 && (evs[i].op.Create? ==> |evs[i].name| < MAX_NAME)
    ensures Followed(d, m, evs) && Represents(Exec(d, evs), MapExec(m, d, evs))
    decreases |evs|
  {
    hide Inv, SuperOk, ListingOf, ViewOf, After, EventPlan, Agrees, Plain, MapAfter, RcOnMap, Whole;
    if evs != [] {
      var ev := evs[0];
      EventRefines(d, m, ev);
      CallWhole(d, ev);
      ShortStays(ListingOf(d), ev, EventPlan(d, ev).rc);
      ShortNamesRefine(After(d, ev), MapAfter(m, ev, EventPlan(d, ev).rc), evs[1..]);
    }
  }

  lemma ShortStays(l: Listing, ev: Event, rc: int)
    requires forall i :: 0 <= i < DIR_SLOTS && l[i].Some? ==> |l[i].value.name| < MAX_NAME
    requires ev.op.Create? ==> |ev.name| < MAX_NAME
    ensures Safe(l, ev)
    ensures forall i :: 0 <= i < DIR_SLOTS && Whole(l, ev, rc)[i].Some? ==> |Whole(l, ev, rc)[i].value.name| < MAX_NAME
  {
    hide FindIn, FirstFree;
  }
}
