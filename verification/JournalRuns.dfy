/**
 MCSFS1J over whole runs: any sequence of file writes, mounts and crashes behaves as a write-once map from names to bytes.

 A crash is a prefix of the block writes of a call, recovery of an earlier crash included. A disk stands for a map when
 its journal can be replayed again and the disk that recovery would leave checks out, owns nothing twice and holds the files
 of the map.
 */
module JournalRuns {
  import opened Bytes
  import opened BlockDevice
  import opened Journal
  import opened JournalFs

  /**
   A call, and the number of block writes after which the power fails; a negative `cut` lets it finish.
   Mounting stands for every call that only recovers and reads: recover, mount, read and fsck.
   */
  datatype Event = WriteFile(name: Name, data: seq<uint8>, stop: bool, cut: int) | Mount(cut: int)

  function EventWrites(d: Disk, ev: Event): (ws: seq<Write>)
    requires |d| == MAX_BLOCKS
    ensures InRange(ws, MAX_BLOCKS)
  {
    match ev
    case WriteFile(name, data, stop, _) => WriteFilePlan(d, name, data, stop).writes
    case Mount(_) => RecoverPlan(d).writes
  }

  /** The disk found at the next power-up. */
  function After(d: Disk, ev: Event): (e: Disk)
    requires |d| == MAX_BLOCKS
    ensures |e| == MAX_BLOCKS
  {
    var ws := EventWrites(d, ev);
    Apply(d, ws[..Allowed(ev.cut, |ws|)])
  }

  /** Every file of `m` and no other is on the disk, once it has recovered, and fsck finds nothing wrong. */
  ghost predicate Represents(d: Disk, m: map<Name, seq<uint8>>)
    requires |d| == MAX_BLOCKS
  {
    && Stable(d) && RecoverPlan(d).rc == E_OK
    && Clean(Recovered(d)) && Owned(Recovered(d))
    && forall n: Name :: Contents(Recovered(d), n) == if n in m then Some(m[n]) else None
  }

  /** The event got as far as the second commit header of its file write. */
  predicate Commits(d: Disk, ev: Event)
    requires |d| == MAX_BLOCKS
  {
    && ev.WriteFile?
    && Allowed(ev.cut, |EventWrites(d, ev)|) >= |RecoverPlan(d).writes| + COMMIT_POINT
  }

  function ModelAfter(m: map<Name, seq<uint8>>, d: Disk, ev: Event): (r: map<Name, seq<uint8>>)
    requires |d| == MAX_BLOCKS
  {
    if Commits(d, ev) then m[ev.name := ev.data] else m
  }

  /** Crashes inside the recovery that every call begins with. */
  lemma MountCut(d: Disk, m: map<Name, seq<uint8>>, k: nat)
    requires |d| == MAX_BLOCKS && Represents(d, m) && k <= |RecoverPlan(d).writes|
    ensures Represents(Apply(d, RecoverPlan(d).writes[..k]), m)
  {
    hide Recovered, RecoverPlan, Stable, Clean, Owned, Contents;
    CutOnce(d, k);
  }

  lemma SuperIsOk(d: Disk)
    requires |d| == MAX_BLOCKS && Clean(d)
    ensures SuperOk(d[0])
  {
  }

  /**
   The crash theorem, for every disk that fsck accepts: stop a file write after any number of block writes and
   recover; the disk passes fsck again and holds the old files with their old bytes, plus the new file with exactly
   its data if and only if the second commit header had been written.
   */
  lemma WriteFileCrash(d: Disk, name: Name, data: seq<uint8>, stop: bool, k: nat)
    requires |d| == MAX_BLOCKS && Stable(d) && RecoverPlan(d).rc == E_OK && Clean(Recovered(d))
    requires k <= |WriteFilePlan(d, name, data, stop).writes|
    ensures var e := Apply(d, WriteFilePlan(d, name, data, stop).writes[..k]);
            && Stable(e) && RecoverPlan(e).rc == E_OK
            && Holds(Recovered(e), Recovered(d), k >= |RecoverPlan(d).writes| + COMMIT_POINT, name, data)
  {
    hide RecoverPlan, SafeJournal, Stable, Clean, Owned, Contents, StorePlan, SuperOk, Apply;
    var p := WriteFilePlan(d, name, data, stop);
    var rec := RecoverPlan(d).writes;
    RecoveredEmpty(d);
    if !ValidName(name) || |data| > BLOCK_SIZE {
      assert p.writes[..k] == rec[..0];
      CutOnce(d, 0);
    } else {
      SuperIsOk(Recovered(d));
      var r := Recovered(d);
      var store := StorePlan(r, name, data, stop).writes;
      assert p.writes == rec + store;
      if k <= |rec| {
        assert p.writes[..k] == rec[..k];
        CutOnce(d, k);
      } else {
        var j := k - |rec|;
        assert p.writes[..k] == rec + store[..j];
        StoreCut(r, name, data, stop, j);
        ApplyConcat(d, rec, store[..j]);
        SafeIsStable(Apply(r, store[..j]));
      }
    }
  }

  lemma WriteFileCut(d: Disk, m: map<Name, seq<uint8>>, name: Name, data: seq<uint8>, stop: bool, k: nat)
    requires |d| == MAX_BLOCKS && Represents(d, m) && k <= |WriteFilePlan(d, name, data, stop).writes|
    ensures var ws := WriteFilePlan(d, name, data, stop).writes;
            Represents(Apply(d, ws[..k]), if k >= |RecoverPlan(d).writes| + COMMIT_POINT then m[name := data] else m)
  {
    hide RecoverPlan, Stable, Clean, Owned, Contents, WriteFilePlan, Apply, Recovered;
    WriteFileCrash(d, name, data, stop, k);
  }

  /** One event: the crash leaves the old files or the old files plus the new one, never anything else. */
  lemma EventRepresents(d: Disk, m: map<Name, seq<uint8>>, ev: Event)
    requires |d| == MAX_BLOCKS && Represents(d, m)
    ensures Represents(After(d, ev), ModelAfter(m, d, ev))
  {
    hide Represents, WriteFilePlan, RecoverPlan;
    var k := Allowed(ev.cut, |EventWrites(d, ev)|);
    match ev {
      case WriteFile(name, data, stop, _) => WriteFileCut(d, m, name, data, stop, k);
      case Mount(_) => MountCut(d, m, k);
    }
  }

  function Exec(d: Disk, evs: seq<Event>): (e: Disk)
    requires |d| == MAX_BLOCKS
    ensures |e| == MAX_BLOCKS
    decreases |evs|
  {
    if evs == [] then d else Exec(After(d, evs[0]), evs[1..])
  }

  function ModelExec(m: map<Name, seq<uint8>>, d: Disk, evs: seq<Event>): (r: map<Name, seq<uint8>>)
    requires |d| == MAX_BLOCKS
    decreases |evs|
  {
    if evs == [] then m else ModelExec(ModelAfter(m, d, evs[0]), After(d, evs[0]), evs[1..])
  }

  /** Any run of writes, crashes and recoveries. */
  lemma {:induction false} RunRepresents(d: Disk, m: map<Name, seq<uint8>>, evs: seq<Event>)
    requires |d| == MAX_BLOCKS && Represents(d, m)
    ensures Represents(Exec(d, evs), ModelExec(m, d, evs))
    decreases |evs|
  {
    hide Represents, ModelAfter, EventWrites, After;
    if evs != [] {
      EventRepresents(d, m, evs[0]);
      RunRepresents(After(d, evs[0]), ModelAfter(m, d, evs[0]), evs[1..]);
    }
  }

  /** A write the power lets finish is durable exactly when it returns OK, and OK means the name was new. */
  lemma WriteFileDurable(d: Disk, m: map<Name, seq<uint8>>, name: Name, data: seq<uint8>, stop: bool)
    requires |d| == MAX_BLOCKS && Represents(d, m)
    ensures var ok := WriteFilePlan(d, name, data, stop).rc == E_OK;
            && ok == Commits(d, WriteFile(name, data, stop, -1))
            && (ok ==> name !in m && ValidName(name) && |data| <= BLOCK_SIZE)
  {
    hide RecoverPlan, Stable, Clean, Owned, Contents, StorePlan, SuperOk, Recovered;
    if ValidName(name) && |data| <= BLOCK_SIZE {
      SuperIsOk(Recovered(d));
      StoreReaches(Recovered(d), name, data, stop);
    }
  }

  /** Every run from a freshly formatted disk. */
  lemma FormattedRuns(d: Disk, f: Fresh, evs: seq<Event>)
    requires |d| == MAX_BLOCKS && FreshOk(f)
    ensures var e := Apply(d, FormatWrites(f));
            Represents(Exec(e, evs), ModelExec(map[], e, evs))
  {
    hide Apply, FormatWrites, Clean, Owned, Contents, JournalEmpty, RecoverPlan, SafeJournal, Stable;
    var e := Apply(d, FormatWrites(f));
    FormatHolds(d, f);
    RecoverEmpty(e);
    EmptyStable(e);
    RunRepresents(e, map[], evs);
  }
}
