/** The block layer of `kernel/block/block.c`: the array of cache slots and the registered devices. */
module BlockLayer {
  import opened Bytes
  import opened BlockCache

  class Layer {
    const cache: array<Entry>
    var devs: seq<Dev>

    ghost predicate Valid()
      reads this
    {
      cache.Length == ENTRIES && |devs| <= MAX_DEVICES
    }

    ghost function Abs(): (r: State)
      reads this, cache
    {
      State(cache[..], devs)
    }

    /** `blk_init`: all slots unused, no devices. */
    constructor ()
      ensures Valid() && fresh(cache) && devs == [] && forall i :: 0 <= i < ENTRIES ==> !cache[i].valid
    {
      cache := new Entry[ENTRIES](_ => Entry(false, false, 0, 0, ZeroBlock));
      devs := [];
    }

    /** `blk_register_device`: the devices are numbered in the order in which they come, up to sixteen of them. */
    method Register(dev: Dev) returns (rc: int)
      requires Valid()
      modifies this`devs
      ensures Valid()
      ensures if |old(devs)| < MAX_DEVICES then rc == OK && devs == old(devs) + [dev]
              else rc == INVALID_DEV && devs == old(devs)
    {
      if |devs| >= MAX_DEVICES {
        return INVALID_DEV;
      }
      devs := devs + [dev];
      rc := OK;
    }

    /** `blk_cache_lookup`; the number of slots stands for no slot. */
    method LookupSlot(d: nat, l: nat) returns (i: nat)
      requires Valid()
      ensures i == Lookup(cache[..], d, l)
    {
      i := 0;
      while i < ENTRIES
        invariant i <= ENTRIES && Lookup(cache[..], d, l) == Lookup(cache[..], d, l, i)
      {
        if cache[i].valid && cache[i].dev == d && cache[i].lba == l {
          return;
        }
        i := i + 1;
      }
    }

    /** `blk_cache_find_empty`. */
    method EmptySlot() returns (i: nat)
      requires Valid()
      ensures i == FindEmpty(cache[..])
    {
      i := 0;
      while i < ENTRIES
        invariant i <= ENTRIES && FindEmpty(cache[..]) == FindEmpty(cache[..], i)
      {
        if !cache[i].valid {
          return;
        }
        i := i + 1;
      }
    }

    /** The driver's write, on a registered device. */
    method DriveWrite(d: nat, l: nat, b: Block) returns (rc: int)
      requires Valid() && d < |devs|
      modifies this`devs
      ensures Valid() && devs == old(devs)[d := DriverWrite(old(devs)[d], l, b).0]
      ensures rc == DriverWrite(old(devs)[d], l, b).1
    {
      var dev := devs[d];
      if l >= |dev.blocks| {
        return INVALID_LBA;
      }
      devs := devs[d := Called(dev)];
      if Fails(dev) {
        return DRIVER_FAIL;
      }
      devs := devs[d := Called(dev).(blocks := dev.blocks[l := b])];
      rc := OK;
    }

    /** `blk_read`. */
    method ReadBlock(d: nat, l: nat) returns (rc: int, b: Option<Block>)
      requires Valid()
      modifies this`devs, cache
      ensures Valid() && (Abs(), rc, b) == Read(old(Abs()), d, l)
    {
      if d >= |devs| {
        return INVALID_DEV, None;
      }
      if l >= |devs[d].blocks| {
        return INVALID_LBA, None;
      }
      var i := LookupSlot(d, l);
      if i < ENTRIES {
        return OK, Some(cache[i].data);
      }
      var dev := devs[d];
      devs := devs[d := Called(dev)];
      if Fails(dev) {
        return DRIVER_FAIL, None;
      }
      var data := dev.blocks[l];
      var e := EmptySlot();
      if e < ENTRIES {
        cache[e] := Entry(true, false, d, l, data);
      }
      return OK, Some(data);
    }

    /** `blk_write`. */
    method WriteBlock(d: nat, l: nat, b: Block) returns (rc: int)
      requires Valid()
      modifies cache
      ensures (Abs(), rc) == Write(old(Abs()), d, l, b)
    {
      if d >= |devs| {
        return INVALID_DEV;
      }
      if l >= |devs[d].blocks| {
        return INVALID_LBA;
      }
      var i := LookupSlot(d, l);
      if i == ENTRIES {
        i := EmptySlot();
      }
      if i < ENTRIES {
        cache[i] := Entry(true, true, d, l, b);
      }
      rc := OK;
    }

    /** The body of both flush loops: one slot is written back. */
    method WriteBackSlot(i: nat) returns (ok: bool)
      requires Valid() && i < ENTRIES && cache[i].dev < |devs|
      modifies this`devs, cache
      ensures Valid() && |devs| == |old(devs)| && (Abs(), ok) == WriteBack(old(Abs()), i)
    {
      var e := cache[i];
      var rc := DriveWrite(e.dev, e.lba, e.data);
      if rc != OK {
        return false;
      }
      cache[i] := e.(dirty := false);
      ok := true;
    }

    /** `blk_flush`; the RAM driver's own flush does nothing and returns OK. */
    method FlushDevice(d: nat) returns (rc: int)
      requires Valid()
      modifies this`devs, cache
      ensures Valid() && (Abs(), rc) == Flush(old(Abs()), d)
    {
      hide WriteBack;
      if d >= |devs| {
        return INVALID_DEV;
      }
      var i := 0;
      while i < ENTRIES
        invariant i <= ENTRIES && Valid() && d < |devs|
        invariant FlushFrom(old(Abs()), d, 0) == FlushFrom(Abs(), d, i)
      {
        if cache[i].valid && cache[i].dev == d && cache[i].dirty {
          var ok := WriteBackSlot(i);
          if !ok {
            return DRIVER_FAIL;
          }
        }
        i := i + 1;
      }
      rc := OK;
    }

    /** `blk_cache_flush_all`. */
    method FlushEverything() returns (rc: int)
      requires Valid()
      modifies this`devs, cache
      ensures Valid() && (Abs(), rc) == FlushAll(old(Abs()))
    {
      hide WriteBack;
      rc := OK;
      var i := 0;
      while i < ENTRIES
        invariant i <= ENTRIES && Valid()
        invariant FlushAllFrom(old(Abs()), OK, 0) == FlushAllFrom(Abs(), rc, i)
      {
        if cache[i].valid && cache[i].dirty {
          if cache[i].dev >= |devs| {
            rc := DRIVER_FAIL;
          } else {
            var ok := WriteBackSlot(i);
            if !ok {
              rc := DRIVER_FAIL;
            }
          }
        }
        i := i + 1;
      }
    }
  }
}
