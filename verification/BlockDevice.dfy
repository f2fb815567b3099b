/**
 Block devices with fault injection, and the plan calculus: the block writes a call issues, in order.
 A crash leaves a device on which some prefix of that list has been applied.
 */
module BlockDevice {
  import opened Bytes

  type Disk = seq<Block>

  datatype Write = Write(lba: uint32, data: Block)

  /** What a call does to a device that keeps accepting writes: the writes in order, then the return code. */
  datatype Plan = Plan(writes: seq<Write>, rc: int)

  const E_OK := 0
  const E_INVAL := -1
  const E_IO := -2

  predicate InRange(ws: seq<Write>, n: nat) {
    forall i :: 0 <= i < |ws| ==> ws[i].lba < n
  }

  /** The disk after the writes have been applied in order. */
  function Apply(d: Disk, ws: seq<Write>): (r: Disk)
    requires InRange(ws, |d|)
    ensures |r| == |d|
  {
    if ws == [] then d
    else
      var w := ws[|ws| - 1];
      Apply(d, ws[..|ws| - 1])[w.lba := w.data]
  }

  lemma ApplySnoc(d: Disk, ws: seq<Write>, w: Write)
    requires InRange(ws, |d|) && w.lba < |d|
    ensures InRange(ws + [w], |d|)
    ensures Apply(d, ws + [w]) == Apply(d, ws)[w.lba := w.data]
  {
    assert (ws + [w])[..|ws|] == ws;
  }

  /** One more write of a plan. */
  lemma ApplyStep(d: Disk, ws: seq<Write>, k: nat)
    requires InRange(ws, |d|) && k < |ws|
    ensures Apply(d, ws[..k + 1]) == Apply(d, ws[..k])[ws[k].lba := ws[k].data]
  {
    assert ws[..k + 1][..k] == ws[..k];
  }

  lemma ApplyNone(d: Disk, ws: seq<Write>)
    requires ws == []
    ensures Apply(d, ws) == d
  {
  }

  /** The disks in between four writes. */
  lemma ApplyFour(d: Disk, ws: seq<Write>) returns (d1: Disk, d2: Disk, d3: Disk, d4: Disk)
    requires InRange(ws, |d|) && |ws| == 4
    ensures |d1| == |d2| == |d3| == |d4| == |d|
    ensures d1 == d[ws[0].lba := ws[0].data] && d2 == d1[ws[1].lba := ws[1].data]
    ensures d3 == d2[ws[2].lba := ws[2].data] && d4 == d3[ws[3].lba := ws[3].data]
    ensures Apply(d, ws[..0]) == d && Apply(d, ws[..1]) == d1 && Apply(d, ws[..2]) == d2
    ensures Apply(d, ws[..3]) == d3 && Apply(d, ws[..4]) == d4
  {
    ApplyNone(d, ws[..0]);
    hide Apply;
    ApplyStep(d, ws, 0);
    ApplyStep(d, ws, 1);
    ApplyStep(d, ws, 2);
    ApplyStep(d, ws, 3);
    d1, d2, d3, d4 := Apply(d, ws[..1]), Apply(d, ws[..2]), Apply(d, ws[..3]), Apply(d, ws[..4]);
  }

  lemma ApplyOne(d: Disk, w: Write)
    requires w.lba < |d|
    ensures InRange([w], |d|) && Apply(d, [w]) == d[w.lba := w.data]
  {
    assert [w][..0] == [];
  }

  lemma {:induction false} ApplyConcat(d: Disk, ws: seq<Write>, vs: seq<Write>)
    requires InRange(ws, |d|) && InRange(vs, |d|)
    ensures InRange(ws + vs, |d|)
    ensures Apply(d, ws + vs) == Apply(Apply(d, ws), vs)
  {
    if vs == [] {
      assert ws + vs == ws;
    } else {
      var n := |vs| - 1;
      assert (ws + vs)[..|ws| + n] == ws + vs[..n];
      ApplyConcat(d, ws, vs[..n]);
    }
  }

  predicate Touches(ws: seq<Write>, l: nat) {
    exists i :: 0 <= i < |ws| && ws[i].lba == l
  }

  /** What the last write to `l` stores there. */
  function Last(ws: seq<Write>, l: nat): (b: Block)
    requires Touches(ws, l)
  {
    var n := |ws| - 1;
    if ws[n].lba == l then ws[n].data else Last(ws[..n], l)
  }

  /** A block holds what the last write to it stored, or its old contents when nothing wrote to it. */
  lemma {:induction false} ApplyAt(d: Disk, ws: seq<Write>, l: nat)
    requires InRange(ws, |d|) && l < |d|
    ensures Apply(d, ws)[l] == if Touches(ws, l) then Last(ws, l) else d[l]
  {
    if ws != [] {
      var n := |ws| - 1;
      ApplyAt(d, ws[..n], l);
      assert Touches(ws, l) <==> ws[n].lba == l || Touches(ws[..n], l) by {
        if Touches(ws[..n], l) {
          var i :| 0 <= i < n && ws[..n][i].lba == l;
          assert ws[i].lba == l;
        }
        if Touches(ws, l) && ws[n].lba != l {
          var i :| 0 <= i < |ws| && ws[i].lba == l;
          assert ws[..n][i].lba == l;
        }
      }
    }
  }

  /** Redo is idempotent: a replay absorbs any earlier partial replay of the same writes. */
  lemma ApplyAbsorbs(d: Disk, ws: seq<Write>, m: nat)
    requires InRange(ws, |d|) && m <= |ws|
    ensures Apply(Apply(d, ws[..m]), ws) == Apply(d, ws)
  {
    var e := Apply(d, ws[..m]);
    forall l | 0 <= l < |d|
      ensures Apply(e, ws)[l] == Apply(d, ws)[l]
    {
      ApplyAt(e, ws, l);
      ApplyAt(d, ws, l);
      ApplyAt(d, ws[..m], l);
      if Touches(ws[..m], l) {
        var i :| 0 <= i < m && ws[..m][i].lba == l;
        assert ws[i].lba == l;
      }
    }
  }

  // ----- fault injection -----

  /** How many of `n` writes a device accepts; a negative counter never fails. */
  function Allowed(fail: int, n: nat): (k: nat)
    ensures k <= n
  {
    if fail < 0 || fail >= n then n else fail
  }

  predicate Completes(fail: int, n: nat) {
    Allowed(fail, n) == n
  }

  /** Issuing the writes one by one until one fails leaves the disk `e` and the counter `fail'`. */
  predicate Performed(d: Disk, fail: int, ws: seq<Write>, e: Disk, fail': int) {
    && InRange(ws, |d|)
    && var n := Allowed(fail, |ws|);
    && e == Apply(d, ws[..n])
    && fail' == (if fail < 0 then fail else fail - n)
  }

  /** A call that follows plan `p` on disk `d` leaves `e` and returns `rc`. */
  predicate Ran(d: Disk, fail: int, p: Plan, e: Disk, fail': int, rc: int) {
    && Performed(d, fail, p.writes, e, fail')
    && rc == if Completes(fail, |p.writes|) then p.rc else E_IO
  }

  /** First `p`, then `q` if `p` returned OK. */
  function Then(p: Plan, q: Plan): (r: Plan)
    ensures forall n {:trigger InRange(r.writes, n)} :: InRange(p.writes, n) && InRange(q.writes, n) ==> InRange(r.writes, n)
  {
    if p.rc == E_OK then Plan(p.writes + q.writes, q.rc) else p
  }

  lemma PerformedThen(d: Disk, f: int, ws: seq<Write>, e: Disk, f': int, vs: seq<Write>, g: Disk, f'': int)
    requires Performed(d, f, ws, e, f') && Completes(f, |ws|)
    requires Performed(e, f', vs, g, f'')
    ensures Performed(d, f, ws + vs, g, f'')
    ensures Completes(f, |ws + vs|) == Completes(f', |vs|)
  {
    var n := Allowed(f', |vs|);
    assert (ws + vs)[..|ws| + n] == ws + vs[..n];
    assert ws[..|ws|] == ws;
    ApplyConcat(d, ws, vs[..n]);
  }

  lemma PerformedStops(d: Disk, f: int, ws: seq<Write>, e: Disk, f': int, vs: seq<Write>)
    requires Performed(d, f, ws, e, f') && !Completes(f, |ws|)
    requires InRange(vs, |d|)
    ensures Performed(d, f, ws + vs, e, f') && !Completes(f, |ws + vs|)
  {
    assert (ws + vs)[..f] == ws[..f];
  }

  lemma RanThen(d: Disk, f: int, p: Plan, e: Disk, f': int, q: Plan, g: Disk, f'': int, rc: int)
    requires Ran(d, f, p, e, f', E_OK) && Ran(e, f', q, g, f'', rc)
    ensures Ran(d, f, Then(p, q), g, f'', rc)
    ensures e == Apply(d, p.writes)
  {
    assert p.writes[..|p.writes|] == p.writes;
    PerformedThen(d, f, p.writes, e, f', q.writes, g, f'');
  }

  lemma RanFails(d: Disk, f: int, p: Plan, e: Disk, f': int, q: Plan, rc: int)
    requires Ran(d, f, p, e, f', rc) && rc != E_OK && InRange(q.writes, |d|)
    ensures Ran(d, f, Then(p, q), e, f', rc)
  {
    if p.rc == E_OK {
      PerformedStops(d, f, p.writes, e, f', q.writes);
    }
  }

  /** The writes issued so far, on a device that held `d` with counter `fail` when the call began. */
  datatype Trace = Trace(d: Disk, fail: int, done: seq<Write>)

  /** A write failed: whatever the plan had left is never issued. */
  lemma RanCut(t: Trace, p: Plan, e: Disk, fail': int)
    requires Performed(t.d, t.fail, t.done, e, fail') && !Completes(t.fail, |t.done|)
    requires t.done <= p.writes && InRange(p.writes, |t.d|)
    ensures Ran(t.d, t.fail, p, e, fail', E_IO)
  {
    var rest := p.writes[|t.done|..];
    assert p.writes == t.done + rest;
    PerformedStops(t.d, t.fail, t.done, e, fail', rest);
  }

  lemma RanNothing(d: Disk, fail: int, rc: int)
    ensures Ran(d, fail, Plan([], rc), d, fail, rc)
  {
  }

  class Device {
    const blocks: array<Block>
    var failAfter: int
    var writes: nat

    ghost function Disk(): (d: Disk)
      reads this, blocks
    {
      blocks[..]
    }

    constructor (blockCount: nat)
      ensures fresh(blocks) && blocks.Length == blockCount
      ensures failAfter == -1 && writes == 0
      ensures forall l :: 0 <= l < blockCount ==> Disk()[l] == ZeroBlock
    {
      blocks := new Block[blockCount](_ => ZeroBlock);
      failAfter := -1;
      writes := 0;
    }

    method ReadBlock(lba: uint32) returns (rc: int, data: Block)
      ensures rc == if lba < blocks.Length then E_OK else E_INVAL
      ensures rc == E_OK ==> data == blocks[lba]
    {
      if lba < blocks.Length {
        return E_OK, blocks[lba];
      }
      return E_INVAL, ZeroBlock;
    }

    method WriteBlock(lba: uint32, data: Block) returns (rc: int)
      modifies this, blocks
      ensures lba >= blocks.Length ==> rc == E_INVAL && Disk() == old(Disk()) && failAfter == old(failAfter)
      ensures lba < blocks.Length ==>
                && rc == (if Completes(old(failAfter), 1) then E_OK else E_IO)
                && Performed(old(Disk()), old(failAfter), [Write(lba, data)], Disk(), failAfter)
      ensures Disk() == if rc == E_OK then old(Disk())[lba := data] else old(Disk())
      ensures writes == old(writes) + if rc == E_OK then 1 else 0
    {
      if lba >= blocks.Length {
        return E_INVAL;
      }
      ghost var d, w := Disk(), Write(lba, data);
      assert [w][..1] == [w] && [w][..0] == [];
      ApplyOne(d, w);
      if failAfter == 0 {
        return E_IO;
      }
      if failAfter > 0 {
        failAfter := failAfter - 1;
      }
      blocks[lba] := data;
      writes := writes + 1;
      return E_OK;
    }

    /** Every write in `t` went through and the device holds the result. */
    ghost predicate Follows(t: Trace)
      reads this, blocks
    {
      Performed(t.d, t.fail, t.done, Disk(), failAfter) && Completes(t.fail, |t.done|)
    }

    ghost function Start(): (t: Trace)
      reads this, blocks
      ensures Follows(t)
    {
      Trace(Disk(), failAfter, [])
    }

    /** `WriteBlock` inside a longer call whose earlier writes are `t`. */
    method WriteNext(lba: uint32, data: Block, ghost t: Trace) returns (rc: int, ghost t': Trace)
      requires Follows(t) && lba < blocks.Length
      modifies this, blocks
      ensures t' == t.(done := t.done + [Write(lba, data)])
      ensures Performed(t'.d, t'.fail, t'.done, Disk(), failAfter)
      ensures rc == if Completes(t'.fail, |t'.done|) then E_OK else E_IO
      ensures rc == E_OK ==> Disk() == old(Disk())[lba := data]
    {
      ghost var d, f, w := Disk(), failAfter, Write(lba, data);
      rc := WriteBlock(lba, data);
      t' := t.(done := t.done + [w]);
      PerformedThen(t.d, t.fail, t.done, d, f, [w], Disk(), failAfter);
    }
  }
}
