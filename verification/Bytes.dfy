/** Byte buffers: little-endian field access, bit access and the splice laws both file systems rest on. */
module Bytes {

  newtype uint8 = x: int | 0 <= x < 256

  type uint32 = x: int | 0 <= x < 0x1_0000_0000

  type uint64 = x: int | 0 <= x < 0x1_0000_0000_0000_0000

  const BLOCK_SIZE := 512

  type Block = b: seq<uint8> | |b| == BLOCK_SIZE witness seq(BLOCK_SIZE, _ => 0)

  function Zeros(n: nat): (z: seq<uint8>)
    ensures |z| == n && forall i :: 0 <= i < n ==> z[i] == 0
  {
    seq(n, _ => 0)
  }

  const ZeroBlock: Block := Zeros(BLOCK_SIZE)

  datatype Option<T> = None | Some(value: T)

  /** A C string without its terminator. */
  type Name = n: seq<uint8> | 0 !in n witness []

  /** The ranges [o, o + n) and [p, p + m) do not meet. */
  predicate Apart(o: int, n: int, p: int, m: int) {
    o + n <= p || p + m <= o
  }

  // ----- splicing -----

  /** `b` with the bytes at `off` overwritten by `s` (a memcpy into the middle of a buffer). */
  function Splice(b: seq<uint8>, off: nat, s: seq<uint8>): (r: seq<uint8>)
    requires off + |s| <= |b|
    ensures |r| == |b|
  {
    b[..off] + s + b[off + |s|..]
  }

  lemma SpliceSame(b: seq<uint8>, off: nat, s: seq<uint8>)
    requires off + |s| <= |b|
    ensures Splice(b, off, s)[off..off + |s|] == s
  {
  }

  lemma SpliceApart(b: seq<uint8>, off: nat, s: seq<uint8>, o: nat, n: nat)
    requires off + |s| <= |b| && o + n <= |b|
    requires Apart(o, n, off, |s|)
    ensures Splice(b, off, s)[o..o + n] == b[o..o + n]
  {
    var r := Splice(b, off, s);
    assert forall i :: o <= i < o + n ==> r[i] == b[i];
  }

  lemma SpliceTwice(b: seq<uint8>, off: nat, s: seq<uint8>, t: seq<uint8>)
    requires |s| == |t| && off + |s| <= |b|
    ensures Splice(Splice(b, off, s), off, t) == Splice(b, off, t)
  {
    assert Splice(Splice(b, off, s), off, t) == Splice(b, off, t);
  }

  // ----- little-endian words -----

  function Enc16(v: int): (s: seq<uint8>)
    requires 0 <= v < 0x1_0000
    ensures |s| == 2
  {
    [(v % 256) as uint8, (v / 256) as uint8]
  }

  function Enc32(v: uint32): (s: seq<uint8>)
    ensures |s| == 4
  {
    Enc16(v % 0x1_0000) + Enc16(v / 0x1_0000)
  }

  function Enc64(v: uint64): (s: seq<uint8>)
    ensures |s| == 8
  {
    Enc32(v % 0x1_0000_0000) + Enc32(v / 0x1_0000_0000)
  }

  function Get16(b: seq<uint8>, off: nat): (v: int)
    requires off + 2 <= |b|
    ensures 0 <= v < 0x1_0000
  {
    b[off] as int + 256 * b[off + 1] as int
  }

  function Get32(b: seq<uint8>, off: nat): (v: uint32)
    requires off + 4 <= |b|
  {
    Get16(b, off) + 0x1_0000 * Get16(b, off + 2)
  }

  function Get64(b: seq<uint8>, off: nat): (v: uint64)
    requires off + 8 <= |b|
  {
    Get32(b, off) + 0x1_0000_0000 * Get32(b, off + 4)
  }

  function Put16(b: seq<uint8>, off: nat, v: int): (r: seq<uint8>)
    requires off + 2 <= |b| && 0 <= v < 0x1_0000
    ensures |r| == |b|
    ensures Get16(r, off) == v
    ensures forall o {:trigger Get16(r, o)} :: 0 <= o && o + 2 <= |b| && Apart(o, 2, off, 2) ==> Get16(r, o) == Get16(b, o)
    ensures forall o {:trigger Get32(r, o)} :: 0 <= o && o + 4 <= |b| && Apart(o, 4, off, 2) ==> Get32(r, o) == Get32(b, o)
  {
    Splice(b, off, Enc16(v))
  }

  function Put32(b: seq<uint8>, off: nat, v: uint32): (r: seq<uint8>)
    requires off + 4 <= |b|
    ensures |r| == |b|
    ensures Get32(r, off) == v
    ensures forall o {:trigger Get16(r, o)} :: 0 <= o && o + 2 <= |b| && Apart(o, 2, off, 4) ==> Get16(r, o) == Get16(b, o)
    ensures forall o {:trigger Get32(r, o)} :: 0 <= o && o + 4 <= |b| && Apart(o, 4, off, 4) ==> Get32(r, o) == Get32(b, o)
    ensures forall o {:trigger Get64(r, o)} :: 0 <= o && o + 8 <= |b| && Apart(o, 8, off, 4) ==> Get64(r, o) == Get64(b, o)
  {
    Splice(b, off, Enc32(v))
  }

  function Put64(b: seq<uint8>, off: nat, v: uint64): (r: seq<uint8>)
    requires off + 8 <= |b|
    ensures |r| == |b|
    ensures Get64(r, off) == v
    ensures forall o {:trigger Get32(r, o)} :: 0 <= o && o + 4 <= |b| && Apart(o, 4, off, 8) ==> Get32(r, o) == Get32(b, o)
  {
    Splice(b, off, Enc64(v))
  }

  /** A field read depends only on the bytes of the field. */
  lemma Get32Local(b: seq<uint8>, o: nat, c: seq<uint8>, p: nat)
    requires o + 4 <= |b| && p + 4 <= |c|
    requires b[o..o + 4] == c[p..p + 4]
    ensures Get32(b, o) == Get32(c, p)
  {
    var s, t := b[o..o + 4], c[p..p + 4];
    assert s[0] == b[o] && s[1] == b[o + 1] && s[2] == b[o + 2] && s[3] == b[o + 3];
    assert t[0] == c[p] && t[1] == c[p + 1] && t[2] == c[p + 2] && t[3] == c[p + 3];
  }

  lemma Get32Apart(b: seq<uint8>, off: nat, s: seq<uint8>, o: nat)
    requires off + |s| <= |b| && o + 4 <= |b|
    requires Apart(o, 4, off, |s|)
    ensures Get32(Splice(b, off, s), o) == Get32(b, o)
  {
  }

  // ----- bits -----

  function Pow2(k: nat): (p: nat)
    ensures p > 0
  {
    if k == 0 then 1 else 2 * Pow2(k - 1)
  }

  /** Bit `k` of `b`: shift right `k` times, look at the last bit. */
  predicate Bit(b: nat, k: nat) {
    if k == 0 then b % 2 == 1 else Bit(b / 2, k - 1)
  }

  /** `b` with bit `k` forced to `on`. */
  function WithBit(b: nat, k: nat, on: bool): (r: nat) {
    if k == 0 then b / 2 * 2 + (if on then 1 else 0) else 2 * WithBit(b / 2, k - 1, on) + b % 2
  }

  lemma {:induction false} WithBitAt(b: nat, k: nat, on: bool, j: nat)
    ensures Bit(WithBit(b, k, on), j) == if j == k then on else Bit(b, j)
  {
    if j > 0 && k > 0 {
      WithBitAt(b / 2, k - 1, on, j - 1);
    }
  }

  lemma {:induction false} WithBitRange(b: nat, k: nat, on: bool, width: nat)
    requires k < width && b < Pow2(width)
    ensures WithBit(b, k, on) < Pow2(width)
  {
    if k > 0 {
      WithBitRange(b / 2, k - 1, on, width - 1);
    }
  }

  /** Bitwise exclusive or of the low `width` bits. */
  function Xor(a: nat, b: nat, width: nat): (r: nat)
    ensures r < Pow2(width)
  {
    if width == 0 then 0 else 2 * Xor(a / 2, b / 2, width - 1) + (a + b) % 2
  }

  predicate GetBit(bm: seq<uint8>, i: nat)
    requires i < 8 * |bm|
  {
    Bit(bm[i / 8] as int, i % 8)
  }

  /** Bitmap update: sets or clears bit `i` and touches no other bit. */
  function PutBit(bm: seq<uint8>, i: nat, on: bool): (r: seq<uint8>)
    requires i < 8 * |bm|
    ensures |r| == |bm|
    ensures forall j :: 0 <= j < 8 * |bm| ==> GetBit(r, j) == if j == i then on else GetBit(bm, j)
  {
    assert Pow2(8) == 256;
    WithBitRange(bm[i / 8] as int, i % 8, on, 8);
    var r := bm[i / 8 := WithBit(bm[i / 8] as int, i % 8, on) as uint8];
    assert forall j :: 0 <= j < 8 * |bm| ==> GetBit(r, j) == if j == i then on else GetBit(bm, j) by {
      forall j | 0 <= j < 8 * |bm|
        ensures GetBit(r, j) == if j == i then on else GetBit(bm, j)
      {
        WithBitAt(bm[i / 8] as int, i % 8, on, j % 8);
      }
    }
    r
  }

  /** The bitmap search: the first clear bit at or after `lo`, or `hi`. */
  function FirstClear(bm: Block, lo: nat, hi: nat): (r: nat)
    requires lo <= hi <= 8 * BLOCK_SIZE
    ensures lo <= r <= hi
    ensures forall j :: lo <= j < r ==> GetBit(bm, j)
    ensures r < hi ==> !GetBit(bm, r)
    decreases hi - lo
  {
    if lo == hi || !GetBit(bm, lo) then lo else FirstClear(bm, lo + 1, hi)
  }
}
