/**
  Unsigned little-endian fields over byte sequences (what the `construct`
  ULInt16/ULInt32/ULInt64 parsers compute), their encoders, and the
  semantics of a positioned read on a file that is held as its bytes.
*/
module Bytes {

  type byte = x: int | 0 <= x < 0x100
  type u16 = x: int | 0 <= x < 0x1_0000
  type u32 = x: int | 0 <= x < 0x1_0000_0000
  type u64 = x: int | 0 <= x < 0x1_0000_0000_0000_0000

  /**
    The bytes a file object returns for `read(n)` when its cursor is at `pos`:
    at most `n` bytes, fewer only when the end of the file is reached.
  */
  function ReadAt(data: seq<byte>, pos: nat, n: nat): (r: seq<byte>)
    ensures |r| == if pos + n <= |data| then n else if pos <= |data| then |data| - pos else 0
    ensures forall i :: 0 <= i < |r| ==> pos + i < |data| && r[i] == data[pos + i]
  {
    if |data| <= pos then []
    else if pos + n <= |data| then data[pos..pos + n]
    else data[pos..]
  }

  function U16(s: seq<byte>, off: nat): u16
    requires off + 2 <= |s|
  {
    s[off] as int + 0x100 * (s[off + 1] as int)
  }

  function U32(s: seq<byte>, off: nat): u32
    requires off + 4 <= |s|
  {
    U16(s, off) + 0x1_0000 * U16(s, off + 2)
  }

  function U64(s: seq<byte>, off: nat): u64
    requires off + 8 <= |s|
  {
    U32(s, off) + 0x1_0000_0000 * U32(s, off + 4)
  }

  /** `construct.Array(n, ULInt32)` at `off`. */
  function U32Array(s: seq<byte>, off: nat, n: nat): seq<u32>
    requires off + 4 * n <= |s|
  {
    seq(n, i requires 0 <= i < n => U32(s, off + 4 * i))
  }

  function EncodeU16(v: u16): (r: seq<byte>)
    ensures |r| == 2
  {
    [v % 0x100, v / 0x100]
  }

  function EncodeU32(v: u32): (r: seq<byte>)
    ensures |r| == 4
  {
    EncodeU16(v % 0x1_0000) + EncodeU16(v / 0x1_0000)
  }

  function EncodeU64(v: u64): (r: seq<byte>)
    ensures |r| == 8
  {
    EncodeU32(v % 0x1_0000_0000) + EncodeU32(v / 0x1_0000_0000)
  }

  function EncodeU32Array(ws: seq<u32>): (r: seq<byte>)
    ensures |r| == 4 * |ws|
  {
    if ws == [] then [] else EncodeU32(ws[0]) + EncodeU32Array(ws[1..])
  }

  /** A field read only looks at its own bytes. */
  lemma U32Local(s: seq<byte>, off: nat, t: seq<byte>, off': nat)
    requires off + 4 <= |s| && off' + 4 <= |t|
    requires s[off..off + 4] == t[off'..off' + 4]
    ensures U32(s, off) == U32(t, off')
  {
    assert s[off] == s[off..off + 4][0] && s[off + 1] == s[off..off + 4][1];
    assert s[off + 2] == s[off..off + 4][2] && s[off + 3] == s[off..off + 4][3];
    assert t[off'] == t[off'..off' + 4][0] && t[off' + 1] == t[off'..off' + 4][1];
    assert t[off' + 2] == t[off'..off' + 4][2] && t[off' + 3] == t[off'..off' + 4][3];
  }

  lemma U16Local(s: seq<byte>, off: nat, t: seq<byte>, off': nat)
    requires off + 2 <= |s| && off' + 2 <= |t|
    requires s[off..off + 2] == t[off'..off' + 2]
    ensures U16(s, off) == U16(t, off')
  {
    assert s[off] == s[off..off + 2][0] && s[off + 1] == s[off..off + 2][1];
    assert t[off'] == t[off'..off' + 2][0] && t[off' + 1] == t[off'..off' + 2][1];
  }

  lemma U64Local(s: seq<byte>, off: nat, t: seq<byte>, off': nat)
    requires off + 8 <= |s| && off' + 8 <= |t|
    requires s[off..off + 8] == t[off'..off' + 8]
    ensures U64(s, off) == U64(t, off')
  {
    assert s[off..off + 4] == s[off..off + 8][..4] && t[off'..off' + 4] == t[off'..off' + 8][..4];
    assert s[off + 4..off + 8] == s[off..off + 8][4..] && t[off' + 4..off' + 8] == t[off'..off' + 8][4..];
    U32Local(s, off, t, off');
    U32Local(s, off + 4, t, off' + 4);
  }

  /** Reading a field back from its encoding gives the value that was encoded. */
  lemma U32OfEncoding(v: u32)
    ensures U32(EncodeU32(v), 0) == v
  {
  }

  lemma U16OfEncoding(v: u16)
    ensures U16(EncodeU16(v), 0) == v
  {
  }

  lemma U64OfEncoding(v: u64)
    ensures U64(EncodeU64(v), 0) == v
  {
    var lo, hi := v % 0x1_0000_0000, v / 0x1_0000_0000;
    var e := EncodeU64(v);
    U32OfEncoding(lo);
    U32OfEncoding(hi);
    U32Local(e, 0, EncodeU32(lo), 0);
    U32Local(e, 4, EncodeU32(hi), 0);
  }

  /** An encoded field sitting at offset |pre| of a larger buffer is read back exactly. */
  lemma U32At(pre: seq<byte>, v: u32, post: seq<byte>)
    ensures U32(pre + EncodeU32(v) + post, |pre|) == v
  {
    var s := pre + EncodeU32(v) + post;
    assert s[|pre|..|pre| + 4] == EncodeU32(v)[0..4];
    U32Local(s, |pre|, EncodeU32(v), 0);
    U32OfEncoding(v);
  }

  lemma U16At(pre: seq<byte>, v: u16, post: seq<byte>)
    ensures U16(pre + EncodeU16(v) + post, |pre|) == v
  {
    var s := pre + EncodeU16(v) + post;
    assert s[|pre|..|pre| + 2] == EncodeU16(v)[0..2];
    U16Local(s, |pre|, EncodeU16(v), 0);
    U16OfEncoding(v);
  }

  lemma U64At(pre: seq<byte>, v: u64, post: seq<byte>)
    ensures U64(pre + EncodeU64(v) + post, |pre|) == v
  {
    var s := pre + EncodeU64(v) + post;
    assert s[|pre|..|pre| + 8] == EncodeU64(v)[0..8];
    U64Local(s, |pre|, EncodeU64(v), 0);
    U64OfEncoding(v);
  }

  /** Round trip for word arrays (the LRU lists, the allocation bitmap, the stream tables). */
  lemma {:induction false} U32ArrayAt(pre: seq<byte>, ws: seq<u32>, post: seq<byte>)
    ensures U32Array(pre + EncodeU32Array(ws) + post, |pre|, |ws|) == ws
    decreases |ws|
  {
    if ws != [] {
      var s := pre + EncodeU32Array(ws) + post;
      assert s == pre + EncodeU32(ws[0]) + (EncodeU32Array(ws[1..]) + post);
      U32At(pre, ws[0], EncodeU32Array(ws[1..]) + post);
      assert s == (pre + EncodeU32(ws[0])) + EncodeU32Array(ws[1..]) + post;
      U32ArrayAt(pre + EncodeU32(ws[0]), ws[1..], post);
      U32ArrayCons(s, |pre|, |ws|);
      assert ws == [ws[0]] + ws[1..];
    }
  }

  /** A word array is its first word followed by the array of the words after it. */
  lemma U32ArrayCons(s: seq<byte>, off: nat, n: nat)
    requires 0 < n && off + 4 * n <= |s|
    ensures U32Array(s, off, n) == [U32(s, off)] + U32Array(s, off + 4, n - 1)
  {
    var r, t := U32Array(s, off, n), U32Array(s, off + 4, n - 1);
    forall i | 1 <= i < n ensures r[i] == t[i - 1] {
      assert off + 4 + 4 * (i - 1) == off + 4 * i;
    }
  }

  lemma Split3(s: seq<byte>, off: nat, k: nat)
    requires off + k <= |s|
    ensures s == s[..off] + s[off..off + k] + s[off + k..]
  {
  }

  /** Whatever surrounds them, bytes that encode a field are read back as that field. */
  lemma U16In(s: seq<byte>, off: nat, v: u16)
    requires off + 2 <= |s| && s[off..off + 2] == EncodeU16(v)
    ensures U16(s, off) == v
  {
    Split3(s, off, 2);
    U16At(s[..off], v, s[off + 2..]);
  }

  lemma U32In(s: seq<byte>, off: nat, v: u32)
    requires off + 4 <= |s| && s[off..off + 4] == EncodeU32(v)
    ensures U32(s, off) == v
  {
    Split3(s, off, 4);
    U32At(s[..off], v, s[off + 4..]);
  }

  lemma U64In(s: seq<byte>, off: nat, v: u64)
    requires off + 8 <= |s| && s[off..off + 8] == EncodeU64(v)
    ensures U64(s, off) == v
  {
    Split3(s, off, 8);
    U64At(s[..off], v, s[off + 8..]);
  }

  lemma U32ArrayIn(s: seq<byte>, off: nat, ws: seq<u32>)
    requires off + 4 * |ws| <= |s| && s[off..off + 4 * |ws|] == EncodeU32Array(ws)
    ensures U32Array(s, off, |ws|) == ws
  {
    Split3(s, off, 4 * |ws|);
    U32ArrayAt(s[..off], ws, s[off + 4 * |ws|..]);
  }

  lemma MulAtLeast(k: int, m: int)
    requires k >= 1 && m > 0
    ensures k * m >= m
  {
    assert k * m == (k - 1) * m + m;
  }

  /** Euclidean division is unique: splitting x as hi * m + lo with 0 <= lo < m recovers hi and lo. */
  lemma FieldSplit(x: int, hi: int, lo: int, m: int)
    requires 0 < m && 0 <= lo < m && x == hi * m + lo
    ensures x / m == hi && x % m == lo
  {
    var q, r := x / m, x % m;
    assert x == q * m + r;
    assert hi * m - q * m == (hi - q) * m;
    assert q * m - hi * m == (q - hi) * m;
    if hi > q { MulAtLeast(hi - q, m); }
    if hi < q { MulAtLeast(q - hi, m); }
  }

  /** 2^k */
  function Pow2(k: nat): (p: nat)
    ensures p >= 1
  {
    if k == 0 then 1 else 2 * Pow2(k - 1)
  }

  /** `a << k` on a non-negative integer: no bits are lost until a mask is applied. */
  function Shl(a: nat, k: nat): nat
  {
    if k == 0 then a else 2 * Shl(a, k - 1)
  }

  /** `a >> k` on a non-negative integer. */
  function Shr(a: nat, k: nat): nat
  {
    if k == 0 then a else Shr(a, k - 1) / 2
  }
}
