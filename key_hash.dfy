/**
  Paul Hsieh's SuperFastHash as the cache computes it over an entry key:
  4-byte groups, a 0-3 byte tail, then a fixed avalanche. Values are
  unbounded integers and every update is reduced modulo 2^32, as the
  Python source does with `& 0xffffffff`.
*/
module KeyHash {
  import opened Bytes

  const MOD32: int := 0x1_0000_0000

  /** `x & 0xffffffff`: `x` with every bit above bit 31 cleared, i.e. reduced modulo 2^32. */
  function Mask(x: nat): u32
  {
    if x < MOD32 then x else Mask(x - MOD32)
  }

  /** Clearing the high bits is reduction modulo 2^32. */
  lemma {:induction false} MaskIsMod(x: nat)
    ensures Mask(x) == x % MOD32
    decreases x
  {
    if x >= MOD32 {
      MaskIsMod(x - MOD32);
    }
  }

  /** `a ^ b` on non-negative integers, bit by bit from the lowest. */
  function Xor(a: nat, b: nat): nat
    decreases a + b
  {
    if a == 0 then b
    else if b == 0 then a
    else 2 * Xor(a / 2, b / 2) + (a % 2 + b % 2) % 2
  }

  /**
    Xor never sets a bit at or above `k` when neither operand has one; this is
    why the source does not mask after `^`.
  */
  lemma {:induction false} XorBound(a: nat, b: nat, k: nat)
    requires a < Pow2(k) && b < Pow2(k)
    ensures Xor(a, b) < Pow2(k)
    decreases a + b
  {
    if a != 0 && b != 0 {
      XorBound(a / 2, b / 2, k - 1);
    }
  }

  /** 2^32 as Pow2 counts it. */
  lemma Pow2Is32()
    ensures Pow2(32) == MOD32
  {
    assert Pow2(4) == 16;
    assert Pow2(8) == 0x100;
    assert Pow2(12) == 0x1000;
    assert Pow2(16) == 0x1_0000;
    assert Pow2(20) == 0x10_0000;
    assert Pow2(24) == 0x100_0000;
    assert Pow2(28) == 0x1000_0000;
  }

  /**
    `^` of two 32-bit values is again a 32-bit value. Every `^` in the source
    combines a masked shift with a masked state, and its result is not
    masked, so this is what keeps the state within 32 bits.
  */
  lemma XorOfWords(a: nat, b: nat)
    requires a < MOD32 && b < MOD32
    ensures Xor(a, b) < MOD32
  {
    Pow2Is32();
    XorBound(a, b, 32);
  }

  /** Two key bytes read little-endian, `ord(key[i]) + (ord(key[i + 1]) << 8)`. */
  function Get16(b0: byte, b1: byte): nat
  {
    b0 + Shl(b1, 8)
  }

  /** One iteration of the loop over 4-byte groups. */
  function Round(h: nat, b0: byte, b1: byte, b2: byte, b3: byte): u32
  {
    var h1 := Mask(h + Get16(b0, b1));
    var temp := Xor(Mask(Shl(Get16(b2, b3), 11)), h1);
    var h2 := Xor(Mask(Shl(h1, 16)), temp);
    Mask(h2 + Shr(h2, 11))
  }

  /** The remainder branch for the last `|rest|` (0 to 3) bytes. */
  function Tail(h: nat, rest: seq<byte>): nat
    requires |rest| < 4
  {
    if |rest| == 3 then
      var h1 := Mask(h + Get16(rest[0], rest[1]));
      var h2 := Xor(h1, Mask(Shl(h1, 16)));
      var h3 := Xor(h2, Mask(Shl(rest[2], 18)));
      Mask(h3 + Shr(h3, 11))
    else if |rest| == 2 then
      var h1 := Mask(h + Get16(rest[0], rest[1]));
      var h2 := Xor(h1, Mask(Shl(h1, 11)));
      Mask(h2 + Shr(h2, 17))
    else if |rest| == 1 then
      var h1 := Mask(h + rest[0]);
      var h2 := Xor(h1, Mask(Shl(h1, 10)));
      Mask(h2 + Shr(h2, 1))
    else
      h
  }

  /** The final "avalanching" of the bits. */
  function Avalanche(h: nat): u32
  {
    var h1 := Xor(h, Mask(Shl(h, 3)));
    var h2 := Mask(h1 + Shr(h1, 5));
    var h3 := Xor(h2, Mask(Shl(h2, 4)));
    var h4 := Mask(h3 + Shr(h3, 17));
    var h5 := Xor(h4, Mask(Shl(h4, 25)));
    Mask(h5 + Shr(h5, 6))
  }

  /** The key read front to back: a group of four while four bytes remain, then the tail. */
  function Mix(h: nat, s: seq<byte>): nat
    decreases |s|
  {
    if |s| >= 4 then Mix(Round(h, s[0], s[1], s[2], s[3]), s[4..]) else Tail(h, s)
  }

  /** The state after the loop has consumed the first `g` whole groups of `s`. */
  function Groups(h: nat, s: seq<byte>, g: nat): nat
    requires 4 * g <= |s|
  {
    if g == 0 then h
    else Round(Groups(h, s, g - 1), s[4 * g - 4], s[4 * g - 3], s[4 * g - 2], s[4 * g - 1])
  }

  /**
    The hash as the source computes it: 0 for the empty key; otherwise the
    length (masked) as the seed, every whole group in order, the remainder
    branch on the last `|key| % 4` bytes, and the avalanche.
  */
  function Hash(key: seq<byte>): (r: nat)
    ensures key == [] ==> r == 0
    ensures r < MOD32
  {
    if key == [] then 0
    else
      var n := |key| / 4;
      Avalanche(Tail(Groups(Mask(|key|), key, n), key[4 * n..]))
  }

  /** Consuming g + 1 groups is one Round on the first group, then g groups of the rest. */
  lemma {:induction false} GroupsShift(h: nat, s: seq<byte>, g: nat)
    requires 4 * (g + 1) <= |s|
    ensures Groups(h, s, g + 1) == Groups(Round(h, s[0], s[1], s[2], s[3]), s[4..], g)
  {
    if g > 0 {
      GroupsShift(h, s, g - 1);
    }
  }

  /**
    Folding whole groups with the loop and then handling the left-over bytes
    is the same as reading the key front to back.
  */
  lemma {:induction false} MixIsGroupsThenTail(h: nat, s: seq<byte>)
    ensures Mix(h, s) == Tail(Groups(h, s, |s| / 4), s[4 * (|s| / 4)..])
    decreases |s|
  {
    if |s| >= 4 {
      var t := s[4..];
      var h' := Round(h, s[0], s[1], s[2], s[3]);
      MixIsGroupsThenTail(h', t);
      assert |s| / 4 == |t| / 4 + 1;
      GroupsShift(h, s, |t| / 4);
      assert s[4 * (|s| / 4)..] == t[4 * (|t| / 4)..];
    }
  }

  /** Hash reads the key front to back, four bytes at a time, as Mix does. */
  lemma HashIsFrontToBack(key: seq<byte>)
    requires key != []
    ensures Hash(key) == Avalanche(Mix(Mask(|key|), key))
  {
    MixIsGroupsThenTail(Mask(|key|), key);
  }

  /**
    `SuperFastHash(key)`: the loop over whole 4-byte groups (each iteration
    is Round), the remainder branch for the last 0-3 bytes (Tail), then the
    avalanche.
  */
  method SuperFastHash(key: seq<byte>) returns (hashValue: nat)
    ensures hashValue == Hash(key)
    ensures hashValue < MOD32
  {
    if |key| == 0 {
      return 0;
    }
    var keyLength := |key|;
    var h: nat := Mask(keyLength);
    var remainder := keyLength % 4;
    keyLength := keyLength - remainder;

    ghost var groups := |key| / 4;
    assert keyLength == 4 * groups;
    var keyIndex := 0;
    ghost var g := 0;
    while keyIndex < keyLength
      invariant keyIndex == 4 * g && g <= groups
      invariant h == Groups(Mask(|key|), key, g)
    {
      h := Round(h, key[keyIndex], key[keyIndex + 1], key[keyIndex + 2], key[keyIndex + 3]);
      keyIndex := keyIndex + 4;
      g := g + 1;
    }

    keyIndex := keyLength;
    h := Tail(h, key[keyIndex..]);
    hashValue := Avalanche(h);
  }
}
