/** Bytes, little-endian words and the bitwise AND that NOR flash performs when it programs a byte. */
module Bytes {

  type byte = x: int | 0 <= x < 256

  datatype Option<+T> = None | Some(value: T)

  function Pow256(n: nat): (r: nat)
    ensures r >= 1
  {
    if n == 0 then 1 else 256 * Pow256(n - 1)
  }

  /** The `n` low-order bytes of `v`, least significant first. */
  function LeBytes(v: nat, n: nat): (s: seq<byte>)
    ensures |s| == n
  {
    if n == 0 then [] else [v % 256] + LeBytes(v / 256, n - 1)
  }

  /** The number the bytes stand for. */
  function LeVal(s: seq<byte>): nat {
    if s == [] then 0 else s[0] + 256 * LeVal(s[1..])
  }

  lemma {:induction false} LeValOfLeBytes(v: nat, n: nat)
    requires v < Pow256(n)
    ensures LeVal(LeBytes(v, n)) == v
  {
    if n > 0 {
      LeValOfLeBytes(v / 256, n - 1);
      assert LeBytes(v, n)[1..] == LeBytes(v / 256, n - 1);
    }
  }

  lemma {:induction false} LeBytesOfLeVal(s: seq<byte>)
    ensures LeVal(s) < Pow256(|s|)
    ensures LeBytes(LeVal(s), |s|) == s
  {
    if s != [] {
      LeBytesOfLeVal(s[1..]);
      assert LeVal(s) / 256 == LeVal(s[1..]) && LeVal(s) % 256 == s[0];
      assert s == [s[0]] + s[1..];
    }
  }

  /** So a word field reads as `v` exactly when it holds the bytes of `v`. */
  lemma WordIs(s: seq<byte>, v: nat)
    requires v < Pow256(|s|)
    ensures LeVal(s) == v <==> s == LeBytes(v, |s|)
  {
    LeBytesOfLeVal(s);
    LeValOfLeBytes(v, |s|);
  }

  /** A word is at least its most significant byte shifted into place. */
  lemma {:induction false} LeValTopByte(s: seq<byte>)
    requires s != []
    ensures LeVal(s) >= s[|s| - 1] * Pow256(|s| - 1)
  {
    if |s| == 1 {
      assert s[1..] == [];
    } else {
      LeValTopByte(s[1..]);
      var top, p := s[|s| - 1], Pow256(|s| - 2);
      assert 256 * (top * p) == top * (256 * p);
    }
  }

  /** A value that fits one byte less has a zero top byte. */
  lemma {:induction false} LeBytesTopZero(v: nat, n: nat)
    requires n > 0 && v < Pow256(n - 1)
    ensures LeBytes(v, n)[n - 1] == 0
  {
    if n > 1 { LeBytesTopZero(v / 256, n - 1); }
  }

  lemma SliceOfSlice(m: seq<byte>, base: nat, size: nat, off: nat, len: nat)
    requires base + size <= |m| && off + len <= size
    ensures m[base..base + size][off..off + len] == m[base + off..base + off + len]
  {
    var a, b := m[base..base + size][off..off + len], m[base + off..base + off + len];
    forall i | 0 <= i < len
      ensures a[i] == b[i]
    {
      assert a[i] == m[base..base + size][off + i];
    }
  }

  /** Bitwise AND of the low `n` bits. */
  function AndBits(n: nat, a: nat, b: nat): nat {
    if n == 0 then 0 else (a % 2) * (b % 2) + 2 * AndBits(n - 1, a / 2, b / 2)
  }

  function Pow2(n: nat): (r: nat)
    ensures r >= 1
  {
    if n == 0 then 1 else 2 * Pow2(n - 1)
  }

  lemma {:induction false} AndBitsBound(n: nat, a: nat, b: nat)
    ensures AndBits(n, a, b) < Pow2(n)
    ensures AndBits(n, a, b) <= b
  {
    if n > 0 { AndBitsBound(n - 1, a / 2, b / 2); }
  }

  /** All-ones is neutral for AND. */
  lemma {:induction false} AndBitsOnes(n: nat, b: nat)
    requires b < Pow2(n)
    ensures AndBits(n, Pow2(n) - 1, b) == b
  {
    if n > 0 {
      var half := Pow2(n - 1) - 1;
      assert Pow2(n) - 1 == 2 * half + 1;
      AndBitsOnes(n - 1, b / 2);
      assert AndBits(n, 2 * half + 1, b) == b % 2 + 2 * AndBits(n - 1, half, b / 2);
    }
  }

  /** Bit `i` of `x`. */
  function Bit(x: nat, i: nat): nat {
    if i == 0 then x % 2 else Bit(x / 2, i - 1)
  }

  /** Bit for bit, the AND is the product. */
  lemma {:induction false} AndBitsAt(n: nat, a: nat, b: nat, i: nat)
    requires i < n
    ensures Bit(AndBits(n, a, b), i) == Bit(a, i) * Bit(b, i)
  {
    var rest := AndBits(n - 1, a / 2, b / 2);
    var low := (a % 2) * (b % 2);
    assert low == 0 || low == 1;
    assert (low + 2 * rest) % 2 == low && (low + 2 * rest) / 2 == rest;
    if i > 0 { AndBitsAt(n - 1, a / 2, b / 2, i - 1); }
  }

  function And(a: byte, b: byte): byte {
    AndBitsBound(8, a, b);
    AndBits(8, a, b)
  }

  /** Programming an erased byte stores the value; programming zero clears whatever was there. */
  lemma AndErased(b: byte)
    ensures And(255, b) == b
    ensures And(b, 0) == 0
  {
    assert Pow2(8) == 256 by {
      assert Pow2(4) == 16;
    }
    AndBitsOnes(8, b);
    AndBitsBound(8, b, 0);
  }
}
