/** Bytes, byte strings and the integer encodings the rest of the model shares. */
module Octets {
  type Byte = x: int | 0 <= x < 256

  type Bytes = seq<Byte>

  function Zeros(n: nat): (b: Bytes)
    ensures |b| == n
  {
    seq(n, _ => 0)
  }

  type Bytes16 = b: Bytes | |b| == 16 witness Zeros(16)

  type Bytes32 = b: Bytes | |b| == 32 witness Zeros(32)

  type Bytes64 = b: Bytes | |b| == 64 witness Zeros(64)

  datatype Option<+T> = None | Some(value: T)

  datatype Result<+T, +E> = Ok(value: T) | Err(error: E)

  // ---- Text ----

  predicate IsText(s: string) {
    forall i :: 0 <= i < |s| ==> 0 < s[i] as int < 128
  }

  /** The UTF-8 bytes of an ASCII string. */
  function Utf8(s: string): (b: Bytes)
    requires IsText(s)
    ensures |b| == |s| && (forall i :: 0 <= i < |s| ==> b[i] == s[i] as int) && 0 !in b
  {
    seq(|s|, i requires 0 <= i < |s| => s[i] as int)
  }

  // ---- Powers of 256 and the two integer encodings ----

  function Pow256(n: nat): (p: nat)
    ensures p > 0
  {
    if n == 0 then 1 else 256 * Pow256(n - 1)
  }

  /** Little-endian value of a byte string. */
  function LE(b: Bytes): nat {
    if b == [] then 0 else b[0] + 256 * LE(b[1..])
  }

  /** The low `len` bytes of `n`, least significant first. */
  function ToLE(n: nat, len: nat): (b: Bytes)
    ensures |b| == len
  {
    if len == 0 then [] else [n % 256] + ToLE(n / 256, len - 1)
  }

  /** Big-endian value of a byte string. */
  function BE(b: Bytes): nat {
    if b == [] then 0 else 256 * BE(b[..|b| - 1]) + b[|b| - 1]
  }

  /** The low `len` bytes of `n`, most significant first: the bit syntax `<<n::size-big>>`,
      which silently drops what does not fit. */
  function ToBE(n: nat, len: nat): (b: Bytes)
    ensures |b| == len
  {
    if len == 0 then [] else ToBE(n / 256, len - 1) + [n % 256]
  }

  lemma {:induction false} LEBound(b: Bytes)
    ensures LE(b) < Pow256(|b|)
  {
    if b != [] { LEBound(b[1..]); }
  }

  lemma {:induction false} LEOfToLE(n: nat, len: nat)
    requires n < Pow256(len)
    ensures LE(ToLE(n, len)) == n
  {
    if len > 0 {
      LEOfToLE(n / 256, len - 1);
      assert ToLE(n, len)[1..] == ToLE(n / 256, len - 1);
    }
  }

  lemma {:induction false} ToLEOfLE(b: Bytes)
    ensures ToLE(LE(b), |b|) == b
  {
    if b != [] {
      var n, rest := LE(b), b[1..];
      DivRemUnique(n, 256, LE(rest), b[0]);
      ToLEOfLE(rest);
      assert ToLE(n, |b|) == [n % 256] + ToLE(n / 256, |b| - 1);
      assert b == [b[0]] + rest;
    }
  }

  lemma LEInjective(a: Bytes, b: Bytes)
    requires |a| == |b| && LE(a) == LE(b)
    ensures a == b
  {
    ToLEOfLE(a);
    ToLEOfLE(b);
  }

  lemma {:induction false} LEAppend(a: Bytes, b: Bytes)
    ensures LE(a + b) == LE(a) + Pow256(|a|) * LE(b)
  {
    if a == [] {
      assert a + b == b;
    } else {
      LEAppend(a[1..], b);
      assert (a + b)[1..] == a[1..] + b;
      assert Pow256(|a|) * LE(b) == 256 * (Pow256(|a| - 1) * LE(b));
    }
  }

  lemma ModSplit(n: nat, p: nat)
    requires p > 0
    ensures n % (256 * p) == 256 * (n / 256 % p) + n % 256
  {
    var k := n / 256 / p;
    assert n == 256 * p * k + (256 * (n / 256 % p) + n % 256);
    DivRemUnique(n, 256 * p, k, 256 * (n / 256 % p) + n % 256);
  }

  lemma {:induction false} MulAtLeast(d: int, k: nat)
    requires d > 0 && k > 0
    ensures d * k >= d
    decreases k
  {
    if k > 1 {
      MulAtLeast(d, k - 1);
      assert d * k == d * (k - 1) + d;
    }
  }

  /** The only multiple of d strictly between -d and d is zero. */
  lemma MultipleBelow(d: int, k: int)
    requires -d < d * k < d
    ensures k == 0
  {
    if k > 0 {
      MulAtLeast(d, k);
    } else if k < 0 {
      assert d * -k == -(d * k);
      MulAtLeast(d, -k);
    }
  }

  lemma DivRemUnique(n: int, d: int, q: int, r: int)
    requires n == d * q + r && 0 <= r < d
    ensures n / d == q && n % d == r
  {
    var e, s := n / d, n % d;
    assert d * (q - e) == s - r;
    MultipleBelow(d, q - e);
  }

  /** Encoding then decoding big-endian keeps exactly the value modulo 256^len. */
  lemma {:induction false} BEOfToBE(n: nat, len: nat)
    ensures BE(ToBE(n, len)) == n % Pow256(len)
  {
    if len > 0 {
      var b := ToBE(n, len);
      assert b[..|b| - 1] == ToBE(n / 256, len - 1);
      BEOfToBE(n / 256, len - 1);
      ModSplit(n, Pow256(len - 1));
    }
  }

  lemma {:induction false} ToBEOfMod(n: nat, len: nat)
    ensures ToBE(n, len) == ToBE(n % Pow256(len), len)
  {
    if len > 0 {
      var m := n % Pow256(len);
      ModSplit(n, Pow256(len - 1));
      DivRemUnique(m, 256, n / 256 % Pow256(len - 1), n % 256);
      ToBEOfMod(n / 256, len - 1);
    }
  }

  /** Two numbers share a `len`-byte big-endian encoding exactly when they agree modulo 256^len. */
  lemma ToBEInjective(m: nat, n: nat, len: nat)
    ensures ToBE(m, len) == ToBE(n, len) <==> m % Pow256(len) == n % Pow256(len)
  {
    BEOfToBE(m, len);
    BEOfToBE(n, len);
    ToBEOfMod(m, len);
    ToBEOfMod(n, len);
  }

  /** Decoding then encoding big-endian gives the bytes back. */
  lemma {:induction false} ToBEOfBE(b: Bytes)
    ensures BE(b) < Pow256(|b|) && ToBE(BE(b), |b|) == b
  {
    if b != [] {
      var n := |b| - 1;
      ToBEOfBE(b[..n]);
      assert BE(b) / 256 == BE(b[..n]) && BE(b) % 256 == b[n];
      assert b == b[..n] + [b[n]];
    }
  }

  // ---- Bitwise and/or, bit by bit, on two's-complement integers of any width ----

  function BitAnd(x: int, y: nat): nat
    decreases y
  {
    if y == 0 then 0 else (if x % 2 == 1 && y % 2 == 1 then 1 else 0) + 2 * BitAnd(x / 2, y / 2)
  }

  function BitOr(x: nat, y: nat): nat
    decreases x + y
  {
    if x == 0 && y == 0 then 0
    else (if x % 2 == 1 || y % 2 == 1 then 1 else 0) + 2 * BitOr(x / 2, y / 2)
  }

  function Pow2(n: nat): (p: nat)
    ensures p > 0
  {
    if n == 0 then 1 else 2 * Pow2(n - 1)
  }

  lemma ModDouble(x: int, p: nat)
    requires p > 0
    ensures x % (2 * p) == 2 * (x / 2 % p) + x % 2
  {
    var y := x / 2;
    var q, r := y / p, y % p;
    assert y == p * q + r;
    assert 2 * p * q == 2 * (p * q);
    DivRemUnique(x, 2 * p, q, 2 * r + x % 2);
  }

  /** Masking with k ones is reduction modulo 2^k, also for negative operands. */
  lemma {:induction false} BitAndOnes(x: int, k: nat)
    ensures BitAnd(x, Pow2(k) - 1) == x % Pow2(k)
    decreases k
  {
    if k > 0 {
      var p := Pow2(k - 1);
      assert (2 * p - 1) / 2 == p - 1 && (2 * p - 1) % 2 == 1;
      BitAndOnes(x / 2, k - 1);
      ModDouble(x, p);
    } else {
      assert x % 1 == 0;
    }
  }

  lemma BitAndEven(x: int, y: nat)
    ensures BitAnd(x, 2 * y) == 2 * BitAnd(x / 2, y)
  {
    if y > 0 { assert (2 * y) / 2 == y && (2 * y) % 2 == 0; }
  }

  lemma BitAndEighths(x: int, y: nat)
    ensures BitAnd(x, 8 * y) == 8 * BitAnd(x / 8, y)
  {
    BitAndEven(x, 4 * y);
    assert 2 * (4 * y) == 8 * y && 2 * (2 * y) == 4 * y;
    BitAndEven(x / 2, 2 * y);
    BitAndEven(x / 2 / 2, y);
    DivBy8(x);
  }

  lemma DivBy8(x: int)
    ensures x / 2 / 2 / 2 == x / 8
  {
  }

  lemma BitOrEven(x: nat, y: nat)
    ensures BitOr(x, 2 * y) == x % 2 + 2 * BitOr(x / 2, y)
  {
    if x > 0 || y > 0 {
      assert (2 * y) / 2 == y && (2 * y) % 2 == 0;
    }
  }

  lemma {:induction false} AndTopBit(x: nat, k: nat)
    requires x < 2 * Pow2(k)
    ensures BitAnd(x, Pow2(k)) == if x < Pow2(k) then 0 else Pow2(k)
    decreases k
  {
    if k > 0 {
      BitAndEven(x, Pow2(k - 1));
      AndTopBit(x / 2, k - 1);
    }
  }

  lemma {:induction false} OrTopBit(x: nat, k: nat)
    requires x < 2 * Pow2(k)
    ensures BitOr(x, Pow2(k)) == if x < Pow2(k) then x + Pow2(k) else x
    decreases k
  {
    if k > 0 {
      BitOrEven(x, Pow2(k - 1));
      OrTopBit(x / 2, k - 1);
    } else {
      assert BitOr(0, 0) == 0;
    }
  }

  // ---- The masks used on single bytes ----

  lemma SmallPowers()
    ensures Pow2(1) == 2 && Pow2(5) == 32 && Pow2(6) == 64 && Pow2(7) == 128
  {
    assert Pow2(3) == 8;
  }

  lemma MaskHigh(x: Byte, y: nat, k: nat)
    requires y == Pow2(k) - 1 && x / 8 < Pow2(k)
    ensures BitAnd(x, 8 * y) == x - x % 8
  {
    BitAndEighths(x, y);
    BitAndOnes(x / 8, k);
    DivRemUnique(x / 8, Pow2(k), 0, x / 8);
  }

  lemma And0xF8(x: Byte)
    ensures BitAnd(x, 0xf8) == x - x % 8
  {
    SmallPowers();
    MaskHigh(x, 31, 5);
  }

  lemma And0x7F(x: Byte)
    ensures BitAnd(x, 0x7f) == x % 128
  {
    SmallPowers();
    BitAndOnes(x, 7);
  }

  lemma And1(x: nat)
    ensures BitAnd(x, 1) == x % 2
  {
    SmallPowers();
    BitAndOnes(x, 1);
  }

  lemma And0x80(x: Byte)
    ensures BitAnd(x, 0x80) == x / 128 * 128
  {
    SmallPowers();
    AndTopBit(x, 7);
    if x < 128 { DivRemUnique(x, 128, 0, x); } else { DivRemUnique(x, 128, 1, x - 128); }
  }

  lemma And0xFFFF(x: int)
    ensures BitAnd(x, 0xffff) == x % 0x10000
  {
    BitAndOnes(x, 16);
    assert Pow2(16) == 0x10000 by {
      assert Pow2(8) == 256;
      assert Pow2(12) == 4096;
    }
  }

  lemma {:induction false} BitOrZero(x: nat)
    ensures BitOr(x, 0) == x
  {
    if x > 0 { BitOrZero(x / 2); }
  }

  lemma Or64(x: Byte)
    requires x < 128
    ensures BitOr(x, 64) == x % 64 + 64
  {
    SmallPowers();
    OrTopBit(x, 6);
    if x < 64 { DivRemUnique(x, 64, 0, x); } else { DivRemUnique(x, 64, 1, x - 64); }
  }

  lemma Or128(x: Byte)
    requires x < 128
    ensures BitOr(x, 128) == x + 128
  {
    SmallPowers();
    OrTopBit(x, 7);
  }
}
