/** XEdDSA signatures over Curve25519: native/baileys_nif/src/xeddsa.rs, a variant of section 3 of
    Signal's "The XEdDSA and VXEdDSA Signature Schemes".
    Scalars and byte strings are concrete. The curve group, point compression, the birational map
    and SHA-512 are function-valued parameters with the laws in `Curve.Lawful`. */
module XEdDSA {
  import opened Octets

  /** The prime order l of the base point. */
  const L: nat := 0x1000000000000000_0000000000000000_14def9dea2f79cd6_5812631a5cf5d3ed

  const TWO_POW_254: nat := 0x4000000000000000_0000000000000000_0000000000000000_0000000000000000

  const TWO_POW_255: nat := 2 * TWO_POW_254

  datatype Curve<!P(!new)> = Curve(
    add: (P, P) -> P,
    neg: P -> P,
    zero: P,
    base: P,
    compress: P -> Bytes32,
    decompress: Bytes32 -> Option<P>,
    toMontgomery: P -> Bytes32,
    /** Montgomery u-coordinate and sign bit to Edwards point */
    toEdwards: (Bytes32, nat) -> Option<P>,
    sha512: Bytes -> Bytes64)
  {
    function Mul(n: nat, p: P): P {
      if n == 0 then zero else add(p, Mul(n - 1, p))
    }

    function SignBit(p: P): nat {
      compress(p)[31] / 128
    }

    // Each law is a named instance, so that a proof says which instances it uses.

    ghost predicate Associative(p: P, q: P, r: P) { add(add(p, q), r) == add(p, add(q, r)) }

    ghost predicate Commutative(p: P, q: P) { add(p, q) == add(q, p) }

    ghost predicate Identity(p: P) { add(p, zero) == p }

    ghost predicate Inverse(p: P) { add(p, neg(p)) == zero }

    /** A multiple of the base point vanishes exactly when l divides the scalar. */
    ghost predicate BaseOrder(n: nat) { Mul(n, base) == zero <==> n % L == 0 }

    ghost predicate CompressionInvertible(p: P) { decompress(compress(p)) == Some(p) }

    /** The birational map has an inverse away from the identity of the prime-order subgroup. */
    ghost predicate MapInvertible(n: nat) {
      n % L != 0 ==> toEdwards(toMontgomery(Mul(n, base)), SignBit(Mul(n, base))) == Some(Mul(n, base))
    }

    ghost predicate GroupLaws() {
      && (forall p, q, r :: Associative(p, q, r))
      && (forall p, q :: Commutative(p, q))
      && (forall p :: Identity(p))
      && (forall p :: Inverse(p))
    }

    ghost predicate Lawful() {
      && GroupLaws()
      && (forall n :: BaseOrder(n))
      && (forall p :: CompressionInvertible(p))
      && (forall n :: MapInvertible(n))
    }
  }

  // ---- Scalars ----

  function Reduce(b: Bytes): (n: nat)
    ensures n < L
  {
    LE(b) % L
  }

  /** The clamped private key (decodeScalar25519, section 5 of RFC 7748). */
  function Clamp(k: Bytes32): Bytes32 {
    k[0 := k[0] - k[0] % 8][31 := k[31] % 64 + 64]
  }

  /** The value of a byte string split into first byte, middle and last byte. */
  lemma LEEnds(b: Bytes)
    requires |b| >= 2
    ensures LE(b) == b[0] + 256 * LE(b[1..|b| - 1]) + Pow256(|b| - 1) * b[|b| - 1]
  {
    var n := |b| - 1;
    var mid, last := b[1..n], b[n..];
    assert b[1..] == mid + last;
    LEAppend(mid, last);
    LESingle(last);
    MulAssoc(256, Pow256(n - 1), b[n]);
  }

  lemma LESingle(b: Bytes)
    requires |b| == 1
    ensures LE(b) == b[0]
  {
    assert b[1..] == [];
  }

  lemma MulAssoc(a: int, b: int, c: int)
    ensures a * (b * c) == a * b * c
  {
  }

  lemma MulMonotone(a: nat, b: nat, c: nat)
    ensures b <= c ==> a * b <= a * c
  {
  }

  lemma Pow256Values()
    ensures Pow256(31) * 64 == TWO_POW_254
    ensures Pow256(32) == 2 * TWO_POW_255
  {
    assert Pow256(4) == 0x100000000;
    assert Pow256(8) == 0x10000000000000000;
    assert Pow256(12) == 0x1000000000000000000000000;
    assert Pow256(16) == 0x100000000000000000000000000000000;
    assert Pow256(20) == 0x10000000000000000000000000000000000000000;
    assert Pow256(24) == 0x1000000000000000000000000000000000000000000000000;
    assert Pow256(28) == 0x100000000000000000000000000000000000000000000000000000000;
    assert Pow256(31) == 0x100000000000000000000000000000000000000000000000000000000000000;
  }

  /** With a last byte between 64 and 127 a 32-byte number lies in [2^254, 2^255). */
  lemma RangeOfLastByte(b: Bytes32)
    requires 64 <= b[31] < 128
    ensures TWO_POW_254 <= LE(b) < TWO_POW_255
  {
    LEEnds(b);
    LEBound(b[1..31]);
    Pow256Values();
    MulMonotone(Pow256(31), 64, b[31]);
    MulMonotone(Pow256(31), b[31], 127);
  }

  /** The clamped scalar lies in [2^254, 2^255) and is a multiple of the cofactor 8. */
  lemma ClampRange(k: Bytes32)
    ensures TWO_POW_254 <= LE(Clamp(k)) < TWO_POW_255
    ensures LE(Clamp(k)) % 8 == 0
  {
    RangeOfLastByte(Clamp(k));
  }

  /** A 32-byte number by its last byte. */
  lemma LEByLast(b: Bytes32)
    ensures LE(b) == LE(b[..31]) + Pow256(31) * b[31] && LE(b[..31]) < Pow256(31)
  {
    assert b == b[..31] + [b[31]];
    LEAppend(b[..31], [b[31]]);
    LESingle([b[31]]);
    LEBound(b[..31]);
  }

  lemma MulAdd3(p: nat, m: nat, n: nat)
    ensures p * (m + n) == p * m + p * n
  {
  }

  /** Reducing modulo d*p reduces the high digit modulo d and leaves the low one alone. */
  lemma HighDigitReduced(p: nat, low: nat, high: nat, d: nat)
    requires low < p && d > 0
    ensures p * d > 0 && (low + p * high) % (p * d) == low + p * (high % d)
  {
    var q, r := high / d, high % d;
    assert high == d * q + r;
    MulAdd3(p, d * q, r);
    MulAssoc(p, d, q);
    MulMonotone(p, r, d - 1);
    MulAdd3(p, d - 1, 1);
    MulAtLeast(p, d);
    DivRemUnique(low + p * high, p * d, q, low + p * r);
  }

  lemma LowBits(b: Bytes)
    requires b != []
    ensures LE(b) % 8 == b[0] % 8
  {
    assert LE(b) == b[0] + 256 * LE(b[1..]);
  }

  /** Clamping sets bit 254, clears bit 255 and the three lowest bits, and keeps all others. */
  lemma ClampKeepsTheRest(k: Bytes32)
    ensures LE(Clamp(k)) == TWO_POW_254 + LE(k) % TWO_POW_254 - LE(k) % 8
  {
    var p, clamped := Pow256(31), Clamp(k);
    LEByLast(k);
    LEByLast(clamped);
    HighDigitReduced(p, LE(k[..31]), k[31], 64);
    Pow256Values();
    MulAdd3(p, k[31] % 64, 64);
    LowBits(k);
    assert clamped[..31][1..] == k[..31][1..];
    assert LE(clamped[..31]) == LE(k[..31]) - k[0] % 8;
  }

  /** No multiple of 8 strictly between 0 and 2^255 is a multiple of l: l is odd and 8*l > 2^255. */
  lemma CofactorMultipleIsNotZero(n: nat)
    requires 0 < n < TWO_POW_255 && n % 8 == 0
    ensures n % L != 0
  {
  }

  lemma ClampedScalarIsNotZero(k: Bytes32)
    ensures LE(Clamp(k)) % L != 0
  {
    ClampRange(k);
    CofactorMultipleIsNotZero(LE(Clamp(k)));
  }

  // ---- Group algebra ----

  lemma {:induction false} MulAdd<P(!new)>(c: Curve<P>, m: nat, n: nat, p: P)
    requires c.GroupLaws()
    ensures c.Mul(m + n, p) == c.add(c.Mul(m, p), c.Mul(n, p))
  {
    if m == 0 {
      ZeroLeft(c, c.Mul(n, p));
    } else {
      MulAdd(c, m - 1, n, p);
      assert c.Associative(p, c.Mul(m - 1, p), c.Mul(n, p));
    }
  }

  lemma ZeroLeft<P(!new)>(c: Curve<P>, p: P)
    requires c.GroupLaws()
    ensures c.add(c.zero, p) == p
  {
    assert c.Commutative(c.zero, p) && c.Identity(p);
  }

  lemma {:induction false} MulMul<P(!new)>(c: Curve<P>, m: nat, n: nat, p: P)
    requires c.GroupLaws()
    ensures c.Mul(m * n, p) == c.Mul(m, c.Mul(n, p))
    decreases m
  {
    if m > 0 {
      MulMul(c, m - 1, n, p);
      assert m * n == n + (m - 1) * n;
      MulAdd(c, n, (m - 1) * n, p);
    }
  }

  /** Moving a term across the equation. */
  lemma SubtractIff<P(!new)>(c: Curve<P>, x: P, y: P, z: P)
    requires c.GroupLaws()
    ensures c.add(x, c.neg(y)) == z <==> x == c.add(z, y)
  {
    assert c.Inverse(y) && c.Commutative(c.neg(y), y);
    assert c.Associative(x, c.neg(y), y) && c.Identity(x);
    assert c.Associative(z, y, c.neg(y)) && c.Identity(z);
  }

  /** Multiples of the base point depend only on the scalar modulo l. */
  lemma MulReduced<P(!new)>(c: Curve<P>, n: nat)
    requires c.Lawful()
    ensures c.Mul(n % L, c.base) == c.Mul(n, c.base)
  {
    var q, r := n / L, n % L;
    DivRemUnique(L * q, L, q, 0);
    assert c.BaseOrder(L * q);
    MulAdd(c, L * q, r, c.base);
    ZeroLeft(c, c.Mul(r, c.base));
  }

  lemma ReducedScalarsDiffer<P(!new)>(c: Curve<P>, s: nat, t: nat)
    requires c.Lawful()
    requires s <= t < L && c.Mul(s, c.base) == c.Mul(t, c.base)
    ensures s == t
  {
    var d := t - s;
    MulAdd(c, d, s, c.base);
    var x, y := c.Mul(d, c.base), c.Mul(s, c.base);
    SubtractIff(c, y, y, x);
    assert c.Inverse(y);
    assert c.BaseOrder(d);
  }

  // ---- Signing ----

  datatype SignError = PrivateKeyMustBe32Bytes

  /** The X25519 public key of a private key: the clamped multiple of the base point, in
      Montgomery form. */
  function PublicKey<P(!new)>(c: Curve<P>, privateKey: Bytes32): Bytes32 {
    c.toMontgomery(c.Mul(LE(Clamp(privateKey)), c.base))
  }

  /** The Fiat-Shamir challenge both sides hash. */
  function Challenge<P(!new)>(c: Curve<P>, nonceBytes: Bytes, publicBytes: Bytes, message: Bytes): nat {
    Reduce(c.sha512(nonceBytes + publicBytes + message))
  }

  lemma ReducedScalarFits(n: nat)
    requires n < L
    ensures LE(ToLE(n, 32)) == n
    ensures ToLE(n, 32)[31] < 128
  {
    Pow256Values();
    LEOfToLE(n, 32);
    var b := ToLE(n, 32);
    LEEnds(b);
    MulMonotone(Pow256(31), 128, b[31]);
  }

  /** The response scalar s = r + h*a modulo l. */
  function Response(r: nat, h: nat, a: nat): (s: nat)
    ensures s < L
  {
    (r + h * a) % L
  }

  /** R and s, with the sign of A or-ed into the spare top bit of the last byte. */
  function Pack(nonceBytes: Bytes32, s: Bytes32, signBit: Byte): Bytes64
    requires s[31] < 128 && (signBit == 0 || signBit == 128)
  {
    nonceBytes + s[..31] + [s[31] + signBit]
  }

  function Signature<P(!new)>(c: Curve<P>, privateKey: Bytes32, message: Bytes): Bytes64 {
    var clamped: Bytes := Clamp(privateKey);
    var a := Reduce(clamped);
    var bigA := c.Mul(a, c.base);
    var r := Reduce(c.sha512(clamped + message));
    var nonceBytes := c.compress(c.Mul(r, c.base));
    var s := Response(r, Challenge(c, nonceBytes, c.compress(bigA), message), a);
    ReducedScalarFits(s);
    Pack(nonceBytes, ToLE(s, 32), 128 * c.SignBit(bigA))
  }

  method And(x: Byte, mask: Byte) returns (r: Byte)
    requires mask in {0xf8, 0x7f, 0x80, 1}
    ensures r ==
      if mask == 0xf8 then x - x % 8
      else if mask == 0x7f then x % 128
      else if mask == 0x80 then x / 128 * 128
      else x % 2
  {
    And0xF8(x);
    And0x7F(x);
    And0x80(x);
    And1(x);
    r := BitAnd(x, mask);
  }

  method Or(x: Byte, mask: Byte) returns (r: Byte)
    requires x < 128 && mask in {0, 64, 128}
    ensures r == if mask == 64 then x % 64 + 64 else x + mask
  {
    BitOrZero(x);
    Or64(x);
    Or128(x);
    r := BitOr(x, mask);
  }

  /** The three byte masks, applied in place. */
  method ClampInPlace(clamped: array<Byte>)
    requires clamped.Length == 32
    modifies clamped
    ensures clamped[..] == Clamp(old(clamped[..]))
  {
    clamped[0] := And(clamped[0], 0xf8);
    clamped[31] := And(clamped[31], 0x7f);
    clamped[31] := Or(clamped[31], 64);
  }

  /** R and s copied into the halves of the output, then the sign bit or-ed into its last byte. */
  method Assemble(out: array<Byte>, nonceBytes: Bytes32, s: Bytes32, signBit: Byte)
    requires out.Length == 64 && s[31] < 128 && (signBit == 0 || signBit == 128)
    modifies out
    ensures out[..] == Pack(nonceBytes, s, signBit)
  {
    forall i | 0 <= i < 32 { out[i] := nonceBytes[i]; }
    forall i | 0 <= i < 32 { out[32 + i] := s[i]; }
    out[63] := Or(out[63], signBit);
  }

  method Sign<P(!new)>(c: Curve<P>, privateKey: Bytes, message: Bytes) returns (result: Result<Bytes, SignError>)
    ensures result == if |privateKey| == 32 then Ok(Signature(c, privateKey, message)) else Err(PrivateKeyMustBe32Bytes)
  {
    if |privateKey| != 32 { return Err(PrivateKeyMustBe32Bytes); }
    var clamped := new Byte[32](i requires 0 <= i < 32 => privateKey[i]);
    assert clamped[..] == privateKey;
    ClampInPlace(clamped);

    var a := Reduce(clamped[..]);
    var bigA := c.Mul(a, c.base);
    var signBit := And(c.compress(bigA)[31], 0x80);
    var publicBytes: Bytes := c.compress(bigA);
    var r := Reduce(c.sha512(clamped[..] + message));
    var bigR := c.Mul(r, c.base);
    var nonceBytes: Bytes := c.compress(bigR);
    var h := Challenge(c, nonceBytes, publicBytes, message);
    var s := Response(r, h, a);
    ReducedScalarFits(s);

    var out := new Byte[64](i => 0);
    Assemble(out, nonceBytes, ToLE(s, 32), signBit);
    return Ok(out[..]);
  }

  // ---- Verification ----

  /** The scalar half of a signature, sign bit removed. */
  function SigScalar(signature: Bytes64): nat {
    LE(signature[32..63] + [signature[63] % 128])
  }

  /** A signature is accepted when the key maps to a point A of the stated sign, R decompresses, s is
      canonical, and s*B = R + h*A. */
  predicate Accepts<P(!new,==)>(c: Curve<P>, publicKey: Bytes, message: Bytes, signature: Bytes) {
    && |publicKey| == 32
    && |signature| == 64
    && var bigA := c.toEdwards(publicKey, signature[63] / 128);
       var bigR := c.decompress(signature[..32]);
    && bigA.Some?
    && bigR.Some?
    && SigScalar(signature) < L
    && var h := Challenge(c, signature[..32], c.compress(bigA.value), message);
       c.Mul(SigScalar(signature), c.base) == c.add(bigR.value, c.Mul(h, bigA.value))
  }

  method Verify<P(!new,==)>(c: Curve<P>, publicKey: Bytes, message: Bytes, signature: Bytes) returns (ok: bool)
    requires c.GroupLaws()
    ensures ok == Accepts(c, publicKey, message, signature)
  {
    if |publicKey| != 32 { return false; }
    if |signature| != 64 { return false; }
    var signBit := And(signature[63] / 128, 1);
    var edwards := c.toEdwards(publicKey, signBit);
    if edwards.None? { return false; }
    var nonceBytes := signature[..32];
    var sBytes := new Byte[32](i requires 0 <= i < 32 => signature[32 + i]);
    sBytes[31] := And(sBytes[31], 0x7f);
    assert sBytes[..] == signature[32..63] + [signature[63] % 128];
    var bigR := c.decompress(nonceBytes);
    if bigR.None? { return false; }
    var s := LE(sBytes[..]);
    if s >= L { return false; }
    var publicBytes := c.compress(edwards.value);
    var h := Challenge(c, nonceBytes, publicBytes, message);
    SubtractIff(c, c.Mul(s, c.base), c.Mul(h, edwards.value), bigR.value);
    return c.add(c.Mul(s, c.base), c.neg(c.Mul(h, edwards.value))) == bigR.value;
  }

  // ---- What the scheme promises ----

  lemma UnpackPack(nonceBytes: Bytes32, s: Bytes32, signBit: Byte)
    requires s[31] < 128 && (signBit == 0 || signBit == 128)
    ensures
      var sig := Pack(nonceBytes, s, signBit);
      sig[..32] == nonceBytes && sig[63] / 128 * 128 == signBit && SigScalar(sig) == LE(s)
  {
    var sig := Pack(nonceBytes, s, signBit);
    assert sig[..32] == nonceBytes;
    assert sig[32..63] + [sig[63] % 128] == s;
  }

  /** s = r + h*a modulo l satisfies the verification equation. */
  lemma EquationHolds<P(!new)>(c: Curve<P>, r: nat, h: nat, a: nat)
    requires c.Lawful()
    ensures c.Mul(Response(r, h, a), c.base) == c.add(c.Mul(r, c.base), c.Mul(h, c.Mul(a, c.base)))
  {
    MulReduced(c, r + h * a);
    MulAdd(c, r, h * a, c.base);
    MulMul(c, h, a, c.base);
  }

  /** The verifier recovers the signer's Edwards point from the Montgomery key and the sign bit. */
  lemma PointRecovered<P(!new)>(c: Curve<P>, privateKey: Bytes32)
    requires c.Lawful()
    ensures
      var bigA := c.Mul(Reduce(Clamp(privateKey)), c.base);
      c.toEdwards(PublicKey(c, privateKey), c.SignBit(bigA)) == Some(bigA)
  {
    var n := LE(Clamp(privateKey));
    MulReduced(c, n);
    ClampedScalarIsNotZero(privateKey);
    assert c.MapInvertible(n);
  }

  /** Every signature made with a key verifies under that key's X25519 public key. */
  lemma SignedMessagesVerify<P(!new)>(c: Curve<P>, privateKey: Bytes32, message: Bytes)
    requires c.Lawful()
    ensures Accepts(c, PublicKey(c, privateKey), message, Signature(c, privateKey, message))
  {
    var clamped: Bytes := Clamp(privateKey);
    var a := Reduce(clamped);
    var bigA := c.Mul(a, c.base);
    PointRecovered(c, privateKey);

    var r := Reduce(c.sha512(clamped + message));
    var bigR := c.Mul(r, c.base);
    var nonceBytes := c.compress(bigR);
    assert c.CompressionInvertible(bigR);
    var h := Challenge(c, nonceBytes, c.compress(bigA), message);
    EquationHolds(c, r, h, a);
    var s := Response(r, h, a);
    ReducedScalarFits(s);
    UnpackPack(nonceBytes, ToLE(s, 32), 128 * c.SignBit(bigA));
  }

  // ---- What is signed and what is checked, byte by byte ----

  /** Clearing the sign bit is reduction modulo 2^255. */
  lemma SignBitRemoved(b: Bytes32)
    ensures LE(b[..31] + [b[31] % 128]) == LE(b) % TWO_POW_255
  {
    var masked := b[..31] + [b[31] % 128];
    assert masked[..31] == b[..31];
    LEByLast(b);
    LEByLast(masked);
    HighDigitReduced(Pow256(31), LE(b[..31]), b[31], 128);
    Pow256Values();
  }

  /** A signature is accepted exactly if the key maps to a point A of the sign in its last bit, its first
      half decompresses to a point R, the rest of its second half is a number s below l, and
      s*B = R + h*A for the hash h of R, A and the message. */
  lemma AcceptsIff<P(!new)>(c: Curve<P>, publicKey: Bytes, message: Bytes, sig: Bytes)
    ensures Accepts(c, publicKey, message, sig) <==>
      && |publicKey| == 32
      && |sig| == 64
      && var bigA := c.toEdwards(publicKey, sig[63] / 128);
         var bigR := c.decompress(sig[..32]);
         var s := LE(sig[32..]) % TWO_POW_255;
      && bigA.Some? && bigR.Some? && s < L
      && var h := LE(c.sha512(sig[..32] + c.compress(bigA.value) + message)) % L;
         c.Mul(s, c.base) == c.add(bigR.value, c.Mul(h, bigA.value))
  {
    if |sig| == 64 {
      var b := sig[32..];
      SignBitRemoved(b);
      assert b[..31] == sig[32..63];
    }
  }

  /** One signature accepted for two messages: the hashes of both give one multiple of the public point. */
  lemma AcceptanceBindsMessage<P(!new)>(c: Curve<P>, publicKey: Bytes, message: Bytes, message': Bytes, sig: Bytes)
    requires c.GroupLaws() && Accepts(c, publicKey, message, sig)
    ensures
      var bigA := c.toEdwards(publicKey, sig[63] / 128).value;
      var prefix: Bytes := sig[..32] + c.compress(bigA);
      var h, h' := LE(c.sha512(prefix + message)) % L, LE(c.sha512(prefix + message')) % L;
      Accepts(c, publicKey, message', sig) <==> c.Mul(h, bigA) == c.Mul(h', bigA)
  {
    var bigA := c.toEdwards(publicKey, sig[63] / 128).value;
    var bigR := c.decompress(sig[..32]).value;
    var prefix: Bytes := sig[..32] + c.compress(bigA);
    var h, h' := LE(c.sha512(prefix + message)) % L, LE(c.sha512(prefix + message')) % L;
    Cancel(c, bigR, c.Mul(h, bigA), c.Mul(h', bigA));
  }

  lemma Cancel<P(!new)>(c: Curve<P>, x: P, y: P, z: P)
    requires c.GroupLaws()
    ensures c.add(x, y) == c.add(x, z) <==> y == z
  {
    assert c.Commutative(x, y) && c.Commutative(x, z);
    SubtractIff(c, c.add(y, x), x, y);
    SubtractIff(c, c.add(z, x), x, z);
  }

  /** What a signature holds: R for the hash of clamped key and message, s = r + h*a for the hash of R, A
      and the message, and the sign of A; and what the public key is. */
  lemma SignatureFields<P(!new)>(c: Curve<P>, privateKey: Bytes32, message: Bytes)
    requires c.Lawful()
    ensures
      var a := LE(Clamp(privateKey));
      var bigA := c.Mul(a, c.base);
      var r := LE(c.sha512(Clamp(privateKey) + message)) % L;
      var sig := Signature(c, privateKey, message);
      var h := LE(c.sha512(sig[..32] + c.compress(bigA) + message)) % L;
      && PublicKey(c, privateKey) == c.toMontgomery(bigA)
      && sig[..32] == c.compress(c.Mul(r, c.base))
      && LE(sig[32..]) % TWO_POW_255 == (r + h * (a % L)) % L
      && sig[63] / 128 == c.compress(bigA)[31] / 128
  {
    var clamped: Bytes := Clamp(privateKey);
    MulReduced(c, LE(clamped));
    var bigA := c.Mul(Reduce(clamped), c.base);
    var r := Reduce(c.sha512(clamped + message));
    var nonceBytes := c.compress(c.Mul(r, c.base));
    var s := Response(r, Challenge(c, nonceBytes, c.compress(bigA), message), Reduce(clamped));
    var sig := Signature(c, privateKey, message);
    ReducedScalarFits(s);
    UnpackPack(nonceBytes, ToLE(s, 32), 128 * c.SignBit(bigA));
    SignBitRemoved(sig[32..]);
    assert sig[32..][..31] == sig[32..63];
  }

  /** No malleability: for one key and message, R and the sign bit leave room for one signature. */
  lemma AcceptedSignatureIsUnique<P(!new)>(c: Curve<P>, publicKey: Bytes, message: Bytes, sig: Bytes, sig': Bytes)
    requires c.Lawful()
    requires Accepts(c, publicKey, message, sig) && Accepts(c, publicKey, message, sig')
    requires sig[..32] == sig'[..32] && sig[63] / 128 == sig'[63] / 128
    ensures sig == sig'
  {
    var s, s' := SigScalar(sig), SigScalar(sig');
    if s <= s' { ReducedScalarsDiffer(c, s, s'); } else { ReducedScalarsDiffer(c, s', s); }
    var b, b' := sig[32..63] + [sig[63] % 128], sig'[32..63] + [sig'[63] % 128];
    LEInjective(b, b');
    assert sig[32..63] == b[..31] == b'[..31] == sig'[32..63];
    assert sig[63] % 128 == b[31] == b'[31] == sig'[63] % 128;
    assert sig == sig[..32] + sig[32..63] + [sig[63]];
    assert sig' == sig'[..32] + sig'[32..63] + [sig'[63]];
  }

  // ---- The assumed laws have a model ----

  type Residue = n: nat | n < L

  function ToyAdd(p: Residue, q: Residue): Residue { (p + q) % L }

  function ToyNeg(p: Residue): Residue { (L - p) % L }

  function ToyEncode(p: Residue): Bytes32 { ToLE(p, 32) }

  function ToyDecode(b: Bytes32): Option<Residue> { Some(Reduce(b)) }

  function ToyToEdwards(b: Bytes32, sign: nat): Option<Residue> { ToyDecode(b) }

  /** The residues modulo l under addition. */
  function ToyCurve(): Curve<Residue> {
    var zero: Residue := 0;
    var one: Residue := 1;
    Curve(ToyAdd, ToyNeg, zero, one, ToyEncode, ToyDecode, ToyEncode, ToyToEdwards, (x: Bytes) => Zeros(64))
  }

  lemma ToyAddCases(p: Residue, q: Residue)
    ensures ToyAdd(p, q) == if p + q < L then p + q else p + q - L
  {
    if p + q < L { DivRemUnique(p + q, L, 0, p + q); } else { DivRemUnique(p + q, L, 1, p + q - L); }
  }

  lemma {:induction false} ToyMul(n: nat)
    ensures ToyCurve().Mul(n, 1) == n % L
  {
    if n > 0 {
      ToyMul(n - 1);
      var r: Residue := (n - 1) % L;
      ToyAddCases(1, r);
      NextResidue(n - 1);
      assert ToyCurve().Mul(n, 1) == ToyAdd(1, ToyCurve().Mul(n - 1, 1));
    }
  }

  lemma NextResidue(n: nat)
    ensures (n + 1) % L == if n % L + 1 < L then n % L + 1 else 0
  {
    if n % L + 1 < L { DivRemUnique(n + 1, L, n / L, n % L + 1); } else { DivRemUnique(n + 1, L, n / L + 1, 0); }
  }

  lemma ToyGroupLaws()
    ensures ToyCurve().GroupLaws()
  {
    var c := ToyCurve();
    forall p: Residue, q: Residue, r: Residue ensures c.Associative(p, q, r) {
      ToyAddCases(p, q);
      ToyAddCases(q, r);
      ToyAddCases(ToyAdd(p, q), r);
      ToyAddCases(p, ToyAdd(q, r));
    }
    forall p: Residue ensures c.Identity(p) && c.Inverse(p) {
      ToyAddCases(p, 0);
      ToyAddCases(p, ToyNeg(p));
    }
  }

  lemma ToyDecodesEncoding(p: Residue)
    ensures ToyDecode(ToyEncode(p)) == Some(p)
  {
    ReducedScalarFits(p);
    DivRemUnique(p, L, 0, p);
  }

  lemma ToyOrder(n: nat)
    ensures ToyCurve().BaseOrder(n) && ToyCurve().MapInvertible(n)
  {
    ToyMul(n);
    ToyDecodesEncoding(n % L);
  }

  lemma LawfulIsSatisfiable()
    ensures ToyCurve().Lawful()
  {
    var c := ToyCurve();
    ToyGroupLaws();
    forall n: nat ensures c.BaseOrder(n) && c.MapInvertible(n) { ToyOrder(n); }
    forall p: Residue ensures c.CompressionInvertible(p) { ToyDecodesEncoding(p); }
  }
}
