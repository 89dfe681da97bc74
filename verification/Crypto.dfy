/** The key-derivation, padding and cipher wrappers of lib/baileys_ex/crypto.ex.
    The primitives below :crypto are function-valued parameters; `Lawful` lists what is assumed of
    them, and `LawfulIsSatisfiable` shows that the assumptions do not contradict each other. */
module Crypto {
  import opened Octets

  datatype Primitives = Primitives(
    sha256: Bytes -> Bytes32,
    hmac: (Bytes, Bytes) -> Bytes32,
    /** key, iv, plaintext, associated data to ciphertext and tag */
    gcmSeal: (Bytes, Bytes, Bytes, Bytes) -> (Bytes, Bytes16),
    /** key, iv, ciphertext, associated data, tag */
    gcmOpen: (Bytes, Bytes, Bytes, Bytes, Bytes16) -> Option<Bytes>,
    /** key, iv, whole blocks */
    cbcEncrypt: (Bytes, Bytes, Bytes) -> Bytes,
    /** None where crypto_one_time raises */
    cbcDecrypt: (Bytes, Bytes, Bytes) -> Option<Bytes>)
  {
    // Each law is a named instance, so that a proof says which instances it uses.

    ghost predicate GcmKeepsLength(k: Bytes, iv: Bytes, p: Bytes, aad: Bytes) {
      |gcmSeal(k, iv, p, aad).0| == |p|
    }

    ghost predicate GcmInverts(k: Bytes, iv: Bytes, p: Bytes, aad: Bytes, c: Bytes, tag: Bytes16) {
      gcmOpen(k, iv, c, aad, tag) == Some(p) <==> gcmSeal(k, iv, p, aad) == (c, tag)
    }

    ghost predicate CbcKeepsLength(k: Bytes, iv: Bytes, x: Bytes) {
      |x| % 16 == 0 ==> |cbcEncrypt(k, iv, x)| == |x|
    }

    ghost predicate CbcInverts(k: Bytes, iv: Bytes, x: Bytes, c: Bytes) {
      cbcDecrypt(k, iv, c) == Some(x) <==> |x| % 16 == 0 && cbcEncrypt(k, iv, x) == c
    }

    ghost predicate Lawful() {
      && (forall k, iv, p, aad :: GcmKeepsLength(k, iv, p, aad))
      && (forall k, iv, p, aad, c, tag :: GcmInverts(k, iv, p, aad, c, tag))
      && (forall k, iv, x :: CbcKeepsLength(k, iv, x))
      && (forall k, iv, x, c :: CbcInverts(k, iv, x, c))
    }
  }

  datatype KeyPair = KeyPair(private: Bytes32, public: Bytes)

  /** A toy instance of the primitives: the stated laws have a model. */
  lemma LawfulIsSatisfiable() returns (toy: Primitives)
    ensures toy.Lawful()
  {
    toy := Primitives(
      x => Zeros(32),
      (k, x) => Zeros(32),
      (k, iv, p, aad) => (p, Zeros(16)),
      (k, iv, c, aad, tag) => if tag == Zeros(16) then Some(c) else None,
      (k, iv, x) => x,
      (k, iv, c) => if |c| % 16 == 0 then Some(c) else None);
  }

  // ---- HKDF ----

  function HkdfExtract(hmac: (Bytes, Bytes) -> Bytes32, salt: Bytes, ikm: Bytes): Bytes32 {
    if salt == [] then hmac(Zeros(32), ikm) else hmac(salt, ikm)
  }

  /** The Enum.reduce over i..n with accumulator (acc, prev); `<<i>>` keeps only the low byte. */
  function ExpandFold(hmac: (Bytes, Bytes) -> Bytes32, prk: Bytes, info: Bytes,
                      i: nat, n: nat, acc: Bytes, prev: Bytes): (okm: Bytes)
    requires i <= n + 1
    ensures |okm| == |acc| + 32 * (n + 1 - i)
    decreases n + 1 - i
  {
    if i > n then acc
    else
      var t := hmac(prk, prev + info + [i % 256]);
      ExpandFold(hmac, prk, info, i + 1, n, acc + t, t)
  }

  const MAX_OKM := 8160

  /** None where the guard on `length` fails. */
  function HkdfExpand(hmac: (Bytes, Bytes) -> Bytes32, prk: Bytes, info: Bytes, length: int): Option<Bytes> {
    if 0 < length <= MAX_OKM then
      var n := (length + 31) / 32;
      Some(ExpandFold(hmac, prk, info, 1, n, [], [])[..length])
    else None
  }

  function Hkdf(hmac: (Bytes, Bytes) -> Bytes32, ikm: Bytes, info: Bytes, length: int, salt: Bytes): Option<Bytes> {
    HkdfExpand(hmac, HkdfExtract(hmac, salt, ikm), info, length)
  }

  // The reference: T(i) and T(1) | T(2) | ... as section 2.3 of RFC 5869 writes them.

  function T(hmac: (Bytes, Bytes) -> Bytes32, prk: Bytes, info: Bytes, i: nat): (t: Bytes)
    requires i <= 255
    ensures i > 0 ==> |t| == 32
  {
    if i == 0 then [] else hmac(prk, T(hmac, prk, info, i - 1) + info + [i])
  }

  function Stream(hmac: (Bytes, Bytes) -> Bytes32, prk: Bytes, info: Bytes, n: nat): (s: Bytes)
    requires n <= 255
    ensures |s| == 32 * n
  {
    if n == 0 then [] else Stream(hmac, prk, info, n - 1) + T(hmac, prk, info, n)
  }

  lemma {:induction false} FoldIsStream(hmac: (Bytes, Bytes) -> Bytes32, prk: Bytes, info: Bytes, i: nat, n: nat)
    requires 1 <= i <= n + 1 <= 256
    ensures ExpandFold(hmac, prk, info, i, n, Stream(hmac, prk, info, i - 1), T(hmac, prk, info, i - 1))
         == Stream(hmac, prk, info, n)
    decreases n + 1 - i
  {
    if i <= n {
      assert i % 256 == i;
      FoldIsStream(hmac, prk, info, i + 1, n);
    }
  }

  lemma {:induction false} StreamPrefix(hmac: (Bytes, Bytes) -> Bytes32, prk: Bytes, info: Bytes, m: nat, n: nat)
    requires m <= n <= 255
    ensures Stream(hmac, prk, info, n)[..32 * m] == Stream(hmac, prk, info, m)
    decreases n - m
  {
    if m < n {
      StreamPrefix(hmac, prk, info, m, n - 1);
    }
  }

  /** The output keying material is the first `length` bytes of one fixed stream, for every
      admissible length; every other length is refused. */
  lemma ExpandIsStreamPrefix(hmac: (Bytes, Bytes) -> Bytes32, prk: Bytes, info: Bytes, length: int)
    ensures HkdfExpand(hmac, prk, info, length)
         == if 0 < length <= 8160 then Some(Stream(hmac, prk, info, 255)[..length]) else None
  {
    if 0 < length <= 8160 {
      var n := (length + 31) / 32;
      assert Stream(hmac, prk, info, 0) == [] == T(hmac, prk, info, 0);
      FoldIsStream(hmac, prk, info, 1, n);
      StreamPrefix(hmac, prk, info, n, 255);
      var s := Stream(hmac, prk, info, 255);
      assert s[..length] == s[..32 * n][..length];
    }
  }

  lemma ExpandPrefixMonotone(hmac: (Bytes, Bytes) -> Bytes32, prk: Bytes, info: Bytes, short: int, long: int)
    requires 0 < short <= long <= 8160
    ensures HkdfExpand(hmac, prk, info, long).Some? && |HkdfExpand(hmac, prk, info, long).value| == long
    ensures HkdfExpand(hmac, prk, info, short) == Some(HkdfExpand(hmac, prk, info, long).value[..short])
  {
    ExpandIsStreamPrefix(hmac, prk, info, short);
    ExpandIsStreamPrefix(hmac, prk, info, long);
    var s := Stream(hmac, prk, info, 255);
    assert s[..short] == s[..long][..short];
  }

  lemma StreamBlock(hmac: (Bytes, Bytes) -> Bytes32, prk: Bytes, info: Bytes, i: nat)
    requires 1 <= i <= 255
    ensures Stream(hmac, prk, info, 255)[32 * (i - 1)..32 * i] == T(hmac, prk, info, i)
  {
    var s := Stream(hmac, prk, info, 255);
    StreamPrefix(hmac, prk, info, i, 255);
    assert s[32 * (i - 1)..32 * i] == s[..32 * i][32 * (i - 1)..];
  }

  /** The first two blocks, from the input keying material on: the salt defaults to zeros, every block
      is keyed with the extracted key, and covers the block before, the info and its own number. */
  lemma HkdfStart(hmac: (Bytes, Bytes) -> Bytes32, ikm: Bytes, info: Bytes, salt: Bytes)
    ensures
      var prk := hmac(if salt == [] then Zeros(32) else salt, ikm);
      var t1: Bytes := hmac(prk, info + [1]);
      var t2: Bytes := hmac(prk, t1 + info + [2]);
      Hkdf(hmac, ikm, info, 64, salt) == Some(t1 + t2)
  {
    var prk := HkdfExtract(hmac, salt, ikm);
    ExpandIsStreamPrefix(hmac, prk, info, 64);
    StreamPrefix(hmac, prk, info, 2, 255);
    FirstTwoBlocks(hmac, prk, info);
  }

  lemma FirstTwoBlocks(hmac: (Bytes, Bytes) -> Bytes32, prk: Bytes, info: Bytes)
    ensures
      var t1: Bytes := hmac(prk, info + [1]);
      var t2: Bytes := hmac(prk, t1 + info + [2]);
      T(hmac, prk, info, 1) == t1 && T(hmac, prk, info, 2) == t2 && Stream(hmac, prk, info, 2) == t1 + t2
  {
    assert T(hmac, prk, info, 0) + info == info;
    assert Stream(hmac, prk, info, 1) == T(hmac, prk, info, 1);
  }

  // ---- The splits of derived key material ----

  datatype MediaKeys = MediaKeys(iv: Bytes, cipherKey: Bytes, macKey: Bytes, refKey: Bytes)

  function ExpandMediaKey(hmac: (Bytes, Bytes) -> Bytes32, mediaKey: Bytes, info: Bytes): MediaKeys {
    var okm := Hkdf(hmac, mediaKey, info, 112, []).value;
    MediaKeys(okm[..16], okm[16..48], okm[48..80], okm[80..112])
  }

  datatype SyncdKeys = SyncdKeys(index: Bytes, valueEncryption: Bytes, valueMac: Bytes, snapshotMac: Bytes,
                                 patchMac: Bytes)

  function ExpandAppStateKeys(hmac: (Bytes, Bytes) -> Bytes32, keyData: Bytes, info: Bytes): SyncdKeys {
    var okm := Hkdf(hmac, keyData, info, 160, []).value;
    SyncdKeys(okm[..32], okm[32..64], okm[64..96], okm[96..128], okm[128..160])
  }

  /** The two 32-byte halves every Noise key derivation cuts its 64 bytes into. */
  function HkdfPair(hmac: (Bytes, Bytes) -> Bytes32, salt: Bytes, data: Bytes): (Bytes32, Bytes32) {
    var okm := Hkdf(hmac, data, [], 64, salt).value;
    (okm[..32], okm[32..])
  }

  /** The media split reads T(1)..T(4) without gap or overlap: iv and keys straddle the blocks. */
  lemma MediaKeysTileTheStream(hmac: (Bytes, Bytes) -> Bytes32, mediaKey: Bytes, info: Bytes)
    ensures
      var prk := hmac(Zeros(32), mediaKey);
      var k := ExpandMediaKey(hmac, mediaKey, info);
      && |k.iv| == 16 && |k.cipherKey| == |k.macKey| == |k.refKey| == 32
      && k.iv == T(hmac, prk, info, 1)[..16]
      && k.cipherKey == T(hmac, prk, info, 1)[16..] + T(hmac, prk, info, 2)[..16]
      && k.macKey == T(hmac, prk, info, 2)[16..] + T(hmac, prk, info, 3)[..16]
      && k.refKey == T(hmac, prk, info, 3)[16..] + T(hmac, prk, info, 4)[..16]
  {
    var prk := hmac(Zeros(32), mediaKey);
    var s := Stream(hmac, prk, info, 255);
    ExpandIsStreamPrefix(hmac, prk, info, 112);
    FourBlocks(hmac, prk, info);
    var k := ExpandMediaKey(hmac, mediaKey, info);
    assert k.iv == s[..16] && k.cipherKey == s[16..48] && k.macKey == s[48..80] && k.refKey == s[80..112];
    assert s[..16] == s[0..32][..16];
    assert s[16..48] == s[0..32][16..] + s[32..64][..16];
    assert s[48..80] == s[32..64][16..] + s[64..96][..16];
    assert s[80..112] == s[64..96][16..] + s[96..128][..16];
  }

  lemma FourBlocks(hmac: (Bytes, Bytes) -> Bytes32, prk: Bytes, info: Bytes)
    ensures
      var s := Stream(hmac, prk, info, 255);
      && s[0..32] == T(hmac, prk, info, 1) && s[32..64] == T(hmac, prk, info, 2)
      && s[64..96] == T(hmac, prk, info, 3) && s[96..128] == T(hmac, prk, info, 4)
  {
    StreamBlock(hmac, prk, info, 1);
    StreamBlock(hmac, prk, info, 2);
    StreamBlock(hmac, prk, info, 3);
    StreamBlock(hmac, prk, info, 4);
  }

  /** The five Syncd subkeys are exactly the first five blocks. */
  lemma SyncdKeysAreBlocks(hmac: (Bytes, Bytes) -> Bytes32, keyData: Bytes, info: Bytes)
    ensures
      var prk := hmac(Zeros(32), keyData);
      ExpandAppStateKeys(hmac, keyData, info)
      == SyncdKeys(T(hmac, prk, info, 1), T(hmac, prk, info, 2), T(hmac, prk, info, 3), T(hmac, prk, info, 4),
                   T(hmac, prk, info, 5))
  {
    var prk := hmac(Zeros(32), keyData);
    var s := Stream(hmac, prk, info, 255);
    ExpandIsStreamPrefix(hmac, prk, info, 160);
    FourBlocks(hmac, prk, info);
    StreamBlock(hmac, prk, info, 5);
    var k := ExpandAppStateKeys(hmac, keyData, info);
    assert k.index == s[0..32] && k.valueEncryption == s[32..64] && k.valueMac == s[64..96];
    assert k.snapshotMac == s[96..128] && k.patchMac == s[128..160];
  }

  // ---- PKCS7 ----

  function Repeat(b: Byte, n: nat): (r: Bytes)
    ensures |r| == n && forall i :: 0 <= i < n ==> r[i] == b
  {
    seq(n, _ => b)
  }

  function PadLength(data: Bytes, blockSize: nat): (n: nat)
    requires blockSize > 0
    ensures 1 <= n <= blockSize
  {
    blockSize - |data| % blockSize
  }

  /** `<<pad_len>>` keeps only the low byte of the pad length. */
  function Pkcs7Pad(data: Bytes, blockSize: nat): Bytes
    requires blockSize > 0
  {
    var padLen := PadLength(data, blockSize);
    data + Repeat(padLen % 256, padLen)
  }

  datatype CryptoError = InvalidPadding | DecryptFailed | MatchError

  lemma AtLeastOneBlock(n: nat, b: nat)
    requires b > 0 && n > 0 && n % b == 0
    ensures n >= b
  {
    if n < b { DivRemUnique(n, b, 0, n); }
  }

  function Pkcs7Unpad(data: Bytes, blockSize: nat): (r: Result<Bytes, CryptoError>)
    requires blockSize > 0
    ensures r.Err? ==> r.error == InvalidPadding
  {
    var size := |data|;
    if size == 0 || size % blockSize != 0 then Err(InvalidPadding)
    else
      assert size >= blockSize by { AtLeastOneBlock(size, blockSize); }
      var padLen := data[size - 1];
      if padLen < 1 || padLen > blockSize then Err(InvalidPadding)
      else if data[size - padLen..] == Repeat(padLen, padLen) then Ok(data[..size - padLen])
      else Err(InvalidPadding)
  }

  /** Cutting p bytes (at most one block) off whole blocks leaves data whose pad length is p. */
  lemma PadLengthOfCut(n: nat, p: nat, b: nat)
    requires b > 0 && n % b == 0 && 1 <= p <= b
    ensures b - (n - p) % b == p
  {
    var q := n / b;
    assert n == b * q;
    if p == b {
      assert n - p == b * (q - 1) + 0;
      DivRemUnique(n - p, b, q - 1, 0);
    } else {
      assert n - p == b * (q - 1) + (b - p);
      DivRemUnique(n - p, b, q - 1, b - p);
    }
  }

  lemma PaddedSize(data: Bytes, b: nat)
    requires b > 0
    ensures |Pkcs7Pad(data, b)| == b * (|data| / b + 1)
    ensures |Pkcs7Pad(data, b)| % b == 0
  {
    var n := |data|;
    assert n == b * (n / b) + n % b;
    assert b * (n / b + 1) == b * (n / b) + b;
    DivRemUnique(b * (n / b + 1), b, n / b + 1, 0);
  }

  lemma PadThenUnpad(d: Bytes, b: nat)
    requires b > 0 && PadLength(d, b) <= 255
    ensures Pkcs7Unpad(Pkcs7Pad(d, b), b) == Ok(d)
  {
    PaddedSize(d, b);
    var p, x := PadLength(d, b), Pkcs7Pad(d, b);
    assert p % 256 == p;
    assert x[|x| - p..] == Repeat(p, p) && x[..|x| - p] == d;
  }

  lemma UnpadThenPad(x: Bytes, d: Bytes, b: nat)
    requires b > 0 && Pkcs7Unpad(x, b) == Ok(d)
    ensures PadLength(d, b) <= 255 && x == Pkcs7Pad(d, b)
  {
    var p: nat := x[|x| - 1];
    AtLeastOneBlock(|x|, b);
    var cut := |x| - p;
    assert d == x[..cut] && x[cut..] == Repeat(p, p);
    assert x == x[..cut] + x[cut..];
    assert PadLength(d, b) == p by { PadLengthOfCut(|x|, p, b); }
    assert p % 256 == p;
  }

  /** Unpadding accepts exactly the padded strings, and gives back what was padded. The side
      condition is the single pad byte: it can fail only for block sizes above 255. */
  lemma UnpadInvertsPad(x: Bytes, d: Bytes, b: nat)
    requires b > 0
    ensures Pkcs7Unpad(x, b) == Ok(d) <==> x == Pkcs7Pad(d, b) && PadLength(d, b) <= 255
  {
    if PadLength(d, b) <= 255 { PadThenUnpad(d, b); }
    if Pkcs7Unpad(x, b) == Ok(d) { UnpadThenPad(x, d, b); }
  }

  /** Whole blocks that start with the data and go on with the number of bytes that is added, at least
      one and at most a block of them. */
  predicate PaddedForm(x: Bytes, d: Bytes, b: nat)
    requires b > 0
  {
    && d <= x
    && |x| % b == 0
    && 0 < |x| - |d| <= b
    && forall i :: |d| <= i < |x| ==> x[i] == |x| - |d|
  }

  /** That form is what padding gives, and nothing else has it. */
  lemma PadHasForm(x: Bytes, d: Bytes, b: nat)
    requires 0 < b <= 255
    ensures x == Pkcs7Pad(d, b) <==> PaddedForm(x, d, b)
  {
    PaddedSize(d, b);
    if PaddedForm(x, d, b) {
      var p := |x| - |d|;
      PadLengthOfCut(|x|, p, b);
      assert x[|d|..] == Repeat(p, p);
      assert x == x[..|d|] + x[|d|..];
    }
  }

  // ---- AES-256-CBC and AES-256-GCM ----

  function AesCbcEncrypt(c: Primitives, key: Bytes, iv: Bytes, plaintext: Bytes): Bytes {
    c.cbcEncrypt(key, iv, Pkcs7Pad(plaintext, 16))
  }

  /** A primitive that raises is rescued into the same error as bad padding. */
  function AesCbcDecrypt(c: Primitives, key: Bytes, iv: Bytes, ciphertext: Bytes): (r: Result<Bytes, CryptoError>)
    ensures r.Err? ==> r.error == DecryptFailed
  {
    match c.cbcDecrypt(key, iv, ciphertext)
    case None => Err(DecryptFailed)
    case Some(padded) =>
      match Pkcs7Unpad(padded, 16)
      case Ok(plaintext) => Ok(plaintext)
      case Err(_) => Err(DecryptFailed)
  }

  /** Under one key and iv a ciphertext decrypts to p exactly when it is the encryption of p. */
  lemma CbcDecryptIffEncrypted(c: Primitives, key: Bytes, iv: Bytes, p: Bytes, ct: Bytes)
    requires c.Lawful()
    ensures AesCbcDecrypt(c, key, iv, ct) == Ok(p) <==> ct == AesCbcEncrypt(c, key, iv, p)
    ensures |AesCbcEncrypt(c, key, iv, p)| == 16 * (|p| / 16 + 1)
  {
    PaddedSize(p, 16);
    var padded := Pkcs7Pad(p, 16);
    UnpadInvertsPad(padded, p, 16);
    assert c.CbcKeepsLength(key, iv, padded) && c.CbcInverts(key, iv, padded, ct);
    if AesCbcDecrypt(c, key, iv, ct) == Ok(p) {
      var x := c.cbcDecrypt(key, iv, ct).value;
      assert c.CbcInverts(key, iv, x, ct);
      UnpadInvertsPad(x, p, 16);
    }
    if ct == AesCbcEncrypt(c, key, iv, p) {
      assert c.cbcDecrypt(key, iv, ct) == Some(padded);
    }
  }

  /** What the block cipher is given is the plaintext in its padded form. */
  lemma CbcEncryptsPadded(c: Primitives, key: Bytes, iv: Bytes, p: Bytes)
    requires c.Lawful()
    ensures
      var x := c.cbcDecrypt(key, iv, AesCbcEncrypt(c, key, iv, p));
      x.Some? && PaddedForm(x.value, p, 16)
  {
    var x := Pkcs7Pad(p, 16);
    PaddedSize(p, 16);
    PadHasForm(x, p, 16);
    assert c.CbcInverts(key, iv, x, AesCbcEncrypt(c, key, iv, p));
  }

  function AesGcmEncrypt(c: Primitives, key: Bytes, iv: Bytes, plaintext: Bytes, aad: Bytes): Bytes {
    var (ciphertext, tag) := c.gcmSeal(key, iv, plaintext, aad);
    ciphertext + tag
  }

  /** An input shorter than the tag does not match the binary pattern. */
  function AesGcmDecrypt(c: Primitives, key: Bytes, iv: Bytes, sealed: Bytes, aad: Bytes)
    : (r: Result<Bytes, CryptoError>)
    ensures r.Err? ==> r.error == if |sealed| < 16 then MatchError else DecryptFailed
  {
    if |sealed| < 16 then Err(MatchError)
    else
      match c.gcmOpen(key, iv, sealed[..|sealed| - 16], aad, sealed[|sealed| - 16..])
      case None => Err(DecryptFailed)
      case Some(plaintext) => Ok(plaintext)
  }

  /** Under one key, iv and associated data a sealed string opens to p exactly when it is p sealed. */
  lemma GcmDecryptIffEncrypted(c: Primitives, key: Bytes, iv: Bytes, p: Bytes, aad: Bytes, sealed: Bytes)
    requires c.Lawful()
    ensures AesGcmDecrypt(c, key, iv, sealed, aad) == Ok(p) <==> sealed == AesGcmEncrypt(c, key, iv, p, aad)
    ensures |AesGcmEncrypt(c, key, iv, p, aad)| == |p| + 16
  {
    var (ct, tag) := c.gcmSeal(key, iv, p, aad);
    assert c.GcmKeepsLength(key, iv, p, aad);
    if |sealed| >= 16 {
      var cut := |sealed| - 16;
      assert sealed == sealed[..cut] + sealed[cut..];
      assert c.GcmInverts(key, iv, p, aad, sealed[..cut], sealed[cut..]);
      if sealed == ct + tag {
        assert sealed[..cut] == ct && sealed[cut..] == tag;
      }
    }
  }

  /** The ciphertext comes first and its 16-byte tag behind it. */
  lemma GcmTagIsLast(c: Primitives, key: Bytes, iv: Bytes, p: Bytes, aad: Bytes)
    requires c.Lawful()
    ensures
      var sealed := AesGcmEncrypt(c, key, iv, p, aad);
      |sealed| == |p| + 16 && c.gcmOpen(key, iv, sealed[..|p|], aad, sealed[|p|..]) == Some(p)
  {
    var (ct, tag) := c.gcmSeal(key, iv, p, aad);
    assert c.GcmKeepsLength(key, iv, p, aad);
    assert c.GcmInverts(key, iv, p, aad, ct, tag);
    assert (ct + tag)[..|p|] == ct && (ct + tag)[|p|..] == tag;
  }
}
