/** The byte strings under the Syncd MACs (dev/scripts/generate_syncd_vectors.mjs): which inputs give
    the same string, so that a MAC over it says which input was meant. */
module SyncdMac {
  import opened Octets

  type HmacSha512 = (Bytes, Bytes) -> Bytes64

  type HmacSha256 = (Bytes, Bytes) -> Bytes32

  // ---- Value MAC: opByte | keyId | data | seven zeros and a length byte ----

  function OpByte(operation: int): Byte {
    if operation == 0 then 0x01 else 0x02
  }

  /** Storing a number into a Buffer keeps its low byte. */
  function ValueMacInput(operation: int, data: Bytes, keyId: Bytes): Bytes {
    [OpByte(operation)] + keyId + data + Zeros(7) + [(1 + |keyId|) % 256]
  }

  method GenerateMac(hmac: HmacSha512, operation: int, data: Bytes, keyId: Bytes, key: Bytes) returns (mac: Bytes)
    ensures mac == hmac(key, ValueMacInput(operation, data, keyId))[..32]
  {
    var keyData := new Byte[1 + |keyId|](i => 0);
    keyData[0] := OpByte(operation);
    forall i | 0 <= i < |keyId| { keyData[1 + i] := keyId[i]; }
    var last := new Byte[8](i => 0);
    last[7] := keyData.Length % 256;
    assert keyData[..] == [OpByte(operation)] + keyId;
    assert last[..] == Zeros(7) + [(1 + |keyId|) % 256];
    assert keyData[..] + data + last[..] == ValueMacInput(operation, data, keyId);
    mac := hmac(key, keyData[..] + data + last[..])[..32];
  }

  lemma ValueMacFields(op: int, data: Bytes, keyId: Bytes)
    ensures
      var x := ValueMacInput(op, data, keyId);
      && |x| == 9 + |keyId + data| && x[0] == OpByte(op) && x[1..|x| - 8] == keyId + data
      && x[|x| - 8..] == Zeros(7) + [(1 + |keyId|) % 256] && x[|x| - 1] == (1 + |keyId|) % 256
  {
    var x, body, tail := ValueMacInput(op, data, keyId), keyId + data, Zeros(7) + [(1 + |keyId|) % 256];
    assert x == [OpByte(op)] + body + tail;
  }

  /** Where each field of the string is, and which byte stands for which operation. */
  lemma ValueMacLayout(op: int, data: Bytes, keyId: Bytes)
    ensures
      var x := ValueMacInput(op, data, keyId);
      var n := |keyId|;
      && |x| == 1 + n + |data| + 8
      && x[0] == (if op == 0 then 1 else 2)
      && x[1..1 + n] == keyId
      && x[1 + n..1 + n + |data|] == data
      && BE(x[|x| - 8..]) == (1 + n) % 256
  {
    var x, tail := ValueMacInput(op, data, keyId), Zeros(7) + [(1 + |keyId|) % 256];
    FourParts([OpByte(op)], keyId, data, tail);
    assert x == [OpByte(op)] + keyId + data + tail;
    SmallNumber((1 + |keyId|) % 256);
  }

  lemma SmallNumber(b: Byte)
    ensures BE(Zeros(7) + [b]) == b
  {
    ZerosAreZero(7);
    assert (Zeros(7) + [b])[..7] == Zeros(7);
  }

  lemma {:induction false} ZerosAreZero(n: nat)
    ensures BE(Zeros(n)) == 0
  {
    if n > 0 {
      assert Zeros(n)[..n - 1] == Zeros(n - 1);
      ZerosAreZero(n - 1);
    }
  }

  lemma LowByteOfNext(n: nat)
    ensures (1 + n) % 256 == if n % 256 == 255 then 0 else n % 256 + 1
  {
    var q, r := n / 256, n % 256;
    if r == 255 { DivRemUnique(1 + n, 256, q + 1, 0); } else { DivRemUnique(1 + n, 256, q, r + 1); }
  }

  lemma NextLowByte(m: nat, n: nat)
    ensures (1 + m) % 256 == (1 + n) % 256 <==> m % 256 == n % 256
  {
    LowByteOfNext(m);
    LowByteOfNext(n);
  }

  /** Two value-MAC strings coincide exactly when the operation class, the joined key id and data, and
      the key-id length modulo 256 coincide. */
  lemma ValueMacCollidesIff(op: int, data: Bytes, keyId: Bytes, op': int, data': Bytes, keyId': Bytes)
    ensures ValueMacInput(op, data, keyId) == ValueMacInput(op', data', keyId')
       <==> OpByte(op) == OpByte(op') && keyId + data == keyId' + data' && |keyId| % 256 == |keyId'| % 256
  {
    ValueMacFields(op, data, keyId);
    ValueMacFields(op', data', keyId');
    NextLowByte(|keyId|, |keyId'|);
    var x, x' := ValueMacInput(op, data, keyId), ValueMacInput(op', data', keyId');
    assert x == [x[0]] + x[1..|x| - 8] + x[|x| - 8..];
    assert x' == [x'[0]] + x'[1..|x'| - 8] + x'[|x'| - 8..];
  }

  /** Up to 255-byte key ids the string determines the operation class, the key id and the data,
      although nothing separates key id and data. */
  lemma ValueMacDecodable(op: int, data: Bytes, keyId: Bytes, op': int, data': Bytes, keyId': Bytes)
    requires |keyId| <= 255 && |keyId'| <= 255
    requires ValueMacInput(op, data, keyId) == ValueMacInput(op', data', keyId')
    ensures OpByte(op) == OpByte(op') && keyId == keyId' && data == data'
  {
    ValueMacCollidesIff(op, data, keyId, op', data', keyId');
    assert |keyId| == |keyId'|;
    assert keyId == (keyId + data)[..|keyId|] && data == (keyId + data)[|keyId|..];
    assert keyId' == (keyId' + data')[..|keyId'|] && data' == (keyId' + data')[|keyId'|..];
  }

  /** The bound is exact: the empty key id and a 256-byte one already clash. */
  lemma ValueMacClashAt256(op: int, text: Bytes)
    requires |text| == 256
    ensures ValueMacInput(op, text, []) == ValueMacInput(op, [], text)
  {
    assert [] + text == text + [];
    ValueMacCollidesIff(op, text, [], op, [], text);
  }

  // ---- Patch MAC: snapshotMac | valueMacs... | version | type ----

  const VERSION_LIMIT := 0x1_0000_0000

  type Version = v: nat | v < VERSION_LIMIT

  function NetworkOrder(version: Version): (b: Bytes)
    ensures |b| == 8
  {
    Zeros(4) + ToBE(version, 4)
  }

  /** The version as a big-endian 64-bit number. */
  lemma NetworkOrderValue(version: Version)
    ensures BE(NetworkOrder(version)) == version
  {
    BEOfToBE(version, 4);
    assert Pow256(4) == VERSION_LIMIT;
    DivRemUnique(version, VERSION_LIMIT, 0, version);
    ZerosInFront(4, ToBE(version, 4));
  }

  lemma {:induction false} ZerosInFront(n: nat, b: Bytes)
    ensures BE(Zeros(n) + b) == BE(b)
    decreases |b|
  {
    var x := Zeros(n) + b;
    if b == [] {
      assert x == Zeros(n);
      ZerosAreZero(n);
    } else {
      assert x[..|x| - 1] == Zeros(n) + b[..|b| - 1];
      ZerosInFront(n, b[..|b| - 1]);
    }
  }

  /** writeUInt32BE throws outside its range. */
  method To64BitNetworkOrder(e: int) returns (r: Option<array<Byte>>)
    ensures r.Some? <==> 0 <= e < VERSION_LIMIT
    ensures r.Some? ==> fresh(r.value) && r.value[..] == NetworkOrder(e)
  {
    if e < 0 || e >= VERSION_LIMIT { return None; }
    var buff := new Byte[8](i => 0);
    var word := ToBE(e, 4);
    forall i | 0 <= i < 4 { buff[4 + i] := word[i]; }
    return Some(buff);
  }

  function Join(macs: seq<Bytes32>): (b: Bytes)
    ensures |b| == 32 * |macs|
  {
    if macs == [] then [] else macs[0] + Join(macs[1..])
  }

  function PatchMacInput(snapshotMac: Bytes32, valueMacs: seq<Bytes32>, version: Version, name: Bytes): Bytes {
    snapshotMac + Join(valueMacs) + NetworkOrder(version) + name
  }

  function GeneratePatchMac(hmac: HmacSha256, snapshotMac: Bytes32, valueMacs: seq<Bytes32>, version: Version,
                            name: Bytes, key: Bytes): Bytes32 {
    hmac(key, PatchMacInput(snapshotMac, valueMacs, version, name))
  }

  lemma NetworkOrderInjective(v: Version, v': Version)
    requires NetworkOrder(v) == NetworkOrder(v')
    ensures v == v'
  {
    var word, word' := ToBE(v, 4), ToBE(v', 4);
    assert (Zeros(4) + word)[4..] == word && (Zeros(4) + word')[4..] == word';
    ToBEInjective(v, v', 4);
    assert Pow256(4) == VERSION_LIMIT;
    DivRemUnique(v, VERSION_LIMIT, 0, v);
    DivRemUnique(v', VERSION_LIMIT, 0, v');
  }

  lemma {:induction false} JoinInjective(a: seq<Bytes32>, b: seq<Bytes32>)
    requires Join(a) == Join(b)
    ensures a == b
  {
    if a != [] {
      assert |b| == |a|;
      assert a[0] == Join(a)[..32] && Join(a[1..]) == Join(a)[32..];
      assert b[0] == Join(b)[..32] && Join(b[1..]) == Join(b)[32..];
      JoinInjective(a[1..], b[1..]);
      assert a == [a[0]] + a[1..] && b == [b[0]] + b[1..];
    }
  }

  lemma FourParts(a: Bytes, b: Bytes, c: Bytes, d: Bytes)
    ensures
      var x := a + b + c + d;
      var i, j := |a| + |b|, |a| + |b| + |c|;
      |x| == j + |d| && x[..|a|] == a && x[|a|..i] == b && x[i..j] == c && x[j..] == d
  {
  }

  /** Where each field sits in the string. */
  lemma PatchMacFields(snapshotMac: Bytes32, valueMacs: seq<Bytes32>, version: Version, name: Bytes)
    ensures
      var x := PatchMacInput(snapshotMac, valueMacs, version, name);
      var end := 32 + 32 * |valueMacs|;
      && |x| == end + 8 + |name|
      && x[..32] == snapshotMac && x[32..end] == Join(valueMacs) && x[end..end + 8] == NetworkOrder(version)
      && x[end + 8..] == name
  {
    FourParts(snapshotMac, Join(valueMacs), NetworkOrder(version), name);
  }

  lemma {:induction false} JoinAt(macs: seq<Bytes32>, i: nat)
    requires i < |macs|
    ensures Join(macs)[32 * i..32 * i + 32] == macs[i]
    decreases i
  {
    if i > 0 {
      JoinAt(macs[1..], i - 1);
      var b, rest := Join(macs), Join(macs[1..]);
      assert b == macs[0] + rest;
      assert b[32 * i..32 * i + 32] == b[32..][32 * i - 32..32 * i];
    }
  }

  /** The string is the snapshot MAC, the value MACs in order, the big-endian version and the name, and
      the patch MAC is its HMAC. */
  lemma PatchMacLayout(hmac: HmacSha256, sm: Bytes32, macs: seq<Bytes32>, v: Version, name: Bytes, key: Bytes)
    returns (x: Bytes)
    ensures GeneratePatchMac(hmac, sm, macs, v, name, key) == hmac(key, x)
    ensures |x| == 32 + 32 * |macs| + 8 + |name|
    ensures x[..32] == sm
    ensures forall i {:trigger macs[i]} :: 0 <= i < |macs| ==> x[32 + 32 * i..64 + 32 * i] == macs[i]
    ensures BE(x[32 + 32 * |macs|..40 + 32 * |macs|]) == v
    ensures x[40 + 32 * |macs|..] == name
  {
    x := PatchMacInput(sm, macs, v, name);
    PatchMacFields(sm, macs, v, name);
    NetworkOrderValue(v);
    forall i | 0 <= i < |macs| ensures x[32 + 32 * i..64 + 32 * i] == macs[i] {
      JoinAt(macs, i);
      assert x[32 + 32 * i..64 + 32 * i] == x[32..32 + 32 * |macs|][32 * i..32 * i + 32];
    }
  }

  /** With names of one length every field is recovered. */
  lemma SameLengthNamesDecode(sm: Bytes32, macs: seq<Bytes32>, v: Version, name: Bytes, sm': Bytes32,
                              macs': seq<Bytes32>, v': Version, name': Bytes)
    requires |name| == |name'|
    requires PatchMacInput(sm, macs, v, name) == PatchMacInput(sm', macs', v', name')
    ensures sm == sm' && macs == macs' && v == v' && name == name'
  {
    PatchMacFields(sm, macs, v, name);
    PatchMacFields(sm', macs', v', name');
    JoinInjective(macs, macs');
    NetworkOrderInjective(v, v');
  }

  /** The longer name is the shorter one behind a whole number of MACs' worth of bytes, the last eight
      of which read as a version. */
  predicate Confusable(short: Bytes, long: Bytes) {
    && |short| < |long|
    && (|long| - |short|) % 32 == 0
    && var cut := |long| - |short|;
       cut >= 32 && long[cut..] == short && long[cut - 8..cut - 4] == Zeros(4)
  }

  lemma LongerNameIsConfusable(sm: Bytes32, macs: seq<Bytes32>, v: Version, name: Bytes, sm': Bytes32,
                               macs': seq<Bytes32>, v': Version, name': Bytes)
    requires |name| < |name'|
    requires PatchMacInput(sm, macs, v, name) == PatchMacInput(sm', macs', v', name')
    ensures Confusable(name, name')
  {
    PatchMacFields(sm, macs, v, name);
    PatchMacFields(sm', macs', v', name');
    var x := PatchMacInput(sm, macs, v, name);
    var end, end', cut := 32 + 32 * |macs|, 32 + 32 * |macs'|, |name'| - |name|;
    assert cut == 32 * (|macs| - |macs'|);
    assert name'[cut..] == x[end' + 8 + cut..] == x[end + 8..] == name;
    assert name'[cut - 8..cut - 4] == x[end' + cut..end' + cut + 4] == x[end..end + 4];
    assert x[end..end + 4] == x[end..end + 8][..4] == NetworkOrder(v)[..4] == Zeros(4);
  }

  function Split(b: Bytes): (macs: seq<Bytes32>)
    requires |b| % 32 == 0
    ensures Join(macs) == b
  {
    if b == [] then []
    else
      var macs := [b[..32]] + Split(b[32..]);
      assert macs[1..] == Split(b[32..]);
      macs
  }

  /** Where a confusable longer name hides a version. */
  lemma HiddenVersion(short: Bytes, long: Bytes) returns (v: Version)
    requires Confusable(short, long)
    ensures long == long[..|long| - |short| - 8] + NetworkOrder(v) + short
  {
    var cut := |long| - |short|;
    var word := long[cut - 4..cut];
    BEOfWord(word);
    v := BE(word);
    assert long[cut - 8..cut] == long[cut - 8..cut - 4] + word;
    assert long == long[..cut - 8] + long[cut - 8..cut] + long[cut..];
  }

  lemma Regroup(a: Bytes, b: Bytes, c: Bytes, d: Bytes, e: Bytes)
    ensures a + (b + c) + d + e == a + b + (c + d + e)
  {
  }

  /** A confusable pair of names does have two inputs with one string. */
  lemma ConfusableNamesClash(short: Bytes, long: Bytes) returns (macs: seq<Bytes32>, v: Version)
    requires Confusable(short, long)
    ensures PatchMacInput(Zeros(32), macs, v, short) == PatchMacInput(Zeros(32), [], 0, long)
  {
    v := HiddenVersion(short, long);
    var head := long[..|long| - |short| - 8];
    macs := Split(NetworkOrder(0) + head);
    Regroup(Zeros(32), NetworkOrder(0), head, NetworkOrder(v), short);
    assert Zeros(32) + Join([]) == Zeros(32);
  }

  lemma BEOfWord(word: Bytes)
    requires |word| == 4
    ensures BE(word) < VERSION_LIMIT && ToBE(BE(word), 4) == word
  {
    ToBEOfBE(word);
    assert Pow256(4) == VERSION_LIMIT;
  }

  /** Two inputs of the patch MAC with these names that give one string without being one input. */
  ghost predicate Ambiguous(name: Bytes, name': Bytes) {
    exists sm: Bytes32, macs: seq<Bytes32>, v: Version, sm': Bytes32, macs': seq<Bytes32>, v': Version ::
      && PatchMacInput(sm, macs, v, name) == PatchMacInput(sm', macs', v', name')
      && (sm, macs, v, name) != (sm', macs', v', name')
  }

  /** The patch-MAC string determines snapshot MAC, value MACs (number, order and values), version and
      name, for exactly those pairs of names that are not confusable. */
  lemma PatchMacAmbiguousIff(name: Bytes, name': Bytes)
    ensures Ambiguous(name, name') <==> Confusable(name, name') || Confusable(name', name)
  {
    if Ambiguous(name, name') {
      var sm: Bytes32, macs: seq<Bytes32>, v: Version, sm': Bytes32, macs': seq<Bytes32>, v': Version :|
        && PatchMacInput(sm, macs, v, name) == PatchMacInput(sm', macs', v', name')
        && (sm, macs, v, name) != (sm', macs', v', name');
      if |name| < |name'| {
        LongerNameIsConfusable(sm, macs, v, name, sm', macs', v', name');
      } else if |name'| < |name| {
        LongerNameIsConfusable(sm', macs', v', name', sm, macs, v, name);
      } else {
        SameLengthNamesDecode(sm, macs, v, name, sm', macs', v', name');
      }
    }
    if Confusable(name, name') {
      var macs, v := ConfusableNamesClash(name, name');
      var zero: Bytes32, none: seq<Bytes32> := Zeros(32), [];
      assert PatchMacInput(zero, macs, v, name) == PatchMacInput(zero, none, 0, name');
    } else if Confusable(name', name) {
      var macs, v := ConfusableNamesClash(name', name);
      var zero: Bytes32, none: seq<Bytes32> := Zeros(32), [];
      assert PatchMacInput(zero, none, 0, name) == PatchMacInput(zero, macs, v, name');
    }
  }

  /** Names without a zero byte, of whatever lengths, are never confused. */
  lemma TextNamesNeverClash(name: Bytes, name': Bytes)
    requires 0 !in name && 0 !in name'
    ensures !Ambiguous(name, name')
  {
    PatchMacAmbiguousIff(name, name');
    if Confusable(name, name') { ZeroInside(name, name'); }
    if Confusable(name', name) { ZeroInside(name', name); }
  }

  /** Equal patch MACs under one key mean equal snapshot MAC, value MACs, version and name, unless HMAC
      collides on the two strings. */
  lemma PatchMacBinds(hmac: HmacSha256, key: Bytes, sm: Bytes32, macs: seq<Bytes32>, v: Version, name: Bytes,
                      sm': Bytes32, macs': seq<Bytes32>, v': Version, name': Bytes)
    requires !Confusable(name, name') && !Confusable(name', name)
    requires GeneratePatchMac(hmac, sm, macs, v, name, key) == GeneratePatchMac(hmac, sm', macs', v', name', key)
    ensures (sm, macs, v, name) == (sm', macs', v', name')
         || (PatchMacInput(sm, macs, v, name) != PatchMacInput(sm', macs', v', name')
             && hmac(key, PatchMacInput(sm, macs, v, name)) == hmac(key, PatchMacInput(sm', macs', v', name')))
  {
    PatchMacAmbiguousIff(name, name');
  }

  lemma ZeroInside(short: Bytes, long: Bytes)
    requires Confusable(short, long)
    ensures 0 in long
  {
    var cut := |long| - |short|;
    assert long[cut - 8] == long[cut - 8..cut - 4][0];
  }

  // ---- The collections ----

  const COLLECTION_NAMES: seq<string> :=
    ["critical_block", "critical_unblock_low", "regular_high", "regular_low", "regular"]

  lemma CollectionNamesAreText(i: nat)
    requires i < |COLLECTION_NAMES|
    ensures IsText(COLLECTION_NAMES[i])
  {
  }

  /** For any two collections the patch-MAC string says which input it came from. */
  lemma CollectionsNeverClash(i: nat, j: nat)
    requires i < |COLLECTION_NAMES| && j < |COLLECTION_NAMES|
    ensures IsText(COLLECTION_NAMES[i]) && IsText(COLLECTION_NAMES[j])
    ensures !Ambiguous(Utf8(COLLECTION_NAMES[i]), Utf8(COLLECTION_NAMES[j]))
  {
    CollectionNamesAreText(i);
    CollectionNamesAreText(j);
    TextNamesNeverClash(Utf8(COLLECTION_NAMES[i]), Utf8(COLLECTION_NAMES[j]));
  }

  // ---- Snapshot MAC: lthash | version | name ----

  function SnapshotMacInput(ltHash: Bytes, version: Version, name: Bytes): Bytes {
    ltHash + NetworkOrder(version) + name
  }

  function GenerateSnapshotMac(hmac: HmacSha256, ltHash: Bytes, version: Version, name: Bytes, key: Bytes): Bytes32 {
    hmac(key, SnapshotMacInput(ltHash, version, name))
  }

  /** The string is the hash, the big-endian version and the name, and the snapshot MAC is its HMAC. */
  lemma SnapshotMacLayout(hmac: HmacSha256, h: Bytes, v: Version, name: Bytes, key: Bytes) returns (x: Bytes)
    requires |h| == 128
    ensures GenerateSnapshotMac(hmac, h, v, name, key) == hmac(key, x)
    ensures |x| == 136 + |name| && x[..128] == h && BE(x[128..136]) == v && x[136..] == name
  {
    x := SnapshotMacInput(h, v, name);
    NetworkOrderValue(v);
    assert x[..128] == h && x[128..136] == NetworkOrder(v) && x[136..] == name;
  }

  /** The hash has a fixed size, so the string determines every field for every name. */
  lemma SnapshotMacDecodable(h: Bytes, v: Version, name: Bytes, h': Bytes, v': Version, name': Bytes)
    requires |h| == |h'| == 128
    requires SnapshotMacInput(h, v, name) == SnapshotMacInput(h', v', name')
    ensures h == h' && v == v' && name == name'
  {
    var x, x' := SnapshotMacInput(h, v, name), SnapshotMacInput(h', v', name');
    assert x[..128] == h && x[128..136] == NetworkOrder(v) && x[136..] == name;
    assert x'[..128] == h' && x'[128..136] == NetworkOrder(v') && x'[136..] == name';
    NetworkOrderInjective(v, v');
  }
}
