/** The rolling LTHash of the Syncd protocol: the in-place loops of
    dev/scripts/generate_syncd_vectors.mjs, and the generator of lib/baileys_ex/syncd/codec.ex that
    keeps the hash in step with the index-to-value map. */
module LtHash {
  import opened Octets

  type Word = x: int | 0 <= x < 0x1_0000

  type Bytes128 = b: Bytes | |b| == 128 witness Zeros(128)

  type Sha256 = Bytes -> Bytes32

  // ---- The hash as a function ----

  /** SHA-256(i || buf) for i = 0..3. */
  function Expand(sha256: Sha256, buf: Bytes): Bytes128 {
    sha256([0] + buf) + sha256([1] + buf) + sha256([2] + buf) + sha256([3] + buf)
  }

  /** readUInt16LE at the i-th lane. */
  function Lane(b: Bytes128, i: nat): Word
    requires i < 64
  {
    var low: int, high: int := b[2 * i], b[2 * i + 1];
    low + 256 * high
  }

  function LaneSum(sha256: Sha256, buffs: seq<Bytes>, i: nat): nat
    requires i < 64
  {
    if buffs == [] then 0 else Lane(Expand(sha256, buffs[0]), i) + LaneSum(sha256, buffs[1..], i)
  }

  /** What the i-th lane must become: the true difference of sums, reduced once. */
  function LaneAfter(sha256: Sha256, hash: Bytes128, sub: seq<Bytes>, add: seq<Bytes>, i: nat): Word
    requires i < 64
  {
    (Lane(hash, i) - LaneSum(sha256, sub, i) + LaneSum(sha256, add, i)) % 0x1_0000
  }

  function Pack(word: nat -> Word): (b: Bytes128) {
    seq(128, j requires 0 <= j < 128 => if j % 2 == 0 then word(j / 2) % 256 else word(j / 2) / 256)
  }

  function SubtractThenAdd(sha256: Sha256, hash: Bytes128, sub: seq<Bytes>, add: seq<Bytes>): Bytes128 {
    Pack(i => if i < 64 then LaneAfter(sha256, hash, sub, add, i) else 0)
  }

  lemma LaneOfPack(word: nat -> Word, i: nat)
    requires i < 64
    ensures Lane(Pack(word), i) == word(i)
  {
    assert (2 * i) % 2 == 0 && (2 * i) / 2 == i && (2 * i + 1) % 2 == 1 && (2 * i + 1) / 2 == i;
  }

  lemma LaneOfResult(sha256: Sha256, hash: Bytes128, sub: seq<Bytes>, add: seq<Bytes>, i: nat)
    requires i < 64
    ensures Lane(SubtractThenAdd(sha256, hash, sub, add), i) == LaneAfter(sha256, hash, sub, add, i)
  {
    LaneOfPack(k => if k < 64 then LaneAfter(sha256, hash, sub, add, k) else 0, i);
  }

  lemma LanesDetermine(a: Bytes128, b: Bytes128)
    requires forall i: nat {:trigger Lane(a, i)} :: i < 64 ==> Lane(a, i) == Lane(b, i)
    ensures a == b
  {
    forall j | 0 <= j < 128 ensures a[j] == b[j] {
      assert Lane(a, j / 2) == Lane(b, j / 2);
      assert j == 2 * (j / 2) || j == 2 * (j / 2) + 1;
    }
  }

  // ---- The loops ----

  method ExpandLoop(sha256: Sha256, buf: Bytes) returns (expanded: Bytes128)
    ensures expanded == Expand(sha256, buf)
  {
    var parts: seq<Bytes32> := [];
    for i := 0 to 4
      invariant |parts| == i && forall k :: 0 <= k < i ==> parts[k] == sha256([k] + buf)
    {
      var hash := sha256([i] + buf);
      parts := parts + [hash];
    }
    var p0: Bytes, p1: Bytes, p2: Bytes, p3: Bytes := parts[0], parts[1], parts[2], parts[3];
    return p0 + p1 + p2 + p3;
  }

  function Minus(x: Word, y: Word): Word { (x - y) % 0x1_0000 }

  function Plus(x: Word, y: Word): Word { (x + y) % 0x1_0000 }

  /** `x & 0xFFFF`, for negative differences too. */
  method Mask(x: int) returns (r: Word)
    ensures r == x % 0x1_0000
  {
    And0xFFFF(x);
    r := BitAnd(x, 0xffff);
  }

  /** One pass of the inner subtract loop. */
  method SubtractLanes(state: array<Word>, expanded: Bytes128)
    requires state.Length == 64
    modifies state
    ensures forall i :: 0 <= i < 64 ==> state[i] == Minus(old(state[i]), Lane(expanded, i))
  {
    for i := 0 to 64
      invariant forall k :: 0 <= k < i ==> state[k] == Minus(old(state[k]), Lane(expanded, k))
      invariant forall k :: i <= k < 64 ==> state[k] == old(state[k])
    {
      state[i] := Mask(state[i] - Lane(expanded, i));
    }
  }

  method AddLanes(state: array<Word>, expanded: Bytes128)
    requires state.Length == 64
    modifies state
    ensures forall i :: 0 <= i < 64 ==> state[i] == Plus(old(state[i]), Lane(expanded, i))
  {
    for i := 0 to 64
      invariant forall k :: 0 <= k < i ==> state[k] == Plus(old(state[k]), Lane(expanded, k))
      invariant forall k :: i <= k < 64 ==> state[k] == old(state[k])
    {
      state[i] := Mask(state[i] + Lane(expanded, i));
    }
  }

  lemma {:induction false} LaneSumAppend(sha256: Sha256, a: seq<Bytes>, b: seq<Bytes>, i: nat)
    requires i < 64
    ensures LaneSum(sha256, a + b, i) == LaneSum(sha256, a, i) + LaneSum(sha256, b, i)
    decreases |a|
  {
    if a == [] {
      assert a + b == b;
    } else {
      assert (a + b)[1..] == a[1..] + b;
      LaneSumAppend(sha256, a[1..], b, i);
    }
  }

  lemma LaneSumOne(sha256: Sha256, buf: Bytes, i: nat)
    requires i < 64
    ensures LaneSum(sha256, [buf], i) == Lane(Expand(sha256, buf), i)
  {
    var one: seq<Bytes> := [buf];
    assert one[1..] == [];
  }

  lemma LaneSumNext(sha256: Sha256, buffs: seq<Bytes>, n: nat, i: nat)
    requires i < 64 && n < |buffs|
    ensures LaneSum(sha256, buffs[..n + 1], i) == LaneSum(sha256, buffs[..n], i) + Lane(Expand(sha256, buffs[n]), i)
  {
    assert buffs[..n + 1] == buffs[..n] + [buffs[n]];
    LaneSumAppend(sha256, buffs[..n], [buffs[n]], i);
    LaneSumOne(sha256, buffs[n], i);
  }

  lemma ModMinus(x: int, y: int)
    ensures (x % 0x1_0000 - y) % 0x1_0000 == (x - y) % 0x1_0000
  {
  }

  lemma ModPlus(x: int, y: int)
    ensures (x % 0x1_0000 + y) % 0x1_0000 == (x + y) % 0x1_0000
  {
  }

  /** One lane through the loop over `sub`: reduced after every buffer. */
  function SubtractFold(sha256: Sha256, word: Word, sub: seq<Bytes>, i: nat): Word
    requires i < 64
  {
    if sub == [] then word
    else Minus(SubtractFold(sha256, word, sub[..|sub| - 1], i), Lane(Expand(sha256, sub[|sub| - 1]), i))
  }

  function AddFold(sha256: Sha256, word: Word, add: seq<Bytes>, i: nat): Word
    requires i < 64
  {
    if add == [] then word
    else Plus(AddFold(sha256, word, add[..|add| - 1], i), Lane(Expand(sha256, add[|add| - 1]), i))
  }

  lemma {:induction false} SubtractFoldReducesOnce(sha256: Sha256, word: Word, sub: seq<Bytes>, i: nat)
    requires i < 64
    ensures SubtractFold(sha256, word, sub, i) == (word - LaneSum(sha256, sub, i)) % 0x1_0000
  {
    if sub != [] {
      var n := |sub| - 1;
      SubtractFoldReducesOnce(sha256, word, sub[..n], i);
      assert sub[..n + 1] == sub;
      LaneSumNext(sha256, sub, n, i);
      ModMinus(word - LaneSum(sha256, sub[..n], i), Lane(Expand(sha256, sub[n]), i));
    }
  }

  lemma {:induction false} AddFoldReducesOnce(sha256: Sha256, word: Word, add: seq<Bytes>, i: nat)
    requires i < 64
    ensures AddFold(sha256, word, add, i) == (word + LaneSum(sha256, add, i)) % 0x1_0000
  {
    if add != [] {
      var n := |add| - 1;
      AddFoldReducesOnce(sha256, word, add[..n], i);
      assert add[..n + 1] == add;
      LaneSumNext(sha256, add, n, i);
      ModPlus(word + LaneSum(sha256, add[..n], i), Lane(Expand(sha256, add[n]), i));
    }
  }

  method SubtractAll(sha256: Sha256, state: array<Word>, sub: seq<Bytes>)
    requires state.Length == 64
    modifies state
    ensures forall i :: 0 <= i < 64 ==> state[i] == SubtractFold(sha256, old(state[i]), sub, i)
  {
    for n := 0 to |sub|
      invariant forall i :: 0 <= i < 64 ==> state[i] == SubtractFold(sha256, old(state[i]), sub[..n], i)
    {
      var expanded := ExpandLoop(sha256, sub[n]);
      SubtractLanes(state, expanded);
      assert sub[..n + 1][..n] == sub[..n];
    }
    assert sub[..|sub|] == sub;
  }

  method AddAll(sha256: Sha256, state: array<Word>, add: seq<Bytes>)
    requires state.Length == 64
    modifies state
    ensures forall i :: 0 <= i < 64 ==> state[i] == AddFold(sha256, old(state[i]), add, i)
  {
    for n := 0 to |add|
      invariant forall i :: 0 <= i < 64 ==> state[i] == AddFold(sha256, old(state[i]), add[..n], i)
    {
      var expanded := ExpandLoop(sha256, add[n]);
      AddLanes(state, expanded);
      assert add[..n + 1][..n] == add[..n];
    }
    assert add[..|add|] == add;
  }

  /** Reducing after every buffer or once at the end gives the same lane. */
  lemma FoldsAreLaneAfter(sha256: Sha256, hash: Bytes128, sub: seq<Bytes>, add: seq<Bytes>, i: nat)
    requires i < 64
    ensures AddFold(sha256, SubtractFold(sha256, Lane(hash, i), sub, i), add, i) == LaneAfter(sha256, hash, sub, add, i)
  {
    var x := SubtractFold(sha256, Lane(hash, i), sub, i);
    assert x == (Lane(hash, i) - LaneSum(sha256, sub, i)) % 0x1_0000 by {
      SubtractFoldReducesOnce(sha256, Lane(hash, i), sub, i);
    }
    assert AddFold(sha256, x, add, i) == (x + LaneSum(sha256, add, i)) % 0x1_0000 by {
      AddFoldReducesOnce(sha256, x, add, i);
    }
    ModPlus(Lane(hash, i) - LaneSum(sha256, sub, i), LaneSum(sha256, add, i));
  }

  method LtHashSubtractThenAdd(sha256: Sha256, hash: Bytes128, sub: seq<Bytes>, add: seq<Bytes>)
    returns (result: array<Byte>)
    ensures fresh(result) && result[..] == SubtractThenAdd(sha256, hash, sub, add)
  {
    var state := new Word[64](i requires 0 <= i < 64 => Lane(hash, i));
    SubtractAll(sha256, state, sub);
    AddAll(sha256, state, add);
    forall i: nat | i < 64 ensures state[i] == LaneAfter(sha256, hash, sub, add, i) {
      FoldsAreLaneAfter(sha256, hash, sub, add, i);
    }
    result := new Byte[128](i => 0);
    WriteLanes(state, result);
  }

  /** writeUInt16LE of every lane. */
  method WriteLanes(state: array<Word>, result: array<Byte>)
    requires state.Length == 64 && result.Length == 128
    modifies result
    ensures forall j :: 0 <= j < 128 ==> result[j] == if j % 2 == 0 then state[j / 2] % 256 else state[j / 2] / 256
  {
    for i := 0 to 64
      invariant forall j :: 0 <= j < 2 * i ==>
        result[j] == if j % 2 == 0 then state[j / 2] % 256 else state[j / 2] / 256
    {
      result[2 * i] := state[i] % 256;
      result[2 * i + 1] := state[i] / 256;
    }
  }

  // ---- Algebra: order, grouping and cancellation ----

  /** Two results agree when their lanes agree before reduction. */
  lemma SameResult(sha256: Sha256, hash: Bytes128, sub: seq<Bytes>, add: seq<Bytes>, hash': Bytes128, sub': seq<Bytes>,
                   add': seq<Bytes>)
    requires forall i: nat {:trigger LaneAfter(sha256, hash, sub, add, i)} :: i < 64 ==>
      LaneAfter(sha256, hash, sub, add, i) == LaneAfter(sha256, hash', sub', add', i)
    ensures SubtractThenAdd(sha256, hash, sub, add) == SubtractThenAdd(sha256, hash', sub', add')
  {
    forall i: nat | i < 64
      ensures Lane(SubtractThenAdd(sha256, hash, sub, add), i) == Lane(SubtractThenAdd(sha256, hash', sub', add'), i)
    {
      LaneOfResult(sha256, hash, sub, add, i);
      LaneOfResult(sha256, hash', sub', add', i);
    }
    LanesDetermine(SubtractThenAdd(sha256, hash, sub, add), SubtractThenAdd(sha256, hash', sub', add'));
  }

  // ---- What one buffer does, byte by byte ----

  lemma ExpansionBlock(sha256: Sha256, v: Bytes, b: nat)
    requires b < 4
    ensures Expand(sha256, v)[32 * b..32 * b + 32] == sha256([b] + v)
  {
    var d0: Bytes, d1: Bytes, d2: Bytes, d3: Bytes :=
      sha256([0] + v), sha256([1] + v), sha256([2] + v), sha256([3] + v);
    var x := d0 + d1 + d2 + d3;
    assert x[0..32] == d0 && x[32..64] == d1 && x[64..96] == d2 && x[96..128] == d3;
  }

  /** A lane is two bytes of the hash read little-endian. */
  lemma LaneIsLE(b: Bytes128, i: nat)
    requires i < 64
    ensures Lane(b, i) == LE(b[2 * i..2 * i + 2])
  {
    var pair := b[2 * i..2 * i + 2];
    var high := pair[1..];
    assert high[1..] == [] && LE(high) == high[0];
  }

  /** Lane k of block b of the expansion is the k-th little-endian word of SHA-256(b || v). */
  lemma ExpansionLane(sha256: Sha256, v: Bytes, b: nat, k: nat)
    requires b < 4 && k < 16
    ensures Lane(Expand(sha256, v), 16 * b + k) == LE(sha256([b] + v)[2 * k..2 * k + 2])
  {
    ExpansionBlock(sha256, v, b);
    var x := Expand(sha256, v);
    LaneIsLE(x, 16 * b + k);
    assert x[32 * b..32 * b + 32][2 * k..2 * k + 2] == x[2 * (16 * b + k)..2 * (16 * b + k) + 2];
  }

  /** Adding one buffer adds to lane 16*b + k the k-th little-endian word of SHA-256(b || v). */
  lemma AddedLane(sha256: Sha256, hash: Bytes128, v: Bytes, b: nat, k: nat)
    requires b < 4 && k < 16
    ensures
      var i, d, r := 16 * b + k, sha256([b] + v), SubtractThenAdd(sha256, hash, [], [v]);
      LE(r[2 * i..2 * i + 2]) == (LE(hash[2 * i..2 * i + 2]) + LE(d[2 * k..2 * k + 2])) % 0x1_0000
  {
    var i := 16 * b + k;
    ExpansionLane(sha256, v, b, k);
    LaneSumOne(sha256, v, i);
    LaneOfResult(sha256, hash, [], [v], i);
    LaneIsLE(hash, i);
    LaneIsLE(SubtractThenAdd(sha256, hash, [], [v]), i);
  }

  /** And subtracting it takes the same word away. */
  lemma SubtractedLane(sha256: Sha256, hash: Bytes128, v: Bytes, b: nat, k: nat)
    requires b < 4 && k < 16
    ensures
      var i, d, r := 16 * b + k, sha256([b] + v), SubtractThenAdd(sha256, hash, [v], []);
      LE(r[2 * i..2 * i + 2]) == (LE(hash[2 * i..2 * i + 2]) - LE(d[2 * k..2 * k + 2])) % 0x1_0000
  {
    var i := 16 * b + k;
    ExpansionLane(sha256, v, b, k);
    LaneSumOne(sha256, v, i);
    LaneOfResult(sha256, hash, [v], [], i);
    LaneIsLE(hash, i);
    LaneIsLE(SubtractThenAdd(sha256, hash, [v], []), i);
  }

  /** The hash of a single value is its four counter-prefixed digests. */
  lemma SingleValueIsDigests(sha256: Sha256, v: Bytes)
    ensures
      var d0: Bytes, d1: Bytes, d2: Bytes, d3: Bytes :=
        sha256([0] + v), sha256([1] + v), sha256([2] + v), sha256([3] + v);
      SubtractThenAdd(sha256, Zeros(128), [], [v]) == d0 + d1 + d2 + d3
  {
    var x, r := Expand(sha256, v), SubtractThenAdd(sha256, Zeros(128), [], [v]);
    forall i: nat | i < 64 ensures Lane(r, i) == Lane(x, i) {
      LaneSumOne(sha256, v, i);
      LaneOfResult(sha256, Zeros(128), [], [v], i);
    }
    LanesDetermine(r, x);
    forall b: nat | b < 4 ensures x[32 * b..32 * b + 32] == sha256([b] + v) { ExpansionBlock(sha256, v, b); }
    assert x == x[0..32] + x[32..64] + x[64..96] + x[96..128];
  }

  lemma WithoutOne(b: seq<Bytes>, p: nat)
    requires p < |b|
    ensures multiset(b[..p] + b[p + 1..]) == multiset(b) - multiset{b[p]}
  {
    assert b == b[..p] + ([b[p]] + b[p + 1..]);
  }

  lemma LaneSumWithoutOne(sha256: Sha256, b: seq<Bytes>, p: nat, i: nat)
    requires i < 64 && p < |b|
    ensures LaneSum(sha256, b, i) == LaneSum(sha256, b[..p] + b[p + 1..], i) + Lane(Expand(sha256, b[p]), i)
  {
    assert b == b[..p + 1] + b[p + 1..];
    LaneSumAppend(sha256, b[..p + 1], b[p + 1..], i);
    LaneSumNext(sha256, b, p, i);
    LaneSumAppend(sha256, b[..p], b[p + 1..], i);
  }

  /** Where the head of one list sits in a permutation of it. */
  lemma PermutedHead(a: seq<Bytes>, b: seq<Bytes>) returns (p: nat)
    requires a != [] && multiset(a) == multiset(b)
    ensures p < |b| && b[p] == a[0] && multiset(a[1..]) == multiset(b[..p] + b[p + 1..])
  {
    p := Find(b, a[0]) by {
      assert a[0] in multiset(a);
    }
    assert multiset(a[1..]) == multiset(a) - multiset{a[0]} by { assert a == [a[0]] + a[1..]; }
    WithoutOne(b, p);
  }

  lemma Find(b: seq<Bytes>, x: Bytes) returns (p: nat)
    requires x in multiset(b)
    ensures p < |b| && b[p] == x
  {
    p :| p < |b| && b[p] == x;
  }

  lemma {:induction false} LaneSumPermuted(sha256: Sha256, a: seq<Bytes>, b: seq<Bytes>, i: nat)
    requires i < 64 && multiset(a) == multiset(b)
    ensures LaneSum(sha256, a, i) == LaneSum(sha256, b, i)
    decreases |a|
  {
    if a == [] {
      assert |b| == |multiset(b)| == 0;
    } else {
      var p := PermutedHead(a, b);
      LaneSumWithoutOne(sha256, b, p, i);
      LaneSumPermuted(sha256, a[1..], b[..p] + b[p + 1..], i);
    }
  }

  /** The result depends on the multisets of buffers only. */
  lemma OrderDoesNotMatter(sha256: Sha256, hash: Bytes128, sub: seq<Bytes>, add: seq<Bytes>, sub': seq<Bytes>,
                           add': seq<Bytes>)
    requires multiset(sub) == multiset(sub') && multiset(add) == multiset(add')
    ensures SubtractThenAdd(sha256, hash, sub, add) == SubtractThenAdd(sha256, hash, sub', add')
  {
    forall i: nat | i < 64 ensures LaneAfter(sha256, hash, sub, add, i) == LaneAfter(sha256, hash, sub', add', i) {
      LaneSumPermuted(sha256, sub, sub', i);
      LaneSumPermuted(sha256, add, add', i);
    }
    SameResult(sha256, hash, sub, add, hash, sub', add');
  }

  lemma LaneComposes(sha256: Sha256, hash: Bytes128, sub: seq<Bytes>, add: seq<Bytes>, sub': seq<Bytes>,
                     add': seq<Bytes>, i: nat)
    requires i < 64
    ensures LaneAfter(sha256, SubtractThenAdd(sha256, hash, sub, add), sub', add', i)
         == LaneAfter(sha256, hash, sub + sub', add + add', i)
  {
    var x := Lane(hash, i) - LaneSum(sha256, sub, i) + LaneSum(sha256, add, i);
    var y := LaneSum(sha256, add', i) - LaneSum(sha256, sub', i);
    assert Lane(SubtractThenAdd(sha256, hash, sub, add), i) == x % 0x1_0000 by {
      LaneOfResult(sha256, hash, sub, add, i);
    }
    assert Lane(hash, i) - LaneSum(sha256, sub + sub', i) + LaneSum(sha256, add + add', i) == x + y by {
      LaneSumAppend(sha256, sub, sub', i);
      LaneSumAppend(sha256, add, add', i);
    }
    ModPlus(x, y);
  }

  /** Two calls are one call on the concatenated lists. */
  lemma CallsCompose(sha256: Sha256, hash: Bytes128, sub: seq<Bytes>, add: seq<Bytes>, sub': seq<Bytes>,
                     add': seq<Bytes>)
    ensures SubtractThenAdd(sha256, SubtractThenAdd(sha256, hash, sub, add), sub', add')
         == SubtractThenAdd(sha256, hash, sub + sub', add + add')
  {
    var mid := SubtractThenAdd(sha256, hash, sub, add);
    forall i: nat | i < 64
      ensures LaneAfter(sha256, mid, sub', add', i) == LaneAfter(sha256, hash, sub + sub', add + add', i)
    {
      LaneComposes(sha256, hash, sub, add, sub', add', i);
    }
    SameResult(sha256, mid, sub', add', hash, sub + sub', add + add');
  }

  /** Subtracting and adding one multiset of buffers changes nothing. */
  lemma BalancedIsIdentity(sha256: Sha256, hash: Bytes128, sub: seq<Bytes>, add: seq<Bytes>)
    requires multiset(sub) == multiset(add)
    ensures SubtractThenAdd(sha256, hash, sub, add) == hash
  {
    forall i: nat | i < 64 ensures Lane(SubtractThenAdd(sha256, hash, sub, add), i) == Lane(hash, i) {
      LaneOfResult(sha256, hash, sub, add, i);
      LaneSumPermuted(sha256, sub, add, i);
    }
    LanesDetermine(SubtractThenAdd(sha256, hash, sub, add), hash);
  }

  /** What one call adds, a later call subtracting the same buffers in any order takes back. */
  lemma AddThenSubtractCancels(sha256: Sha256, hash: Bytes128, buffs: seq<Bytes>, buffs': seq<Bytes>)
    requires multiset(buffs) == multiset(buffs')
    ensures SubtractThenAdd(sha256, SubtractThenAdd(sha256, hash, [], buffs), buffs', []) == hash
  {
    CallsCompose(sha256, hash, [], buffs, buffs', []);
    assert [] + buffs' == buffs' && buffs + [] == buffs;
    BalancedIsIdentity(sha256, hash, buffs', buffs);
  }

  // ---- The generator of codec.ex ----

  datatype Operation = Set | Remove

  datatype Mutation = Mutation(indexMac: Bytes, valueMac: Bytes, operation: Operation)

  datatype HashState = HashState(hash: Bytes128, indexValueMap: map<Bytes, Bytes>)

  datatype Generator = Generator(indexValueMap: map<Bytes, Bytes>, addBuffs: seq<Bytes>, subBuffs: seq<Bytes>,
                                 hash: Bytes128)

  const NEW_HASH_STATE := HashState(Zeros(128), map[])

  function InitGenerator(s: HashState): Generator {
    Generator(s.indexValueMap, [], [], s.hash)
  }

  /** Buffers are prepended; a removal of an unknown index leaves the generator alone. */
  function MixMutation(gen: Generator, m: Mutation): Generator {
    var known := m.indexMac in gen.indexValueMap;
    var gen' :=
      if m.operation == Remove then
        if !known then gen else gen.(indexValueMap := gen.indexValueMap - {m.indexMac})
      else
        gen.(addBuffs := [m.valueMac] + gen.addBuffs, indexValueMap := gen.indexValueMap[m.indexMac := m.valueMac]);
    if known then gen'.(subBuffs := [gen.indexValueMap[m.indexMac]] + gen'.subBuffs) else gen'
  }

  function Reverse(s: seq<Bytes>): (r: seq<Bytes>)
    ensures multiset(r) == multiset(s)
  {
    if s == [] then []
    else
      assert s == [s[0]] + s[1..];
      Reverse(s[1..]) + [s[0]]
  }

  function FinishGenerator(sha256: Sha256, gen: Generator): HashState {
    HashState(SubtractThenAdd(sha256, gen.hash, Reverse(gen.subBuffs), Reverse(gen.addBuffs)), gen.indexValueMap)
  }

  function MixAll(gen: Generator, mutations: seq<Mutation>): Generator
    decreases |mutations|
  {
    if mutations == [] then gen else MixAll(MixMutation(gen, mutations[0]), mutations[1..])
  }

  /** One patch: all of its mutations go through one generator. */
  function ApplyPatch(sha256: Sha256, s: HashState, mutations: seq<Mutation>): HashState {
    FinishGenerator(sha256, MixAll(InitGenerator(s), mutations))
  }

  function ApplyPatches(sha256: Sha256, s: HashState, patches: seq<seq<Mutation>>): HashState
    decreases |patches|
  {
    if patches == [] then s else ApplyPatches(sha256, ApplyPatch(sha256, s, patches[0]), patches[1..])
  }

  // ---- The reference: a plain map, hashed from scratch ----

  function Replay(m: map<Bytes, Bytes>, mutations: seq<Mutation>): map<Bytes, Bytes>
    decreases |mutations|
  {
    if mutations == [] then m
    else
      var first := mutations[0];
      var m' := if first.operation == Set then m[first.indexMac := first.valueMac] else m - {first.indexMac};
      Replay(m', mutations[1..])
  }

  function Flatten(patches: seq<seq<Mutation>>): seq<Mutation> {
    if patches == [] then [] else patches[0] + Flatten(patches[1..])
  }

  /** The keys of a map, each once, in some order. */
  ghost predicate Lists(keys: seq<Bytes>, m: map<Bytes, Bytes>) {
    && (forall i, j :: 0 <= i < j < |keys| ==> keys[i] != keys[j])
    && (forall k :: k in keys <==> k in m)
  }

  function Values(keys: seq<Bytes>, m: map<Bytes, Bytes>): (v: seq<Bytes>)
    requires forall k :: k in keys ==> k in m
    ensures |v| == |keys|
  {
    seq(|keys|, i requires 0 <= i < |keys| => m[keys[i]])
  }

  /** The hash is the one computed from the zero hash and the map's values, in whatever order. */
  ghost predicate HashesMap(sha256: Sha256, hash: Bytes128, m: map<Bytes, Bytes>) {
    forall keys :: Lists(keys, m) ==> hash == SubtractThenAdd(sha256, Zeros(128), [], Values(keys, m))
  }

  lemma ValuesUnchanged(keys: seq<Bytes>, m: map<Bytes, Bytes>, m': map<Bytes, Bytes>)
    requires forall k :: k in keys ==> k in m && k in m' && m[k] == m'[k]
    ensures Values(keys, m) == Values(keys, m')
  {
    forall i | 0 <= i < |keys| ensures Values(keys, m)[i] == Values(keys, m')[i] {
      assert keys[i] in keys;
    }
  }

  lemma ValuesAppend(a: seq<Bytes>, b: seq<Bytes>, m: map<Bytes, Bytes>)
    requires forall k :: k in a || k in b ==> k in m
    ensures Values(a + b, m) == Values(a, m) + Values(b, m)
  {
  }

  /** Taking one key out of a listing lists the map without it. */
  lemma ListsWithout(before: seq<Bytes>, k: Bytes, after: seq<Bytes>, m: map<Bytes, Bytes>)
    requires Lists(before + [k] + after, m)
    ensures k !in before + after && Lists(before + after, m - {k})
  {
    var keys, rest := before + [k] + after, before + after;
    assert keys[|before|] == k;
    forall i | 0 <= i < |rest| ensures rest[i] != k && rest[i] in m {
      assert rest[i] == keys[if i < |before| then i else i + 1];
    }
    forall i, j | 0 <= i < j < |rest| ensures rest[i] != rest[j] {
      assert rest[i] == keys[if i < |before| then i else i + 1];
      assert rest[j] == keys[if j < |before| then j else j + 1];
    }
    forall x | x in m - {k} ensures x in rest {
      assert x in keys;
    }
  }

  lemma ListsWith(keys: seq<Bytes>, k: Bytes, m: map<Bytes, Bytes>)
    requires Lists(keys, m - {k}) && k in m
    ensures Lists(keys + [k], m)
  {
    forall x | x in m ensures x in keys + [k] {
      if x != k { assert x in m - {k}; }
    }
    assert forall x :: x in keys ==> x in m - {k};
  }

  lemma ValuesWithoutOne(keys: seq<Bytes>, p: nat, m: map<Bytes, Bytes>)
    requires p < |keys| && forall k :: k in keys ==> k in m
    ensures forall k :: k in keys[..p] + keys[p + 1..] ==> k in m
    ensures multiset(Values(keys, m)) == multiset(Values(keys[..p] + keys[p + 1..], m) + [m[keys[p]]])
  {
    var values := Values(keys, m);
    WithoutOne(values, p);
    assert Values(keys[..p] + keys[p + 1..], m) == values[..p] + values[p + 1..];
    assert values[p] == m[keys[p]] && values[p] in values;
  }

  lemma ListingAround(keys: seq<Bytes>, k: Bytes, m: map<Bytes, Bytes>) returns (p: nat)
    requires Lists(keys, m) && k in m
    ensures p < |keys| && keys[p] == k && Lists(keys[..p] + keys[p + 1..], m - {k})
  {
    assert k in keys;
    p :| 0 <= p < |keys| && keys[p] == k;
    assert keys == keys[..p] + [k] + keys[p + 1..];
    ListsWithout(keys[..p], k, keys[p + 1..], m);
  }

  /** A listing of the extended map is a listing of the map and the new key, up to order. */
  lemma ListingOfInsert(m: map<Bytes, Bytes>, k: Bytes, v: Bytes, keys: seq<Bytes>) returns (rest: seq<Bytes>)
    requires k !in m && Lists(keys, m[k := v])
    ensures Lists(rest, m)
    ensures multiset(Values(keys, m[k := v])) == multiset(Values(rest, m) + [v])
  {
    var m' := m[k := v];
    var p := ListingAround(keys, k, m');
    assert m' - {k} == m;
    rest := keys[..p] + keys[p + 1..];
    ValuesWithoutOne(keys, p, m');
    ValuesUnchanged(rest, m, m');
  }

  /** Adding a value for a new key. */
  lemma InsertKeepsHash(sha256: Sha256, hash: Bytes128, m: map<Bytes, Bytes>, k: Bytes, v: Bytes)
    requires HashesMap(sha256, hash, m) && k !in m
    ensures HashesMap(sha256, SubtractThenAdd(sha256, hash, [], [v]), m[k := v])
  {
    var m' := m[k := v];
    forall keys | Lists(keys, m')
      ensures SubtractThenAdd(sha256, hash, [], [v]) == SubtractThenAdd(sha256, Zeros(128), [], Values(keys, m'))
    {
      var rest := ListingOfInsert(m, k, v, keys);
      var none: seq<Bytes> := [];
      assert none + none == none;
      CallsCompose(sha256, Zeros(128), none, Values(rest, m), none, [v]);
      OrderDoesNotMatter(sha256, Zeros(128), none, Values(rest, m) + [v], none, Values(keys, m'));
    }
  }

  /** Subtracting the value of a key that goes. */
  lemma DeleteKeepsHash(sha256: Sha256, hash: Bytes128, m: map<Bytes, Bytes>, k: Bytes)
    requires HashesMap(sha256, hash, m) && k in m
    ensures HashesMap(sha256, SubtractThenAdd(sha256, hash, [m[k]], []), m - {k})
  {
    var m' := m - {k};
    forall keys | Lists(keys, m')
      ensures SubtractThenAdd(sha256, hash, [m[k]], []) == SubtractThenAdd(sha256, Zeros(128), [], Values(keys, m'))
    {
      ListsWith(keys, k, m);
      ValuesAppend(keys, [k], m);
      assert Values([k], m) == [m[k]];
      ValuesUnchanged(keys, m, m');
      var values := Values(keys, m');
      var gone := [m[k]];
      var none: seq<Bytes> := [];
      assert none + gone == gone && values + gone + none == values + gone;
      CallsCompose(sha256, Zeros(128), none, values + gone, gone, none);
      CallsCompose(sha256, Zeros(128), none, values, gone, gone);
      BalancedIsIdentity(sha256, SubtractThenAdd(sha256, Zeros(128), none, values), gone, gone);
    }
  }

  // ---- The rolling hash is the hash of the final map ----

  /** Where a generator's pending buffers take its hash. */
  function Pending(sha256: Sha256, gen: Generator): Bytes128 {
    SubtractThenAdd(sha256, gen.hash, gen.subBuffs, gen.addBuffs)
  }

  /** Prepending buffers has the effect of a further call with them. */
  lemma PrependedBuffers(sha256: Sha256, gen: Generator, sub: seq<Bytes>, add: seq<Bytes>)
    ensures Pending(sha256, gen.(subBuffs := sub + gen.subBuffs, addBuffs := add + gen.addBuffs))
         == SubtractThenAdd(sha256, Pending(sha256, gen), sub, add)
  {
    CallsCompose(sha256, gen.hash, gen.subBuffs, gen.addBuffs, sub, add);
    OrderDoesNotMatter(sha256, gen.hash, sub + gen.subBuffs, add + gen.addBuffs,
                       gen.subBuffs + sub, gen.addBuffs + add);
  }

  lemma ReplaceKeepsHash(sha256: Sha256, hash: Bytes128, m: map<Bytes, Bytes>, k: Bytes, v: Bytes)
    requires HashesMap(sha256, hash, m) && k in m
    ensures HashesMap(sha256, SubtractThenAdd(sha256, hash, [m[k]], [v]), m[k := v])
  {
    var none: seq<Bytes> := [];
    var gone: seq<Bytes>, added: seq<Bytes> := [m[k]], [v];
    DeleteKeepsHash(sha256, hash, m, k);
    InsertKeepsHash(sha256, SubtractThenAdd(sha256, hash, gone, none), m - {k}, k, v);
    CallsCompose(sha256, hash, gone, none, none, added);
    assert gone + none == gone && none + added == added;
    assert (m - {k})[k := v] == m[k := v];
  }

  /** Whatever a mutation does to the map, its buffers do to the hash. */
  lemma MixKeepsHash(sha256: Sha256, gen: Generator, m: Mutation)
    requires HashesMap(sha256, Pending(sha256, gen), gen.indexValueMap)
    ensures
      var gen' := MixMutation(gen, m);
      && HashesMap(sha256, Pending(sha256, gen'), gen'.indexValueMap)
      && gen'.indexValueMap == Replay(gen.indexValueMap, [m])
  {
    var k, v, ivm, gen' := m.indexMac, m.valueMac, gen.indexValueMap, MixMutation(gen, m);
    var none: seq<Bytes> := [];
    var ms := [m];
    assert ms[1..] == [];
    assert none + gen.subBuffs == gen.subBuffs && none + gen.addBuffs == gen.addBuffs;
    if m.operation == Set && k in ivm {
      ReplaceKeepsHash(sha256, Pending(sha256, gen), ivm, k, v);
      PrependedBuffers(sha256, gen, [ivm[k]], [v]);
    } else if m.operation == Set {
      InsertKeepsHash(sha256, Pending(sha256, gen), ivm, k, v);
      PrependedBuffers(sha256, gen, none, [v]);
    } else if k in ivm {
      DeleteKeepsHash(sha256, Pending(sha256, gen), ivm, k);
      PrependedBuffers(sha256, gen, [ivm[k]], none);
    } else {
      assert ivm - {k} == ivm;
    }
  }

  lemma ReplayStep(m: map<Bytes, Bytes>, first: Mutation, rest: seq<Mutation>)
    ensures Replay(m, [first] + rest) == Replay(Replay(m, [first]), rest)
  {
    assert ([first] + rest)[1..] == rest;
    var one: seq<Mutation> := [first];
    assert one[1..] == [];
  }

  lemma {:induction false} ReplayAppend(m: map<Bytes, Bytes>, a: seq<Mutation>, b: seq<Mutation>)
    ensures Replay(m, a + b) == Replay(Replay(m, a), b)
    decreases |a|
  {
    if a == [] {
      assert a + b == b;
    } else {
      assert a + b == [a[0]] + (a[1..] + b) && a == [a[0]] + a[1..];
      ReplayStep(m, a[0], a[1..] + b);
      ReplayStep(m, a[0], a[1..]);
      ReplayAppend(Replay(m, [a[0]]), a[1..], b);
    }
  }

  lemma {:induction false} MixAllKeepsHash(sha256: Sha256, gen: Generator, mutations: seq<Mutation>)
    requires HashesMap(sha256, Pending(sha256, gen), gen.indexValueMap)
    ensures
      var gen' := MixAll(gen, mutations);
      && HashesMap(sha256, Pending(sha256, gen'), gen'.indexValueMap)
      && gen'.indexValueMap == Replay(gen.indexValueMap, mutations)
    decreases |mutations|
  {
    if mutations != [] {
      MixKeepsHash(sha256, gen, mutations[0]);
      MixAllKeepsHash(sha256, MixMutation(gen, mutations[0]), mutations[1..]);
      assert mutations == [mutations[0]] + mutations[1..];
      ReplayStep(gen.indexValueMap, mutations[0], mutations[1..]);
    }
  }

  /** One patch moves the hash and the map together, from any state in which they agree. */
  lemma PatchKeepsHash(sha256: Sha256, s: HashState, mutations: seq<Mutation>)
    requires HashesMap(sha256, s.hash, s.indexValueMap)
    ensures
      var s' := ApplyPatch(sha256, s, mutations);
      HashesMap(sha256, s'.hash, s'.indexValueMap) && s'.indexValueMap == Replay(s.indexValueMap, mutations)
  {
    BalancedIsIdentity(sha256, s.hash, [], []);
    MixAllKeepsHash(sha256, InitGenerator(s), mutations);
    var gen := MixAll(InitGenerator(s), mutations);
    OrderDoesNotMatter(sha256, gen.hash, gen.subBuffs, gen.addBuffs, Reverse(gen.subBuffs), Reverse(gen.addBuffs));
  }

  lemma {:induction false} PatchesKeepHash(sha256: Sha256, s: HashState, patches: seq<seq<Mutation>>)
    requires HashesMap(sha256, s.hash, s.indexValueMap)
    ensures
      var s' := ApplyPatches(sha256, s, patches);
      HashesMap(sha256, s'.hash, s'.indexValueMap) && s'.indexValueMap == Replay(s.indexValueMap, Flatten(patches))
    decreases |patches|
  {
    if patches != [] {
      PatchKeepsHash(sha256, s, patches[0]);
      PatchesKeepHash(sha256, ApplyPatch(sha256, s, patches[0]), patches[1..]);
      ReplayAppend(s.indexValueMap, patches[0], Flatten(patches[1..]));
    }
  }

  lemma EmptyListing(keys: seq<Bytes>)
    requires Lists(keys, map[])
    ensures keys == []
  {
    if keys != [] { ListedIsPresent(keys, map[]); }
  }

  lemma ListedIsPresent(keys: seq<Bytes>, m: map<Bytes, Bytes>)
    requires Lists(keys, m) && keys != []
    ensures keys[0] in m
  {
    assert keys[0] in keys;
  }

  /** After any patches from the empty state, the map is the plain replay of all mutations and the hash
      is what adding the final values to the zero hash gives, in every order. */
  lemma RollingHashIsHashOfMap(sha256: Sha256, patches: seq<seq<Mutation>>)
    ensures
      var s := ApplyPatches(sha256, NEW_HASH_STATE, patches);
      && s.indexValueMap == Replay(map[], Flatten(patches))
      && HashesMap(sha256, s.hash, s.indexValueMap)
  {
    forall keys | Lists(keys, NEW_HASH_STATE.indexValueMap)
      ensures NEW_HASH_STATE.hash == SubtractThenAdd(sha256, Zeros(128), [], Values(keys, NEW_HASH_STATE.indexValueMap))
    {
      EmptyListing(keys);
      BalancedIsIdentity(sha256, Zeros(128), [], []);
    }
    PatchesKeepHash(sha256, NEW_HASH_STATE, patches);
  }

  lemma {:induction false} ListingExists(m: map<Bytes, Bytes>) returns (keys: seq<Bytes>)
    ensures Lists(keys, m)
    decreases m.Keys
  {
    if m == map[] {
      keys := [];
    } else {
      var k :| k in m;
      assert (m - {k}).Keys < m.Keys;
      keys := ListingExists(m - {k});
      ListsWith(keys, k, m);
      keys := keys + [k];
    }
  }

  /** Replicas whose patches amount to the same map hold the same hash, whatever their histories. */
  lemma ReplicasConverge(sha256: Sha256, patches: seq<seq<Mutation>>, patches': seq<seq<Mutation>>)
    requires Replay(map[], Flatten(patches)) == Replay(map[], Flatten(patches'))
    ensures ApplyPatches(sha256, NEW_HASH_STATE, patches) == ApplyPatches(sha256, NEW_HASH_STATE, patches')
  {
    RollingHashIsHashOfMap(sha256, patches);
    RollingHashIsHashOfMap(sha256, patches');
    var keys := ListingExists(Replay(map[], Flatten(patches)));
  }
}
