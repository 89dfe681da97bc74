/** The symmetric handshake state that both ends of the WhatsApp Noise handshake thread through
    authenticate / mix / encrypt / decrypt, and its split into transport keys:
    test_helpers/connection/noise_server.exs and lib/baileys_ex/protocol/noise.ex. */
module Handshake {
  import opened Octets
  import opened Crypto

  /** "Noise_XX_25519_AESGCM_SHA256" and four zero bytes: 32 bytes, so it is the initial hash itself. */
  const NOISE_MODE: Bytes32 :=
    [78, 111, 105, 115, 101, 95, 88, 88, 95, 50, 53, 53, 49, 57, 95, 65,
     69, 83, 71, 67, 77, 95, 83, 72, 65, 50, 53, 54, 0, 0, 0, 0]

  /** "WA" and the protocol version. */
  const NOISE_HEADER: Bytes := [87, 65, 6, 3]

  datatype Symmetric = Symmetric(hash: Bytes32, salt: Bytes32, encKey: Bytes32, decKey: Bytes32, counter: nat)

  datatype Transport = Transport(encKey: Bytes32, decKey: Bytes32, readCounter: nat, writeCounter: nat)

  datatype Side = Client | Server

  const INITIAL_STATE := Symmetric(NOISE_MODE, NOISE_MODE, NOISE_MODE, NOISE_MODE, 0)

  function GenerateIv(counter: nat): (iv: Bytes)
    ensures |iv| == 12
  {
    Zeros(8) + ToBE(counter, 4)
  }

  function Authenticate(c: Primitives, s: Symmetric, data: Bytes): Symmetric {
    s.(hash := c.sha256(s.hash + data))
  }

  function MixIntoKey(c: Primitives, s: Symmetric, data: Bytes): Symmetric {
    var (writeKey, readKey) := HkdfPair(c.hmac, s.salt, data);
    Symmetric(s.hash, writeKey, readKey, readKey, 0)
  }

  function EncryptHandshake(c: Primitives, s: Symmetric, plaintext: Bytes): (Symmetric, Bytes) {
    var ciphertext := AesGcmEncrypt(c, s.encKey, GenerateIv(s.counter), plaintext, s.hash);
    (Authenticate(c, s.(counter := s.counter + 1), ciphertext), ciphertext)
  }

  function DecryptHandshake(c: Primitives, s: Symmetric, ciphertext: Bytes): Result<(Symmetric, Bytes), CryptoError> {
    match AesGcmDecrypt(c, s.decKey, GenerateIv(s.counter), ciphertext, s.hash)
    case Err(e) => Err(e)
    case Ok(plaintext) => Ok((Authenticate(c, s.(counter := s.counter + 1), ciphertext), plaintext))
  }

  function FinishTransport(c: Primitives, s: Symmetric, side: Side): Transport {
    var (writeKey, readKey) := HkdfPair(c.hmac, s.salt, []);
    match side
    case Client => Transport(writeKey, readKey, 0, 0)
    case Server => Transport(readKey, writeKey, 0, 0)
  }

  // ---- What each step is, in terms of the primitives ----

  /** Both ends start from the protocol's name, and from it alone. */
  lemma InitialStateIsName()
    ensures
      var name: Bytes := Utf8("Noise_XX_25519_AESGCM_SHA256") + Zeros(4);
      |name| == 32 && INITIAL_STATE == Symmetric(name, name, name, name, 0)
    ensures NOISE_HEADER == Utf8("WA") + [6, 3]
  {
    var name: Bytes := Utf8("Noise_XX_25519_AESGCM_SHA256") + Zeros(4);
    assert name == NOISE_MODE;
  }

  /** Mixing makes the first block of the derived material the salt and the second one the key. */
  lemma MixSplitsBlocks(c: Primitives, s: Symmetric, data: Bytes)
    ensures
      var prk := c.hmac(s.salt, data);
      var t1: Bytes32 := c.hmac(prk, [1]);
      var t2: Bytes32 := c.hmac(prk, t1 + [2]);
      MixIntoKey(c, s, data) == Symmetric(s.hash, t1, t2, t2, 0)
  {
    PairIsBlocks(c, s.salt, data);
  }

  /** The client writes under the first block and reads under the second, the server the other way. */
  lemma FinishSplitsBlocks(c: Primitives, s: Symmetric)
    ensures
      var prk := c.hmac(s.salt, []);
      var t1: Bytes32 := c.hmac(prk, [1]);
      var t2: Bytes32 := c.hmac(prk, t1 + [2]);
      && FinishTransport(c, s, Client) == Transport(t1, t2, 0, 0)
      && FinishTransport(c, s, Server) == Transport(t2, t1, 0, 0)
  {
    PairIsBlocks(c, s.salt, []);
  }

  lemma PairIsBlocks(c: Primitives, salt: Bytes32, data: Bytes)
    ensures
      var prk := c.hmac(salt, data);
      var t1: Bytes32 := c.hmac(prk, [1]);
      HkdfPair(c.hmac, salt, data) == (t1, c.hmac(prk, t1 + [2]))
  {
    HkdfStart(c.hmac, data, [], salt);
    var prk := c.hmac(salt, data);
    var t1: Bytes := c.hmac(prk, [1]);
    assert [] + [1] == [1] && t1 + [] + [2] == t1 + [2];
  }

  /** An iv is eight zeros and the low 32 bits of the counter, most significant byte first. */
  lemma IvValue(counter: nat)
    ensures GenerateIv(counter)[..8] == Zeros(8)
    ensures BE(GenerateIv(counter)[8..]) == counter % 0x1_0000_0000
  {
    BEOfToBE(counter, 4);
    assert Pow256(4) == 0x1_0000_0000;
    assert GenerateIv(counter)[8..] == ToBE(counter, 4);
  }

  /** A message is sealed under the sending key, the counter and the hash so far; then the counter goes on
      and the ciphertext is hashed. */
  lemma MessageFields(c: Primitives, s: Symmetric, plaintext: Bytes)
    requires c.Lawful()
    ensures
      var (s', ct) := EncryptHandshake(c, s, plaintext);
      var n := |plaintext|;
      && |ct| == n + 16
      && c.gcmOpen(s.encKey, GenerateIv(s.counter), ct[..n], s.hash, ct[n..]) == Some(plaintext)
      && s' == Symmetric(c.sha256(s.hash + ct), s.salt, s.encKey, s.decKey, s.counter + 1)
  {
    GcmTagIsLast(c, s.encKey, GenerateIv(s.counter), plaintext, s.hash);
  }

  /** A ciphertext is accepted exactly if it is a sealing under the receiving key, the counter and the hash
      so far; the state then moves on as the sender's does. */
  lemma MessageAcceptedIff(c: Primitives, s: Symmetric, ct: Bytes, plaintext: Bytes)
    requires c.Lawful()
    ensures
      var r := DecryptHandshake(c, s, ct);
      && (r.Ok? && r.value.1 == plaintext
          <==> ct == AesGcmEncrypt(c, s.decKey, GenerateIv(s.counter), plaintext, s.hash))
      && (r.Ok? ==> r.value.0 == Symmetric(c.sha256(s.hash + ct), s.salt, s.encKey, s.decKey, s.counter + 1))
      && (r.Err? ==> r.error == if |ct| < 16 then MatchError else DecryptFailed)
  {
    GcmDecryptIffEncrypted(c, s.decKey, GenerateIv(s.counter), plaintext, s.hash, ct);
  }

  // ---- Two peers running one script ----

  /** One step of a conversation: both peers hash the same data, both mix the same secret, or one
      of them sends an encrypted message to the other. */
  datatype Move = Hash(data: Bytes) | Mix(secret: Bytes) | Say(speaker: Side, plaintext: Bytes)

  /** The two states after a script, and the plaintexts as the listeners decrypted them. */
  datatype Talk = Talk(client: Symmetric, server: Symmetric, heard: seq<Bytes>)

  function Play(c: Primitives, t: Talk, move: Move): Result<Talk, CryptoError> {
    match move
    case Hash(data) => Ok(Talk(Authenticate(c, t.client, data), Authenticate(c, t.server, data), t.heard))
    case Mix(secret) => Ok(Talk(MixIntoKey(c, t.client, secret), MixIntoKey(c, t.server, secret), t.heard))
    case Say(Client, plaintext) =>
      var (client, ciphertext) := EncryptHandshake(c, t.client, plaintext);
      (match DecryptHandshake(c, t.server, ciphertext)
       case Err(e) => Err(e)
       case Ok((server, p)) => Ok(Talk(client, server, t.heard + [p])))
    case Say(Server, plaintext) =>
      var (server, ciphertext) := EncryptHandshake(c, t.server, plaintext);
      match DecryptHandshake(c, t.client, ciphertext)
      case Err(e) => Err(e)
      case Ok((client, p)) => Ok(Talk(client, server, t.heard + [p]))
  }

  function PlayAll(c: Primitives, t: Talk, script: seq<Move>): Result<Talk, CryptoError>
    decreases |script|
  {
    if script == [] then Ok(t)
    else
      match Play(c, t, script[0])
      case Err(e) => Err(e)
      case Ok(t') => PlayAll(c, t', script[1..])
  }

  function SpokenIn(move: Move): seq<Bytes> {
    if move.Say? then [move.plaintext] else []
  }

  function Spoken(script: seq<Move>): seq<Bytes> {
    if script == [] then [] else SpokenIn(script[0]) + Spoken(script[1..])
  }

  /** Equal states whose two keys coincide: what the initial state has and every move keeps. */
  predicate InStep(a: Symmetric, b: Symmetric) {
    a == b && a.encKey == a.decKey
  }

  /** A ciphertext made in a state opens in any state in step with it, and leaves them in step. */
  lemma CiphertextOpens(c: Primitives, sender: Symmetric, receiver: Symmetric, plaintext: Bytes)
    requires c.Lawful() && InStep(sender, receiver)
    ensures
      var (sender', ciphertext) := EncryptHandshake(c, sender, plaintext);
      DecryptHandshake(c, receiver, ciphertext) == Ok((sender', plaintext)) && InStep(sender', sender')
  {
    var ciphertext := EncryptHandshake(c, sender, plaintext).1;
    GcmDecryptIffEncrypted(c, sender.encKey, GenerateIv(sender.counter), plaintext, sender.hash, ciphertext);
  }

  lemma MoveStaysInStep(c: Primitives, t: Talk, move: Move)
    requires c.Lawful() && InStep(t.client, t.server)
    ensures
      var r := Play(c, t, move);
      r.Ok? && InStep(r.value.client, r.value.server) && r.value.heard == t.heard + SpokenIn(move)
  {
    match move {
      case Say(_, plaintext) => CiphertextOpens(c, t.client, t.server, plaintext);
      case _ => assert t.heard + [] == t.heard;
    }
  }

  /** Peers that start in step stay in step through every script, and hear exactly what was said. */
  lemma {:induction false} ScriptsStayInStep(c: Primitives, t: Talk, script: seq<Move>)
    requires c.Lawful() && InStep(t.client, t.server)
    ensures
      var r := PlayAll(c, t, script);
      r.Ok? && InStep(r.value.client, r.value.server) && r.value.heard == t.heard + Spoken(script)
    decreases |script|
  {
    if script != [] {
      MoveStaysInStep(c, t, script[0]);
      var t' := Play(c, t, script[0]).value;
      ScriptsStayInStep(c, t', script[1..]);
      assert PlayAll(c, t, script) == PlayAll(c, t', script[1..]);
      Regroup(t.heard, SpokenIn(script[0]), Spoken(script[1..]));
    } else {
      assert t.heard + [] == t.heard;
    }
  }

  lemma Regroup(a: seq<Bytes>, b: seq<Bytes>, c: seq<Bytes>)
    ensures (a + b) + c == a + (b + c)
  {
  }

  predicate Opposite(a: Transport, b: Transport) {
    && a.encKey == b.decKey && a.decKey == b.encKey
    && a.writeCounter == b.readCounter && a.readCounter == b.writeCounter
  }

  /** The split gives the peers crossed transport keys, whatever they said before. */
  lemma ScriptsEndInOppositeTransports(c: Primitives, script: seq<Move>)
    requires c.Lawful()
    ensures
      var r := PlayAll(c, Talk(INITIAL_STATE, INITIAL_STATE, []), script);
      r.Ok? && Opposite(FinishTransport(c, r.value.client, Client), FinishTransport(c, r.value.server, Server))
  {
    ScriptsStayInStep(c, Talk(INITIAL_STATE, INITIAL_STATE, []), script);
  }

  // ---- Initialization vectors ----

  /** Two counters give one iv exactly when they agree modulo 2^32. */
  lemma IvsCollideIff(m: nat, n: nat)
    ensures GenerateIv(m) == GenerateIv(n) <==> m % 0x1_0000_0000 == n % 0x1_0000_0000
  {
    ToBEInjective(m, n, 4);
    assert Pow256(4) == 0x1_0000_0000;
    assert GenerateIv(m)[8..] == ToBE(m, 4) && GenerateIv(n)[8..] == ToBE(n, 4);
  }

  /** What one end does with its own state: hash, mix, or use its counter once for a message. */
  datatype Use = Hashed(data: Bytes) | Mixed(secret: Bytes) | Sealed(plaintext: Bytes) | Opened(ciphertext: Bytes)

  /** One iv spent under the key of one epoch; an epoch ends at each mix. */
  datatype Spent = Spent(epoch: nat, iv: Bytes)

  /** A state with the epoch it is in and the ivs spent so far. */
  datatype Ledger = Ledger(state: Symmetric, epoch: nat, spent: seq<Spent>)

  /** An opening that fails leaves the state alone. */
  function Apply(c: Primitives, l: Ledger, use: Use): Ledger {
    var spend := Spent(l.epoch, GenerateIv(l.state.counter));
    match use
    case Hashed(data) => l.(state := Authenticate(c, l.state, data))
    case Mixed(secret) => l.(state := MixIntoKey(c, l.state, secret), epoch := l.epoch + 1)
    case Sealed(plaintext) => l.(state := EncryptHandshake(c, l.state, plaintext).0, spent := l.spent + [spend])
    case Opened(ciphertext) =>
      match DecryptHandshake(c, l.state, ciphertext)
      case Err(_) => l
      case Ok((state, _)) => l.(state := state, spent := l.spent + [spend])
  }

  function ApplyAll(c: Primitives, l: Ledger, uses: seq<Use>): Ledger
    decreases |uses|
  {
    if uses == [] then l else ApplyAll(c, Apply(c, l, uses[0]), uses[1..])
  }

  /** How many entries before position n belong to an epoch. */
  function CountIn(spent: seq<Spent>, epoch: nat, n: nat): nat
    requires n <= |spent|
  {
    if n == 0 then 0 else CountIn(spent, epoch, n - 1) + if spent[n - 1].epoch == epoch then 1 else 0
  }

  /** The entry at position i carries the iv that its rank within its epoch calls for. */
  ghost predicate EntryInOrder(spent: seq<Spent>, i: nat)
    requires i < |spent|
  {
    spent[i].iv == GenerateIv(CountIn(spent, spent[i].epoch, i))
  }

  /** Within each epoch the entries carry the ivs of 0, 1, 2, ... in order, and the live counter is
      the number spent in the current epoch. */
  ghost predicate Tidy(l: Ledger) {
    && (forall s :: s in l.spent ==> s.epoch <= l.epoch)
    && (forall i: nat {:trigger EntryInOrder(l.spent, i)} :: i < |l.spent| ==> EntryInOrder(l.spent, i))
    && l.state.counter == CountIn(l.spent, l.epoch, |l.spent|)
  }

  lemma {:induction false} CountInExtended(spent: seq<Spent>, more: Spent, epoch: nat, n: nat)
    requires n <= |spent|
    ensures CountIn(spent + [more], epoch, n) == CountIn(spent, epoch, n)
    decreases n
  {
    if n > 0 { CountInExtended(spent, more, epoch, n - 1); }
  }

  lemma {:induction false} NoneInLaterEpoch(spent: seq<Spent>, epoch: nat, n: nat)
    requires n <= |spent| && forall i :: 0 <= i < |spent| ==> spent[i].epoch < epoch
    ensures CountIn(spent, epoch, n) == 0
    decreases n
  {
    if n > 0 { NoneInLaterEpoch(spent, epoch, n - 1); }
  }

  lemma SpendingStaysTidy(l: Ledger, state: Symmetric)
    requires Tidy(l) && state.counter == l.state.counter + 1
    ensures Tidy(l.(state := state, spent := l.spent + [Spent(l.epoch, GenerateIv(l.state.counter))]))
  {
    var entry := Spent(l.epoch, GenerateIv(l.state.counter));
    var spent := l.spent + [entry];
    forall i: nat | i < |spent| ensures EntryInOrder(spent, i) {
      CountInExtended(l.spent, entry, spent[i].epoch, i);
      if i < |l.spent| { assert EntryInOrder(l.spent, i); }
    }
    CountInExtended(l.spent, entry, l.epoch, |l.spent|);
  }

  lemma ApplyStaysTidy(c: Primitives, l: Ledger, use: Use)
    requires Tidy(l)
    ensures Tidy(Apply(c, l, use))
  {
    match use {
      case Hashed(_) =>
      case Mixed(_) =>
        assert forall i :: 0 <= i < |l.spent| ==> l.spent[i] in l.spent;
        NoneInLaterEpoch(l.spent, l.epoch + 1, |l.spent|);
      case Sealed(plaintext) => SpendingStaysTidy(l, EncryptHandshake(c, l.state, plaintext).0);
      case Opened(ciphertext) =>
        var r := DecryptHandshake(c, l.state, ciphertext);
        if r.Ok? { SpendingStaysTidy(l, r.value.0); }
    }
  }

  lemma {:induction false} ApplyAllStaysTidy(c: Primitives, l: Ledger, uses: seq<Use>)
    requires Tidy(l)
    ensures Tidy(ApplyAll(c, l, uses))
    decreases |uses|
  {
    if uses != [] {
      ApplyStaysTidy(c, l, uses[0]);
      ApplyAllStaysTidy(c, Apply(c, l, uses[0]), uses[1..]);
    }
  }

  lemma {:induction false} CountInGrows(spent: seq<Spent>, epoch: nat, i: nat, j: nat)
    requires i < j <= |spent| && spent[i].epoch == epoch
    ensures CountIn(spent, epoch, i) < CountIn(spent, epoch, j)
    decreases j
  {
    if i + 1 < j { CountInGrows(spent, epoch, i, j - 1); }
  }

  lemma CongruentIff(m: nat, n: nat, w: nat)
    requires w > 0 && m <= n
    ensures m % w == n % w <==> (n - m) % w == 0
  {
    var a, b, d := m / w, n / w, (n - m) / w;
    if m % w == n % w {
      assert n - m == w * (b - a) + 0;
      DivRemUnique(n - m, w, b - a, 0);
    }
    if (n - m) % w == 0 {
      assert n == w * (a + d) + m % w;
      DivRemUnique(n, w, a + d, m % w);
    }
  }

  lemma IvsCollideAfter(m: nat, n: nat)
    requires m < n
    ensures GenerateIv(m) == GenerateIv(n) <==> (n - m) % 0x1_0000_0000 == 0
    ensures n < 0x1_0000_0000 ==> GenerateIv(m) != GenerateIv(n)
  {
    IvsCollideIff(m, n);
    CongruentIff(m, n, 0x1_0000_0000);
  }

  ghost predicate RepeatsOnlyAfterWrap(spent: seq<Spent>, i: nat, j: nat)
    requires i < j < |spent|
  {
    var m, n := CountIn(spent, spent[i].epoch, i), CountIn(spent, spent[i].epoch, j);
    && m < n
    && (spent[i].iv == spent[j].iv <==> (n - m) % 0x1_0000_0000 == 0)
    && (CountIn(spent, spent[i].epoch, |spent|) <= 0x1_0000_0000 ==> spent[i].iv != spent[j].iv)
  }

  lemma TidyRepeatsOnlyAfterWrap(l: Ledger, i: nat, j: nat)
    requires Tidy(l) && i < j < |l.spent| && l.spent[i].epoch == l.spent[j].epoch
    ensures RepeatsOnlyAfterWrap(l.spent, i, j)
  {
    var epoch := l.spent[i].epoch;
    assert EntryInOrder(l.spent, i) && EntryInOrder(l.spent, j);
    CountInGrows(l.spent, epoch, i, j);
    CountInGrows(l.spent, epoch, j, |l.spent|);
    IvsCollideAfter(CountIn(l.spent, epoch, i), CountIn(l.spent, epoch, j));
  }

  /** In every run, two messages of one epoch share an iv exactly when the number of messages of that
      epoch between them is a multiple of 2^32; up to 2^32 messages an epoch never repeats an iv. */
  lemma IvsRepeatOnlyAfterWrap(c: Primitives, uses: seq<Use>, i: nat, j: nat)
    requires
      var spent := ApplyAll(c, Ledger(INITIAL_STATE, 0, []), uses).spent;
      i < j < |spent| && spent[i].epoch == spent[j].epoch
    ensures RepeatsOnlyAfterWrap(ApplyAll(c, Ledger(INITIAL_STATE, 0, []), uses).spent, i, j)
  {
    ApplyAllStaysTidy(c, Ledger(INITIAL_STATE, 0, []), uses);
    TidyRepeatsOnlyAfterWrap(ApplyAll(c, Ledger(INITIAL_STATE, 0, []), uses), i, j);
  }

  // ---- Transcript binding ----

  function AuthenticateAll(c: Primitives, s: Symmetric, items: seq<Bytes>): Symmetric
    decreases |items|
  {
    if items == [] then s else AuthenticateAll(c, Authenticate(c, s, items[0]), items[1..])
  }

  function HashAll(c: Primitives, hash: Bytes32, items: seq<Bytes>): Bytes32
    decreases |items|
  {
    if items == [] then hash else HashAll(c, c.sha256(hash + items[0]), items[1..])
  }

  lemma {:induction false} AuthenticateAllHashes(c: Primitives, s: Symmetric, items: seq<Bytes>)
    ensures AuthenticateAll(c, s, items) == s.(hash := HashAll(c, s.hash, items))
    decreases |items|
  {
    if items != [] { AuthenticateAllHashes(c, Authenticate(c, s, items[0]), items[1..]); }
  }

  /** The i-th string handed to SHA-256 while hashing the items. */
  function HashInput(c: Primitives, hash: Bytes32, items: seq<Bytes>, i: nat): Bytes
    requires i < |items|
    decreases i
  {
    if i == 0 then hash + items[0] else HashInput(c, c.sha256(hash + items[0]), items[1..], i - 1)
  }

  /** These two transcripts hash different strings, at the same position, to one digest. */
  ghost predicate Collision(c: Primitives, hash: Bytes32, items: seq<Bytes>, hash': Bytes32, items': seq<Bytes>)
    requires |items| == |items'|
  {
    exists i :: 0 <= i < |items|
      && HashInput(c, hash, items, i) != HashInput(c, hash', items', i)
      && c.sha256(HashInput(c, hash, items, i)) == c.sha256(HashInput(c, hash', items', i))
  }

  /** Equal hashes after equally many items mean equal items, unless the two transcripts contain a
      SHA-256 collision. */
  lemma {:induction false} TranscriptBinding(c: Primitives, hash: Bytes32, items: seq<Bytes>, hash': Bytes32,
                                             items': seq<Bytes>)
    requires |items| == |items'|
    requires HashAll(c, hash, items) == HashAll(c, hash', items')
    ensures (hash == hash' && items == items') || Collision(c, hash, items, hash', items')
    decreases |items|
  {
    if items != [] {
      var x: Bytes, x': Bytes := hash + items[0], hash' + items'[0];
      var h, h' := c.sha256(x), c.sha256(x');
      var rest, rest' := items[1..], items'[1..];
      TranscriptBinding(c, h, rest, h', rest');
      if Collision(c, h, rest, h', rest') {
        var i :| 0 <= i < |rest|
          && HashInput(c, h, rest, i) != HashInput(c, h', rest', i)
          && c.sha256(HashInput(c, h, rest, i)) == c.sha256(HashInput(c, h', rest', i));
        assert HashInput(c, hash, items, i + 1) == HashInput(c, h, rest, i);
        assert HashInput(c, hash', items', i + 1) == HashInput(c, h', rest', i);
      } else if x == x' {
        assert hash == x[..32] == x'[..32] == hash';
        assert items[0] == x[32..] == x'[32..] == items'[0];
        assert items == [items[0]] + rest && items' == [items'[0]] + rest';
      } else {
        assert HashInput(c, hash, items, 0) == x && HashInput(c, hash', items', 0) == x';
      }
    }
  }

  /** One ciphertext is a sealing under two different (key, iv, associated data) triples. */
  ghost predicate CrossSealed(c: Primitives, sender: Symmetric, receiver: Symmetric, plaintext: Bytes,
                              plaintext': Bytes) {
    && (sender.encKey, GenerateIv(sender.counter), sender.hash)
      != (receiver.decKey, GenerateIv(receiver.counter), receiver.hash)
    && AesGcmEncrypt(c, sender.encKey, GenerateIv(sender.counter), plaintext, sender.hash)
       == AesGcmEncrypt(c, receiver.decKey, GenerateIv(receiver.counter), plaintext', receiver.hash)
  }

  /** Accepting a peer's ciphertext proves that both held one key, iv and transcript hash, unless
      AES-GCM sealed the same bytes under two different triples. */
  lemma AcceptanceBinds(c: Primitives, sender: Symmetric, receiver: Symmetric, plaintext: Bytes)
    requires c.Lawful()
    requires DecryptHandshake(c, receiver, EncryptHandshake(c, sender, plaintext).1).Ok?
    ensures
      var heard := DecryptHandshake(c, receiver, EncryptHandshake(c, sender, plaintext).1).value.1;
      || CrossSealed(c, sender, receiver, plaintext, heard)
      || (&& sender.encKey == receiver.decKey && sender.hash == receiver.hash
          && GenerateIv(sender.counter) == GenerateIv(receiver.counter) && heard == plaintext)
  {
    var ciphertext := EncryptHandshake(c, sender, plaintext).1;
    var heard := DecryptHandshake(c, receiver, ciphertext).value.1;
    GcmDecryptIffEncrypted(c, receiver.decKey, GenerateIv(receiver.counter), heard, receiver.hash, ciphertext);
    GcmDecryptIffEncrypted(c, receiver.decKey, GenerateIv(receiver.counter), plaintext, receiver.hash, ciphertext);
  }
}
