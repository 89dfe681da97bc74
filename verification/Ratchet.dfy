/** The Signal double ratchet of lib/baileys_ex/signal: session set-up (session_builder.ex) and one
    session's encryption and decryption (session_cipher.ex), between two parties over a network that
    may drop, repeat and reorder messages. Public keys are in their prefixed form throughout. */
module Ratchet {
  import opened Octets
  import opened Crypto

  /** What the ratchet takes from outside: primitives, X25519, and the serialized form a MAC covers. */
  datatype Env = Env(
    prims: Primitives,
    public: Bytes32 -> Bytes,
    x25519: (Bytes32, Bytes) -> Bytes32,
    wire: (Bytes, nat, nat, Bytes) -> Bytes)
  {
    ghost predicate DhAgrees(a: Bytes32, b: Bytes32) {
      x25519(a, public(b)) == x25519(b, public(a))
    }

    ghost predicate Lawful() {
      prims.Lawful() && forall a, b :: DhAgrees(a, b)
    }
  }

  predicate Matching(env: Env, k: KeyPair) {
    k.public == env.public(k.private)
  }

  datatype Chain = Chain(counter: nat, key: Option<Bytes32>, sending: bool, messageKeys: map<nat, Bytes32>)

  datatype Session = Session(
    rootKey: Bytes32,
    ephemeral: KeyPair,
    lastRemote: Bytes,
    previousCounter: nat,
    localIdentity: Bytes,
    remoteIdentity: Bytes,
    chains: map<Bytes, Chain>,
    pending: Option<PreKeyHeader>)

  /** What tells a receiver without a session how to set one up. */
  datatype PreKeyHeader = PreKeyHeader(registrationId: nat, preKeyId: Option<nat>, signedPreKeyId: nat, baseKey: Bytes)

  datatype Message = Message(ratchetKey: Bytes, counter: nat, previousCounter: nat, ciphertext: Bytes, mac: Bytes)

  /** What goes out: a bare message, or one wrapped with what its receiver needs to set up a session. */
  datatype Envelope =
    | Whisper(message: Message)
    | PreKeyWhisper(header: PreKeyHeader, identityKey: Bytes, message: Message)

  datatype RatchetError =
    | NoSendingChain | NoChain | MessageKeyAlreadyConsumed | TooManySkippedKeys | BadMac | DecryptFailed

  const MAX_SKIPPED_KEYS := 2000

  const WHISPER_RATCHET: Bytes := Utf8("WhisperRatchet")

  const WHISPER_MESSAGE_KEYS: Bytes := Utf8("WhisperMessageKeys")

  const WHISPER_TEXT: Bytes := Utf8("WhisperText")

  // ---- Key schedule ----

  function MessageSeed(env: Env, chainKey: Bytes32): Bytes32 { env.prims.hmac(chainKey, [1]) }

  function NextKey(env: Env, chainKey: Bytes32): Bytes32 { env.prims.hmac(chainKey, [2]) }

  /** New root key and chain key from a Diffie-Hellman result. */
  function RootStep(env: Env, rootKey: Bytes32, secret: Bytes): (Bytes32, Bytes32) {
    var okm := Hkdf(env.prims.hmac, secret, WHISPER_RATCHET, 64, rootKey).value;
    (okm[..32], okm[32..])
  }

  datatype MessageKeys = MessageKeys(cipherKey: Bytes, macKey: Bytes, iv: Bytes)

  function DeriveMessageKeys(env: Env, seed: Bytes32): MessageKeys {
    var okm := Hkdf(env.prims.hmac, seed, WHISPER_MESSAGE_KEYS, 80, Zeros(32)).value;
    MessageKeys(okm[..32], okm[32..64], okm[64..])
  }

  function ComputeMac(env: Env, macKey: Bytes, sender: Bytes, receiver: Bytes, ratchetKey: Bytes,
                      counter: nat, previousCounter: nat, ciphertext: Bytes): Bytes {
    env.prims.hmac(macKey, sender + receiver + env.wire(ratchetKey, counter, previousCounter, ciphertext))[..8]
  }

  // ---- Encryption ----

  /** The message a seed makes of a plaintext. */
  function Seal(env: Env, seed: Bytes32, sender: Bytes, receiver: Bytes, ratchetKey: Bytes,
                counter: nat, previousCounter: nat, plaintext: Bytes): Message {
    var keys := DeriveMessageKeys(env, seed);
    var ciphertext := AesCbcEncrypt(env.prims, keys.cipherKey, keys.iv, plaintext);
    Message(ratchetKey, counter, previousCounter, ciphertext,
            ComputeMac(env, keys.macKey, sender, receiver, ratchetKey, counter, previousCounter, ciphertext))
  }

  function Wrap(s: Session, m: Message): Envelope {
    match s.pending
    case None => Whisper(m)
    case Some(header) => PreKeyWhisper(header, s.localIdentity, m)
  }

  function Encrypt(env: Env, s: Session, plaintext: Bytes): Result<(Session, Envelope), RatchetError> {
    var own := s.ephemeral.public;
    if own !in s.chains || !s.chains[own].sending || s.chains[own].key.None? then Err(NoSendingChain)
    else
      var chain := s.chains[own];
      var message := Seal(env, MessageSeed(env, chain.key.value), s.localIdentity, s.remoteIdentity,
                          own, chain.counter, s.previousCounter, plaintext);
      var chain' := chain.(counter := chain.counter + 1, key := Some(NextKey(env, chain.key.value)));
      Ok((s.(chains := s.chains[own := chain']), Wrap(s, message)))
  }

  // ---- Decryption ----

  /** One key further, the passed one cached. */
  function CacheOne(env: Env, chain: Chain): Chain
    requires chain.key.Some?
  {
    chain.(counter := chain.counter + 1,
           key := Some(NextKey(env, chain.key.value)),
           messageKeys := chain.messageKeys[chain.counter := MessageSeed(env, chain.key.value)])
  }

  function AdvanceTo(env: Env, chain: Chain, target: nat): (Chain, Bytes32)
    requires chain.key.Some? && chain.counter <= target
    decreases target - chain.counter
  {
    if chain.counter == target then
      (chain.(counter := chain.counter + 1, key := Some(NextKey(env, chain.key.value))),
       MessageSeed(env, chain.key.value))
    else AdvanceTo(env, CacheOne(env, chain), target)
  }

  function TakeKey(env: Env, chain: Chain, counter: nat): Result<(Chain, Bytes32), RatchetError> {
    if counter in chain.messageKeys then
      Ok((chain.(messageKeys := chain.messageKeys - {counter}), chain.messageKeys[counter]))
    else if chain.key.None? then Err(MessageKeyAlreadyConsumed)
    else if chain.counter > counter then Err(MessageKeyAlreadyConsumed)
    else if counter - chain.counter > MAX_SKIPPED_KEYS then Err(TooManySkippedKeys)
    else Ok(AdvanceTo(env, chain, counter))
  }

  function Open(env: Env, seed: Bytes32, sender: Bytes, receiver: Bytes, m: Message): Result<Bytes, RatchetError> {
    var keys := DeriveMessageKeys(env, seed);
    var mac := ComputeMac(env, keys.macKey, sender, receiver, m.ratchetKey, m.counter, m.previousCounter, m.ciphertext);
    if m.mac != mac then Err(BadMac)
    else
      match AesCbcDecrypt(env.prims, keys.cipherKey, keys.iv, m.ciphertext)
      case Ok(plaintext) => Ok(plaintext)
      case Err(_) => Err(RatchetError.DecryptFailed)
  }

  function CacheUntil(env: Env, chain: Chain, previousCounter: nat): Chain
    decreases previousCounter + 1 - chain.counter
  {
    if chain.key.None? || chain.counter > previousCounter then chain
    else CacheUntil(env, CacheOne(env, chain), previousCounter)
  }

  /** The last chain received on is run to its announced end and loses its key. */
  function CloseReceiving(env: Env, chains: map<Bytes, Chain>, remote: Bytes, previousCounter: nat): map<Bytes, Chain> {
    if remote in chains && !chains[remote].sending then
      chains[remote := CacheUntil(env, chains[remote], previousCounter).(key := None)]
    else chains
  }

  function LastCounter(sent: nat): nat {
    if sent > 0 then sent - 1 else 0
  }

  function RatchetStep(env: Env, s: Session, their: Bytes, previousCounter: nat, freshKeys: KeyPair): Session {
    var own := s.ephemeral;
    var closed := CloseReceiving(env, s.chains, s.lastRemote, previousCounter);
    var nextPrevious := if own.public in closed then LastCounter(closed[own.public].counter) else 0;
    var (root1, receivingKey) := RootStep(env, s.rootKey, env.x25519(own.private, their));
    var (root2, sendingKey) := RootStep(env, root1, env.x25519(freshKeys.private, their));
    s.(rootKey := root2,
       ephemeral := freshKeys,
       lastRemote := their,
       previousCounter := nextPrevious,
       chains := (closed - {own.public})
         [their := Chain(0, Some(receivingKey), false, map[])]
         [freshKeys.public := Chain(0, Some(sendingKey), true, map[])])
  }

  /** The session a message is decrypted in: as it is, or ratcheted first. */
  function SessionFor(env: Env, s: Session, m: Message, freshKeys: KeyPair): Session {
    if m.ratchetKey in s.chains then s else RatchetStep(env, s, m.ratchetKey, m.previousCounter, freshKeys)
  }

  /** On an error the caller keeps the session it had; a success ends the wrapping of what is sent. */
  function Decrypt(env: Env, s: Session, m: Message, freshKeys: KeyPair): Result<(Session, Bytes), RatchetError> {
    var s1 := SessionFor(env, s, m, freshKeys);
    if m.ratchetKey !in s1.chains then Err(NoChain)
    else
      match TakeKey(env, s1.chains[m.ratchetKey], m.counter)
      case Err(e) => Err(e)
      case Ok((chain, seed)) =>
        match Open(env, seed, s.remoteIdentity, s.localIdentity, m)
        case Err(e) => Err(e)
        case Ok(plaintext) => Ok((s1.(chains := s1.chains[m.ratchetKey := chain], pending := None), plaintext))
  }

  // ---- The key schedule and a message, in terms of the primitives ----

  /** A chain key gives the seed of its message under the byte 1 and the next chain key under the byte 2. */
  lemma ChainStep(env: Env, start: Bytes32, i: nat)
    ensures SeedAt(env, start, i) == env.prims.hmac(ChainKeyAt(env, start, i), [1])
    ensures ChainKeyAt(env, start, 0) == start
    ensures ChainKeyAt(env, start, i + 1) == env.prims.hmac(ChainKeyAt(env, start, i), [2])
  {
  }

  /** A ratchet step makes the first block of the derived material the root key, the second the chain key. */
  lemma RootStepSplitsBlocks(env: Env, rootKey: Bytes32, secret: Bytes)
    ensures
      var info := Utf8("WhisperRatchet");
      var prk := env.prims.hmac(rootKey, secret);
      var t1: Bytes32 := env.prims.hmac(prk, info + [1]);
      RootStep(env, rootKey, secret) == (t1, env.prims.hmac(prk, t1 + info + [2]))
  {
    HkdfStart(env.prims.hmac, secret, WHISPER_RATCHET, rootKey);
  }

  /** The first root key is the first block of what the agreed secret is expanded to. */
  lemma DeriveIsFirstBlock(env: Env, secret: Bytes)
    ensures Derive(env, secret) == env.prims.hmac(env.prims.hmac(Zeros(32), secret), Utf8("WhisperText") + [1])
  {
    HkdfStart(env.prims.hmac, secret, WHISPER_TEXT, Zeros(32));
  }

  /** Cipher key, MAC key and iv are the first two blocks and half of the third. */
  lemma MessageKeysAreBlocks(env: Env, seed: Bytes32)
    ensures
      var info := Utf8("WhisperMessageKeys");
      var prk := env.prims.hmac(Zeros(32), seed);
      var t1: Bytes := env.prims.hmac(prk, info + [1]);
      var t2: Bytes := env.prims.hmac(prk, t1 + info + [2]);
      var t3: Bytes := env.prims.hmac(prk, t2 + info + [3]);
      DeriveMessageKeys(env, seed) == MessageKeys(t1, t2, t3[..16])
  {
    var info := Utf8("WhisperMessageKeys");
    var prk := env.prims.hmac(Zeros(32), seed);
    ExpandIsStreamPrefix(env.prims.hmac, prk, info, 80);
    FourBlocks(env.prims.hmac, prk, info);
    FirstTwoBlocks(env.prims.hmac, prk, info);
    var all := Stream(env.prims.hmac, prk, info, 255);
    assert all[..80][..32] == all[0..32] && all[..80][32..64] == all[32..64];
    assert all[..80][64..] == all[64..96][..16];
  }

  /** The MAC a message must carry: the first eight bytes of the HMAC, under the second block that the seed
      is expanded to, of the sender's identity, the receiver's, and the message as serialized. */
  function ExpectedMac(env: Env, seed: Bytes32, sender: Bytes, receiver: Bytes, m: Message): Bytes {
    var info := Utf8("WhisperMessageKeys");
    var prk := env.prims.hmac(Zeros(32), seed);
    var macKey := env.prims.hmac(prk, env.prims.hmac(prk, info + [1]) + info + [2]);
    env.prims.hmac(macKey, sender + receiver + env.wire(m.ratchetKey, m.counter, m.previousCounter, m.ciphertext))[..8]
  }

  /** A sealed message carries that MAC and its header, and holds the plaintext, padded, under cipher key
      and iv. */
  lemma SealFields(env: Env, seed: Bytes32, sender: Bytes, receiver: Bytes, ratchetKey: Bytes,
                   counter: nat, previousCounter: nat, plaintext: Bytes)
    requires env.Lawful()
    ensures
      var m := Seal(env, seed, sender, receiver, ratchetKey, counter, previousCounter, plaintext);
      var keys := DeriveMessageKeys(env, seed);
      var x := env.prims.cbcDecrypt(keys.cipherKey, keys.iv, m.ciphertext);
      && m.ratchetKey == ratchetKey && m.counter == counter && m.previousCounter == previousCounter
      && m.mac == ExpectedMac(env, seed, sender, receiver, m)
      && x.Some? && PaddedForm(x.value, plaintext, 16)
  {
    MessageKeysAreBlocks(env, seed);
    var keys := DeriveMessageKeys(env, seed);
    CbcEncryptsPadded(env.prims, keys.cipherKey, keys.iv, plaintext);
  }

  /** Any message whatever opens to a plaintext exactly if it carries the MAC its fields call for and its
      ciphertext is an encryption of that plaintext; a wrong MAC is refused first. */
  lemma OpensIff(env: Env, seed: Bytes32, sender: Bytes, receiver: Bytes, m: Message, plaintext: Bytes)
    requires env.Lawful()
    ensures
      var keys := DeriveMessageKeys(env, seed);
      var r := Open(env, seed, sender, receiver, m);
      var genuine := m.mac == ExpectedMac(env, seed, sender, receiver, m);
      && (r == Ok(plaintext)
          <==> genuine && m.ciphertext == AesCbcEncrypt(env.prims, keys.cipherKey, keys.iv, plaintext))
      && (r.Err? ==> r.error == if genuine then RatchetError.DecryptFailed else BadMac)
  {
    MessageKeysAreBlocks(env, seed);
    var keys := DeriveMessageKeys(env, seed);
    CbcDecryptIffEncrypted(env.prims, keys.cipherKey, keys.iv, plaintext, m.ciphertext);
  }

  /** What a ratchet step leaves: two root steps, one for the sender's key and one for the fresh key, whose
      chain keys start the new chains; and the counter of the last message sent before, or zero. */
  lemma RatchetStepFields(env: Env, s: Session, their: Bytes, previousCounter: nat, freshKeys: KeyPair)
    requires their != freshKeys.public && s.ephemeral.public in s.chains && s.ephemeral.public != s.lastRemote
    ensures
      var own := s.ephemeral;
      var (root1, receiving) := RootStep(env, s.rootKey, env.x25519(own.private, their));
      var (root2, sending) := RootStep(env, root1, env.x25519(freshKeys.private, their));
      var sent := s.chains[own.public].counter;
      var s' := RatchetStep(env, s, their, previousCounter, freshKeys);
      && s'.rootKey == root2 && s'.ephemeral == freshKeys && s'.lastRemote == their
      && their in s'.chains && s'.chains[their] == Chain(0, Some(receiving), false, map[])
      && freshKeys.public in s'.chains && s'.chains[freshKeys.public] == Chain(0, Some(sending), true, map[])
      && (own.public !in {their, freshKeys.public} ==> own.public !in s'.chains)
      && s'.previousCounter == (if sent == 0 then 0 else sent - 1)
  {
  }

  /** A message, on a known chain or after a ratchet step, with a key still to be had but a MAC other than
      the one its fields call for, is refused. */
  lemma WrongMacRefused(env: Env, s: Session, m: Message, freshKeys: KeyPair)
    requires
      var s1 := SessionFor(env, s, m, freshKeys);
      && m.ratchetKey in s1.chains
      && var taken := TakeKey(env, s1.chains[m.ratchetKey], m.counter);
      && taken.Ok?
      && m.mac != ExpectedMac(env, taken.value.1, s.remoteIdentity, s.localIdentity, m)
    ensures Decrypt(env, s, m, freshKeys) == Err(BadMac)
  {
    var s1 := SessionFor(env, s, m, freshKeys);
    MessageKeysAreBlocks(env, TakeKey(env, s1.chains[m.ratchetKey], m.counter).value.1);
  }

  /** An accepted message carries the MAC its fields call for under the key of its counter, and that key is
      spent. */
  lemma AcceptedCarriesMac(env: Env, s: Session, m: Message, freshKeys: KeyPair)
    requires Decrypt(env, s, m, freshKeys).Ok?
    ensures
      var s1 := SessionFor(env, s, m, freshKeys);
      && m.ratchetKey in s1.chains
      && var taken := TakeKey(env, s1.chains[m.ratchetKey], m.counter);
      && taken.Ok?
      && m.mac == ExpectedMac(env, taken.value.1, s.remoteIdentity, s.localIdentity, m)
      && Decrypt(env, s, m, freshKeys).value.0
         == s1.(chains := s1.chains[m.ratchetKey := taken.value.0], pending := None)
  {
    var s1 := SessionFor(env, s, m, freshKeys);
    MessageKeysAreBlocks(env, TakeKey(env, s1.chains[m.ratchetKey], m.counter).value.1);
  }

  /** Nothing can be sent exactly without an open chain of one's own. */
  lemma EncryptRefusedIff(env: Env, s: Session, plaintext: Bytes)
    ensures
      var own := s.ephemeral.public;
      Encrypt(env, s, plaintext).Err? <==> !(own in s.chains && s.chains[own].sending && s.chains[own].key.Some?)
    ensures Encrypt(env, s, plaintext).Err? ==> Encrypt(env, s, plaintext).error == NoSendingChain
  {
  }

  // ---- One receiving chain: every key at most once, in any order ----

  function ChainKeyAt(env: Env, start: Bytes32, i: nat): Bytes32 {
    if i == 0 then start else NextKey(env, ChainKeyAt(env, start, i - 1))
  }

  function SeedAt(env: Env, start: Bytes32, i: nat): Bytes32 {
    MessageSeed(env, ChainKeyAt(env, start, i))
  }

  /** A chain grown from `start` that stands at `next` and has given out the keys in `used`: it caches
      exactly the others, and still has its key unless it was closed. */
  ghost predicate Follows(env: Env, chain: Chain, start: Bytes32, next: nat, used: set<nat>) {
    && chain.counter == next
    && (chain.key.Some? ==> chain.key.value == ChainKeyAt(env, start, next))
    && (forall i :: i in used ==> i < next)
    && (forall i :: i in chain.messageKeys <==> 0 <= i < next && i !in used)
    && (forall i :: i in chain.messageKeys ==> chain.messageKeys[i] == SeedAt(env, start, i))
  }

  lemma {:induction false} AdvanceFollows(env: Env, chain: Chain, start: Bytes32, used: set<nat>, target: nat)
    requires chain.key.Some? && Follows(env, chain, start, chain.counter, used) && chain.counter <= target
    ensures
      var (chain', seed) := AdvanceTo(env, chain, target);
      && seed == SeedAt(env, start, target) && chain'.key.Some? && chain'.sending == chain.sending
      && Follows(env, chain', start, target + 1, used + {target})
    decreases target - chain.counter
  {
    if chain.counter < target {
      AdvanceFollows(env, CacheOne(env, chain), start, used, target);
    }
  }

  lemma {:induction false} CacheUntilFollows(env: Env, chain: Chain, start: Bytes32, used: set<nat>,
                                             previousCounter: nat)
    requires chain.key.Some? && Follows(env, chain, start, chain.counter, used)
    ensures
      var chain' := CacheUntil(env, chain, previousCounter);
      && chain'.key.Some? && chain'.sending == chain.sending
      && Follows(env, chain', start,
                 if chain.counter > previousCounter then chain.counter else previousCounter + 1, used)
    decreases previousCounter + 1 - chain.counter
  {
    if chain.counter <= previousCounter {
      CacheUntilFollows(env, CacheOne(env, chain), start, used, previousCounter);
    }
  }

  /** The limit of a chain that stands at `next`: a closed one gives out no further keys. */
  function Reach(chain: Chain, next: nat): nat {
    if chain.key.Some? then next + MAX_SKIPPED_KEYS + 1 else next
  }

  /** Which keys a chain still gives out, what is left after one is taken, and every refusal. */
  lemma TakeKeyExact(env: Env, chain: Chain, start: Bytes32, next: nat, used: set<nat>, counter: nat)
    requires Follows(env, chain, start, next, used)
    ensures
      var r := TakeKey(env, chain, counter);
      && (r.Ok? <==> counter !in used && counter < Reach(chain, next))
      && (counter in used ==> r == Err(MessageKeyAlreadyConsumed))
      && (counter >= Reach(chain, next) ==>
            r == Err(if chain.key.Some? then TooManySkippedKeys else MessageKeyAlreadyConsumed))
      && (r.Ok? ==>
            && r.value.1 == SeedAt(env, start, counter)
            && r.value.0.sending == chain.sending && (r.value.0.key.Some? <==> chain.key.Some?)
            && Follows(env, r.value.0, start, if counter < next then next else counter + 1, used + {counter}))
  {
    if next <= counter < Reach(chain, next) {
      AdvanceFollows(env, chain, start, used, counter);
    }
  }

  /** On an open chain a key two thousand ahead of the next one is given out, one further is not. */
  lemma SkipBound(env: Env, chain: Chain, counter: nat)
    requires chain.key.Some? && counter !in chain.messageKeys && counter >= chain.counter
    ensures TakeKey(env, chain, counter).Ok? <==> counter <= chain.counter + 2000
    ensures counter > chain.counter + 2000 ==> TakeKey(env, chain, counter) == Err(TooManySkippedKeys)
  {
  }

  /** Closing an open chain caches one key for every counter up to the announced one, however many
      those are: the announced counter alone decides how far the cache grows. */
  lemma {:induction false} CacheUntilGrows(env: Env, chain: Chain, previousCounter: nat)
    requires chain.key.Some? && forall i :: i in chain.messageKeys ==> i < chain.counter
    ensures
      var before, after := |chain.messageKeys|, |CacheUntil(env, chain, previousCounter).messageKeys|;
      after == if chain.counter <= previousCounter then before + previousCounter + 1 - chain.counter else before
    decreases previousCounter + 1 - chain.counter
  {
    if chain.counter <= previousCounter {
      assert CacheOne(env, chain).messageKeys.Keys == chain.messageKeys.Keys + {chain.counter};
      CacheUntilGrows(env, CacheOne(env, chain), previousCounter);
    }
  }

  /** A message opens under the seed and identities it was sealed with. */
  lemma SealedOpens(env: Env, seed: Bytes32, sender: Bytes, receiver: Bytes, ratchetKey: Bytes,
                    counter: nat, previousCounter: nat, plaintext: Bytes)
    requires env.Lawful()
    ensures Open(env, seed, sender, receiver,
                 Seal(env, seed, sender, receiver, ratchetKey, counter, previousCounter, plaintext)) == Ok(plaintext)
  {
    var keys := DeriveMessageKeys(env, seed);
    CbcDecryptIffEncrypted(env.prims, keys.cipherKey, keys.iv, plaintext,
                           AesCbcEncrypt(env.prims, keys.cipherKey, keys.iv, plaintext));
  }

  /** Encrypting on a chain grown from `start`: the next sealed message, wrapped while that is pending,
      and the chain one further. */
  lemma EncryptExact(env: Env, s: Session, start: Bytes32, n: nat, plaintext: Bytes)
    requires s.ephemeral.public in s.chains
    requires s.chains[s.ephemeral.public] == Chain(n, Some(ChainKeyAt(env, start, n)), true, map[])
    ensures Encrypt(env, s, plaintext) == Ok((
      s.(chains := s.chains[s.ephemeral.public := Chain(n + 1, Some(ChainKeyAt(env, start, n + 1)), true, map[])]),
      Wrap(s, Seal(env, SeedAt(env, start, n), s.localIdentity, s.remoteIdentity,
                   s.ephemeral.public, n, s.previousCounter, plaintext))))
  {
  }

  /** Decrypting message i of a chain the session has: accepted exactly if its key is still to be had,
      and then nothing but that chain changes, and nothing is pending any more. */
  lemma DecryptExact(env: Env, s: Session, key: Bytes, start: Bytes32, next: nat, used: set<nat>,
                     i: nat, previousCounter: nat, plaintext: Bytes, freshKeys: KeyPair) returns (chain': Chain)
    requires env.Lawful() && key in s.chains
    requires Follows(env, s.chains[key], start, next, used)
    ensures
      var m := Seal(env, SeedAt(env, start, i), s.remoteIdentity, s.localIdentity, key, i, previousCounter, plaintext);
      Decrypt(env, s, m, freshKeys) ==
        if i in used then Err(MessageKeyAlreadyConsumed)
        else if i < Reach(s.chains[key], next) then
          Ok((s.(chains := s.chains[key := chain'], pending := None), plaintext))
        else if s.chains[key].key.Some? then Err(TooManySkippedKeys)
        else Err(MessageKeyAlreadyConsumed)
    ensures i !in used && i < Reach(s.chains[key], next) ==>
      && chain'.sending == s.chains[key].sending && (chain'.key.Some? <==> s.chains[key].key.Some?)
      && Follows(env, chain', start, if i < next then next else i + 1, used + {i})
  {
    chain' := s.chains[key];
    TakeKeyExact(env, chain', start, next, used, i);
    SealedOpens(env, SeedAt(env, start, i), s.remoteIdentity, s.localIdentity, key, i, previousCounter, plaintext);
    var r := TakeKey(env, chain', i);
    if r.Ok? { chain' := r.value.0; }
  }

  // ---- Session set-up (X3DH) ----

  function Derive(env: Env, secret: Bytes): Bytes32 {
    Hkdf(env.prims.hmac, secret, WHISPER_TEXT, 64, Zeros(32)).value[..32]
  }

  function AliceSecret(env: Env, identity: KeyPair, base: KeyPair, theirIdentity: Bytes, theirSigned: Bytes,
                       theirOneTime: Option<Bytes>): Bytes {
    var shared: Bytes := Repeat(0xff, 32) + env.x25519(identity.private, theirSigned)
      + env.x25519(base.private, theirIdentity) + env.x25519(base.private, theirSigned);
    if theirOneTime.Some? then shared + env.x25519(base.private, theirOneTime.value) else shared
  }

  function BobSecret(env: Env, identity: KeyPair, signed: KeyPair, oneTime: Option<KeyPair>, theirIdentity: Bytes,
                     theirBase: Bytes): Bytes {
    var shared: Bytes := Repeat(0xff, 32) + env.x25519(signed.private, theirIdentity)
      + env.x25519(identity.private, theirBase) + env.x25519(signed.private, theirBase);
    if oneTime.Some? then shared + env.x25519(oneTime.value.private, theirBase) else shared
  }

  /** The recipient's published keys and the names it has given them. */
  datatype Bundle = Bundle(registrationId: nat, identity: Bytes, signedId: nat, signed: Bytes,
                           oneTimeId: Option<nat>, oneTime: Option<Bytes>)

  /** Alice takes her first ratchet step at once, and wraps what she sends for the time being. */
  function InitOutgoing(env: Env, identity: KeyPair, base: KeyPair, ratchet: KeyPair, b: Bundle): Session {
    var root := Derive(env, AliceSecret(env, identity, base, b.identity, b.signed, b.oneTime));
    var (newRoot, sendingKey) := RootStep(env, root, env.x25519(ratchet.private, b.signed));
    Session(newRoot, ratchet, b.signed, 0, identity.public, b.identity,
            map[ratchet.public := Chain(0, Some(sendingKey), true, map[])],
            Some(PreKeyHeader(b.registrationId, b.oneTimeId, b.signedId, base.public)))
  }

  function InitIncoming(env: Env, identity: KeyPair, signed: KeyPair, oneTime: Option<KeyPair>, theirIdentity: Bytes,
                        theirBase: Bytes): Session {
    var root := Derive(env, BobSecret(env, identity, signed, oneTime, theirIdentity, theirBase));
    Session(root, signed, theirBase, 0, identity.public, theirIdentity, map[], None)
  }

  /** Alice's secret is 32 times 0xff and three or four exchanges: her identity with the signed key, her
      base key with his identity, with the signed key, and with the one-time key if there is one. */
  lemma SecretFields(env: Env, identity: KeyPair, base: KeyPair, theirIdentity: Bytes, theirSigned: Bytes,
                     theirOneTime: Option<Bytes>)
    ensures
      var x := AliceSecret(env, identity, base, theirIdentity, theirSigned, theirOneTime);
      && |x| == (if theirOneTime.Some? then 160 else 128)
      && (forall i :: 0 <= i < 32 ==> x[i] == 0xff)
      && x[32..64] == env.x25519(identity.private, theirSigned)
      && x[64..96] == env.x25519(base.private, theirIdentity)
      && x[96..128] == env.x25519(base.private, theirSigned)
      && (theirOneTime.Some? ==> x[128..] == env.x25519(base.private, theirOneTime.value))
  {
  }

  /** What the two sessions start from. */
  lemma InitFields(env: Env, identity: KeyPair, base: KeyPair, ratchet: KeyPair, b: Bundle, theirs: KeyPair,
                   signed: KeyPair, oneTime: Option<KeyPair>)
    ensures
      var s := InitOutgoing(env, identity, base, ratchet, b);
      var root := Derive(env, AliceSecret(env, identity, base, b.identity, b.signed, b.oneTime));
      var (newRoot, sendingKey) := RootStep(env, root, env.x25519(ratchet.private, b.signed));
      && s.rootKey == newRoot && s.ephemeral == ratchet && s.lastRemote == b.signed && s.previousCounter == 0
      && s.localIdentity == identity.public && s.remoteIdentity == b.identity
      && s.chains.Keys == {ratchet.public}
      && s.chains[ratchet.public] == Chain(0, Some(sendingKey), true, map[])
      && s.pending == Some(PreKeyHeader(b.registrationId, b.oneTimeId, b.signedId, base.public))
    ensures
      var s := InitIncoming(env, theirs, signed, oneTime, identity.public, base.public);
      && s.rootKey == Derive(env, BobSecret(env, theirs, signed, oneTime, identity.public, base.public))
      && s.ephemeral == signed && s.lastRemote == base.public && s.previousCounter == 0
      && s.localIdentity == theirs.public && s.remoteIdentity == identity.public
      && s.chains == map[] && s.pending == None
  {
  }

  /** Both sides compute one secret. */
  lemma SecretsAgree(env: Env, alice: KeyPair, base: KeyPair, bob: KeyPair, signed: KeyPair, oneTime: Option<KeyPair>)
    requires env.Lawful()
    requires Matching(env, alice) && Matching(env, base) && Matching(env, bob) && Matching(env, signed)
    requires oneTime.Some? ==> Matching(env, oneTime.value)
    ensures AliceSecret(env, alice, base, bob.public, signed.public,
                        if oneTime.Some? then Some(oneTime.value.public) else None)
         == BobSecret(env, bob, signed, oneTime, alice.public, base.public)
  {
    assert env.DhAgrees(alice.private, signed.private);
    assert env.DhAgrees(base.private, bob.private);
    assert env.DhAgrees(base.private, signed.private);
    assert oneTime.Some? ==> env.DhAgrees(base.private, oneTime.value.private);
  }

  /** A toy instance: the stated laws have a model, and one with as many public keys as private ones. */
  lemma LawfulIsSatisfiable(wire: (Bytes, nat, nat, Bytes) -> Bytes) returns (toy: Env)
    ensures toy.Lawful() && toy.wire == wire && forall k :: toy.public(k) == k
  {
    var prims := Crypto.LawfulIsSatisfiable();
    toy := Env(prims, private => private, (private, public) => Zeros(32), wire);
  }
}
