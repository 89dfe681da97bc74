/** Every run of two Signal sessions against each other. A ledger records, epoch by epoch, which key
    pair was current, what was sent under it and which of it has been accepted; the sessions are shown
    to stay in agreement with the ledger whatever is sent, lost, repeated or delivered late. */
module Conversation {
  import opened Octets
  import opened Crypto
  import opened Ratchet

  datatype Party = Alice | Bob

  /** One key pair's turn as the sending ratchet key: its root key, the chain key its sending chain
      starts from, what was sent on that chain, and how far the peer has gone on it. */
  datatype Epoch = Epoch(keys: KeyPair, root: Bytes32, start: Bytes32, sent: seq<Bytes>, posted: seq<Envelope>,
                         next: nat, used: set<nat>)

  /** Epoch 0 is Bob's signed pre-key, under which nothing is sent; then the parties alternate. */
  type Ledger = seq<Epoch>

  /** The identities, and the header that Alice's first messages carry. */
  datatype Identities = Identities(alice: Bytes, bob: Bytes, header: PreKeyHeader)
  {
    function Of(p: Party): Bytes {
      if p == Alice then alice else bob
    }
  }

  function Peer(p: Party): Party {
    if p == Alice then Bob else Alice
  }

  function OwnerOf(e: nat): Party {
    if e % 2 == 0 then Bob else Alice
  }

  /** The epoch a party is in: the last one, or the one before if the last one is the peer's. */
  function Level(l: Ledger, p: Party): nat
    requires |l| >= 2
  {
    if OwnerOf(|l| - 1) == p then |l| - 1 else |l| - 2
  }

  /** What messages of an epoch announce as the last counter of the sender's previous chain. */
  function Announced(l: Ledger, e: nat): nat
    requires e < |l|
  {
    if e >= 2 then LastCounter(|l[e - 2].sent|) else 0
  }

  // ---- The ledger's own consistency ----

  ghost predicate MatchingAt(env: Env, l: Ledger, e: nat)
    requires e < |l|
  {
    Matching(env, l[e].keys)
  }

  ghost predicate DistinctAt(l: Ledger, d: nat, e: nat)
    requires d < |l| && e < |l|
  {
    l[d].keys.public != l[e].keys.public
  }

  ghost predicate KeysOk(env: Env, l: Ledger) {
    && (forall e {:trigger MatchingAt(env, l, e)} :: 0 <= e < |l| ==> MatchingAt(env, l, e))
    && (forall d, e {:trigger DistinctAt(l, d, e)} :: 0 <= d < |l| && 0 <= e < |l| && d != e ==> DistinctAt(l, d, e))
  }

  /** Root and chain keys come from the previous epoch's root and the two adjacent key pairs. */
  ghost predicate DerivedOk(env: Env, l: Ledger, e: nat)
    requires 1 <= e < |l|
  {
    RootStep(env, l[e - 1].root, env.x25519(l[e].keys.private, l[e - 1].keys.public)) == (l[e].root, l[e].start)
  }

  ghost predicate PostedAt(env: Env, ids: Identities, l: Ledger, e: nat, i: nat)
    requires e < |l| && i < |l[e].sent| && i < |l[e].posted|
  {
    l[e].posted[i] == InEpoch(ids, e,
                              Seal(env, SeedAt(env, l[e].start, i), ids.Of(OwnerOf(e)), ids.Of(Peer(OwnerOf(e))),
                                           l[e].keys.public, i, Announced(l, e), l[e].sent[i]))
  }

  /** The first epoch is the one in which Alice has not heard from Bob: all its messages are wrapped, and
      no later ones. */
  function InEpoch(ids: Identities, e: nat, m: Message): Envelope {
    if e == 1 then PreKeyWhisper(ids.header, ids.alice, m) else Whisper(m)
  }

  ghost predicate PostedOk(env: Env, ids: Identities, l: Ledger, e: nat)
    requires e < |l|
  {
    && |l[e].posted| == |l[e].sent|
    && forall i {:trigger PostedAt(env, ids, l, e, i)} :: 0 <= i < |l[e].sent| ==> PostedAt(env, ids, l, e, i)
  }

  /** Posted messages depend on the epoch's key, start and messages, and on what it announces. */
  lemma PostedFrame(env: Env, ids: Identities, l: Ledger, l': Ledger, e: nat)
    requires e < |l| && e < |l'| && PostedOk(env, ids, l, e) && Announced(l, e) == Announced(l', e)
    requires l'[e].keys == l[e].keys && l'[e].start == l[e].start && l'[e].sent == l[e].sent
    requires l'[e].posted == l[e].posted
    ensures PostedOk(env, ids, l', e)
  {
    forall i | 0 <= i < |l'[e].sent| ensures PostedAt(env, ids, l', e, i) {
      assert PostedAt(env, ids, l, e, i);
    }
  }

  /** An epoch the peer has left behind was run to its end; the newest one has not been received on. */
  ghost predicate ProgressOk(l: Ledger, e: nat)
    requires e < |l|
  {
    && (e + 3 < |l| ==> l[e].next >= |l[e].sent|)
    && (e + 1 == |l| ==> l[e].next == 0 && l[e].used == {})
  }

  ghost predicate LedgerOk(env: Env, ids: Identities, l: Ledger) {
    && |l| >= 2
    && l[0].sent == []
    && KeysOk(env, l)
    && (forall e {:trigger DerivedOk(env, l, e)} :: 1 <= e < |l| ==> DerivedOk(env, l, e))
    && (forall e {:trigger PostedOk(env, ids, l, e)} :: 0 <= e < |l| ==> PostedOk(env, ids, l, e))
    && (forall e {:trigger ProgressOk(l, e)} :: 0 <= e < |l| ==> ProgressOk(l, e))
  }

  // ---- What the ledger says about a session ----

  ghost predicate SendsOn(env: Env, l: Ledger, s: Session, e: nat)
    requires e < |l|
  {
    && l[e].keys.public in s.chains
    && s.chains[l[e].keys.public] == Chain(|l[e].sent|, Some(ChainKeyAt(env, l[e].start, |l[e].sent|)), true, map[])
  }

  ghost predicate ReceivesOn(env: Env, l: Ledger, s: Session, e: nat, level: nat)
    requires e < |l|
  {
    && l[e].keys.public in s.chains
    && var chain := s.chains[l[e].keys.public];
    && !chain.sending
    && (chain.key.Some? <==> e + 1 == level)
    && Follows(env, chain, l[e].start, l[e].next, l[e].used)
  }

  ghost predicate KnownKey(l: Ledger, level: nat, key: Bytes)
    requires level < |l|
  {
    exists e :: 1 <= e <= level && l[e].keys.public == key
  }

  ghost predicate StateOk(ids: Identities, l: Ledger, p: Party, s: Session)
    requires |l| >= 2
  {
    var level := Level(l, p);
    && s.rootKey == l[level].root
    && s.ephemeral == l[level].keys
    && s.previousCounter == Announced(l, level)
    && s.localIdentity == ids.Of(p) && s.remoteIdentity == ids.Of(Peer(p))
    && s.pending == (if level == 1 then Some(ids.header) else None)
    && (level >= 1 ==> s.lastRemote == l[level - 1].keys.public)
  }

  ghost predicate ReceivesAll(env: Env, l: Ledger, p: Party, s: Session)
    requires |l| >= 2
  {
    var level := Level(l, p);
    forall e {:trigger ReceivesOn(env, l, s, e, level)} :: 1 <= e < level && OwnerOf(e) != p ==>
      ReceivesOn(env, l, s, e, level)
  }

  ghost predicate KnownAll(l: Ledger, p: Party, s: Session)
    requires |l| >= 2
  {
    var level := Level(l, p);
    forall k {:trigger KnownKey(l, level, k)} :: k in s.chains ==> KnownKey(l, level, k)
  }

  ghost predicate Matches(env: Env, ids: Identities, l: Ledger, p: Party, s: Session)
    requires |l| >= 2
  {
    && StateOk(ids, l, p, s)
    && (Level(l, p) >= 1 ==> SendsOn(env, l, s, Level(l, p)))
    && ReceivesAll(env, l, p, s)
    && KnownAll(l, p, s)
  }

  /** The part of an epoch a receiving chain depends on. */
  predicate SameReception(a: Epoch, b: Epoch) {
    a.keys == b.keys && a.start == b.start && a.next == b.next && a.used == b.used
  }

  lemma ReceptionFrame(env: Env, l: Ledger, s: Session, l': Ledger, s': Session, e: nat, level: nat)
    requires e < |l| && e < |l'| && SameReception(l[e], l'[e]) && ReceivesOn(env, l, s, e, level)
    requires l[e].keys.public in s'.chains && s'.chains[l[e].keys.public] == s.chains[l[e].keys.public]
    ensures ReceivesOn(env, l', s', e, level)
  {
  }

  lemma KnownFrame(l: Ledger, l': Ledger, level: nat, k: Bytes)
    requires level < |l| <= |l'| && (forall e :: 0 <= e < |l| ==> l'[e].keys == l[e].keys) && KnownKey(l, level, k)
    ensures KnownKey(l', level, k)
  {
    var e :| 1 <= e <= level && l[e].keys.public == k;
    assert l'[e].keys.public == k;
  }

  lemma ChainKeyIsKnown(l: Ledger, p: Party, s: Session, k: Bytes)
    requires |l| >= 2 && KnownAll(l, p, s) && k in s.chains
    ensures KnownKey(l, Level(l, p), k)
  {
  }

  lemma DistinctKeys(env: Env, l: Ledger, d: nat, e: nat)
    requires KeysOk(env, l) && d < |l| && e < |l| && d != e
    ensures l[d].keys.public != l[e].keys.public
  {
    assert DistinctAt(l, d, e);
  }

  lemma KnownAllFrame(l: Ledger, l': Ledger, p: Party, s: Session, s': Session)
    requires 2 <= |l| <= |l'| && Level(l', p) == Level(l, p) && (forall e :: 0 <= e < |l| ==> l'[e].keys == l[e].keys)
    requires KnownAll(l, p, s) && s'.chains.Keys == s.chains.Keys
    ensures KnownAll(l', p, s')
  {
    var level := Level(l, p);
    forall k | k in s'.chains ensures KnownKey(l', level, k) {
      assert k in s.chains;
      assert KnownKey(l, level, k);
      KnownFrame(l, l', level, k);
    }
  }

  // ---- Sending ----

  function RecordSent(l: Ledger, e: nat, plaintext: Bytes, m: Envelope): Ledger
    requires e < |l|
  {
    l[e := l[e].(sent := l[e].sent + [plaintext], posted := l[e].posted + [m])]
  }

  /** What a party past epoch 0 sends is the next sealed message of its epoch. */
  lemma SendPosts(env: Env, ids: Identities, l: Ledger, p: Party, s: Session, plaintext: Bytes)
    requires |l| >= 2 && PostedOk(env, ids, l, Level(l, p))
    requires StateOk(ids, l, p, s) && SendsOn(env, l, s, Level(l, p))
    ensures
      var level := Level(l, p);
      var r := Encrypt(env, s, plaintext);
      && r.Ok?
      && var l' := RecordSent(l, level, plaintext, r.value.1);
      && PostedOk(env, ids, l', level) && SendsOn(env, l', r.value.0, level) && StateOk(ids, l', p, r.value.0)
  {
    var level := Level(l, p);
    EncryptExact(env, s, l[level].start, |l[level].sent|, plaintext);
    var (s', m) := Encrypt(env, s, plaintext).value;
    var l' := RecordSent(l, level, plaintext, m);
    assert Announced(l', level) == Announced(l, level);
    assert OwnerOf(level) == p;
    forall i | 0 <= i < |l'[level].sent| ensures PostedAt(env, ids, l', level, i) {
      if i < |l[level].sent| { assert PostedAt(env, ids, l, level, i); }
    }
  }

  lemma SendMatches(env: Env, ids: Identities, l: Ledger, p: Party, s: Session, plaintext: Bytes)
    requires LedgerOk(env, ids, l) && Matches(env, ids, l, p, s) && Level(l, p) >= 1
    ensures Encrypt(env, s, plaintext).Ok?
    ensures
      var (s', m) := Encrypt(env, s, plaintext).value;
      Matches(env, ids, RecordSent(l, Level(l, p), plaintext, m), p, s')
  {
    var level := Level(l, p);
    assert PostedOk(env, ids, l, level);
    SendPosts(env, ids, l, p, s, plaintext);
    var (s', m) := Encrypt(env, s, plaintext).value;
    var l' := RecordSent(l, level, plaintext, m);
    forall e | 1 <= e < level && OwnerOf(e) != p ensures ReceivesOn(env, l', s', e, level) {
      assert ReceivesOn(env, l, s, e, level);
      ReceptionFrame(env, l, s, l', s', e, level);
    }
    assert s'.chains.Keys == s.chains.Keys;
    KnownAllFrame(l, l', p, s, s');
  }

  /** The other party's session says nothing about what has just been sent. */
  lemma SendMatchesPeer(env: Env, ids: Identities, l: Ledger, p: Party, q: Session, plaintext: Bytes, m: Envelope)
    requires |l| >= 2 && Matches(env, ids, l, Peer(p), q)
    ensures Matches(env, ids, RecordSent(l, Level(l, p), plaintext, m), Peer(p), q)
  {
    var l' := RecordSent(l, Level(l, p), plaintext, m);
    var level := Level(l, Peer(p));
    forall e | 1 <= e < level && OwnerOf(e) == p ensures ReceivesOn(env, l', q, e, level) {
      assert ReceivesOn(env, l, q, e, level);
      ReceptionFrame(env, l, q, l', q, e, level);
    }
    KnownAllFrame(l, l', Peer(p), q, q);
  }

  lemma SendKeepsLedger(env: Env, ids: Identities, l: Ledger, p: Party, plaintext: Bytes, m: Envelope)
    requires LedgerOk(env, ids, l) && Level(l, p) >= 1
    requires PostedOk(env, ids, RecordSent(l, Level(l, p), plaintext, m), Level(l, p))
    ensures LedgerOk(env, ids, RecordSent(l, Level(l, p), plaintext, m))
  {
    var level := Level(l, p);
    var l' := RecordSent(l, level, plaintext, m);
    forall e | 1 <= e < |l'| ensures DerivedOk(env, l', e) { assert DerivedOk(env, l, e); }
    forall e | 0 <= e < |l'| ensures ProgressOk(l', e) { assert ProgressOk(l, e); }
    forall e | 0 <= e < |l'| ensures PostedOk(env, ids, l', e) {
      assert PostedOk(env, ids, l, e);
      if e != level { PostedFrame(env, ids, l, l', e); }
    }
    KeysFrame(env, l, l');
  }

  lemma KeysFrame(env: Env, l: Ledger, l': Ledger)
    requires KeysOk(env, l) && |l'| == |l| && forall e :: 0 <= e < |l| ==> l'[e].keys == l[e].keys
    ensures KeysOk(env, l')
  {
    forall e | 0 <= e < |l'| ensures MatchingAt(env, l', e) { assert MatchingAt(env, l, e); }
    forall d, e | 0 <= d < |l'| && 0 <= e < |l'| && d != e ensures DistinctAt(l', d, e) { assert DistinctAt(l, d, e); }
  }

  // ---- Accepting a message on a chain the receiver already has ----

  function Accept(l: Ledger, j: nat, i: nat): Ledger
    requires j < |l|
  {
    l[j := l[j].(next := if i < l[j].next then l[j].next else i + 1, used := l[j].used + {i})]
  }

  /** The chain for an earlier epoch is there, and a closed one has every key that was used to send. */
  lemma ReceptionReady(env: Env, ids: Identities, l: Ledger, p: Party, s: Session, j: nat)
    requires LedgerOk(env, ids, l) && ReceivesAll(env, l, p, s) && 1 <= j < Level(l, p) && OwnerOf(j) != p
    ensures ReceivesOn(env, l, s, j, Level(l, p))
    ensures s.chains[l[j].keys.public].key.None? ==> |l[j].sent| <= l[j].next
  {
    assert ReceivesOn(env, l, s, j, Level(l, p));
    if j + 1 != Level(l, p) {
      ClosedIsBehind(l, p, j);
      assert ProgressOk(l, j);
    }
  }

  /** An earlier message of the peer is accepted exactly if it was not accepted before and is not too
      far ahead; what comes out is what was sent, and only that chain moves. */
  lemma OldChainExact(env: Env, ids: Identities, l: Ledger, p: Party, s: Session, j: nat, i: nat, m: Message,
                      freshKeys: KeyPair)
    returns (chain': Chain)
    requires env.Lawful() && LedgerOk(env, ids, l) && Matches(env, ids, l, p, s)
    requires 1 <= j < Level(l, p) && OwnerOf(j) != p && i < |l[j].sent| == |l[j].posted| && m == l[j].posted[i].message
    ensures l[j].keys.public in s.chains
    ensures Decrypt(env, s, m, freshKeys) ==
      if i in l[j].used then Err(MessageKeyAlreadyConsumed)
      else if i > l[j].next + MAX_SKIPPED_KEYS then Err(TooManySkippedKeys)
      else Ok((s.(chains := s.chains[l[j].keys.public := chain']), l[j].sent[i]))
    ensures i !in l[j].used && i <= l[j].next + MAX_SKIPPED_KEYS ==>
      ReceivesOn(env, Accept(l, j, i), s.(chains := s.chains[l[j].keys.public := chain']), j, Level(l, p))
  {
    ReceptionReady(env, ids, l, p, s, j);
    PostedForReceiver(env, ids, l, p, s, j, i);
    chain' := DecryptExact(env, s, l[j].keys.public, l[j].start, l[j].next, l[j].used, i, Announced(l, j), l[j].sent[i],
                           freshKeys);
    if i !in l[j].used && i <= l[j].next + MAX_SKIPPED_KEYS {
      ReceptionAfter(env, l, s, chain', j, i, Level(l, p));
    }
  }

  /** A posted message, in the receiver's terms. */
  lemma PostedForReceiver(env: Env, ids: Identities, l: Ledger, p: Party, s: Session, j: nat, i: nat)
    requires |l| >= 2 && j < |l| && PostedOk(env, ids, l, j) && StateOk(ids, l, p, s) && OwnerOf(j) != p
    requires i < |l[j].sent|
    ensures l[j].posted[i].message == Seal(env, SeedAt(env, l[j].start, i), s.remoteIdentity, s.localIdentity,
                                   l[j].keys.public, i, Announced(l, j), l[j].sent[i])
  {
    assert PostedAt(env, ids, l, j, i);
    assert OwnerOf(j) == Peer(p) && Peer(OwnerOf(j)) == p;
  }

  lemma ReceptionAfter(env: Env, l: Ledger, s: Session, chain': Chain, j: nat, i: nat, level: nat)
    requires j < |l| && ReceivesOn(env, l, s, j, level)
    requires !chain'.sending && (chain'.key.Some? <==> s.chains[l[j].keys.public].key.Some?)
    requires Follows(env, chain', l[j].start, if i < l[j].next then l[j].next else i + 1, l[j].used + {i})
    ensures ReceivesOn(env, Accept(l, j, i), s.(chains := s.chains[l[j].keys.public := chain']), j, level)
  {
  }

  lemma ClosedIsBehind(l: Ledger, p: Party, j: nat)
    requires |l| >= 2 && j < Level(l, p) && OwnerOf(j) != p && j + 1 != Level(l, p)
    ensures j + 3 < |l|
  {
  }

  lemma AcceptMatches(env: Env, ids: Identities, l: Ledger, p: Party, s: Session, chain': Chain, j: nat, i: nat)
    requires LedgerOk(env, ids, l) && Matches(env, ids, l, p, s)
    requires 1 <= j < Level(l, p) && OwnerOf(j) != p && l[j].keys.public in s.chains
    requires ReceivesOn(env, Accept(l, j, i), s.(chains := s.chains[l[j].keys.public := chain']), j, Level(l, p))
    ensures Matches(env, ids, Accept(l, j, i), p, s.(chains := s.chains[l[j].keys.public := chain']))
  {
    var level, l' := Level(l, p), Accept(l, j, i);
    var s' := s.(chains := s.chains[l[j].keys.public := chain']);
    forall e | 1 <= e < level && OwnerOf(e) != p ensures ReceivesOn(env, l', s', e, level) {
      assert ReceivesOn(env, l, s, e, level);
      if e != j {
        DistinctKeys(env, l, e, j);
        ReceptionFrame(env, l, s, l', s', e, level);
      }
    }
    KnownAllFrame(l, l', p, s, s');
    DistinctKeys(env, l, level, j);
  }

  lemma AcceptMatchesPeer(env: Env, ids: Identities, l: Ledger, p: Party, q: Session, j: nat, i: nat)
    requires |l| >= 2 && Matches(env, ids, l, Peer(p), q) && j < |l| && OwnerOf(j) != p
    ensures Matches(env, ids, Accept(l, j, i), Peer(p), q)
  {
    var level, l' := Level(l, Peer(p)), Accept(l, j, i);
    forall e | 1 <= e < level && OwnerOf(e) == p ensures ReceivesOn(env, l', q, e, level) {
      assert ReceivesOn(env, l, q, e, level);
      ReceptionFrame(env, l, q, l', q, e, level);
    }
    KnownAllFrame(l, l', Peer(p), q, q);
  }

  lemma AcceptKeepsLedger(env: Env, ids: Identities, l: Ledger, j: nat, i: nat)
    requires LedgerOk(env, ids, l) && j + 1 < |l|
    ensures LedgerOk(env, ids, Accept(l, j, i))
  {
    var l' := Accept(l, j, i);
    forall e | 1 <= e < |l'| ensures DerivedOk(env, l', e) { assert DerivedOk(env, l, e); }
    forall e | 0 <= e < |l'| ensures ProgressOk(l', e) { assert ProgressOk(l, e); }
    forall e | 0 <= e < |l'| ensures PostedOk(env, ids, l', e) {
      assert PostedOk(env, ids, l, e);
      PostedFrame(env, ids, l, l', e);
    }
    KeysFrame(env, l, l');
  }

  // ---- A turn: the first message of a new epoch makes its receiver ratchet ----

  predicate IsFresh(env: Env, l: Ledger, k: KeyPair) {
    Matching(env, k) && forall e :: 0 <= e < |l| ==> l[e].keys.public != k.public
  }

  /** The receiver's chain two epochs back is run to the announced end. */
  function CloseEpoch(l: Ledger): Ledger
    requires |l| >= 2
  {
    var t := |l| - 1;
    if t >= 3 then
      var end := LastCounter(|l[t - 2].sent|) + 1;
      l[t - 2 := l[t - 2].(next := if l[t - 2].next < end then end else l[t - 2].next)]
    else l
  }

  function NewEpoch(env: Env, last: Epoch, freshKeys: KeyPair): Epoch {
    var (root, start) := RootStep(env, last.root, env.x25519(freshKeys.private, last.keys.public));
    Epoch(freshKeys, root, start, [], [], 0, {})
  }

  function Turn(env: Env, l: Ledger, freshKeys: KeyPair): Ledger
    requires |l| >= 2
  {
    CloseEpoch(l) + [NewEpoch(env, l[|l| - 1], freshKeys)]
  }

  /** A turn adds an epoch and at most raises one counter. */
  lemma TurnFacts(env: Env, l: Ledger, freshKeys: KeyPair)
    requires |l| >= 2
    ensures
      var l' := Turn(env, l, freshKeys);
      && |l'| == |l| + 1 && l'[|l|] == NewEpoch(env, l[|l| - 1], freshKeys)
      && NewEpoch(env, l[|l| - 1], freshKeys).keys == freshKeys
      && (forall e :: 0 <= e < |l| ==> l'[e].next >= l[e].next && l'[e] == l[e].(next := l'[e].next))
      && (forall e :: 0 <= e < |l| && e + 3 != |l| ==> l'[e] == l[e])
      && (|l| >= 4 ==> l'[|l| - 3].next >= |l[|l| - 3].sent|)
  {
  }

  lemma TurnKeepsLedger(env: Env, ids: Identities, l: Ledger, freshKeys: KeyPair)
    requires LedgerOk(env, ids, l) && IsFresh(env, l, freshKeys)
    ensures LedgerOk(env, ids, Turn(env, l, freshKeys))
  {
    var l' := Turn(env, l, freshKeys);
    TurnFacts(env, l, freshKeys);
    forall e | 1 <= e < |l'| ensures DerivedOk(env, l', e) {
      if e < |l| { assert DerivedOk(env, l, e); }
    }
    forall e | 0 <= e < |l'| ensures ProgressOk(l', e) {
      if e < |l| { assert ProgressOk(l, e); }
    }
    forall e | 0 <= e < |l'| ensures PostedOk(env, ids, l', e) {
      if e < |l| {
        assert PostedOk(env, ids, l, e);
        PostedFrame(env, ids, l, l', e);
      }
    }
    forall e | 0 <= e < |l'| ensures MatchingAt(env, l', e) {
      if e < |l| { assert MatchingAt(env, l, e); }
    }
    forall d, e | 0 <= d < |l'| && 0 <= e < |l'| && d != e ensures DistinctAt(l', d, e) {
      if d < |l| && e < |l| { assert DistinctAt(l, d, e); }
    }
  }

  lemma TurnMatchesPeer(env: Env, ids: Identities, l: Ledger, p: Party, q: Session, freshKeys: KeyPair)
    requires LedgerOk(env, ids, l) && OwnerOf(|l| - 1) != p && Matches(env, ids, l, Peer(p), q)
    ensures Matches(env, ids, Turn(env, l, freshKeys), Peer(p), q)
  {
    var level, l' := Level(l, Peer(p)), Turn(env, l, freshKeys);
    TurnFacts(env, l, freshKeys);
    assert Level(l', Peer(p)) == level;
    forall e | 1 <= e < level && OwnerOf(e) == p ensures ReceivesOn(env, l', q, e, level) {
      assert ReceivesOn(env, l, q, e, level);
      ReceptionFrame(env, l, q, l', q, e, level);
    }
    KnownAllFrame(l, l', Peer(p), q, q);
  }

  /** Closing leaves every chain but the last one received on alone, and that one's end is announced. */
  lemma CloseFields(env: Env, ids: Identities, l: Ledger, p: Party, s: Session)
    requires LedgerOk(env, ids, l) && Matches(env, ids, l, p, s) && OwnerOf(|l| - 1) != p
    ensures
      var t := |l| - 1;
      var closed := CloseReceiving(env, s.chains, s.lastRemote, Announced(l, t));
      && closed.Keys == s.chains.Keys
      && (forall k :: k in closed && (t < 3 || k != l[t - 2].keys.public) ==> closed[k] == s.chains[k])
      && (t >= 3 ==> ReceivesOn(env, CloseEpoch(l), s.(chains := closed), t - 2, t + 1))
  {
    var t := |l| - 1;
    assert Level(l, p) == t - 1;
    if t >= 3 {
      assert ReceivesOn(env, l, s, t - 2, t - 1);
      CacheUntilFollows(env, s.chains[s.lastRemote], l[t - 2].start, l[t - 2].used, Announced(l, t));
    } else {
      FirstRemoteUnknown(env, ids, l, p, s);
    }
  }

  /** Closing: the last chain received on ends where the ledger says, the others are as they were. */
  lemma CloseMatches(env: Env, ids: Identities, l: Ledger, p: Party, s: Session)
    requires LedgerOk(env, ids, l) && Matches(env, ids, l, p, s) && OwnerOf(|l| - 1) != p
    ensures
      var t := |l| - 1;
      var closed := CloseReceiving(env, s.chains, s.lastRemote, Announced(l, t));
      var s' := s.(chains := closed);
      && closed.Keys == s.chains.Keys
      && (t >= 2 ==> SendsOn(env, l, s', t - 1))
      && (forall e :: 1 <= e < t - 1 && OwnerOf(e) != p ==> ReceivesOn(env, CloseEpoch(l), s', e, t + 1))
  {
    var t := |l| - 1;
    var level := t - 1;
    assert Level(l, p) == level;
    CloseFields(env, ids, l, p, s);
    var s', l' := s.(chains := CloseReceiving(env, s.chains, s.lastRemote, Announced(l, t))), CloseEpoch(l);
    if t >= 3 { DistinctKeys(env, l, t - 1, t - 2); }
    forall e | 1 <= e < level && OwnerOf(e) != p ensures ReceivesOn(env, l', s', e, t + 1) {
      assert ReceivesOn(env, l, s, e, level);
      if e != t - 2 {
        if t >= 3 { DistinctKeys(env, l, e, t - 2); }
        ReceptionFrame(env, l, s, l', s', e, level);
        OpennessFrame(env, l', s', e, level, t + 1);
      }
    }
  }

  lemma OpennessFrame(env: Env, l: Ledger, s: Session, e: nat, level: nat, level': nat)
    requires e < |l| && ReceivesOn(env, l, s, e, level) && (e + 1 == level <==> e + 1 == level')
    ensures ReceivesOn(env, l, s, e, level')
  {
  }

  /** In the first two turns the last remote key is one nobody sent under. */
  lemma FirstRemoteUnknown(env: Env, ids: Identities, l: Ledger, p: Party, s: Session)
    requires LedgerOk(env, ids, l) && Matches(env, ids, l, p, s) && OwnerOf(|l| - 1) != p && |l| < 4
    ensures s.lastRemote !in s.chains
  {
    if s.lastRemote in s.chains {
      ChainKeyIsKnown(l, p, s, s.lastRemote);
      if |l| == 3 { DistinctKeys(env, l, 0, 1); }
    }
  }

  /** The receiver's step derives the sender's chain, and a chain of its own under the fresh key. */
  lemma StepDerives(env: Env, l: Ledger, t: nat, freshKeys: KeyPair)
    requires env.Lawful() && 1 <= t < |l| && DerivedOk(env, l, t) && Matching(env, l[t].keys)
    requires Matching(env, l[t - 1].keys)
    ensures RootStep(env, l[t - 1].root, env.x25519(l[t - 1].keys.private, l[t].keys.public)) == (l[t].root, l[t].start)
  {
    assert env.DhAgrees(l[t].keys.private, l[t - 1].keys.private);
  }

  /** Where each key of the session after a ratchet step comes from. */
  lemma StepChains(env: Env, s: Session, their: Bytes, previousCounter: nat, freshKeys: KeyPair, k: Bytes)
    requires their != freshKeys.public
    ensures
      var closed := CloseReceiving(env, s.chains, s.lastRemote, previousCounter);
      var chains := RatchetStep(env, s, their, previousCounter, freshKeys).chains;
      && (k != their && k != freshKeys.public ==>
            && (k in chains <==> k in closed && k != s.ephemeral.public)
            && (k in chains ==> chains[k] == closed[k]))
  {
  }

  /** A session that ratchets for a message it then accepts. */
  function Ratcheted(env: Env, s: Session, their: Bytes, previousCounter: nat, freshKeys: KeyPair): Session {
    RatchetStep(env, s, their, previousCounter, freshKeys).(pending := None)
  }

  /** The fields a ratchet step sets. */
  ghost predicate Stepped(env: Env, s: Session, last: Epoch, s': Session, freshKeys: KeyPair) {
    var newest := NewEpoch(env, last, freshKeys);
    && s'.rootKey == newest.root && s'.ephemeral == freshKeys && s'.lastRemote == last.keys.public
    && s'.localIdentity == s.localIdentity && s'.remoteIdentity == s.remoteIdentity && s'.pending == None
    && last.keys.public in s'.chains && s'.chains[last.keys.public] == Chain(0, Some(last.start), false, map[])
    && freshKeys.public in s'.chains && s'.chains[freshKeys.public] == Chain(0, Some(newest.start), true, map[])
  }

  lemma StepFields(env: Env, s: Session, last: Epoch, previousCounter: nat, freshKeys: KeyPair)
    requires RootStep(env, s.rootKey, env.x25519(s.ephemeral.private, last.keys.public)) == (last.root, last.start)
    requires last.keys.public != freshKeys.public
    ensures Stepped(env, s, last, Ratcheted(env, s, last.keys.public, previousCounter, freshKeys), freshKeys)
  {
  }

  /** The count of the sender's previous chain, as it goes into the messages of the new one. */
  lemma StepAnnounces(env: Env, ids: Identities, l: Ledger, p: Party, s: Session, freshKeys: KeyPair)
    requires LedgerOk(env, ids, l) && Matches(env, ids, l, p, s) && OwnerOf(|l| - 1) != p
    ensures
      var t := |l| - 1;
      RatchetStep(env, s, l[t].keys.public, Announced(l, t), freshKeys).previousCounter == LastCounter(|l[t - 1].sent|)
  {
    var t := |l| - 1;
    CloseMatches(env, ids, l, p, s);
    if t == 1 && s.ephemeral.public in s.chains { ChainKeyIsKnown(l, p, s, s.ephemeral.public); }
  }

  lemma TurnState(env: Env, ids: Identities, l: Ledger, p: Party, s: Session, s': Session, freshKeys: KeyPair)
    requires LedgerOk(env, ids, l) && StateOk(ids, l, p, s) && OwnerOf(|l| - 1) != p
    requires Stepped(env, s, l[|l| - 1], s', freshKeys) && s'.previousCounter == LastCounter(|l[|l| - 2].sent|)
    ensures StateOk(ids, Turn(env, l, freshKeys), p, s')
    ensures SendsOn(env, Turn(env, l, freshKeys), s', |l|)
    ensures ReceivesOn(env, Turn(env, l, freshKeys), s', |l| - 1, |l|)
  {
    var t, l' := |l| - 1, Turn(env, l, freshKeys);
    assert ProgressOk(l, t);
    assert l'[t] == l[t] && l'[t + 1] == NewEpoch(env, l[t], freshKeys) && l'[t - 1] == l[t - 1];
    assert Level(l', p) == t + 1;
  }

  lemma TurnReceives(env: Env, l: Ledger, s1: Session, s': Session, freshKeys: KeyPair, e: nat)
    requires |l| >= 2 && e < |l| && ReceivesOn(env, CloseEpoch(l), s1, e, |l|)
    requires l[e].keys.public in s'.chains && s'.chains[l[e].keys.public] == s1.chains[l[e].keys.public]
    ensures ReceivesOn(env, Turn(env, l, freshKeys), s', e, |l|)
  {
    ReceptionFrame(env, CloseEpoch(l), s1, Turn(env, l, freshKeys), s', e, |l|);
  }

  lemma TurnKnows(env: Env, l: Ledger, p: Party, s: Session, freshKeys: KeyPair, k: Bytes)
    requires |l| >= 2 && KnownAll(l, p, s) && OwnerOf(|l| - 1) != p
    requires k == freshKeys.public || k == l[|l| - 1].keys.public || k in s.chains
    ensures KnownKey(Turn(env, l, freshKeys), |l|, k)
  {
    var t, l' := |l| - 1, Turn(env, l, freshKeys);
    TurnFacts(env, l, freshKeys);
    if k == freshKeys.public {
      assert l'[t + 1].keys.public == k;
    } else if k == l[t].keys.public {
      assert l'[t].keys.public == k;
    } else {
      ChainKeyIsKnown(l, p, s, k);
      KnownFrame(l, l', t - 1, k);
      var e :| 1 <= e <= t - 1 && l'[e].keys.public == k;
    }
  }

  /** Every chain but those of the two newest keys and the dropped one is taken over. */
  ghost predicate ChainsKept(s: Session, s1: Session, s': Session, their: Bytes, own: Bytes) {
    forall k :: k != their && k != own ==>
      && (k in s'.chains <==> k in s1.chains && k != s.ephemeral.public)
      && (k in s'.chains ==> s'.chains[k] == s1.chains[k])
  }

  /** A chain received on before the turn is still there after it. */
  lemma TurnKeepsReception(env: Env, ids: Identities, l: Ledger, p: Party, s: Session, s1: Session, s': Session,
                           freshKeys: KeyPair, e: nat)
    requires LedgerOk(env, ids, l) && StateOk(ids, l, p, s) && OwnerOf(|l| - 1) != p && IsFresh(env, l, freshKeys)
    requires ChainsKept(s, s1, s', l[|l| - 1].keys.public, freshKeys.public)
    requires 1 <= e < |l| - 2 && OwnerOf(e) != p && ReceivesOn(env, CloseEpoch(l), s1, e, |l|)
    ensures ReceivesOn(env, Turn(env, l, freshKeys), s', e, |l|)
  {
    var t := |l| - 1;
    DistinctKeys(env, l, e, t);
    DistinctKeys(env, l, e, t - 1);
    assert CloseEpoch(l)[e].keys == l[e].keys;
    TurnReceives(env, l, s1, s', freshKeys, e);
  }

  /** From what a ratchet step sets, drops and leaves alone. */
  lemma TurnMatchesFrom(env: Env, ids: Identities, l: Ledger, p: Party, s: Session, s1: Session, s': Session,
                        freshKeys: KeyPair)
    requires LedgerOk(env, ids, l) && Matches(env, ids, l, p, s) && OwnerOf(|l| - 1) != p && IsFresh(env, l, freshKeys)
    requires Stepped(env, s, l[|l| - 1], s', freshKeys) && s'.previousCounter == LastCounter(|l[|l| - 2].sent|)
    requires s1.chains.Keys == s.chains.Keys
    requires forall e :: 1 <= e < |l| - 2 && OwnerOf(e) != p ==> ReceivesOn(env, CloseEpoch(l), s1, e, |l|)
    requires ChainsKept(s, s1, s', l[|l| - 1].keys.public, freshKeys.public)
    ensures Matches(env, ids, Turn(env, l, freshKeys), p, s')
  {
    var t, l' := |l| - 1, Turn(env, l, freshKeys);
    TurnState(env, ids, l, p, s, s', freshKeys);
    assert Level(l', p) == t + 1;
    assert ReceivesAll(env, l', p, s') by {
      forall e | 1 <= e < t + 1 && OwnerOf(e) != p ensures ReceivesOn(env, l', s', e, t + 1) {
        if e < t { TurnKeepsReception(env, ids, l, p, s, s1, s', freshKeys, e); }
      }
    }
    assert KnownAll(l', p, s') by {
      forall k | k in s'.chains ensures KnownKey(l', t + 1, k) {
        TurnKnows(env, l, p, s, freshKeys, k);
      }
    }
  }

  /** After a ratchet step the receiver's session agrees with the ledger after the turn. */
  lemma TurnMatches(env: Env, ids: Identities, l: Ledger, p: Party, s: Session, freshKeys: KeyPair)
    requires env.Lawful() && LedgerOk(env, ids, l) && Matches(env, ids, l, p, s) && OwnerOf(|l| - 1) != p
    requires IsFresh(env, l, freshKeys)
    ensures Matches(env, ids, Turn(env, l, freshKeys), p,
                    Ratcheted(env, s, l[|l| - 1].keys.public, Announced(l, |l| - 1), freshKeys))
  {
    var t := |l| - 1;
    var s' := Ratcheted(env, s, l[t].keys.public, Announced(l, t), freshKeys);
    var s1 := s.(chains := CloseReceiving(env, s.chains, s.lastRemote, Announced(l, t)));
    assert DerivedOk(env, l, t);
    assert MatchingAt(env, l, t) && MatchingAt(env, l, t - 1);
    StepDerives(env, l, t, freshKeys);
    StepFields(env, s, l[t], Announced(l, t), freshKeys);
    StepAnnounces(env, ids, l, p, s, freshKeys);
    CloseMatches(env, ids, l, p, s);
    forall k | k != l[t].keys.public && k != freshKeys.public
      ensures k in s'.chains <==> k in s1.chains && k != s.ephemeral.public
      ensures k in s'.chains ==> s'.chains[k] == s1.chains[k]
    {
      StepChains(env, s, l[t].keys.public, Announced(l, t), freshKeys, k);
    }
    TurnMatchesFrom(env, ids, l, p, s, s1, s', freshKeys);
  }

  // ---- Every run ----

  datatype World = World(alice: Session, bob: Session, ledger: Ledger)
  {
    function At(p: Party): Session {
      if p == Alice then alice else bob
    }

    function With(p: Party, s: Session, l: Ledger): World {
      if p == Alice then World(s, bob, l) else World(alice, s, l)
    }
  }

  /** A party sends a plaintext, or is given message i of epoch j, with a fresh key pair at hand. */
  datatype Event = Send(sender: Party, plaintext: Bytes) | Deliver(receiver: Party, j: nat, i: nat, spare: KeyPair)

  predicate Deliverable(env: Env, l: Ledger, p: Party, j: nat, i: nat, spare: KeyPair) {
    |l| >= 2 && j < |l| && OwnerOf(j) != p && i < |l[j].posted| && IsFresh(env, l, spare)
  }

  /** The ledger after an acceptance; the first one of the newest epoch makes the receiver turn. */
  function RecordReceived(env: Env, l: Ledger, j: nat, i: nat, spare: KeyPair): Ledger
    requires |l| >= 2 && j < |l|
  {
    Accept(if j + 1 == |l| then Turn(env, l, spare) else l, j, i)
  }

  /** Messages that were never posted, and sends before the first ratchet, are refused and change nothing. */
  function Next(env: Env, w: World, event: Event): World {
    match event
    case Send(p, plaintext) =>
      (match Encrypt(env, w.At(p), plaintext)
       case Err(_) => w
       case Ok((s, m)) =>
         if |w.ledger| >= 2 then w.With(p, s, RecordSent(w.ledger, Level(w.ledger, p), plaintext, m)) else w)
    case Deliver(p, j, i, spare) =>
      if !Deliverable(env, w.ledger, p, j, i, spare) then w
      else
        match Decrypt(env, w.At(p), w.ledger[j].posted[i].message, spare)
        case Err(_) => w
        case Ok((s, _)) => w.With(p, s, RecordReceived(env, w.ledger, j, i, spare))
  }

  function Run(env: Env, w: World, events: seq<Event>): World
    decreases |events|
  {
    if events == [] then w else Run(env, Next(env, w, events[0]), events[1..])
  }

  /** The ledger is consistent and both sessions agree with it: s is p's, q is the other party's. */
  ghost predicate Agree(env: Env, ids: Identities, l: Ledger, p: Party, s: Session, q: Session) {
    LedgerOk(env, ids, l) && Matches(env, ids, l, p, s) && Matches(env, ids, l, Peer(p), q)
  }

  ghost predicate WorldOk(env: Env, ids: Identities, w: World) {
    Agree(env, ids, w.ledger, Alice, w.alice, w.bob)
  }

  /** A world is consistent from either party's point of view. */
  lemma WorldAgrees(env: Env, ids: Identities, w: World, p: Party)
    ensures WorldOk(env, ids, w) <==> Agree(env, ids, w.ledger, p, w.At(p), w.At(Peer(p)))
  {
  }

  /** What the attempt r to receive message i of epoch j says: the verdict and the plaintext. */
  predicate Exact(l: Ledger, j: nat, i: nat, r: Result<(Session, Bytes), RatchetError>)
    requires j < |l| && i < |l[j].sent|
  {
    && (r.Ok? <==> i !in l[j].used && i <= l[j].next + MAX_SKIPPED_KEYS)
    && (r.Err? ==> r.error == if i in l[j].used then MessageKeyAlreadyConsumed else TooManySkippedKeys)
    && (r.Ok? ==> r.value.1 == l[j].sent[i])
  }

  /** And it leaves sessions and ledger in agreement. */
  ghost predicate Verdict(env: Env, ids: Identities, l: Ledger, p: Party, q: Session, j: nat, i: nat,
                          r: Result<(Session, Bytes), RatchetError>)
    requires j < |l| && i < |l[j].sent|
  {
    Exact(l, j, i, r) && (r.Ok? ==> Agree(env, ids, Accept(l, j, i), p, r.value.0, q))
  }

  lemma OldVerdict(env: Env, ids: Identities, l: Ledger, p: Party, s: Session, q: Session, j: nat, i: nat,
                   m: Message, spare: KeyPair)
    requires env.Lawful() && Agree(env, ids, l, p, s, q)
    requires 1 <= j && j + 1 < |l| && OwnerOf(j) != p && i < |l[j].posted| && m == l[j].posted[i].message
    ensures i < |l[j].sent|
    ensures Verdict(env, ids, l, p, q, j, i, Decrypt(env, s, m, spare))
  {
    assert PostedOk(env, ids, l, j);
    var chain' := OldChainExact(env, ids, l, p, s, j, i, m, spare);
    if i !in l[j].used && i <= l[j].next + MAX_SKIPPED_KEYS {
      AcceptMatches(env, ids, l, p, s, chain', j, i);
      AcceptMatchesPeer(env, ids, l, p, q, j, i);
      AcceptKeepsLedger(env, ids, l, j, i);
    }
  }

  /** Decrypting under an unknown key is ratcheting first. */
  lemma DecryptSteps(env: Env, s: Session, m: Message, spare: KeyPair)
    requires m.ratchetKey !in s.chains
    ensures Decrypt(env, s, m, spare)
        == Decrypt(env, Ratcheted(env, s, m.ratchetKey, m.previousCounter, spare), m, spare)
  {
  }

  lemma NewestKeyUnknown(env: Env, ids: Identities, l: Ledger, p: Party, s: Session)
    requires LedgerOk(env, ids, l) && Matches(env, ids, l, p, s) && OwnerOf(|l| - 1) != p
    ensures l[|l| - 1].keys.public !in s.chains
  {
    var t := |l| - 1;
    var k := l[t].keys.public;
    if k in s.chains {
      forall e | 0 <= e < t { DistinctKeys(env, l, e, t); }
      ChainKeyIsKnown(l, p, s, k);
    }
  }

  /** The ledger and both sessions agree again after a turn. */
  lemma TurnAgrees(env: Env, ids: Identities, l: Ledger, p: Party, s: Session, q: Session, spare: KeyPair)
    requires env.Lawful() && Agree(env, ids, l, p, s, q) && OwnerOf(|l| - 1) != p && IsFresh(env, l, spare)
    ensures Agree(env, ids, Turn(env, l, spare), p,
                  Ratcheted(env, s, l[|l| - 1].keys.public, Announced(l, |l| - 1), spare), q)
  {
    TurnMatches(env, ids, l, p, s, spare);
    TurnMatchesPeer(env, ids, l, p, q, spare);
    TurnKeepsLedger(env, ids, l, spare);
  }

  lemma PostedHeader(env: Env, ids: Identities, l: Ledger, e: nat, i: nat)
    requires LedgerOk(env, ids, l) && e < |l| && i < |l[e].posted|
    ensures i < |l[e].sent|
    ensures l[e].posted[i].message.ratchetKey == l[e].keys.public
    ensures l[e].posted[i].message.previousCounter == Announced(l, e)
  {
    assert PostedOk(env, ids, l, e);
    assert PostedAt(env, ids, l, e, i);
  }

  lemma TurnKeepsNewest(env: Env, l: Ledger, spare: KeyPair)
    requires |l| >= 2
    ensures |Turn(env, l, spare)| == |l| + 1 && Turn(env, l, spare)[|l| - 1] == l[|l| - 1]
  {
  }

  /** A message of the newest epoch is judged after the turn it causes. */
  lemma NewVerdict(env: Env, ids: Identities, l: Ledger, l': Ledger, p: Party, s: Session, q: Session, t: nat, i: nat,
                   m: Message, spare: KeyPair)
    requires env.Lawful() && Agree(env, ids, l, p, s, q) && OwnerOf(t) != p && IsFresh(env, l, spare)
    requires |l| == t + 1 && i < |l[t].posted| && m == l[t].posted[i].message
    requires l' == Turn(env, l, spare) && |l'| == t + 2 && l'[t] == l[t]
    ensures i < |l[t].sent|
    ensures Verdict(env, ids, l', p, q, t, i, Decrypt(env, s, m, spare))
  {
    var s' := Ratcheted(env, s, l[t].keys.public, Announced(l, t), spare);
    PostedHeader(env, ids, l, t, i);
    NewestKeyUnknown(env, ids, l, p, s);
    DecryptSteps(env, s, m, spare);
    TurnAgrees(env, ids, l, p, s, q, spare);
    OldVerdict(env, ids, l', p, s', q, t, i, m, spare);
  }

  /** A delivery is judged by the ledger, and what follows it agrees with the ledger again. */
  lemma DeliveryExact(env: Env, ids: Identities, l: Ledger, p: Party, s: Session, q: Session, j: nat, i: nat,
                      spare: KeyPair)
    requires env.Lawful() && Agree(env, ids, l, p, s, q) && Deliverable(env, l, p, j, i, spare)
    ensures i < |l[j].sent|
    ensures
      var r := Decrypt(env, s, l[j].posted[i].message, spare);
      && Exact(l, j, i, r)
      && (r.Ok? ==> Agree(env, ids, RecordReceived(env, l, j, i, spare), p, r.value.0, q))
  {
    var m := l[j].posted[i].message;
    if j + 1 < |l| {
      NotEpochZero(env, ids, l, j);
      OldVerdict(env, ids, l, p, s, q, j, i, m, spare);
    } else {
      TurnKeepsNewest(env, l, spare);
      NewVerdict(env, ids, l, Turn(env, l, spare), p, s, q, j, i, m, spare);
    }
  }

  lemma NotEpochZero(env: Env, ids: Identities, l: Ledger, j: nat)
    requires LedgerOk(env, ids, l) && j < |l| && l[j].posted != []
    ensures j >= 1
  {
    assert PostedOk(env, ids, l, 0);
  }

  /** Sending leaves sessions and ledger in agreement. */
  lemma SendAgrees(env: Env, ids: Identities, l: Ledger, p: Party, s: Session, q: Session, plaintext: Bytes)
    requires Agree(env, ids, l, p, s, q) && Level(l, p) >= 1
    ensures Encrypt(env, s, plaintext).Ok?
    ensures
      var (s', m) := Encrypt(env, s, plaintext).value;
      Agree(env, ids, RecordSent(l, Level(l, p), plaintext, m), p, s', q)
  {
    assert PostedOk(env, ids, l, Level(l, p));
    SendMatches(env, ids, l, p, s, plaintext);
    SendPosts(env, ids, l, p, s, plaintext);
    var m := Encrypt(env, s, plaintext).value.1;
    SendMatchesPeer(env, ids, l, p, q, plaintext, m);
    SendKeepsLedger(env, ids, l, p, plaintext, m);
  }

  lemma NextIsOk(env: Env, ids: Identities, w: World, event: Event)
    requires env.Lawful() && WorldOk(env, ids, w)
    ensures WorldOk(env, ids, Next(env, w, event))
  {
    var p := if event.Send? then event.sender else event.receiver;
    var w', s, q := Next(env, w, event), w.At(p), w.At(Peer(p));
    WorldAgrees(env, ids, w, p);
    match event {
      case Send(_, plaintext) =>
        if Encrypt(env, s, plaintext).Ok? {
          LevelZeroCannotSend(env, ids, w.ledger, p, s, plaintext);
          SendAgrees(env, ids, w.ledger, p, s, q, plaintext);
        }
      case Deliver(_, j, i, spare) =>
        if Deliverable(env, w.ledger, p, j, i, spare) { DeliveryExact(env, ids, w.ledger, p, s, q, j, i, spare); }
    }
    WorldAgrees(env, ids, w', p);
  }

  lemma LevelZeroCannotSend(env: Env, ids: Identities, l: Ledger, p: Party, s: Session, plaintext: Bytes)
    requires |l| >= 2 && Matches(env, ids, l, p, s) && Encrypt(env, s, plaintext).Ok?
    ensures Level(l, p) >= 1
  {
    ChainKeyIsKnown(l, p, s, s.ephemeral.public);
  }

  lemma {:induction false} RunIsOk(env: Env, ids: Identities, w: World, events: seq<Event>)
    requires env.Lawful() && WorldOk(env, ids, w)
    ensures WorldOk(env, ids, Run(env, w, events))
    decreases |events|
  {
    if events != [] {
      NextIsOk(env, ids, w, events[0]);
      RunIsOk(env, ids, Next(env, w, events[0]), events[1..]);
    }
  }

  // ---- From session set-up ----

  /** Key pairs of both sides, and the names under which Bob has published his. */
  datatype Setup = Setup(alice: KeyPair, base: KeyPair, ratchet: KeyPair, bob: KeyPair, signed: KeyPair,
                         oneTime: Option<KeyPair>, registrationId: nat, signedId: nat, oneTimeId: Option<nat>)
  {
    function Published(): Bundle {
      Bundle(registrationId, bob.public, signedId, signed.public,
             oneTimeId, if oneTime.Some? then Some(oneTime.value.public) else None)
    }

    function Ids(): Identities {
      Identities(alice.public, bob.public, PreKeyHeader(registrationId, oneTimeId, signedId, base.public))
    }
  }

  predicate SetupOk(env: Env, k: Setup) {
    && Matching(env, k.alice) && Matching(env, k.base) && Matching(env, k.ratchet) && Matching(env, k.bob)
    && Matching(env, k.signed)
    && (k.oneTime.Some? ==> Matching(env, k.oneTime.value))
    && k.ratchet.public != k.signed.public
  }

  function Start(env: Env, k: Setup): World {
    var alice := InitOutgoing(env, k.alice, k.base, k.ratchet, k.Published());
    var bob := InitIncoming(env, k.bob, k.signed, k.oneTime, k.alice.public, k.base.public);
    var first := Epoch(k.signed, bob.rootKey, bob.rootKey, [], [], 0, {});
    World(alice, bob, [first, NewEpoch(env, first, k.ratchet)])
  }

  lemma StartLedgerOk(env: Env, ids: Identities, first: Epoch, ratchet: KeyPair)
    requires Matching(env, first.keys) && Matching(env, ratchet) && ratchet.public != first.keys.public
    requires first.sent == [] && first.posted == []
    ensures LedgerOk(env, ids, [first, NewEpoch(env, first, ratchet)])
  {
    var l := [first, NewEpoch(env, first, ratchet)];
    assert l[1].keys == ratchet;
    assert DerivedOk(env, l, 1);
    assert MatchingAt(env, l, 0) && MatchingAt(env, l, 1) && DistinctAt(l, 0, 1);
  }

  lemma StartIsOk(env: Env, k: Setup)
    requires env.Lawful() && SetupOk(env, k)
    ensures WorldOk(env, k.Ids(), Start(env, k))
  {
    SecretsAgree(env, k.alice, k.base, k.bob, k.signed, k.oneTime);
    var w, ids := Start(env, k), k.Ids();
    StartLedgerOk(env, ids, w.ledger[0], k.ratchet);
    assert w.ledger[1].keys.public == k.ratchet.public;
    assert KnownKey(w.ledger, 1, k.ratchet.public);
    assert Matches(env, ids, w.ledger, Alice, w.alice);
    assert Matches(env, ids, w.ledger, Bob, w.bob);
  }

  // ---- The first messages ----

  lemma LedgerGrows(env: Env, w: World, event: Event)
    ensures |Next(env, w, event).ledger| >= |w.ledger|
  {
  }

  lemma {:induction false} RunGrows(env: Env, w: World, events: seq<Event>)
    ensures |Run(env, w, events).ledger| >= |w.ledger|
    decreases |events|
  {
    if events != [] {
      LedgerGrows(env, w, events[0]);
      RunGrows(env, Next(env, w, events[0]), events[1..]);
    }
  }

  /** As long as there are only the first two epochs, nothing changes Bob's session. */
  lemma BobStays(env: Env, ids: Identities, w: World, event: Event)
    requires WorldOk(env, ids, w) && |w.ledger| == 2 == |Next(env, w, event).ledger|
    ensures Next(env, w, event).bob == w.bob
  {
    match event {
      case Send(p, plaintext) =>
        if p == Bob && Encrypt(env, w.bob, plaintext).Ok? {
          LevelZeroCannotSend(env, ids, w.ledger, Bob, w.bob, plaintext);
        }
      case Deliver(p, j, i, spare) =>
        if p == Bob && Deliverable(env, w.ledger, p, j, i, spare) { assert j == 1; }
    }
  }

  lemma {:induction false} BobWaits(env: Env, ids: Identities, w: World, events: seq<Event>)
    requires env.Lawful() && WorldOk(env, ids, w) && |w.ledger| == 2 == |Run(env, w, events).ledger|
    ensures Run(env, w, events).bob == w.bob
    decreases |events|
  {
    if events != [] {
      var w' := Next(env, w, events[0]);
      LedgerGrows(env, w, events[0]);
      RunGrows(env, w', events[1..]);
      BobStays(env, ids, w, events[0]);
      NextIsOk(env, ids, w, events[0]);
      BobWaits(env, ids, w', events[1..]);
    }
  }

  /** In every run exactly the messages of Alice's first epoch are wrapped. Each of them, whichever comes
      first, makes Bob set up one and the same session, and until he has accepted one of them that is the
      session he has: it does not matter that he sets it up only then. */
  lemma FirstContact(env: Env, k: Setup, events: seq<Event>, e: nat, i: nat)
    requires env.Lawful() && SetupOk(env, k)
    requires
      var l := Run(env, Start(env, k), events).ledger;
      e < |l| && i < |l[e].posted|
    ensures
      var w := Run(env, Start(env, k), events);
      var posted := w.ledger[e].posted[i];
      && (posted.PreKeyWhisper? <==> e == 1)
      && (e == 1 ==>
            var session := InitIncoming(env, k.bob, k.signed, k.oneTime, posted.identityKey, posted.header.baseKey);
            && posted.header == k.Ids().header
            && session == Start(env, k).bob
            && (|w.ledger| == 2 ==> session == w.bob))
  {
    var w := Run(env, Start(env, k), events);
    StartIsOk(env, k);
    RunIsOk(env, k.Ids(), Start(env, k), events);
    assert PostedOk(env, k.Ids(), w.ledger, e);
    assert PostedAt(env, k.Ids(), w.ledger, e, i);
    RunGrows(env, Start(env, k), events);
    if |w.ledger| == 2 { BobWaits(env, k.Ids(), Start(env, k), events); }
  }

  /** In every run of two sessions set up by X3DH, with messages lost, repeated or delivered in any
      order: a message is accepted exactly if it was not accepted before and its key is at most 2000
      ahead of its chain, and it then yields the plaintext that was sent. */
  lemma EveryDeliveryIsExact(env: Env, k: Setup, events: seq<Event>, p: Party, j: nat, i: nat, spare: KeyPair)
    requires env.Lawful() && SetupOk(env, k)
    requires Deliverable(env, Run(env, Start(env, k), events).ledger, p, j, i, spare)
    ensures
      var w := Run(env, Start(env, k), events);
      var epoch := w.ledger[j];
      && i < |epoch.sent|
      && var r := Decrypt(env, w.At(p), epoch.posted[i].message, spare);
      && (r.Ok? <==> i !in epoch.used && i <= epoch.next + 2000)
      && (r.Ok? ==> r.value.1 == epoch.sent[i])
      && (r.Err? ==> r.error == if i in epoch.used then MessageKeyAlreadyConsumed else TooManySkippedKeys)
  {
    StartIsOk(env, k);
    RunIsOk(env, k.Ids(), Start(env, k), events);
    var w := Run(env, Start(env, k), events);
    WorldAgrees(env, k.Ids(), w, p);
    DeliveryExact(env, k.Ids(), w.ledger, p, w.At(p), w.At(Peer(p)), j, i, spare);
  }

  /** There are primitives, keys and a first message for which all this is not empty. */
  lemma FirstMessageArrives(wire: (Bytes, nat, nat, Bytes) -> Bytes, plaintext: Bytes)
    returns (env: Env, k: Setup, spare: KeyPair)
    ensures env.Lawful() && env.wire == wire && SetupOk(env, k)
    ensures
      var w := Run(env, Start(env, k), [Send(Alice, plaintext)]);
      && Deliverable(env, w.ledger, Bob, 1, 0, spare)
      && var r := Decrypt(env, w.bob, w.ledger[1].posted[0].message, spare);
      r.Ok? && r.value.1 == plaintext
  {
    env := Ratchet.LawfulIsSatisfiable(wire);
    var own: Bytes32, ratchet: Bytes32, unused: Bytes32 := Zeros(32), Repeat(1, 32), Repeat(2, 32);
    assert own[0] == 0 && ratchet[0] == 1 && unused[0] == 2;
    var mine := KeyPair(own, own);
    spare := KeyPair(unused, unused);
    k := Setup(mine, mine, KeyPair(ratchet, ratchet), mine, mine, None, 0, 0, None);
    FirstSend(env, k, plaintext);
    EveryDeliveryIsExact(env, k, [Send(Alice, plaintext)], Bob, 1, 0, spare);
  }

  /** What the first send leaves: one message in Alice's epoch, none of it received. */
  lemma FirstSend(env: Env, k: Setup, plaintext: Bytes)
    requires env.Lawful() && SetupOk(env, k)
    ensures
      var l, l' := Start(env, k).ledger, Run(env, Start(env, k), [Send(Alice, plaintext)]).ledger;
      && |l'| == 2 && l'[0] == l[0] && l'[1].keys == l[1].keys == k.ratchet
      && l'[1].sent == [plaintext] && |l'[1].posted| == 1 && l'[1].used == {} && l'[1].next == 0
  {
    var w, send := Start(env, k), Send(Alice, plaintext);
    StartIsOk(env, k);
    SendMatches(env, k.Ids(), w.ledger, Alice, w.alice, plaintext);
    var once := [send];
    assert once[1..] == [];
    assert Run(env, w, once) == Next(env, w, send);
  }

  /** In every run, whatever message arrives under a key the peer has used: if it is accepted, no message of
      that counter was accepted before, and it carries the MAC that its fields call for under the message
      key of its counter. Changing any field of a message, or making one up, takes that key. */
  lemma AcceptedIsAuthentic(env: Env, k: Setup, events: seq<Event>, p: Party, j: nat, m: Message, spare: KeyPair)
    requires env.Lawful() && SetupOk(env, k)
    requires
      var w := Run(env, Start(env, k), events);
      && 1 <= j < |w.ledger| && OwnerOf(j) != p && m.ratchetKey == w.ledger[j].keys.public
      && IsFresh(env, w.ledger, spare) && Decrypt(env, w.At(p), m, spare).Ok?
    ensures
      var w := Run(env, Start(env, k), events);
      var ids := k.Ids();
      && m.counter !in w.ledger[j].used
      && m.mac == ExpectedMac(env, SeedAt(env, w.ledger[j].start, m.counter), ids.Of(Peer(p)), ids.Of(p), m)
  {
    var w := Run(env, Start(env, k), events);
    StartIsOk(env, k);
    RunIsOk(env, k.Ids(), Start(env, k), events);
    WorldAgrees(env, k.Ids(), w, p);
    AuthenticOnChain(env, k.Ids(), w.ledger, p, w.At(p), j, m, spare);
  }

  /** Whatever a message under a key of the peer's says, the chain it is taken to is the ledger's. */
  lemma ChainFollowsLedger(env: Env, ids: Identities, l: Ledger, p: Party, s: Session, j: nat, m: Message,
                           spare: KeyPair)
    requires env.Lawful() && LedgerOk(env, ids, l) && Matches(env, ids, l, p, s) && IsFresh(env, l, spare)
    requires 1 <= j < |l| && OwnerOf(j) != p && m.ratchetKey == l[j].keys.public
    ensures m.ratchetKey in SessionFor(env, s, m, spare).chains
    ensures Follows(env, SessionFor(env, s, m, spare).chains[m.ratchetKey], l[j].start, l[j].next, l[j].used)
  {
    if j + 1 < |l| {
      ReceptionReady(env, ids, l, p, s, j);
    } else {
      NewestKeyUnknown(env, ids, l, p, s);
      assert DerivedOk(env, l, j) && MatchingAt(env, l, j) && MatchingAt(env, l, j - 1) && ProgressOk(l, j);
      StepDerives(env, l, j, spare);
      StepFields(env, s, l[j], m.previousCounter, spare);
    }
  }

  lemma AuthenticOnChain(env: Env, ids: Identities, l: Ledger, p: Party, s: Session, j: nat, m: Message, spare: KeyPair)
    requires env.Lawful() && LedgerOk(env, ids, l) && Matches(env, ids, l, p, s) && IsFresh(env, l, spare)
    requires 1 <= j < |l| && OwnerOf(j) != p && m.ratchetKey == l[j].keys.public
    requires Decrypt(env, s, m, spare).Ok?
    ensures m.counter !in l[j].used
    ensures m.mac == ExpectedMac(env, SeedAt(env, l[j].start, m.counter), ids.Of(Peer(p)), ids.Of(p), m)
  {
    AcceptedCarriesMac(env, s, m, spare);
    ChainFollowsLedger(env, ids, l, p, s, j, m, spare);
    var chain := SessionFor(env, s, m, spare).chains[m.ratchetKey];
    TakeKeyExact(env, chain, l[j].start, l[j].next, l[j].used, m.counter);
  }

  /** Nothing is lost for good: whatever was sent in an epoch of at most 2001 messages, or in one both
      parties have moved past, is accepted whenever it arrives for the first time. */
  lemma NothingIsLost(env: Env, k: Setup, events: seq<Event>, p: Party, j: nat, i: nat, spare: KeyPair)
    requires env.Lawful() && SetupOk(env, k)
    requires
      var l := Run(env, Start(env, k), events).ledger;
      Deliverable(env, l, p, j, i, spare) && i !in l[j].used && (|l[j].sent| <= MAX_SKIPPED_KEYS + 1 || j + 3 < |l|)
    ensures
      var w := Run(env, Start(env, k), events);
      var r := Decrypt(env, w.At(p), w.ledger[j].posted[i].message, spare);
      i < |w.ledger[j].sent| && r.Ok? && r.value.1 == w.ledger[j].sent[i]
  {
    var ids := k.Ids();
    StartIsOk(env, k);
    RunIsOk(env, ids, Start(env, k), events);
    var w := Run(env, Start(env, k), events);
    WorldAgrees(env, ids, w, p);
    DeliveryExact(env, ids, w.ledger, p, w.At(p), w.At(Peer(p)), j, i, spare);
    assert ProgressOk(w.ledger, j);
  }
}
