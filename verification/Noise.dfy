/** The WhatsApp Noise handshake between the client of lib/baileys_ex/protocol/noise.ex and the
    server of test_helpers/connection/noise_server.exs, from client hello to transport keys. */
module Noise {
  import opened Octets
  import opened Crypto
  import opened Handshake
  import X = XEdDSA

  // ---- Wire messages, as records ----

  datatype HandshakeMessage =
    | ClientHello(ephemeral: Bytes)
    | ServerHello(serverEphemeral: Option<Bytes>, staticCiphertext: Option<Bytes>, payloadCiphertext: Option<Bytes>)
    | ClientFinish(staticSealed: Bytes, payloadSealed: Bytes)

  datatype Details = Details(serial: Option<nat>, issuerSerial: Option<nat>, key: Option<Bytes>, notBefore: nat,
                             notAfter: nat)

  datatype Certificate = Certificate(details: Option<Bytes>, signature: Option<Bytes>)

  datatype CertChain = CertChain(leaf: Option<Certificate>, intermediate: Option<Certificate>)

  /** A serializer and its parser. */
  datatype Codec<!T(!new)> = Codec(encode: T -> Bytes, decode: Bytes -> Option<T>)
  {
    ghost predicate RoundTrips(x: T) { decode(encode(x)) == Some(x) }
  }

  /** Everything the handshake takes from outside this repository's own logic. */
  datatype Suite<!P(!new)> = Suite(
    prims: Primitives,
    curve: X.Curve<P>,
    /** private key, peer public key; None where compute_key raises */
    x25519: (Bytes32, Bytes) -> Option<Bytes32>,
    chains: Codec<CertChain>,
    details: Codec<Details>)
  {
    ghost predicate DhAgrees(a: Bytes32, b: Bytes32) {
      && x25519(a, X.PublicKey(curve, b)).Some?
      && x25519(a, X.PublicKey(curve, b)) == x25519(b, X.PublicKey(curve, a))
    }

    /** The laws of the primitives and the curve, and symmetry of Diffie-Hellman (section 6.1 of
        RFC 7748). */
    ghost predicate Lawful() {
      && prims.Lawful()
      && curve.Lawful()
      && (forall a, b :: DhAgrees(a, b))
    }
  }

  /** A toy instance: the stated laws have a model. */
  lemma LawfulIsSatisfiable(chains: Codec<CertChain>, details: Codec<Details>) returns (toy: Suite<X.Residue>)
    ensures toy.Lawful() && toy.curve == X.ToyCurve() && toy.chains == chains && toy.details == details
  {
    var prims := Crypto.LawfulIsSatisfiable();
    X.LawfulIsSatisfiable();
    toy := Suite(prims, X.ToyCurve(), (private, public) => Some(Zeros(32)), chains, details);
  }

  predicate Matching<P(!new)>(u: Suite<P>, k: KeyPair) {
    k.public == X.PublicKey(u.curve, k.private)
  }

  datatype TrustedCert = TrustedCert(serial: nat, publicKey: Bytes)

  datatype NoiseError =
    | InvalidServerHello | InvalidCertificate | HandshakeNotReady | AlreadyInTransport
    | Cipher(error: CryptoError) | Raised

  // ---- Certificates ----

  /** Raw 32-byte keys and their 33-byte form with the Signal prefix both verify. */
  predicate CurveVerify<P(!new,==)>(u: Suite<P>, publicKey: Bytes, message: Bytes, signature: Bytes) {
    if |publicKey| == 33 && publicKey[0] == 5 then X.Accepts(u.curve, publicKey[1..], message, signature)
    else |publicKey| == 32 && X.Accepts(u.curve, publicKey, message, signature)
  }

  function IntermediateDetails(intermediate: KeyPair, issuerSerial: nat): Details {
    Details(Some(1), Some(issuerSerial), Some(intermediate.public), 1, 4_102_444_800)
  }

  function LeafDetails(serverStatic: Bytes): Details {
    Details(Some(2), Some(1), Some(serverStatic), 1, 4_102_444_800)
  }

  function IssuedChain<P(!new)>(u: Suite<P>, root: KeyPair, intermediate: KeyPair, serverStatic: Bytes,
                                issuerSerial: nat): CertChain {
    var intermediateDetails := u.details.encode(IntermediateDetails(intermediate, issuerSerial));
    var leafDetails := u.details.encode(LeafDetails(serverStatic));
    CertChain(
      Some(Certificate(Some(leafDetails), Some(X.Signature(u.curve, intermediate.private, leafDetails)))),
      Some(Certificate(Some(intermediateDetails), Some(X.Signature(u.curve, root.private, intermediateDetails)))))
  }

  function BuildCertChain<P(!new)>(u: Suite<P>, root: KeyPair, intermediate: KeyPair, serverStatic: Bytes,
                                   issuerSerial: nat): Bytes {
    u.chains.encode(IssuedChain(u, root, intermediate, serverStatic, issuerSerial))
  }

  /** The serialized chain parses back to the chain, and its details to the details. */
  ghost predicate ChainParses<P(!new)>(u: Suite<P>, root: KeyPair, intermediate: KeyPair, serverStatic: Bytes,
                                       issuerSerial: nat) {
    && u.chains.RoundTrips(IssuedChain(u, root, intermediate, serverStatic, issuerSerial))
    && u.details.RoundTrips(IntermediateDetails(intermediate, issuerSerial))
  }

  predicate ValidCertChain<P(!new,==)>(u: Suite<P>, payload: Bytes, trusted: TrustedCert) {
    match u.chains.decode(payload)
    case Some(CertChain(Some(leaf), Some(intermediate))) =>
      && leaf.details.Some? && leaf.signature.Some?
      && intermediate.details.Some? && intermediate.signature.Some?
      && var details := u.details.decode(intermediate.details.value);
      && details.Some?
      && details.value.key.Some?
      && CurveVerify(u, details.value.key.value, leaf.details.value, leaf.signature.value)
      && CurveVerify(u, trusted.publicKey, intermediate.details.value, intermediate.signature.value)
      && details.value.issuerSerial == Some(trusted.serial)
    case _ => false
  }

  /** A chain issued under the trusted root validates exactly when it names the trusted serial. */
  lemma IssuedChainValidatesIff<P(!new)>(u: Suite<P>, root: KeyPair, intermediate: KeyPair,
                                            serverStatic: Bytes, issuerSerial: nat, trusted: TrustedCert)
    requires u.Lawful() && Matching(u, root) && Matching(u, intermediate) && trusted.publicKey == root.public
    requires ChainParses(u, root, intermediate, serverStatic, issuerSerial)
    ensures ValidCertChain(u, BuildCertChain(u, root, intermediate, serverStatic, issuerSerial), trusted)
        <==> issuerSerial == trusted.serial
  {
    var chain := IssuedChain(u, root, intermediate, serverStatic, issuerSerial);
    X.SignedMessagesVerify(u.curve, intermediate.private, chain.leaf.value.details.value);
    X.SignedMessagesVerify(u.curve, root.private, chain.intermediate.value.details.value);
  }

  /** A key with or without its prefix byte, without it. */
  function RawKey(key: Bytes): Bytes {
    if |key| == 33 && key[0] == 5 then key[1..] else key
  }

  /** Of a chain with all its parts, what decides: the intermediate's signature under the trusted key, the
      leaf's under the intermediate's, and the serial the intermediate names. */
  lemma ChainValidIff<P(!new)>(u: Suite<P>, payload: Bytes, trusted: TrustedCert, leaf: Certificate,
                               intermediate: Certificate, details: Details)
    requires u.chains.decode(payload) == Some(CertChain(Some(leaf), Some(intermediate)))
    requires leaf.details.Some? && leaf.signature.Some?
    requires intermediate.details.Some? && intermediate.signature.Some?
    requires u.details.decode(intermediate.details.value) == Some(details) && details.key.Some?
    ensures ValidCertChain(u, payload, trusted) <==>
      && X.Accepts(u.curve, RawKey(trusted.publicKey), intermediate.details.value, intermediate.signature.value)
      && X.Accepts(u.curve, RawKey(details.key.value), leaf.details.value, leaf.signature.value)
      && details.issuerSerial == Some(trusted.serial)
  {
  }

  /** A chain that validates has all its parts. */
  lemma ValidChainIsComplete<P(!new)>(u: Suite<P>, payload: Bytes, trusted: TrustedCert)
    returns (leaf: Certificate, intermediate: Certificate, details: Details)
    requires ValidCertChain(u, payload, trusted)
    ensures u.chains.decode(payload) == Some(CertChain(Some(leaf), Some(intermediate)))
    ensures leaf.details.Some? && leaf.signature.Some?
    ensures intermediate.details.Some? && intermediate.signature.Some?
    ensures u.details.decode(intermediate.details.value) == Some(details) && details.key.Some?
  {
    var chain := u.chains.decode(payload).value;
    leaf, intermediate := chain.leaf.value, chain.intermediate.value;
    details := u.details.decode(intermediate.details.value).value;
  }

  /** What an issued chain says: the leaf is about the server's key and names the intermediate's serial, the
      intermediate holds the key the leaf is signed with and names the issuer, and both are valid until
      2100. */
  lemma IssuedChainLinks<P(!new)>(u: Suite<P>, root: KeyPair, intermediate: KeyPair, serverStatic: Bytes,
                                  issuerSerial: nat)
    requires ChainParses(u, root, intermediate, serverStatic, issuerSerial)
    requires u.details.RoundTrips(LeafDetails(serverStatic))
    ensures
      var chain := u.chains.decode(BuildCertChain(u, root, intermediate, serverStatic, issuerSerial));
      && chain.Some? && chain.value.leaf.Some? && chain.value.intermediate.Some?
      && var leaf, middle := chain.value.leaf.value, chain.value.intermediate.value;
      && leaf.details.Some? && middle.details.Some?
      && var low, high := u.details.decode(leaf.details.value), u.details.decode(middle.details.value);
      && low.Some? && high.Some?
      && low.value == Details(Some(2), high.value.serial, Some(serverStatic), 1, 4_102_444_800)
      && high.value == Details(Some(1), Some(issuerSerial), Some(intermediate.public), 1, 4_102_444_800)
      && leaf.signature == Some(X.Signature(u.curve, intermediate.private, leaf.details.value))
      && middle.signature == Some(X.Signature(u.curve, root.private, middle.details.value))
  {
  }

  // ---- The client ----

  datatype ClientState = ClientState(
    ephemeral: KeyPair,
    sym: Symmetric,
    introHeader: Bytes,
    trusted: TrustedCert,
    sentIntro: bool,
    pendingStatic: Option<Bytes>,
    inBytes: Bytes,
    transport: Option<Transport>)

  function BuildIntroHeader(header: Bytes, routingInfo: Option<Bytes>): Bytes {
    match routingInfo
    case None => header
    case Some(info) => [69, 68, 0, 1, |info| / 0x10000 % 256] + ToBE(|info|, 2) + info + header
  }

  function NewClient(c: Primitives, header: Bytes, routingInfo: Option<Bytes>, ephemeral: KeyPair,
                     trusted: TrustedCert): ClientState {
    var sym := Authenticate(c, Authenticate(c, INITIAL_STATE, header), ephemeral.public);
    ClientState(ephemeral, sym, BuildIntroHeader(header, routingInfo), trusted, false, None, [], None)
  }

  /** A new client has hashed header and ephemeral key, and has sent and received nothing. */
  lemma NewClientFields(c: Primitives, header: Bytes, routingInfo: Option<Bytes>, ephemeral: KeyPair,
                        trusted: TrustedCert)
    ensures
      var client := NewClient(c, header, routingInfo, ephemeral, trusted);
      && client.sym == INITIAL_STATE.(hash := c.sha256(c.sha256(NOISE_MODE + header) + ephemeral.public))
      && client.ephemeral == ephemeral && client.trusted == trusted
      && !client.sentIntro && client.pendingStatic.None? && client.inBytes == [] && client.transport.None?
  {
  }

  /** Routing info goes in front of the header, behind "ED", two constant bytes and a 24-bit size. */
  lemma IntroCarriesRoutingInfo(header: Bytes, info: Bytes)
    ensures BuildIntroHeader(header, None) == header
    ensures
      var x := BuildIntroHeader(header, Some(info));
      && x[..4] == Utf8("ED") + [0, 1]
      && BE(x[4..7]) == |info| % 0x100_0000
      && x[7..7 + |info|] == info
      && x[7 + |info|..] == header
  {
    var x, n := BuildIntroHeader(header, Some(info)), |info|;
    assert x == ([69, 68, 0, 1] + ([n / 0x10000 % 256] + ToBE(n, 2))) + (info + header);
    assert x[4..7] == [n / 0x10000 % 256] + ToBE(n, 2);
    SizeInThreeBytes(n);
    BEOfToBE(n, 3);
    assert Pow256(3) == 0x100_0000;
  }

  lemma SizeInThreeBytes(n: nat)
    ensures ToBE(n, 3) == [n / 0x10000 % 256] + ToBE(n, 2)
  {
    assert n / 256 / 256 == n / 0x10000;
    assert ToBE(n / 256 / 256, 1) == [n / 256 / 256 % 256];
    assert ToBE(n, 2) == [n / 256 % 256] + [n % 256];
    assert ToBE(n / 256, 2) == [n / 256 / 256 % 256] + [n / 256 % 256];
  }

  /** Once in transport mode the client no longer hashes what it authenticates. */
  function Kept(client: ClientState, sym: Symmetric): ClientState {
    client.(sym := if client.transport.Some? then sym.(hash := client.sym.hash) else sym)
  }

  function ClientMix<P(!new)>(u: Suite<P>, client: ClientState, private: Bytes32, public: Bytes)
    : Result<ClientState, NoiseError>
  {
    match u.x25519(private, public)
    case None => Err(Raised)
    case Some(secret) => Ok(client.(sym := MixIntoKey(u.prims, client.sym, secret)))
  }

  function ClientDecrypt<P(!new)>(u: Suite<P>, client: ClientState, ciphertext: Bytes)
    : Result<(ClientState, Bytes), NoiseError>
  {
    match DecryptHandshake(u.prims, client.sym, ciphertext)
    case Err(e) => Err(Cipher(e))
    case Ok((sym, plaintext)) => Ok((Kept(client, sym), plaintext))
  }

  function ClientEncrypt<P(!new)>(u: Suite<P>, client: ClientState, plaintext: Bytes): (ClientState, Bytes) {
    var (sym, ciphertext) := EncryptHandshake(u.prims, client.sym, plaintext);
    (Kept(client, sym), ciphertext)
  }

  function ProcessServerHello<P(!new,==)>(u: Suite<P>, client: ClientState, message: HandshakeMessage,
                                          noiseKey: KeyPair)
    : Result<ClientState, NoiseError>
  {
    match message
    case ServerHello(Some(ephemeral), Some(staticSealed), Some(payload)) =>
      var c0 := Kept(client, Authenticate(u.prims, client.sym, ephemeral));
      (match ClientMix(u, c0, c0.ephemeral.private, ephemeral)
       case Err(e) => Err(e)
       case Ok(c1) =>
         match ClientDecrypt(u, c1, staticSealed)
         case Err(e) => Err(e)
         case Ok((c2, serverStatic)) =>
           match ClientMix(u, c2, c2.ephemeral.private, serverStatic)
           case Err(e) => Err(e)
           case Ok(c3) =>
             match ClientDecrypt(u, c3, payload)
             case Err(e) => Err(e)
             case Ok((c4, certs)) =>
               if !ValidCertChain(u, certs, c4.trusted) then Err(InvalidCertificate)
               else
                 var (c5, pending) := ClientEncrypt(u, c4, noiseKey.public);
                 match ClientMix(u, c5, noiseKey.private, ephemeral)
                 case Err(e) => Err(e)
                 case Ok(c6) => Ok(c6.(pendingStatic := Some(pending))))
    case _ => Err(InvalidServerHello)
  }

  function MakeClientFinish<P(!new)>(u: Suite<P>, client: ClientState, payload: Bytes)
    : Result<(ClientState, HandshakeMessage), NoiseError>
  {
    if client.pendingStatic.None? then Err(HandshakeNotReady)
    else if client.transport.Some? then Err(AlreadyInTransport)
    else
      var (client', ciphertext) := ClientEncrypt(u, client, payload);
      Ok((client'.(pendingStatic := None), ClientFinish(client'.pendingStatic.value, ciphertext)))
  }

  function FinishInit(c: Primitives, client: ClientState): ClientState {
    if client.transport.Some? then client
    else client.(transport := Some(FinishTransport(c, client.sym, Client)))
  }

  // ---- What the client refuses, and what it leaves alone ----

  /** A message without all three parts of a server hello is refused, whatever the client's state. */
  lemma IncompleteHelloRefused<P(!new)>(u: Suite<P>, client: ClientState, message: HandshakeMessage, noiseKey: KeyPair)
    requires !Complete(message)
    ensures ProcessServerHello(u, client, message, noiseKey) == Err(InvalidServerHello)
  {
  }

  /** A client in transport mode may be given a server hello again; its hash stays as it is. */
  lemma TransportKeepsHash<P(!new)>(u: Suite<P>, client: ClientState, message: HandshakeMessage, noiseKey: KeyPair)
    requires client.transport.Some? && ProcessServerHello(u, client, message, noiseKey).Ok?
    ensures ProcessServerHello(u, client, message, noiseKey).value.sym.hash == client.sym.hash
    ensures ProcessServerHello(u, client, message, noiseKey).value.transport == client.transport
  {
  }

  /** The client finish is refused before a server hello and after the switch, and otherwise carries the
      sealed static key that was waiting, which then waits no more. */
  lemma ClientFinishFields<P(!new)>(u: Suite<P>, client: ClientState, payload: Bytes)
    ensures
      var r := MakeClientFinish(u, client, payload);
      if client.pendingStatic.None? then r == Err(HandshakeNotReady)
      else if client.transport.Some? then r == Err(AlreadyInTransport)
      else
        var (sym, ct) := EncryptHandshake(u.prims, client.sym, payload);
        r == Ok((client.(sym := sym, pendingStatic := None), ClientFinish(client.pendingStatic.value, ct)))
  {
  }

  /** Switching twice is switching once. */
  lemma FinishInitOnce(c: Primitives, client: ClientState)
    ensures FinishInit(c, FinishInit(c, client)) == FinishInit(c, client)
    ensures client.transport.None? ==>
      FinishInit(c, client) == client.(transport := Some(FinishTransport(c, client.sym, Client)))
  {
  }

  /** A hello the client accepts, from whomever: what it decrypts last is a chain whose intermediate is
      signed under the trusted key, whose leaf is signed under the intermediate's, and which names the
      trusted serial. */
  lemma AcceptedHelloIsCertified<P(!new)>(u: Suite<P>, client: ClientState, message: HandshakeMessage,
                                          noiseKey: KeyPair)
    returns (state: Symmetric, certs: Bytes, leaf: Certificate, intermediate: Certificate, details: Details)
    requires u.prims.Lawful() && ProcessServerHello(u, client, message, noiseKey).Ok?
    ensures Complete(message)
    ensures message.payloadCiphertext.value
         == AesGcmEncrypt(u.prims, state.decKey, GenerateIv(state.counter), certs, state.hash)
    ensures u.chains.decode(certs) == Some(CertChain(Some(leaf), Some(intermediate)))
    ensures leaf.details.Some? && leaf.signature.Some? && intermediate.details.Some? && intermediate.signature.Some?
    ensures u.details.decode(intermediate.details.value) == Some(details) && details.key.Some?
    ensures X.Accepts(u.curve, RawKey(client.trusted.publicKey), intermediate.details.value,
                      intermediate.signature.value)
    ensures X.Accepts(u.curve, RawKey(details.key.value), leaf.details.value, leaf.signature.value)
    ensures details.issuerSerial == Some(client.trusted.serial)
  {
    var ephemeral, staticSealed := message.serverEphemeral.value, message.staticCiphertext.value;
    var c0 := Kept(client, Authenticate(u.prims, client.sym, ephemeral));
    var c1 := ClientMix(u, c0, c0.ephemeral.private, ephemeral).value;
    var (c2, serverStatic) := ClientDecrypt(u, c1, staticSealed).value;
    var c3 := ClientMix(u, c2, c2.ephemeral.private, serverStatic).value;
    state, certs := c3.sym, ClientDecrypt(u, c3, message.payloadCiphertext.value).value.1;
    MessageAcceptedIff(u.prims, state, message.payloadCiphertext.value, certs);
    leaf, intermediate, details := ValidChainIsComplete(u, certs, client.trusted);
    ChainValidIff(u, certs, client.trusted, leaf, intermediate, details);
  }

  // ---- The server ----

  datatype ServerKeys = ServerKeys(root: KeyPair, intermediate: KeyPair, longTerm: KeyPair, ephemeral: KeyPair,
                                   issuerSerial: nat)

  datatype ServerState = ServerState(sym: Symmetric, ephemeral: KeyPair)

  datatype Established = Established(transport: Transport, clientStatic: Bytes, clientPayload: Bytes)

  /** Every failure on the server side is a failed match. */
  function ServerMix<P(!new)>(u: Suite<P>, sym: Symmetric, private: Bytes32, public: Bytes)
    : Result<Symmetric, NoiseError>
  {
    match u.x25519(private, public)
    case None => Err(Raised)
    case Some(secret) => Ok(MixIntoKey(u.prims, sym, secret))
  }

  /** The hello of a server that shows the given certificate chain. */
  function ServerHelloWith<P(!new)>(u: Suite<P>, message: HandshakeMessage, keys: ServerKeys, chain: Bytes)
    : Result<(HandshakeMessage, ServerState), NoiseError>
  {
    match message
    case ClientHello(clientEphemeral) =>
      var s0 := Authenticate(u.prims, Authenticate(u.prims, Authenticate(u.prims, INITIAL_STATE,
        NOISE_HEADER), clientEphemeral), keys.ephemeral.public);
      (match ServerMix(u, s0, keys.ephemeral.private, clientEphemeral)
       case Err(e) => Err(e)
       case Ok(s1) =>
         var (s2, staticSealed) := EncryptHandshake(u.prims, s1, keys.longTerm.public);
         match ServerMix(u, s2, keys.longTerm.private, clientEphemeral)
         case Err(e) => Err(e)
         case Ok(s3) =>
           var (s4, payload) := EncryptHandshake(u.prims, s3, chain);
           var hello := ServerHello(Some(keys.ephemeral.public), Some(staticSealed), Some(payload));
           Ok((hello, ServerState(s4, keys.ephemeral))))
    case _ => Err(Raised)
  }

  function BuildServerHello<P(!new)>(u: Suite<P>, message: HandshakeMessage, keys: ServerKeys)
    : Result<(HandshakeMessage, ServerState), NoiseError>
  {
    ServerHelloWith(u, message, keys,
                    BuildCertChain(u, keys.root, keys.intermediate, keys.longTerm.public, keys.issuerSerial))
  }

  function ProcessClientFinish<P(!new)>(u: Suite<P>, server: ServerState, message: HandshakeMessage)
    : Result<Established, NoiseError>
  {
    match message
    case ClientFinish(staticSealed, payload) =>
      (match DecryptHandshake(u.prims, server.sym, staticSealed)
       case Err(_) => Err(Raised)
       case Ok((s1, clientStatic)) =>
         match ServerMix(u, s1, server.ephemeral.private, clientStatic)
         case Err(e) => Err(e)
         case Ok(s2) =>
           match DecryptHandshake(u.prims, s2, payload)
           case Err(_) => Err(Raised)
           case Ok((s3, clientPayload)) =>
             Ok(Established(FinishTransport(u.prims, s3, Server), clientStatic, clientPayload)))
    case _ => Err(Raised)
  }

  /** The server finishes with a key and a payload exactly if the first ciphertext is that key sealed under
      its state, an exchange with the key succeeds, and the second is that payload sealed after mixing. */
  lemma FinishAcceptedIff<P(!new)>(u: Suite<P>, server: ServerState, message: HandshakeMessage, key: Bytes,
                                   payload: Bytes)
    requires u.prims.Lawful()
    ensures
      var r := ProcessClientFinish(u, server, message);
      && (r.Err? ==> r.error == Raised)
      && (r.Ok? && r.value.clientStatic == key && r.value.clientPayload == payload <==>
            && message.ClientFinish?
            && var (s, c) := (server.sym, u.prims);
            && message.staticSealed == AesGcmEncrypt(c, s.decKey, GenerateIv(s.counter), key, s.hash)
            && var secret := u.x25519(server.ephemeral.private, key);
            && secret.Some?
            && var s2 := MixIntoKey(c, s.(hash := c.sha256(s.hash + message.staticSealed)), secret.value);
            && message.payloadSealed == AesGcmEncrypt(c, s2.decKey, GenerateIv(0), payload, s2.hash))
  {
    if message.ClientFinish? {
      MessageAcceptedIff(u.prims, server.sym, message.staticSealed, key);
      var r1 := DecryptHandshake(u.prims, server.sym, message.staticSealed);
      if r1.Ok? && r1.value.1 == key {
        var mixed := ServerMix(u, r1.value.0, server.ephemeral.private, key);
        if mixed.Ok? { MessageAcceptedIff(u.prims, mixed.value, message.payloadSealed, payload); }
      }
    }
  }

  // ---- Completeness: an honest handshake succeeds and agrees ----

  /** Both ends of one Diffie-Hellman exchange mix the same secret. */
  lemma MixesAgree<P(!new)>(u: Suite<P>, client: ClientState, sym: Symmetric, mine: KeyPair, theirs: KeyPair)
    requires u.Lawful() && Matching(u, mine) && Matching(u, theirs) && client.sym == sym
    ensures
      var r := ClientMix(u, client, mine.private, theirs.public);
      var r' := ServerMix(u, sym, theirs.private, mine.public);
      && r.Ok? && r'.Ok? && r.value == client.(sym := r'.value) && InStep(r'.value, r'.value)
  {
    assert u.DhAgrees(mine.private, theirs.private);
  }

  /** A client that has sent its ephemeral key under the expected header. */
  predicate Waiting(c: Primitives, client: ClientState) {
    && client.transport.None?
    && client.sym == Authenticate(c, Authenticate(c, INITIAL_STATE, NOISE_HEADER), client.ephemeral.public)
  }

  /** Where the client must end up after a server hello: its static key sealed, in step with the server. */
  predicate Answered<P(!new)>(u: Suite<P>, client: ClientState, noiseKey: KeyPair, server: ServerState,
                              seen: ClientState) {
    var (s5, pending) := EncryptHandshake(u.prims, server.sym, noiseKey.public);
    var mixed := ServerMix(u, s5, server.ephemeral.private, noiseKey.public);
    && InStep(server.sym, server.sym)
    && mixed.Ok? && InStep(mixed.value, mixed.value)
    && seen == client.(sym := mixed.value, pendingStatic := Some(pending))
  }

  /** Whatever chain an otherwise honest server shows, the client accepts its hello exactly if the chain
      validates, and then ends in step with the server. */
  lemma HelloAcceptedIffChainValid<P(!new)>(u: Suite<P>, client: ClientState, keys: ServerKeys, noiseKey: KeyPair,
                                            chain: Bytes)
    requires u.Lawful() && Waiting(u.prims, client)
    requires Matching(u, client.ephemeral) && Matching(u, noiseKey)
    requires Matching(u, keys.longTerm) && Matching(u, keys.ephemeral)
    ensures
      var sent := ServerHelloWith(u, ClientHello(client.ephemeral.public), keys, chain);
      && sent.Ok?
      && var (hello, server) := sent.value;
         var seen := ProcessServerHello(u, client, hello, noiseKey);
      && server.ephemeral == keys.ephemeral
      && (if ValidCertChain(u, chain, client.trusted) then seen.Ok? && Answered(u, client, noiseKey, server, seen.value)
          else seen == Err(InvalidCertificate))
  {
    var s0 := Authenticate(u.prims, client.sym, keys.ephemeral.public);
    var c0 := client.(sym := s0);
    MixesAgree(u, c0, s0, client.ephemeral, keys.ephemeral);
    var s1 := ServerMix(u, s0, keys.ephemeral.private, client.ephemeral.public).value;
    CiphertextOpens(u.prims, s1, s1, keys.longTerm.public);
    var s2 := EncryptHandshake(u.prims, s1, keys.longTerm.public).0;
    MixesAgree(u, c0.(sym := s2), s2, client.ephemeral, keys.longTerm);
    var s3 := ServerMix(u, s2, keys.longTerm.private, client.ephemeral.public).value;
    CiphertextOpens(u.prims, s3, s3, chain);
    var s4 := EncryptHandshake(u.prims, s3, chain).0;
    CiphertextOpens(u.prims, s4, s4, noiseKey.public);
    var s5 := EncryptHandshake(u.prims, s4, noiseKey.public).0;
    MixesAgree(u, c0.(sym := s5), s5, noiseKey, keys.ephemeral);
  }

  ghost predicate HonestKeys<P(!new)>(u: Suite<P>, ephemeral: KeyPair, noiseKey: KeyPair, keys: ServerKeys) {
    && u.Lawful()
    && Matching(u, ephemeral) && Matching(u, noiseKey)
    && Matching(u, keys.root) && Matching(u, keys.intermediate) && Matching(u, keys.longTerm)
    && Matching(u, keys.ephemeral)
    && ChainParses(u, keys.root, keys.intermediate, keys.longTerm.public, keys.issuerSerial)
  }

  /** From the client hello to the server's answer: the client accepts and the two states are in step. */
  lemma ServerHelloAccepted<P(!new)>(u: Suite<P>, client: ClientState, keys: ServerKeys, noiseKey: KeyPair)
    requires HonestKeys(u, client.ephemeral, noiseKey, keys) && Waiting(u.prims, client)
    requires client.trusted == TrustedCert(keys.issuerSerial, keys.root.public)
    ensures
      var sent := BuildServerHello(u, ClientHello(client.ephemeral.public), keys);
      && sent.Ok?
      && var (hello, server) := sent.value;
         var seen := ProcessServerHello(u, client, hello, noiseKey);
      && seen.Ok? && server.ephemeral == keys.ephemeral && Answered(u, client, noiseKey, server, seen.value)
  {
    IssuedChainValidatesIff(u, keys.root, keys.intermediate, keys.longTerm.public, keys.issuerSerial, client.trusted);
    HelloAcceptedIffChainValid(u, client, keys, noiseKey,
      BuildCertChain(u, keys.root, keys.intermediate, keys.longTerm.public, keys.issuerSerial));
  }

  /** What an issued chain is does not depend on how chains are serialized. */
  lemma SameIssuedChain<P(!new)>(u: Suite<P>, u': Suite<P>, root: KeyPair, intermediate: KeyPair,
                                 serverStatic: Bytes, issuerSerial: nat)
    requires u.curve == u'.curve && u.details == u'.details
    ensures IssuedChain(u, root, intermediate, serverStatic, issuerSerial)
         == IssuedChain(u', root, intermediate, serverStatic, issuerSerial)
  {
  }

  /** A toy codec that tells one value from all others, and reads those as another one. */
  function TwoValueCodec<T(!new,==)>(x: T, y: T): (c: Codec<T>)
    ensures c.RoundTrips(x) && c.RoundTrips(y)
  {
    Codec(v => if v == x then [1] else [], b => if b == [1] then Some(x) else Some(y))
  }

  /** For every certified key, serial and private keys there are primitives, codecs and a server that meet
      what is assumed below; with its own key certified, the server is an honest one. */
  lemma SuiteFor(ephemeral: Bytes32, noise: Bytes32, certified: Bytes, serial: nat)
    returns (u: Suite<X.Residue>, mine: KeyPair, noiseKey: KeyPair, keys: ServerKeys)
    ensures mine.private == ephemeral && noiseKey.private == noise && keys.issuerSerial == serial
    ensures u.Lawful() && Matching(u, mine) && Matching(u, noiseKey)
    ensures Matching(u, keys.root) && Matching(u, keys.intermediate)
    ensures Matching(u, keys.longTerm) && Matching(u, keys.ephemeral)
    ensures ChainParses(u, keys.root, keys.intermediate, certified, serial)
    ensures u.details.RoundTrips(LeafDetails(certified))
    ensures certified == keys.longTerm.public ==> HonestKeys(u, mine, noiseKey, keys)
  {
    mine := KeyPair(ephemeral, X.PublicKey(X.ToyCurve(), ephemeral));
    noiseKey := KeyPair(noise, X.PublicKey(X.ToyCurve(), noise));
    keys := ServerKeys(noiseKey, noiseKey, noiseKey, mine, serial);
    var details := TwoValueCodec(IntermediateDetails(noiseKey, serial), LeafDetails(certified));
    var noChain := CertChain(None, None);
    var draft := LawfulIsSatisfiable(TwoValueCodec(noChain, noChain), details);
    var chain := IssuedChain(draft, noiseKey, noiseKey, certified, serial);
    u := LawfulIsSatisfiable(TwoValueCodec(chain, chain), details);
    SameIssuedChain(u, draft, noiseKey, noiseKey, certified, serial);
  }

  /** An otherwise honest server whose chain carries a signature that does not verify, or another serial
      than the trusted one, is refused. */
  lemma ForgedChainRefused<P(!new)>(u: Suite<P>, client: ClientState, keys: ServerKeys, noiseKey: KeyPair, chain: Bytes,
                                    leaf: Certificate, intermediate: Certificate, details: Details)
    requires u.Lawful() && Waiting(u.prims, client)
    requires Matching(u, client.ephemeral) && Matching(u, noiseKey)
    requires Matching(u, keys.longTerm) && Matching(u, keys.ephemeral)
    requires u.chains.decode(chain) == Some(CertChain(Some(leaf), Some(intermediate)))
    requires leaf.details.Some? && leaf.signature.Some?
    requires intermediate.details.Some? && intermediate.signature.Some?
    requires u.details.decode(intermediate.details.value) == Some(details) && details.key.Some?
    requires
      || !X.Accepts(u.curve, RawKey(client.trusted.publicKey), intermediate.details.value, intermediate.signature.value)
      || !X.Accepts(u.curve, RawKey(details.key.value), leaf.details.value, leaf.signature.value)
      || details.issuerSerial != Some(client.trusted.serial)
    ensures
      var sent := ServerHelloWith(u, ClientHello(client.ephemeral.public), keys, chain);
      sent.Ok? && ProcessServerHello(u, client, sent.value.0, noiseKey) == Err(InvalidCertificate)
  {
    ChainValidIff(u, chain, client.trusted, leaf, intermediate, details);
    HelloAcceptedIffChainValid(u, client, keys, noiseKey, chain);
  }

  // ---- What the certificate says about the server's key ----

  /** The leaf of this chain is about that key. */
  predicate Certifies<P(!new)>(u: Suite<P>, chain: Bytes, key: Bytes) {
    match u.chains.decode(chain)
    case Some(CertChain(Some(leaf), _)) =>
      && leaf.details.Some?
      && var details := u.details.decode(leaf.details.value);
      && details.Some? && details.value.key == Some(key)
    case _ => false
  }

  /** A client that trusts the root accepts a server that shows a chain issued for any key whatever: the
      key the server proves to hold is not compared with the certified one. So what is accepted is
      certified exactly if the server happens to show a chain for its own key. */
  lemma AcceptedKeyIsCertifiedIff<P(!new)>(u: Suite<P>, client: ClientState, keys: ServerKeys, noiseKey: KeyPair,
                                           certified: Bytes)
    requires u.Lawful() && Waiting(u.prims, client)
    requires Matching(u, client.ephemeral) && Matching(u, noiseKey)
    requires Matching(u, keys.root) && Matching(u, keys.intermediate)
    requires Matching(u, keys.longTerm) && Matching(u, keys.ephemeral)
    requires ChainParses(u, keys.root, keys.intermediate, certified, keys.issuerSerial)
    requires u.details.RoundTrips(LeafDetails(certified))
    requires client.trusted == TrustedCert(keys.issuerSerial, keys.root.public)
    ensures
      var chain := BuildCertChain(u, keys.root, keys.intermediate, certified, keys.issuerSerial);
      var sent := ServerHelloWith(u, ClientHello(client.ephemeral.public), keys, chain);
      && sent.Ok?
      && ProcessServerHello(u, client, sent.value.0, noiseKey).Ok?
      && (Certifies(u, chain, keys.longTerm.public) <==> certified == keys.longTerm.public)
  {
    IssuedChainValidatesIff(u, keys.root, keys.intermediate, certified, keys.issuerSerial, client.trusted);
    HelloAcceptedIffChainValid(u, client, keys, noiseKey,
      BuildCertChain(u, keys.root, keys.intermediate, certified, keys.issuerSerial));
  }

  /** Such a server exists: its chain is for the empty key, and the client accepts it. */
  lemma UncertifiedKeyAccepted(ephemeral: Bytes32, noise: Bytes32, serial: nat)
    returns (u: Suite<X.Residue>, client: ClientState, keys: ServerKeys, noiseKey: KeyPair, chain: Bytes)
    ensures u.Lawful() && Waiting(u.prims, client) && Matching(u, keys.longTerm) && Matching(u, keys.root)
    ensures client.trusted.publicKey == keys.root.public
    ensures
      var sent := ServerHelloWith(u, ClientHello(client.ephemeral.public), keys, chain);
      && sent.Ok?
      && ProcessServerHello(u, client, sent.value.0, noiseKey).Ok?
      && !Certifies(u, chain, keys.longTerm.public)
  {
    var mine;
    u, mine, noiseKey, keys := SuiteFor(ephemeral, noise, [], serial);
    client := NewClient(u.prims, NOISE_HEADER, None, mine, TrustedCert(serial, keys.root.public));
    chain := BuildCertChain(u, keys.root, keys.intermediate, [], serial);
    AcceptedKeyIsCertifiedIff(u, client, keys, noiseKey, []);
  }

  /** The last message, from a client and a server as the server hello leaves them. */
  lemma FinishAccepted<P(!new)>(u: Suite<P>, before: ClientState, client: ClientState, server: ServerState,
                                noiseKey: KeyPair, payload: Bytes)
    requires u.Lawful() && client.transport.None? && Answered(u, before, noiseKey, server, client)
    ensures
      var finished := MakeClientFinish(u, client, payload);
      && finished.Ok?
      && var established := ProcessClientFinish(u, server, finished.value.1);
      && established.Ok?
      && established.value.clientStatic == noiseKey.public
      && established.value.clientPayload == payload
      && var transport := FinishInit(u.prims, finished.value.0).transport;
      && transport.Some?
      && Opposite(transport.value, established.value.transport)
      && transport.value.readCounter == transport.value.writeCounter == 0
      && FinishInit(u.prims, finished.value.0).inBytes == client.inBytes
  {
    CiphertextOpens(u.prims, server.sym, server.sym, noiseKey.public);
    CiphertextOpens(u.prims, client.sym, client.sym, payload);
  }

  /** One whole handshake with nobody in between: the client's final state and what the server has. */
  function HonestRun<P(!new,==)>(u: Suite<P>, routingInfo: Option<Bytes>, ephemeral: KeyPair, noiseKey: KeyPair,
                                 payload: Bytes, keys: ServerKeys): Result<(ClientState, Established), NoiseError>
  {
    var client := NewClient(u.prims, NOISE_HEADER, routingInfo, ephemeral,
                            TrustedCert(keys.issuerSerial, keys.root.public));
    match BuildServerHello(u, ClientHello(ephemeral.public), keys)
    case Err(e) => Err(e)
    case Ok((hello, server)) =>
      match ProcessServerHello(u, client, hello, noiseKey)
      case Err(e) => Err(e)
      case Ok(ready) =>
        match MakeClientFinish(u, ready, payload)
        case Err(e) => Err(e)
        case Ok((done, finish)) =>
          match ProcessClientFinish(u, server, finish)
          case Err(e) => Err(e)
          case Ok(established) => Ok((FinishInit(u.prims, done), established))
  }

  /** An honest run of the whole handshake succeeds: the server learns exactly the client's static key
      and payload, and the two ends hold crossed transport keys with fresh counters. */
  lemma HandshakeCompletes<P(!new)>(u: Suite<P>, routingInfo: Option<Bytes>, ephemeral: KeyPair, noiseKey: KeyPair,
                                    payload: Bytes, keys: ServerKeys)
    requires HonestKeys(u, ephemeral, noiseKey, keys)
    ensures
      var r := HonestRun(u, routingInfo, ephemeral, noiseKey, payload, keys);
      && r.Ok?
      && var (client, server) := r.value;
      && server.clientStatic == noiseKey.public
      && server.clientPayload == payload
      && client.transport.Some?
      && Opposite(client.transport.value, server.transport)
      && client.transport.value.readCounter == client.transport.value.writeCounter == 0
      && client.inBytes == []
  {
    var client := NewClient(u.prims, NOISE_HEADER, routingInfo, ephemeral,
                            TrustedCert(keys.issuerSerial, keys.root.public));
    ServerHelloAccepted(u, client, keys, noiseKey);
    var (hello, server) := BuildServerHello(u, ClientHello(ephemeral.public), keys).value;
    var ready := ProcessServerHello(u, client, hello, noiseKey).value;
    FinishAccepted(u, client, ready, server, noiseKey, payload);
  }

  // ---- Soundness: what the server's acceptance says about the client ----

  /** What a handshake state has hashed by the time the client sends its static key. */
  function Transcript(header: Bytes, clientEphemeral: Bytes, serverEphemeral: Bytes, staticSealed: Bytes,
                      payloadSealed: Bytes): seq<Bytes> {
    [header, clientEphemeral, serverEphemeral, staticSealed, payloadSealed]
  }

  function Digest(c: Primitives, hash: Bytes32, data: Bytes): Bytes32 {
    c.sha256(hash + data)
  }

  lemma TranscriptDigest(c: Primitives, header: Bytes, clientEphemeral: Bytes, serverEphemeral: Bytes,
                         staticSealed: Bytes, payloadSealed: Bytes)
    ensures HashAll(c, NOISE_MODE, Transcript(header, clientEphemeral, serverEphemeral, staticSealed, payloadSealed))
         == Digest(c, Digest(c, Digest(c, Digest(c, Digest(c, NOISE_MODE, header),
              clientEphemeral), serverEphemeral), staticSealed), payloadSealed)
  {
    assert Transcript(header, clientEphemeral, serverEphemeral, staticSealed, payloadSealed)
        == [header] + [clientEphemeral, serverEphemeral, staticSealed, payloadSealed];
    assert [clientEphemeral] + [serverEphemeral, staticSealed, payloadSealed]
      == [clientEphemeral, serverEphemeral, staticSealed, payloadSealed];
    assert [serverEphemeral] + [staticSealed, payloadSealed] == [serverEphemeral, staticSealed, payloadSealed];
    assert [staticSealed] + [payloadSealed] == [staticSealed, payloadSealed];
    assert [payloadSealed] + [] == [payloadSealed];
    var h1 := Digest(c, NOISE_MODE, header);
    var h2 := Digest(c, h1, clientEphemeral);
    var h3 := Digest(c, h2, serverEphemeral);
    var h4 := Digest(c, h3, staticSealed);
    HashAllOfCons(c, NOISE_MODE, header, [clientEphemeral, serverEphemeral, staticSealed, payloadSealed]);
    HashAllOfCons(c, h1, clientEphemeral, [serverEphemeral, staticSealed, payloadSealed]);
    HashAllOfCons(c, h2, serverEphemeral, [staticSealed, payloadSealed]);
    HashAllOfCons(c, h3, staticSealed, [payloadSealed]);
    HashAllOfCons(c, h4, payloadSealed, []);
  }

  lemma HashAllOfCons(c: Primitives, hash: Bytes32, first: Bytes, rest: seq<Bytes>)
    ensures HashAll(c, hash, [first] + rest) == HashAll(c, Digest(c, hash, first), rest)
  {
    assert ([first] + rest)[1..] == rest;
  }

  predicate Complete(hello: HandshakeMessage) {
    hello.ServerHello? && hello.serverEphemeral.Some? && hello.staticCiphertext.Some? && hello.payloadCiphertext.Some?
  }

  /** The transcript that a server hello closes. */
  function HelloTranscript(header: Bytes, clientEphemeral: Bytes, hello: HandshakeMessage): seq<Bytes>
    requires Complete(hello)
  {
    Transcript(header, clientEphemeral, hello.serverEphemeral.value, hello.staticCiphertext.value,
               hello.payloadCiphertext.value)
  }

  /** Mixing and counting leave the hash alone: the server's hash is that of its transcript. */
  lemma ServerTranscript<P(!new)>(u: Suite<P>, clientEphemeral: Bytes, keys: ServerKeys)
    requires BuildServerHello(u, ClientHello(clientEphemeral), keys).Ok?
    ensures
      var (hello, server) := BuildServerHello(u, ClientHello(clientEphemeral), keys).value;
      Complete(hello) && server.sym.hash
        == HashAll(u.prims, NOISE_MODE, HelloTranscript(NOISE_HEADER, clientEphemeral, hello))
  {
    var c := u.prims;
    var s0 := Authenticate(c, Authenticate(c, Authenticate(c, INITIAL_STATE, NOISE_HEADER), clientEphemeral),
                           keys.ephemeral.public);
    assert s0.hash == Digest(c, Digest(c, Digest(c, NOISE_MODE, NOISE_HEADER), clientEphemeral), keys.ephemeral.public);
    var s1 := ServerMix(u, s0, keys.ephemeral.private, clientEphemeral).value;
    var (s2, staticSealed) := EncryptHandshake(c, s1, keys.longTerm.public);
    var s3 := ServerMix(u, s2, keys.longTerm.private, clientEphemeral).value;
    var chain := BuildCertChain(u, keys.root, keys.intermediate, keys.longTerm.public, keys.issuerSerial);
    var (s4, payloadSealed) := EncryptHandshake(c, s3, chain);
    assert s4.hash == Digest(c, Digest(c, s0.hash, staticSealed), payloadSealed);
    TranscriptDigest(c, NOISE_HEADER, clientEphemeral, keys.ephemeral.public, staticSealed, payloadSealed);
  }

  /** Likewise for the client; `before` is its state when it seals its static key. */
  lemma ClientTranscript<P(!new)>(u: Suite<P>, client: ClientState, header: Bytes, hello: HandshakeMessage,
                                  noiseKey: KeyPair)
    returns (before: Symmetric)
    requires client.transport.None?
    requires client.sym == Authenticate(u.prims, Authenticate(u.prims, INITIAL_STATE, header), client.ephemeral.public)
    requires ProcessServerHello(u, client, hello, noiseKey).Ok?
    ensures Complete(hello)
    ensures before.hash == HashAll(u.prims, NOISE_MODE, HelloTranscript(header, client.ephemeral.public, hello))
    ensures ProcessServerHello(u, client, hello, noiseKey).value.pendingStatic
         == Some(EncryptHandshake(u.prims, before, noiseKey.public).1)
  {
    var c := u.prims;
    var ephemeral, staticSealed, payloadSealed :=
      hello.serverEphemeral.value, hello.staticCiphertext.value, hello.payloadCiphertext.value;
    var c0 := Kept(client, Authenticate(c, client.sym, ephemeral));
    var c1 := ClientMix(u, c0, c0.ephemeral.private, ephemeral).value;
    var (c2, serverStatic) := ClientDecrypt(u, c1, staticSealed).value;
    var c3 := ClientMix(u, c2, c2.ephemeral.private, serverStatic).value;
    var (c4, _) := ClientDecrypt(u, c3, payloadSealed).value;
    before := c4.sym;
    assert c0.sym.hash == Digest(c, Digest(c, Digest(c, NOISE_MODE, header), client.ephemeral.public), ephemeral);
    assert c4.sym.hash == Digest(c, Digest(c, c0.sym.hash, staticSealed), payloadSealed);
    TranscriptDigest(c, header, client.ephemeral.public, ephemeral, staticSealed, payloadSealed);
  }

  /** If the server opens the static key a client sealed, the two saw one handshake: the server received
      that client's ephemeral key, the client received the server's own hello, the header is the
      expected one, and the key the server read is the client's. Anything else exhibits a SHA-256
      collision between the two transcripts, or one AES-GCM ciphertext sealed in two ways.
      What either side received in between is arbitrary. */
  lemma AcceptanceMeansAgreement<P(!new)>(u: Suite<P>, header: Bytes, client: ClientState, received: HandshakeMessage,
                                          noiseKey: KeyPair, claimed: Bytes, keys: ServerKeys)
    returns (before: Symmetric)
    requires u.prims.Lawful()
    requires client.transport.None?
    requires client.sym == Authenticate(u.prims, Authenticate(u.prims, INITIAL_STATE, header), client.ephemeral.public)
    requires BuildServerHello(u, ClientHello(claimed), keys).Ok?
    requires ProcessServerHello(u, client, received, noiseKey).Ok?
    requires
      var pending := ProcessServerHello(u, client, received, noiseKey).value.pendingStatic;
      && pending.Some?
      && DecryptHandshake(u.prims, BuildServerHello(u, ClientHello(claimed), keys).value.1.sym, pending.value).Ok?
    ensures Complete(received)
    ensures
      var (sent, server) := BuildServerHello(u, ClientHello(claimed), keys).value;
      var pending := ProcessServerHello(u, client, received, noiseKey).value.pendingStatic.value;
      var heard := DecryptHandshake(u.prims, server.sym, pending).value.1;
      && Complete(sent)
      && (|| (&& claimed == client.ephemeral.public && received == sent && header == NOISE_HEADER
              && heard == noiseKey.public && before.encKey == server.sym.decKey)
          || Collision(u.prims, NOISE_MODE, HelloTranscript(header, client.ephemeral.public, received),
                       NOISE_MODE, HelloTranscript(NOISE_HEADER, claimed, sent))
          || CrossSealed(u.prims, before, server.sym, noiseKey.public, heard))
  {
    var (sent, server) := BuildServerHello(u, ClientHello(claimed), keys).value;
    ServerTranscript(u, claimed, keys);
    before := ClientTranscript(u, client, header, received, noiseKey);
    AcceptanceBinds(u.prims, before, server.sym, noiseKey.public);
    if before.hash == server.sym.hash {
      var mine := HelloTranscript(header, client.ephemeral.public, received);
      var theirs := HelloTranscript(NOISE_HEADER, claimed, sent);
      TranscriptBinding(u.prims, NOISE_MODE, mine, NOISE_MODE, theirs);
      if mine == theirs {
        assert mine[0] == theirs[0] && mine[1] == theirs[1] && mine[2] == theirs[2] && mine[3] == theirs[3]
          && mine[4] == theirs[4];
      }
    }
  }
}
