/** The Noise session resource of native/baileys_nif/src/noise.rs: a mutex around a state that is
    replaced in place. Every NIF holds the lock for its whole body, so an execution by any number of
    processes is a sequence of calls in lock order, and a statement about all sequences of calls is a
    statement about all interleavings.
    snow is abstracted to what decides which calls succeed: the position in the three-message XX
    pattern, and one nonce per direction. */
module NoiseSession {
  import opened Octets

  datatype Role = Initiator | Responder

  function Other(r: Role): Role {
    if r == Initiator then Responder else Initiator
  }

  /** The pattern has three messages, the initiator writing the first and the third. */
  datatype HandshakeState = HandshakeState(role: Role, done: nat)

  datatype TransportState = TransportState(role: Role, sendNonce: nat, receiveNonce: nat)

  datatype NoiseState = Handshake(hs: HandshakeState) | Transport(ts: TransportState) | Transitioning

  const PATTERN_LENGTH := 3

  const MAX_MSG_SIZE := 65535

  const NONCE_LIMIT := 0xffff_ffff_ffff_ffff

  /** A ciphertext as the session that made it knows it, or bytes no session made. */
  datatype Cipher = Sealed(sender: Role, nonce: nat, plaintext: Bytes) | Junk(bytes: Bytes)

  datatype NifError =
    | HandshakeWriteFailed | HandshakeWriteInTransport | HandshakeReadFailed | HandshakeReadInTransport
    | SessionTransitioning | FinishFailed | AlreadyInTransport
    | EncryptInHandshake | EncryptFailed | DecryptInHandshake | DecryptFailed | InvalidKeySize

  /** `made` is what snow makes of the payload or the message given to it when it is that message's turn:
      the bytes to return, or None if key, tag or a buffer size is wrong. */
  datatype Call =
    | HandshakeWrite(made: Option<Bytes>)
    | HandshakeRead(made: Option<Bytes>)
    | Finish
    | Encrypt(plaintext: Bytes)
    | Decrypt(ciphertext: Cipher)

  datatype Reply =
    | Done
    | Wrote(message: Bytes)
    | Read(payload: Bytes)
    | Encrypted(ciphertext: Cipher)
    | Decrypted(plaintext: Bytes)
    | Failed(error: NifError)

  // ---- snow ----

  predicate MyTurn(hs: HandshakeState) {
    hs.done < PATTERN_LENGTH && (hs.done % 2 == 0 <==> hs.role == Initiator)
  }

  function SnowWrite(hs: HandshakeState, made: Option<Bytes>): Option<(HandshakeState, Bytes)> {
    if MyTurn(hs) && made.Some? then Some((hs.(done := hs.done + 1), made.value)) else None
  }

  function SnowRead(hs: HandshakeState, made: Option<Bytes>): Option<(HandshakeState, Bytes)> {
    if hs.done < PATTERN_LENGTH && !MyTurn(hs) && made.Some? then Some((hs.(done := hs.done + 1), made.value)) else None
  }

  function SnowIntoTransport(hs: HandshakeState): Option<TransportState> {
    if hs.done == PATTERN_LENGTH then Some(TransportState(hs.role, 0, 0)) else None
  }

  function SnowEncrypt(ts: TransportState, plaintext: Bytes): Option<(TransportState, Cipher)> {
    if |plaintext| + 16 > MAX_MSG_SIZE || ts.sendNonce >= NONCE_LIMIT then None
    else Some((ts.(sendNonce := ts.sendNonce + 1), Sealed(ts.role, ts.sendNonce, plaintext)))
  }

  /** A failed decryption does not advance the nonce. */
  function SnowDecrypt(ts: TransportState, ciphertext: Cipher): Option<(TransportState, Bytes)> {
    match ciphertext
    case Sealed(sender, nonce, plaintext) =>
      if sender == Other(ts.role) && nonce == ts.receiveNonce < NONCE_LIMIT then
        Some((ts.(receiveNonce := ts.receiveNonce + 1), plaintext))
      else None
    case Junk(_) => None
  }

  // ---- One call, as a function of the state it finds ----

  function Step(state: NoiseState, call: Call): (NoiseState, Reply) {
    match (state, call)
    case (Handshake(hs), HandshakeWrite(made)) =>
      (match SnowWrite(hs, made)
       case None => (state, Failed(HandshakeWriteFailed))
       case Some((hs', message)) => (Handshake(hs'), Wrote(message)))
    case (Handshake(hs), HandshakeRead(made)) =>
      (match SnowRead(hs, made)
       case None => (state, Failed(HandshakeReadFailed))
       case Some((hs', payload)) => (Handshake(hs'), Read(payload)))
    case (Handshake(hs), Finish) =>
      (match SnowIntoTransport(hs)
       case None => (Transitioning, Failed(FinishFailed))
       case Some(ts) => (Transport(ts), Done))
    case (Handshake(_), Encrypt(_)) => (state, Failed(EncryptInHandshake))
    case (Handshake(_), Decrypt(_)) => (state, Failed(DecryptInHandshake))
    case (Transport(_), HandshakeWrite(_)) => (state, Failed(HandshakeWriteInTransport))
    case (Transport(_), HandshakeRead(_)) => (state, Failed(HandshakeReadInTransport))
    case (Transport(_), Finish) => (state, Failed(AlreadyInTransport))
    case (Transport(ts), Encrypt(plaintext)) =>
      (match SnowEncrypt(ts, plaintext)
       case None => (state, Failed(EncryptFailed))
       case Some((ts', ciphertext)) => (Transport(ts'), Encrypted(ciphertext)))
    case (Transport(ts), Decrypt(ciphertext)) =>
      (match SnowDecrypt(ts, ciphertext)
       case None => (state, Failed(DecryptFailed))
       case Some((ts', plaintext)) => (Transport(ts'), Decrypted(plaintext)))
    case (Transitioning, _) => (state, Failed(SessionTransitioning))
  }

  // ---- The resource ----

  class Session {
    var state: NoiseState

    constructor (initial: NoiseState)
      ensures state == initial
    {
      state := initial;
    }

    method HandshakeWrite(made: Option<Bytes>) returns (reply: Reply)
      modifies this
      ensures (state, reply) == Step(old(state), Call.HandshakeWrite(made))
    {
      match state {
        case Handshake(hs) =>
          var r := SnowWrite(hs, made);
          if r.None? { return Failed(HandshakeWriteFailed); }
          state := Handshake(r.value.0);
          return Wrote(r.value.1);
        case Transport(_) => return Failed(HandshakeWriteInTransport);
        case Transitioning => return Failed(SessionTransitioning);
      }
    }

    method HandshakeRead(made: Option<Bytes>) returns (reply: Reply)
      modifies this
      ensures (state, reply) == Step(old(state), Call.HandshakeRead(made))
    {
      match state {
        case Handshake(hs) =>
          var r := SnowRead(hs, made);
          if r.None? { return Failed(HandshakeReadFailed); }
          state := Handshake(r.value.0);
          return Read(r.value.1);
        case Transport(_) => return Failed(HandshakeReadInTransport);
        case Transitioning => return Failed(SessionTransitioning);
      }
    }

    /** The state is taken out and Transitioning put in its place; on the early return of a failed
        into_transport_mode nothing puts a state back. */
    method Finish() returns (reply: Reply)
      modifies this
      ensures (state, reply) == Step(old(state), Call.Finish)
    {
      var taken := state;
      state := Transitioning;
      match taken {
        case Handshake(hs) =>
          var transport := SnowIntoTransport(hs);
          if transport.None? { return Failed(FinishFailed); }
          state := Transport(transport.value);
          return Done;
        case Transport(t) =>
          state := Transport(t);
          return Failed(AlreadyInTransport);
        case Transitioning => return Failed(SessionTransitioning);
      }
    }

    method Encrypt(plaintext: Bytes) returns (reply: Reply)
      modifies this
      ensures (state, reply) == Step(old(state), Call.Encrypt(plaintext))
    {
      match state {
        case Transport(ts) =>
          var r := SnowEncrypt(ts, plaintext);
          if r.None? { return Failed(EncryptFailed); }
          state := Transport(r.value.0);
          return Encrypted(r.value.1);
        case Handshake(_) => return Failed(EncryptInHandshake);
        case Transitioning => return Failed(SessionTransitioning);
      }
    }

    method Decrypt(ciphertext: Cipher) returns (reply: Reply)
      modifies this
      ensures (state, reply) == Step(old(state), Call.Decrypt(ciphertext))
    {
      match state {
        case Transport(ts) =>
          var r := SnowDecrypt(ts, ciphertext);
          if r.None? { return Failed(DecryptFailed); }
          state := Transport(r.value.0);
          return Decrypted(r.value.1);
        case Handshake(_) => return Failed(DecryptInHandshake);
        case Transitioning => return Failed(SessionTransitioning);
      }
    }
  }

  /** The global counter beside the sessions it counts. */
  class Sessions {
    var liveCount: nat
    ghost var live: set<Session>

    ghost predicate Valid()
      reads this
    {
      liveCount == |live|
    }

    constructor ()
      ensures Valid() && live == {}
    {
      liveCount := 0;
      live := {};
    }

    /** Keys of the wrong size are refused before a session exists. */
    method Init(privateKey: Option<Bytes>, ephemeralKey: Option<Bytes>, role: Role)
      returns (r: Result<Session, NifError>)
      requires Valid()
      modifies this
      ensures Valid()
      ensures r.Ok? <==>
        && (privateKey.Some? ==> |privateKey.value| == 32)
        && (ephemeralKey.Some? ==> |ephemeralKey.value| == 32)
      ensures r.Ok? ==> fresh(r.value) && r.value.state == Handshake(HandshakeState(role, 0))
      ensures r.Ok? ==> live == old(live) + {r.value}
      ensures r.Ok? ==> liveCount == old(liveCount) + 1
      ensures r.Err? ==> r.error == InvalidKeySize && live == old(live)
    {
      if privateKey.Some? && |privateKey.value| != 32 { return Err(InvalidKeySize); }
      if ephemeralKey.Some? && |ephemeralKey.value| != 32 { return Err(InvalidKeySize); }
      var session := new Session(Handshake(HandshakeState(role, 0)));
      liveCount := liveCount + 1;
      live := live + {session};
      return Ok(session);
    }

    method Drop(session: Session)
      requires Valid() && session in live
      modifies this
      ensures Valid() && live == old(live) - {session} && liveCount == old(liveCount) - 1
    {
      liveCount := liveCount - 1;
      live := live - {session};
    }
  }

  // ---- Every run of one session ----

  function StateAt(initial: NoiseState, calls: seq<Call>, n: nat): NoiseState
    requires n <= |calls|
  {
    if n == 0 then initial else Step(StateAt(initial, calls, n - 1), calls[n - 1]).0
  }

  function ReplyAt(initial: NoiseState, calls: seq<Call>, n: nat): Reply
    requires n < |calls|
  {
    Step(StateAt(initial, calls, n), calls[n]).1
  }

  /** Index of the first finish, or the number of calls. */
  function FirstFinish(calls: seq<Call>): (f: nat)
    ensures f <= |calls|
    ensures forall i :: 0 <= i < f ==> !calls[i].Finish?
    ensures f < |calls| ==> calls[f].Finish?
  {
    if calls == [] || calls[0].Finish? then 0 else 1 + FirstFinish(calls[1..])
  }

  /** Handshake calls that succeeded before position n. */
  function Exchanged(initial: NoiseState, calls: seq<Call>, n: nat): nat
    requires n <= |calls|
  {
    if n == 0 then 0
    else
      var before := Exchanged(initial, calls, n - 1);
      if ReplyAt(initial, calls, n - 1).Wrote? || ReplyAt(initial, calls, n - 1).Read? then before + 1 else before
  }

  /** Encryptions that succeeded before position n. */
  function SentBefore(initial: NoiseState, calls: seq<Call>, n: nat): nat
    requires n <= |calls|
  {
    if n == 0 then 0
    else SentBefore(initial, calls, n - 1) + if ReplyAt(initial, calls, n - 1).Encrypted? then 1 else 0
  }

  /** Decryptions that succeeded before position n. */
  function OpenedBefore(initial: NoiseState, calls: seq<Call>, n: nat): nat
    requires n <= |calls|
  {
    if n == 0 then 0
    else OpenedBefore(initial, calls, n - 1) + if ReplyAt(initial, calls, n - 1).Decrypted? then 1 else 0
  }

  /** Whether the first finish comes when all three handshake messages have been exchanged. */
  predicate FinishedInTime(role: Role, calls: seq<Call>) {
    FirstFinish(calls) < |calls|
    && Exchanged(Handshake(HandshakeState(role, 0)), calls, FirstFinish(calls)) == PATTERN_LENGTH
  }

  /** Up to the first finish the session is in the handshake, and nothing is sealed or opened. */
  lemma {:induction false} NothingSealedBeforeFinish(role: Role, calls: seq<Call>, n: nat)
    requires n <= |calls| && n <= FirstFinish(calls)
    ensures
      var initial := Handshake(HandshakeState(role, 0));
      && StateAt(initial, calls, n) == Handshake(HandshakeState(role, Exchanged(initial, calls, n)))
      && SentBefore(initial, calls, n) == OpenedBefore(initial, calls, n) == 0
  {
    if n > 0 { NothingSealedBeforeFinish(role, calls, n - 1); }
  }

  /** The state at every point of every run is decided by the first finish. */
  lemma {:induction false} FirstFinishDecides(role: Role, calls: seq<Call>, n: nat)
    requires n <= |calls|
    ensures
      var initial := Handshake(HandshakeState(role, 0));
      var state := StateAt(initial, calls, n);
      if n <= FirstFinish(calls) then state == Handshake(HandshakeState(role, Exchanged(initial, calls, n)))
      else if FinishedInTime(role, calls) then
        state == Transport(TransportState(role, SentBefore(initial, calls, n), OpenedBefore(initial, calls, n)))
      else state == Transitioning
  {
    if n > 0 {
      FirstFinishDecides(role, calls, n - 1);
      if n <= FirstFinish(calls) + 1 { NothingSealedBeforeFinish(role, calls, n - 1); }
    }
  }

  /** When each kind of call can succeed, at any point of any run; in particular at most one finish
      ever succeeds, and nothing succeeds after a first finish that came too early. */
  lemma SuccessOnlyInPhase(role: Role, calls: seq<Call>, n: nat)
    requires n < |calls|
    ensures
      var reply := ReplyAt(Handshake(HandshakeState(role, 0)), calls, n);
      var f := FirstFinish(calls);
      var hs := HandshakeState(role, Exchanged(Handshake(HandshakeState(role, 0)), calls, n));
      && (calls[n].HandshakeWrite? ==>
            (!reply.Failed? <==> n < f && MyTurn(hs) && calls[n].made.Some?))
      && (calls[n].HandshakeRead? ==>
            (!reply.Failed? <==> n < f && hs.done < PATTERN_LENGTH && !MyTurn(hs) && calls[n].made.Some?))
      && (calls[n].Finish? ==> (reply == Done <==> n == f && FinishedInTime(role, calls)))
      && (calls[n].Encrypt? || calls[n].Decrypt? ==> (!reply.Failed? ==> n > f && FinishedInTime(role, calls)))
      && (calls[n].Finish? && n > f && FinishedInTime(role, calls) ==> reply == Failed(AlreadyInTransport))
      && (n > f && !FinishedInTime(role, calls) ==> reply == Failed(SessionTransitioning))
      && (n == f && !FinishedInTime(role, calls) ==> reply == Failed(FinishFailed))
  {
    FirstFinishDecides(role, calls, n);
  }

  /** An encryption succeeds, at any point of any run, exactly in transport mode, for a plaintext of at
      most 65519 bytes, while fewer than 2^64 - 1 encryptions have succeeded; it uses up the nonce that is
      the number of those. */
  lemma EncryptSucceedsIff(role: Role, calls: seq<Call>, n: nat)
    requires n < |calls| && calls[n].Encrypt?
    ensures
      var initial := Handshake(HandshakeState(role, 0));
      var sent, plaintext := SentBefore(initial, calls, n), calls[n].plaintext;
      if FirstFinish(calls) < n && FinishedInTime(role, calls) && |plaintext| <= 65519
        && sent < 0xffff_ffff_ffff_ffff then
        ReplyAt(initial, calls, n) == Encrypted(Sealed(role, sent, plaintext))
      else
        ReplyAt(initial, calls, n).Failed?
  {
    FirstFinishDecides(role, calls, n);
  }

  /** A decryption succeeds exactly in transport mode, on what the other role has sealed under the nonce
      that is the number of decryptions that have succeeded. */
  lemma DecryptSucceedsIff(role: Role, calls: seq<Call>, n: nat, plaintext: Bytes)
    requires n < |calls| && calls[n].Decrypt?
    ensures
      var initial := Handshake(HandshakeState(role, 0));
      var received := OpenedBefore(initial, calls, n);
      ReplyAt(initial, calls, n) == Decrypted(plaintext) <==>
        && FirstFinish(calls) < n && FinishedInTime(role, calls)
        && received < 0xffff_ffff_ffff_ffff
        && calls[n].ciphertext == Sealed(if role == Initiator then Responder else Initiator, received, plaintext)
  {
    FirstFinishDecides(role, calls, n);
  }

  /** The error of a refused call says which phase the session is in, and a handshake or transport call of
      the right phase fails with its own error; no refusal but that of an early finish changes the state. */
  lemma RefusalNamesPhase(state: NoiseState, call: Call)
    requires Step(state, call).1.Failed?
    ensures
      var error := Step(state, call).1.error;
      match state
      case Transitioning => error == SessionTransitioning
      case Handshake(_) =>
        (match call
         case HandshakeWrite(_) => error == HandshakeWriteFailed
         case HandshakeRead(_) => error == HandshakeReadFailed
         case Finish => error == FinishFailed
         case Encrypt(_) => error == EncryptInHandshake
         case Decrypt(_) => error == DecryptInHandshake)
      case Transport(_) =>
        match call
        case HandshakeWrite(_) => error == HandshakeWriteInTransport
        case HandshakeRead(_) => error == HandshakeReadInTransport
        case Finish => error == AlreadyInTransport
        case Encrypt(_) => error == EncryptFailed
        case Decrypt(_) => error == DecryptFailed
    ensures Step(state, call).0 == if call.Finish? && state.Handshake? then Transitioning else state
  {
  }

  /** The order of the handshake: the initiator writes the first and the third message and reads the second,
      the responder the other way round, and a finish succeeds after the third. */
  function HandshakeReply(role: Role, done: nat, call: Call): Reply {
    var first := done == 0 || done == 2;
    var second := done == 1;
    match call
    case HandshakeWrite(made) =>
      if made.Some? && (if role == Initiator then first else second) then Wrote(made.value)
      else Failed(HandshakeWriteFailed)
    case HandshakeRead(made) =>
      if made.Some? && (if role == Initiator then second else first) then Read(made.value)
      else Failed(HandshakeReadFailed)
    case Finish => if done == 3 then Done else Failed(FinishFailed)
    case Encrypt(_) => Failed(EncryptInHandshake)
    case Decrypt(_) => Failed(DecryptInHandshake)
  }

  lemma StepInPattern(role: Role, done: nat, call: Call)
    requires done <= 3
    ensures Step(Handshake(HandshakeState(role, done)), call).1 == HandshakeReply(role, done, call)
  {
    assert done == 0 || done == 1 || done == 2 || done == 3;
  }

  /** That is the reply to every call up to the first finish, in every run. */
  lemma PatternOrder(role: Role, calls: seq<Call>, n: nat)
    requires n < |calls| && n <= FirstFinish(calls)
    ensures
      var initial := Handshake(HandshakeState(role, 0));
      ReplyAt(initial, calls, n) == HandshakeReply(role, Exchanged(initial, calls, n), calls[n])
  {
    NothingSealedBeforeFinish(role, calls, n);
    AtMostThree(role, calls, n);
    StepInPattern(role, Exchanged(Handshake(HandshakeState(role, 0)), calls, n), calls[n]);
  }

  lemma {:induction false} AtMostThree(role: Role, calls: seq<Call>, n: nat)
    requires n <= |calls| && n <= FirstFinish(calls)
    ensures Exchanged(Handshake(HandshakeState(role, 0)), calls, n) <= 3
  {
    if n > 0 {
      AtMostThree(role, calls, n - 1);
      NothingSealedBeforeFinish(role, calls, n - 1);
    }
  }

  predicate ObservesTransitioning(role: Role, calls: seq<Call>, n: nat)
    requires n < |calls|
  {
    ReplyAt(Handshake(HandshakeState(role, 0)), calls, n) == Failed(SessionTransitioning)
  }

  lemma ObservedOnlyAfterEarlyFinish(role: Role, calls: seq<Call>, n: nat)
    requires n < |calls|
    ensures ObservesTransitioning(role, calls, n) <==> n > FirstFinish(calls) && !FinishedInTime(role, calls)
  {
    FirstFinishDecides(role, calls, n);
  }

  /** "Never observed by callers" (noise.rs:29-31) fails of exactly the runs whose first finish comes
      early and is not the last call. */
  lemma TransitioningObservedIff(role: Role, calls: seq<Call>)
    ensures (exists n: nat :: n < |calls| && ObservesTransitioning(role, calls, n))
       <==> FirstFinish(calls) + 1 < |calls| && !FinishedInTime(role, calls)
  {
    forall n: nat | n < |calls| { ObservedOnlyAfterEarlyFinish(role, calls, n); }
    if FirstFinish(calls) + 1 < |calls| && !FinishedInTime(role, calls) {
      ObservedOnlyAfterEarlyFinish(role, calls, FirstFinish(calls) + 1);
    }
  }

  /** The shortest such run: finish at once, then try to go on with the handshake. */
  lemma EarlyFinishIsObserved(role: Role, made: Option<Bytes>)
    ensures
      var calls := [Finish, HandshakeWrite(made)];
      var initial := Handshake(HandshakeState(role, 0));
      ReplyAt(initial, calls, 0) == Failed(FinishFailed) && ReplyAt(initial, calls, 1) == Failed(SessionTransitioning)
  {
    var calls := [Finish, HandshakeWrite(made)];
    assert StateAt(Handshake(HandshakeState(role, 0)), calls, 1) == Transitioning;
  }

  // ---- Two sessions and a network that may drop, replay, reorder and reflect ----

  /** One end: its state, the ciphertexts its successful encrypts made, and the plaintexts its
      successful decrypts returned. */
  datatype End = End(state: NoiseState, log: seq<Cipher>, got: seq<Bytes>)

  datatype World = World(initiator: End, responder: End)
  {
    function At(r: Role): End {
      if r == Initiator then initiator else responder
    }

    function With(r: Role, e: End): World {
      if r == Initiator then World(e, responder) else World(initiator, e)
    }

    predicate OnWire(c: Cipher) {
      c in initiator.log || c in responder.log
    }
  }

  datatype Event = Event(role: Role, call: Call)

  /** The network delivers anything that was ever sent, or junk, but cannot seal. */
  function Delivered(w: World, call: Call): Call {
    if call.Decrypt? && !w.OnWire(call.ciphertext) then Decrypt(Junk([])) else call
  }

  function EndAfter(e: End, call: Call): End {
    var (state, reply) := Step(e.state, call);
    End(
      state,
      if reply.Encrypted? then e.log + [reply.ciphertext] else e.log,
      if reply.Decrypted? then e.got + [reply.plaintext] else e.got)
  }

  function Act(w: World, event: Event): World {
    w.With(event.role, EndAfter(w.At(event.role), Delivered(w, event.call)))
  }

  function RunWorld(events: seq<Event>): World {
    if events == [] then
      World(End(Handshake(HandshakeState(Initiator, 0)), [], []), End(Handshake(HandshakeState(Responder, 0)), [], []))
    else Act(RunWorld(events[..|events| - 1]), events[|events| - 1])
  }

  /** What one end has sealed and returned matches its nonces, and its log is numbered in order. */
  ghost predicate EndOk(r: Role, e: End) {
    && (match e.state
        case Transport(ts) => ts.role == r && ts.sendNonce == |e.log| && ts.receiveNonce == |e.got|
        case Handshake(hs) => hs.role == r && e.log == [] && e.got == []
        case Transitioning => e.log == [] && e.got == [])
    && |e.log| <= NONCE_LIMIT
    && forall k :: 0 <= k < |e.log| ==> e.log[k].Sealed? && e.log[k].sender == r && e.log[k].nonce == k
  }

  /** The plaintexts returned are those sealed by the peer, in order, without gap or repetition. */
  ghost predicate ReceivedPrefix(got: seq<Bytes>, log: seq<Cipher>) {
    && |got| <= |log|
    && forall k :: 0 <= k < |got| ==> log[k].Sealed? && got[k] == log[k].plaintext
  }

  ghost predicate WorldOk(w: World) {
    && EndOk(Initiator, w.initiator) && EndOk(Responder, w.responder)
    && ReceivedPrefix(w.initiator.got, w.responder.log)
    && ReceivedPrefix(w.responder.got, w.initiator.log)
  }

  /** A transport session opens exactly the next ciphertext of its peer. */
  lemma OpensOnlyNext(w: World, r: Role, c: Cipher)
    requires WorldOk(w) && w.At(r).state.Transport?
    ensures
      var e, peer := w.At(r), w.At(Other(r));
      var reply := Step(e.state, Delivered(w, Decrypt(c))).1;
      reply.Decrypted? <==> |e.got| < |peer.log| && c == peer.log[|e.got|]
  {
    var e, peer := w.At(r), w.At(Other(r));
    if w.OnWire(c) {
      if c in e.log {
        var k :| 0 <= k < |e.log| && e.log[k] == c;
        assert c.sender == r;
      } else {
        var k :| 0 <= k < |peer.log| && peer.log[k] == c;
        assert c.nonce == k;
      }
    }
  }

  lemma EndStaysOk(r: Role, e: End, call: Call)
    requires EndOk(r, e)
    ensures EndOk(r, EndAfter(e, call))
    ensures e.log <= EndAfter(e, call).log
  {
  }

  lemma ReceiptsStayPrefix(w: World, r: Role, call: Call)
    requires WorldOk(w)
    ensures ReceivedPrefix(EndAfter(w.At(r), Delivered(w, call)).got, w.At(Other(r)).log)
  {
    if call.Decrypt? && w.At(r).state.Transport? {
      OpensOnlyNext(w, r, call.ciphertext);
    }
  }

  lemma ActKeepsOk(w: World, event: Event)
    requires WorldOk(w)
    ensures WorldOk(Act(w, event))
  {
    EndStaysOk(event.role, w.At(event.role), Delivered(w, event.call));
    ReceiptsStayPrefix(w, event.role, event.call);
  }

  lemma {:induction false} RunsAreOk(events: seq<Event>)
    ensures WorldOk(RunWorld(events))
  {
    if events != [] {
      RunsAreOk(events[..|events| - 1]);
      ActKeepsOk(RunWorld(events[..|events| - 1]), events[|events| - 1]);
    }
  }

  /** In every run of the two sessions, each end has returned a prefix of what the other sealed, no
      nonce was used twice in one direction, and the next delivery is accepted exactly when it is the
      peer's next ciphertext. */
  lemma DeliveryIsInOrder(events: seq<Event>, r: Role)
    ensures
      var w := RunWorld(events);
      var e, peer := w.At(r), w.At(Other(r));
      && |e.got| <= |peer.log|
      && (forall k :: 0 <= k < |e.got| ==> peer.log[k] == Sealed(Other(r), k, e.got[k]))
      && (forall i, j :: 0 <= i < j < |e.log| ==>
            e.log[i].Sealed? && e.log[j].Sealed? && e.log[i].nonce != e.log[j].nonce)
      && (e.state.Transport? ==> forall c ::
            Step(e.state, Delivered(w, Decrypt(c))).1.Decrypted? <==> |e.got| < |peer.log| && c == peer.log[|e.got|])
  {
    RunsAreOk(events);
    var w := RunWorld(events);
    if w.At(r).state.Transport? {
      forall c ensures Step(w.At(r).state, Delivered(w, Decrypt(c))).1.Decrypted?
                   <==> |w.At(r).got| < |w.At(Other(r)).log| && c == w.At(Other(r)).log[|w.At(r).got|]
      {
        OpensOnlyNext(w, r, c);
      }
    }
  }

  function Shaking(n: nat): World {
    World(End(Handshake(HandshakeState(Initiator, n)), [], []), End(Handshake(HandshakeState(Responder, n)), [], []))
  }

  /** One end has written message n, the other has not read it yet. */
  function HalfWay(n: nat, writer: Role): World {
    Shaking(n).With(writer, End(Handshake(HandshakeState(writer, n + 1)), [], []))
  }

  lemma MessageWritten(events: seq<Event>, n: nat, m: Bytes, writer: Role)
    requires n < 3 && writer == (if n == 1 then Responder else Initiator) && RunWorld(events) == Shaking(n)
    ensures RunWorld(events + [Event(writer, HandshakeWrite(Some(m)))]) == HalfWay(n, writer)
  {
    var w := Then(events, Event(writer, HandshakeWrite(Some(m))));
  }

  lemma MessageRead(events: seq<Event>, n: nat, m: Bytes, writer: Role)
    requires n < 3 && writer == (if n == 1 then Responder else Initiator) && RunWorld(events) == HalfWay(n, writer)
    ensures RunWorld(events + [Event(Other(writer), HandshakeRead(Some(m)))]) == Shaking(n + 1)
  {
    var w := Then(events, Event(Other(writer), HandshakeRead(Some(m))));
  }

  /** Message n of the handshake passes from its writer to its reader. */
  lemma MessagePasses(events: seq<Event>, n: nat, m: Bytes) returns (events': seq<Event>)
    requires n < 3 && RunWorld(events) == Shaking(n)
    ensures RunWorld(events') == Shaking(n + 1)
  {
    var writer := if n == 1 then Responder else Initiator;
    MessageWritten(events, n, m, writer);
    events' := events + [Event(writer, HandshakeWrite(Some(m)))];
    MessageRead(events', n, m, writer);
    events' := events' + [Event(Other(writer), HandshakeRead(Some(m)))];
  }

  /** After the third one both ends can finish. */
  lemma BothFinish(events: seq<Event>) returns (events': seq<Event>)
    requires RunWorld(events) == Shaking(3)
    ensures RunWorld(events') == Ready([], 0, [])
  {
    var first, second := Event(Initiator, Finish), Event(Responder, Finish);
    var w1 := Then(events, first);
    assert w1 == World(Ready([], 0, []).initiator, Shaking(3).responder);
    events' := events + [first];
    var w2 := Then(events', second);
    events' := events' + [second];
  }

  function Ready(sent: seq<Cipher>, n: nat, got: seq<Bytes>): World {
    World(End(Transport(TransportState(Initiator, |sent|, 0)), sent, []),
          End(Transport(TransportState(Responder, 0, n)), [], got))
  }

  lemma FirstSealed(events: seq<Event>, plaintext: Bytes)
    requires |plaintext| <= 65519 && RunWorld(events) == Ready([], 0, [])
    ensures RunWorld(events + [Event(Initiator, Encrypt(plaintext))]) == Ready([Sealed(Initiator, 0, plaintext)], 0, [])
  {
    var w := Then(events, Event(Initiator, Encrypt(plaintext)));
    assert [] + [Sealed(Initiator, 0, plaintext)] == [Sealed(Initiator, 0, plaintext)];
  }

  lemma FirstOpened(events: seq<Event>, plaintext: Bytes)
    requires RunWorld(events) == Ready([Sealed(Initiator, 0, plaintext)], 0, [])
    ensures RunWorld(events + [Event(Responder, Decrypt(Sealed(Initiator, 0, plaintext)))])
         == Ready([Sealed(Initiator, 0, plaintext)], 1, [plaintext])
  {
    var w := Then(events, Event(Responder, Decrypt(Sealed(Initiator, 0, plaintext))));
    assert [] + [plaintext] == [plaintext];
  }

  /** There are runs in which a message gets through: the handshake, both finishes, one encryption, one
      delivery. */
  lemma FirstDelivery(m: Bytes, plaintext: Bytes) returns (events: seq<Event>)
    requires |plaintext| <= 65519
    ensures RunWorld(events).initiator.log == [Sealed(Initiator, 0, plaintext)]
    ensures RunWorld(events).responder.got == [plaintext]
  {
    events := MessagePasses([], 0, m);
    events := MessagePasses(events, 1, m);
    events := MessagePasses(events, 2, m);
    events := BothFinish(events);
    FirstSealed(events, plaintext);
    events := events + [Event(Initiator, Encrypt(plaintext))];
    FirstOpened(events, plaintext);
    events := events + [Event(Responder, Decrypt(Sealed(Initiator, 0, plaintext)))];
  }

  /** The world one event further. */
  lemma Then(events: seq<Event>, event: Event) returns (w: World)
    ensures w == RunWorld(events + [event]) == Act(RunWorld(events), event)
  {
    var all := events + [event];
    assert all[..|all| - 1] == events;
    w := RunWorld(all);
  }
}
