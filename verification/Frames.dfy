/** Length-prefixed frames and the transport counters under them: encode_frame / decode_frames of
    lib/baileys_ex/protocol/noise.ex, and the frame helpers of noise_server.exs. */
module Frames {
  import opened Octets
  import opened Crypto
  import opened Handshake
  import opened Noise

  /** Payload sizes from here on do not fit the 24-bit prefix. */
  const SIZE_LIMIT := 0x100_0000

  /** `<<size::24-big>>` and the payload. */
  function Frame(payload: Bytes): Bytes {
    ToBE(|payload|, 3) + payload
  }

  function TransportEncrypt(c: Primitives, t: Transport, plaintext: Bytes): (Transport, Bytes) {
    (t.(writeCounter := t.writeCounter + 1), AesGcmEncrypt(c, t.encKey, GenerateIv(t.writeCounter), plaintext, []))
  }

  function TransportDecrypt(c: Primitives, t: Transport, ciphertext: Bytes): Result<(Transport, Bytes), CryptoError> {
    match AesGcmDecrypt(c, t.decKey, GenerateIv(t.readCounter), ciphertext, [])
    case Err(e) => Err(e)
    case Ok(plaintext) => Ok((t.(readCounter := t.readCounter + 1), plaintext))
  }

  // Before the handshake is finished frames carry their payload in the clear.

  function MaybeEncrypt(c: Primitives, t: Option<Transport>, data: Bytes): (Option<Transport>, Bytes) {
    match t
    case None => (None, data)
    case Some(transport) =>
      var (transport', ciphertext) := TransportEncrypt(c, transport, data);
      (Some(transport'), ciphertext)
  }

  function MaybeDecrypt(c: Primitives, t: Option<Transport>, data: Bytes)
    : Result<(Option<Transport>, Bytes), CryptoError>
  {
    match t
    case None => Ok((None, data))
    case Some(transport) =>
      match TransportDecrypt(c, transport, data)
      case Err(e) => Err(e)
      case Ok((transport', plaintext)) => Ok((Some(transport'), plaintext))
  }

  function EncodeFrame(c: Primitives, s: ClientState, data: Bytes): (ClientState, Bytes) {
    var (transport, payload) := MaybeEncrypt(c, s.transport, data);
    (s.(transport := transport, sentIntro := true), (if s.sentIntro then [] else s.introHeader) + Frame(payload))
  }

  /** A complete frame at the front of a buffer: `<<length::24-big, frame::length, tail>>`. */
  function TakeFrame(buffer: Bytes): (r: Option<(Bytes, Bytes)>)
    ensures r.Some? ==> |r.value.1| < |buffer|
  {
    if |buffer| < 3 then None
    else
      var length := BE(buffer[..3]);
      if |buffer| - 3 < length then None else Some((buffer[3..3 + length], buffer[3 + length..]))
  }

  datatype Decoded = Decoded(transport: Option<Transport>, frames: seq<Bytes>, rest: Bytes)

  /** Frames decoded earlier go in front. */
  function Prefixed(frames: seq<Bytes>, r: Result<Decoded, CryptoError>): Result<Decoded, CryptoError> {
    match r
    case Err(e) => Err(e)
    case Ok(d) => Ok(d.(frames := frames + d.frames))
  }

  function DecodeBuffer(c: Primitives, t: Option<Transport>, buffer: Bytes): Result<Decoded, CryptoError>
    decreases |buffer|
  {
    match TakeFrame(buffer)
    case None => Ok(Decoded(t, [], buffer))
    case Some((frame, tail)) =>
      match MaybeDecrypt(c, t, frame)
      case Err(e) => Err(e)
      case Ok((t', plaintext)) => Prefixed([plaintext], DecodeBuffer(c, t', tail))
  }

  /** On an error the caller keeps its old state and no frame of the chunk. */
  function DecodeFrames(c: Primitives, s: ClientState, newData: Bytes): Result<(ClientState, seq<Bytes>), CryptoError> {
    match DecodeBuffer(c, s.transport, s.inBytes + newData)
    case Err(e) => Err(e)
    case Ok(d) => Ok((s.(transport := d.transport, inBytes := d.rest), d.frames))
  }

  // ---- How the stream is cut into chunks does not matter ----

  function Concat(chunks: seq<Bytes>): Bytes {
    if chunks == [] then [] else chunks[0] + Concat(chunks[1..])
  }

  /** Feeding chunks one after another, stopping at the first error. */
  function Feed(c: Primitives, s: ClientState, chunks: seq<Bytes>): Result<(ClientState, seq<Bytes>), CryptoError>
    decreases |chunks|
  {
    if chunks == [] then Ok((s, []))
    else
      match DecodeFrames(c, s, chunks[0])
      case Err(e) => Err(e)
      case Ok((s', frames)) =>
        match Feed(c, s', chunks[1..])
        case Err(e) => Err(e)
        case Ok((s'', more)) => Ok((s'', frames + more))
  }

  lemma TakeFrameExtended(a: Bytes, b: Bytes)
    requires TakeFrame(a).Some?
    ensures TakeFrame(a + b) == Some((TakeFrame(a).value.0, TakeFrame(a).value.1 + b))
  {
    assert (a + b)[..3] == a[..3];
    var length := BE(a[..3]);
    assert (a + b)[3..3 + length] == a[3..3 + length];
    assert (a + b)[3 + length..] == a[3 + length..] + b;
  }

  lemma PrefixedTwice(a: seq<Bytes>, b: seq<Bytes>, r: Result<Decoded, CryptoError>)
    ensures Prefixed(a, Prefixed(b, r)) == Prefixed(a + b, r)
    ensures Prefixed([], r) == r
  {
    if r.Ok? {
      assert a + (b + r.value.frames) == (a + b) + r.value.frames;
      assert [] + r.value.frames == r.value.frames;
    }
  }

  /** Going on with more bytes after a buffer has been decoded. */
  function Resume(c: Primitives, r: Result<Decoded, CryptoError>, more: Bytes): Result<Decoded, CryptoError> {
    match r
    case Err(e) => Err(e)
    case Ok(d) => Prefixed(d.frames, DecodeBuffer(c, d.transport, d.rest + more))
  }

  /** Decoding a ++ b is decoding a, then what is left of a followed by b; errors included. */
  lemma {:induction false} DecodeSplits(c: Primitives, t: Option<Transport>, a: Bytes, b: Bytes)
    ensures DecodeBuffer(c, t, a + b) == Resume(c, DecodeBuffer(c, t, a), b)
    decreases |a|
  {
    if TakeFrame(a).None? {
      PrefixedTwice([], [], DecodeBuffer(c, t, a + b));
    } else {
      TakeFrameExtended(a, b);
      var (frame, tail) := TakeFrame(a).value;
      var r := MaybeDecrypt(c, t, frame);
      if r.Ok? {
        DecodeSplits(c, r.value.0, tail, b);
        var d := DecodeBuffer(c, r.value.0, tail);
        if d.Ok? {
          PrefixedTwice([r.value.1], d.value.frames, DecodeBuffer(c, d.value.transport, d.value.rest + b));
        }
      }
    }
  }

  /** No complete frame is left over. */
  lemma {:induction false} RestIsPartial(c: Primitives, t: Option<Transport>, buffer: Bytes)
    ensures DecodeBuffer(c, t, buffer).Ok? ==> TakeFrame(DecodeBuffer(c, t, buffer).value.rest).None?
    decreases |buffer|
  {
    if TakeFrame(buffer).Some? {
      var (frame, tail) := TakeFrame(buffer).value;
      var r := MaybeDecrypt(c, t, frame);
      if r.Ok? { RestIsPartial(c, r.value.0, tail); }
    }
  }

  /** Any chunking of a byte stream yields the same frames, state, leftover and error as one chunk. */
  lemma {:induction false} ChunkingIsInvisible(c: Primitives, s: ClientState, chunks: seq<Bytes>)
    requires TakeFrame(s.inBytes).None?
    ensures Feed(c, s, chunks) == DecodeFrames(c, s, Concat(chunks))
    decreases |chunks|
  {
    if chunks == [] {
      assert s.inBytes + [] == s.inBytes;
    } else {
      var first, rest := chunks[0], Concat(chunks[1..]);
      assert s.inBytes + Concat(chunks) == (s.inBytes + first) + rest;
      DecodeSplits(c, s.transport, s.inBytes + first, rest);
      RestIsPartial(c, s.transport, s.inBytes + first);
      var r := DecodeFrames(c, s, first);
      if r.Ok? {
        ChunkingIsInvisible(c, r.value.0, chunks[1..]);
      }
    }
  }

  // ---- What one end encodes, the other end decodes ----

  /** The encoder of one end and the decoder of the other: both before the handshake is finished, or
      with one key and one counter. */
  predicate Aligned(sender: Option<Transport>, receiver: Option<Transport>) {
    match (sender, receiver)
    case (None, None) => true
    case (Some(s), Some(r)) => s.encKey == r.decKey && s.writeCounter == r.readCounter
    case _ => false
  }

  predicate Fits(sealed: bool, data: Bytes) {
    |data| + (if sealed then 16 else 0) < SIZE_LIMIT
  }

  lemma SizeReadsBack(n: nat)
    ensures BE(ToBE(n, 3)) == n % SIZE_LIMIT
  {
    BEOfToBE(n, 3);
    assert Pow256(3) == SIZE_LIMIT;
  }

  /** A frame is read back whole exactly when its size fits the 24-bit prefix. */
  lemma FrameReadsBackIff(payload: Bytes, rest: Bytes)
    ensures TakeFrame(Frame(payload) + rest) == Some((payload, rest)) <==> |payload| < SIZE_LIMIT
  {
    var buffer := Frame(payload) + rest;
    SizeReadsBack(|payload|);
    assert buffer[..3] == ToBE(|payload|, 3);
    var length := |payload| % SIZE_LIMIT;
    if |payload| < SIZE_LIMIT {
      assert buffer[3..3 + length] == payload && buffer[3 + length..] == rest;
    } else {
      assert |buffer[3..3 + length]| == length;
    }
  }

  /** A message survives framing, in the clear or sealed, exactly if it fits. */
  lemma SurvivesIffFits(c: Primitives, t: Option<Transport>, data: Bytes)
    requires c.Lawful()
    ensures
      var payload := MaybeEncrypt(c, t, data).1;
      TakeFrame(Frame(payload)) == Some((payload, [])) <==> Fits(t.Some?, data)
  {
    var payload := MaybeEncrypt(c, t, data).1;
    FrameReadsBackIff(payload, []);
    assert Frame(payload) + [] == Frame(payload);
    if t.Some? { GcmTagIsLast(c, t.value.encKey, GenerateIv(t.value.writeCounter), data, []); }
  }

  function Encode(c: Primitives, s: ClientState, messages: seq<Bytes>): (ClientState, Bytes)
    decreases |messages|
  {
    if messages == [] then (s, [])
    else
      var (s', bytes) := EncodeFrame(c, s, messages[0]);
      var (s'', more) := Encode(c, s', messages[1..]);
      (s'', bytes + more)
  }

  /** A receiver n messages further on. */
  function Advanced(t: Option<Transport>, n: nat): Option<Transport> {
    match t
    case None => None
    case Some(transport) => Some(transport.(readCounter := transport.readCounter + n))
  }

  lemma SealedOpens(c: Primitives, sender: Option<Transport>, receiver: Option<Transport>, data: Bytes)
    requires c.Lawful() && Aligned(sender, receiver) && Fits(sender.Some?, data)
    ensures
      var (sender', payload) := MaybeEncrypt(c, sender, data);
      var r := MaybeDecrypt(c, receiver, payload);
      && |payload| < SIZE_LIMIT
      && r == Ok((Advanced(receiver, 1), data)) && Aligned(sender', Advanced(receiver, 1))
  {
    if sender.Some? {
      var payload := TransportEncrypt(c, sender.value, data).1;
      GcmDecryptIffEncrypted(c, sender.value.encKey, GenerateIv(sender.value.writeCounter), data, [], payload);
    }
  }

  /** One frame at the front of the stream. */
  lemma FirstFrameDecodes(c: Primitives, sender: Option<Transport>, receiver: Option<Transport>, data: Bytes,
                          more: Bytes)
    requires c.Lawful() && Aligned(sender, receiver) && Fits(sender.Some?, data)
    ensures Aligned(MaybeEncrypt(c, sender, data).0, Advanced(receiver, 1))
    ensures DecodeBuffer(c, receiver, Frame(MaybeEncrypt(c, sender, data).1) + more)
        == Prefixed([data], DecodeBuffer(c, Advanced(receiver, 1), more))
  {
    SealedOpens(c, sender, receiver, data);
    FrameReadsBackIff(MaybeEncrypt(c, sender, data).1, more);
  }

  /** The frames of a stream, intro header aside. */
  function EncodeAll(c: Primitives, t: Option<Transport>, messages: seq<Bytes>): (Option<Transport>, Bytes)
    decreases |messages|
  {
    if messages == [] then (t, [])
    else
      var (t', payload) := MaybeEncrypt(c, t, messages[0]);
      var (t'', more) := EncodeAll(c, t', messages[1..]);
      (t'', Frame(payload) + more)
  }

  lemma FirstOfAll(c: Primitives, t: Option<Transport>, messages: seq<Bytes>)
    requires messages != []
    ensures
      var (t', payload) := MaybeEncrypt(c, t, messages[0]);
      var (t'', more) := EncodeAll(c, t', messages[1..]);
      EncodeAll(c, t, messages) == (t'', Frame(payload) + more)
  {
  }

  lemma AdvancedTwice(t: Option<Transport>, n: nat)
    ensures Advanced(Advanced(t, 1), n) == Advanced(t, n + 1)
  {
  }

  lemma {:induction false} EncodeIsIntroAndFrames(c: Primitives, s: ClientState, messages: seq<Bytes>)
    requires messages != [] || s.sentIntro
    ensures
      var (s', bytes) := Encode(c, s, messages);
      var (t', frames) := EncodeAll(c, s.transport, messages);
      && s' == s.(transport := t', sentIntro := true)
      && bytes == (if s.sentIntro then [] else s.introHeader) + frames
    decreases |messages|
  {
    if messages != [] {
      EncodeIsIntroAndFrames(c, EncodeFrame(c, s, messages[0]).0, messages[1..]);
    }
  }

  lemma FrameInFront(c: Primitives, receiver: Option<Transport>, payload: Bytes, more: Bytes, data: Bytes,
                     rest: seq<Bytes>)
    requires DecodeBuffer(c, receiver, Frame(payload) + more)
        == Prefixed([data], DecodeBuffer(c, Advanced(receiver, 1), more))
    requires DecodeBuffer(c, Advanced(receiver, 1), more)
        == Ok(Decoded(Advanced(Advanced(receiver, 1), |rest|), rest, []))
    ensures DecodeBuffer(c, receiver, Frame(payload) + more)
        == Ok(Decoded(Advanced(receiver, |rest| + 1), [data] + rest, []))
  {
  }

  lemma {:induction false} EncodedDecodes(c: Primitives, sender: Option<Transport>, receiver: Option<Transport>,
                                          messages: seq<Bytes>)
    requires c.Lawful() && Aligned(sender, receiver)
    requires forall m :: m in messages ==> Fits(sender.Some?, m)
    ensures
      var (sender', bytes) := EncodeAll(c, sender, messages);
      && DecodeBuffer(c, receiver, bytes) == Ok(Decoded(Advanced(receiver, |messages|), messages, []))
      && Aligned(sender', Advanced(receiver, |messages|))
    decreases |messages|
  {
    if messages != [] {
      var first, rest := messages[0], messages[1..];
      var (sender', payload) := MaybeEncrypt(c, sender, first);
      var more := EncodeAll(c, sender', rest).1;
      FirstOfAll(c, sender, messages);
      FirstFrameDecodes(c, sender, receiver, first, more);
      EncodedDecodes(c, sender', Advanced(receiver, 1), rest);
      FrameInFront(c, receiver, payload, more, first, rest);
      AdvancedTwice(receiver, |rest|);
      HeadAndTail(messages);
    }
  }

  lemma HeadAndTail(messages: seq<Bytes>)
    requires messages != []
    ensures messages == [messages[0]] + messages[1..]
  {
  }

  lemma FrameTaken(buffer: Bytes)
    requires TakeFrame(buffer).Some?
    ensures
      var (frame, tail) := TakeFrame(buffer).value;
      |frame| < SIZE_LIMIT && buffer == Frame(frame) + tail
  {
    var size := buffer[..3];
    ToBEOfBE(size);
    assert Pow256(3) == SIZE_LIMIT;
    var (frame, tail) := TakeFrame(buffer).value;
    assert buffer == size + (frame + tail);
  }

  /** What one frame decodes to, an aligned peer would have encoded as that frame. */
  lemma OpenedWasSealed(c: Primitives, sender: Option<Transport>, receiver: Option<Transport>, frame: Bytes)
    requires c.Lawful() && Aligned(sender, receiver) && MaybeDecrypt(c, receiver, frame).Ok?
    ensures
      var (receiver', data) := MaybeDecrypt(c, receiver, frame).value;
      MaybeEncrypt(c, sender, data).1 == frame && Aligned(MaybeEncrypt(c, sender, data).0, receiver')
  {
    if receiver.Some? {
      var data := MaybeDecrypt(c, receiver, frame).value.1;
      GcmDecryptIffEncrypted(c, receiver.value.decKey, GenerateIv(receiver.value.readCounter), data, [], frame);
    }
  }

  lemma RegroupFour(a: Bytes, b: Bytes, d: Bytes)
    ensures a + (b + d) == (a + b) + d
  {
  }

  /** And conversely: whatever bytes come in, what is decoded from them without an error is what an aligned
      peer would have encoded as these very bytes, up to the incomplete frame that is left. */
  lemma {:induction false} DecodedWasEncoded(c: Primitives, sender: Option<Transport>, receiver: Option<Transport>,
                                             buffer: Bytes)
    requires c.Lawful() && Aligned(sender, receiver) && DecodeBuffer(c, receiver, buffer).Ok?
    ensures
      var d := DecodeBuffer(c, receiver, buffer).value;
      var (sender', bytes) := EncodeAll(c, sender, d.frames);
      && buffer == bytes + d.rest && TakeFrame(d.rest).None? && Aligned(sender', d.transport)
    decreases |buffer|
  {
    if TakeFrame(buffer).Some? {
      var (frame, tail) := TakeFrame(buffer).value;
      FrameTaken(buffer);
      OpenedWasSealed(c, sender, receiver, frame);
      var (receiver', data) := MaybeDecrypt(c, receiver, frame).value;
      var sender' := MaybeEncrypt(c, sender, data).0;
      DecodedWasEncoded(c, sender', receiver', tail);
      var d := DecodeBuffer(c, receiver', tail).value;
      var all := [data] + d.frames;
      assert all[1..] == d.frames;
      FirstOfAll(c, sender, all);
      RegroupFour(Frame(frame), EncodeAll(c, sender', d.frames).1, d.rest);
    } else {
      assert [] + buffer == buffer;
    }
  }

  /** The same for a whole stream in any chunks: nothing is returned that the peer would not have sent. */
  lemma StreamIsGenuine(c: Primitives, sender: Option<Transport>, receiver: ClientState, chunks: seq<Bytes>)
    requires c.Lawful() && Aligned(sender, receiver.transport) && TakeFrame(receiver.inBytes).None?
    requires Feed(c, receiver, chunks).Ok?
    ensures
      var (receiver', messages) := Feed(c, receiver, chunks).value;
      receiver.inBytes + Concat(chunks) == EncodeAll(c, sender, messages).1 + receiver'.inBytes
  {
    ChunkingIsInvisible(c, receiver, chunks);
    DecodedWasEncoded(c, sender, receiver.transport, receiver.inBytes + Concat(chunks));
  }

  /** The whole stream: everything an aligned peer encodes arrives, in order and once, for every way
      the bytes (after the intro header, if it is still due) are cut into chunks, leaving nothing
      buffered and the ends aligned for more. */
  lemma StreamDelivered(c: Primitives, sender: ClientState, receiver: ClientState, messages: seq<Bytes>,
                        chunks: seq<Bytes>)
    requires c.Lawful() && Aligned(sender.transport, receiver.transport) && messages != []
    requires forall m :: m in messages ==> Fits(sender.transport.Some?, m)
    requires receiver.inBytes == []
    requires Encode(c, sender, messages).1 == (if sender.sentIntro then [] else sender.introHeader) + Concat(chunks)
    ensures
      var r := Feed(c, receiver, chunks);
      && r.Ok? && r.value.1 == messages && r.value.0.inBytes == []
      && Aligned(Encode(c, sender, messages).0.transport, r.value.0.transport)
  {
    EncodeIsIntroAndFrames(c, sender, messages);
    var intro := if sender.sentIntro then [] else sender.introHeader;
    var frames := EncodeAll(c, sender.transport, messages).1;
    assert frames == (intro + frames)[|intro|..] == (intro + Concat(chunks))[|intro|..] == Concat(chunks);
    EncodedDecodes(c, sender.transport, receiver.transport, messages);
    ChunkingIsInvisible(c, receiver, chunks);
    assert [] + Concat(chunks) == Concat(chunks);
  }

  /** Both directions between two ends with crossed keys. */
  lemma StreamsCross(c: Primitives, client: ClientState, peer: ClientState, up: seq<Bytes>, upChunks: seq<Bytes>,
                     down: seq<Bytes>, downChunks: seq<Bytes>)
    requires c.Lawful() && client.transport.Some? && peer.transport.Some?
    requires Opposite(client.transport.value, peer.transport.value)
    requires client.inBytes == [] && peer.inBytes == [] && peer.sentIntro
    requires up != [] && down != [] && forall m :: m in up || m in down ==> Fits(true, m)
    requires Encode(c, client, up).1 == (if client.sentIntro then [] else client.introHeader) + Concat(upChunks)
    requires Encode(c, peer, down).1 == Concat(downChunks)
    ensures
      var atPeer, atClient := Feed(c, peer, upChunks), Feed(c, client, downChunks);
      atPeer.Ok? && atPeer.value.1 == up && atClient.Ok? && atClient.value.1 == down
  {
    StreamDelivered(c, client, peer, up, upChunks);
    assert [] + Concat(downChunks) == Concat(downChunks);
    StreamDelivered(c, peer, client, down, downChunks);
  }

  /** After an honest handshake, whatever either end then frames reaches the other, however the bytes
      are cut. `client` is any state with the run's transport and nothing buffered, whether or not its
      intro header is out; `peer` is any endpoint holding the server's transport. */
  lemma StreamsAfterHandshake<P(!new)>(u: Suite<P>, routingInfo: Option<Bytes>, ephemeral: KeyPair, noiseKey: KeyPair,
                                       payload: Bytes, keys: ServerKeys, client: ClientState, peer: ClientState,
                                       up: seq<Bytes>, upChunks: seq<Bytes>, down: seq<Bytes>, downChunks: seq<Bytes>)
    requires HonestKeys(u, ephemeral, noiseKey, keys)
    requires
      var r := HonestRun(u, routingInfo, ephemeral, noiseKey, payload, keys);
      r.Ok? ==> client.transport == r.value.0.transport && peer.transport == Some(r.value.1.transport)
    requires client.inBytes == [] && peer.inBytes == [] && peer.sentIntro
    requires up != [] && down != [] && forall m :: m in up || m in down ==> Fits(true, m)
    requires Encode(u.prims, client, up).1 == (if client.sentIntro then [] else client.introHeader) + Concat(upChunks)
    requires Encode(u.prims, peer, down).1 == Concat(downChunks)
    ensures
      var atPeer, atClient := Feed(u.prims, peer, upChunks), Feed(u.prims, client, downChunks);
      atPeer.Ok? && atPeer.value.1 == up && atClient.Ok? && atClient.value.1 == down
  {
    assert client.transport.Some? && peer.transport.Some? && Opposite(client.transport.value, peer.transport.value) by {
      HandshakeCompletes(u, routingInfo, ephemeral, noiseKey, payload, keys);
    }
    StreamsCross(u.prims, client, peer, up, upChunks, down, downChunks);
  }

  // ---- Initialization vectors of a transport ----

  /** The frame that a transport makes of the data under its n-th iv from now. */
  function FrameAt(c: Primitives, t: Transport, n: nat, data: Bytes): Bytes {
    Frame(AesGcmEncrypt(c, t.encKey, GenerateIv(t.writeCounter + n), data, []))
  }

  function FramesFrom(c: Primitives, t: Transport, n: nat, messages: seq<Bytes>): (frames: seq<Bytes>)
    ensures |frames| == |messages|
    decreases |messages|
  {
    if messages == [] then [] else [FrameAt(c, t, n, messages[0])] + FramesFrom(c, t, n + 1, messages[1..])
  }

  lemma {:induction false} FrameOfIndex(c: Primitives, t: Transport, n: nat, messages: seq<Bytes>, i: nat)
    requires i < |messages|
    ensures FramesFrom(c, t, n, messages)[i] == FrameAt(c, t, n + i, messages[i])
    decreases i
  {
    if i > 0 { FrameOfIndex(c, t, n + 1, messages[1..], i - 1); }
  }

  /** All frames are sealed under one key, with the counters that follow each other. */
  lemma {:induction false} EncodeAllIsFrames(c: Primitives, t: Transport, n: nat, messages: seq<Bytes>)
    ensures EncodeAll(c, Some(t.(writeCounter := t.writeCounter + n)), messages)
         == (Some(t.(writeCounter := t.writeCounter + n + |messages|)), Concat(FramesFrom(c, t, n, messages)))
    decreases |messages|
  {
    if messages != [] {
      EncodeAllIsFrames(c, t, n + 1, messages[1..]);
      var first, rest := FrameAt(c, t, n, messages[0]), FramesFrom(c, t, n + 1, messages[1..]);
      assert FramesFrom(c, t, n, messages)[1..] == rest;
    }
  }

  /** What a finished client, whose keys never change again, puts out in every run: the frames sealed
      under the counters from the present one on. */
  lemma TransportStreamIsFrames(c: Primitives, s: ClientState, messages: seq<Bytes>)
    requires s.transport.Some? && messages != []
    ensures
      var t := s.transport.value;
      var (s', bytes) := Encode(c, s, messages);
      && bytes == (if s.sentIntro then [] else s.introHeader) + Concat(FramesFrom(c, t, 0, messages))
      && s'.transport == Some(t.(writeCounter := t.writeCounter + |messages|))
  {
    var t := s.transport.value;
    EncodeIsIntroAndFrames(c, s, messages);
    EncodeAllIsFrames(c, t, 0, messages);
    assert t.(writeCounter := t.writeCounter + 0) == t;
  }

  /** Two of these frames share an iv exactly when a multiple of 2^32 frames lies between them. */
  lemma TransportIvsRepeatIff(c: Primitives, t: Transport, messages: seq<Bytes>, i: nat, j: nat)
    requires i < j < |messages|
    ensures FramesFrom(c, t, 0, messages)[i] == FrameAt(c, t, i, messages[i])
    ensures FramesFrom(c, t, 0, messages)[j] == FrameAt(c, t, j, messages[j])
    ensures GenerateIv(t.writeCounter + i) == GenerateIv(t.writeCounter + j) <==> (j - i) % 0x1_0000_0000 == 0
  {
    FrameOfIndex(c, t, 0, messages, i);
    FrameOfIndex(c, t, 0, messages, j);
    IvsCollideAfter(t.writeCounter + i, t.writeCounter + j);
  }

  // ---- The server's frame helpers ----

  function StripHandshakeFrame(data: Bytes): Option<Bytes> {
    if |data| >= 7 && data[..4] == NOISE_HEADER && |data| - 7 >= BE(data[4..7]) then
      Some(data[7..7 + BE(data[4..7])])
    else
      match TakeFrame(data)
      case None => None
      case Some((payload, _)) => Some(payload)
  }

  /** The length prefix of this payload reads as the first three bytes of the intro header, its first
      byte completes the header, and the next three bytes name a size that is present. */
  predicate LooksLikeIntro(payload: Bytes, rest: Bytes) {
    && |payload| % SIZE_LIMIT == 0x574106 && |payload| >= 4 && payload[0] == 3
    && BE(payload[1..4]) <= |payload| + |rest| - 4
  }

  lemma HeaderPrefix(n: nat)
    ensures ToBE(n, 3) == [0x57, 0x41, 0x06] <==> n % SIZE_LIMIT == 0x574106
  {
    ToBEInjective(n, 0x574106, 3);
    assert Pow256(3) == SIZE_LIMIT;
    assert ToBE(0x574106, 3) == [0x57, 0x41, 0x06] by {
      assert 0x574106 / 256 == 0x5741 && 0x574106 % 256 == 0x06;
      assert ToBE(0x57, 1) == [0x57];
      assert ToBE(0x5741, 2) == [0x57, 0x41];
    }
  }

  lemma IntroGuard(payload: Bytes, rest: Bytes)
    ensures
      var data := Frame(payload) + rest;
      (|data| >= 7 && data[..4] == NOISE_HEADER && |data| - 7 >= BE(data[4..7])) <==> LooksLikeIntro(payload, rest)
    ensures
      var data := Frame(payload) + rest;
      LooksLikeIntro(payload, rest) ==> data[4..7] == payload[1..4] && data[7..] == (payload + rest)[4..]
  {
    var data := Frame(payload) + rest;
    var size := ToBE(|payload|, 3);
    HeaderPrefix(|payload|);
    assert data == size + (payload + rest);
    assert data[..3] == size;
    if |payload| >= 4 {
      assert data[4..7] == payload[1..4] && data[3] == payload[0];
      assert data[..4] == size + [payload[0]];
    }
    if |data| >= 7 && data[..4] == NOISE_HEADER {
      assert size == data[..4][..3];
    }
  }

  /** Four bytes further on the payload starts over: it repeats with period four into what follows it,
      and the size it names is its own. */
  predicate StartsOver(payload: Bytes, rest: Bytes)
    requires |payload| >= 4
  {
    BE(payload[1..4]) == |payload| && payload <= (payload + rest)[4..]
  }

  lemma PrefixOfSize(a: Bytes, b: Bytes, n: nat)
    requires n <= |b|
    ensures b[..n] == a <==> n == |a| && a <= b
  {
    assert |b[..n]| == n;
  }

  /** Stripping a framed payload gives it back exactly if it does not pass for an intro header, or if
      what is then read in its place happens to be the payload again; the latter takes at least four
      more bytes behind the frame. */
  lemma StripInvertsFrameIff(payload: Bytes, rest: Bytes)
    requires |payload| < SIZE_LIMIT
    ensures StripHandshakeFrame(Frame(payload) + rest) == Some(payload)
       <==> (LooksLikeIntro(payload, rest) ==> StartsOver(payload, rest))
    ensures |rest| < 4 ==>
        (StripHandshakeFrame(Frame(payload) + rest) == Some(payload) <==> !LooksLikeIntro(payload, rest))
  {
    IntroGuard(payload, rest);
    if LooksLikeIntro(payload, rest) {
      var data, size, after := Frame(payload) + rest, BE(payload[1..4]), (payload + rest)[4..];
      assert data[7..7 + size] == data[7..][..size] == after[..size];
      assert StripHandshakeFrame(data) == Some(after[..size]);
      PrefixOfSize(payload, after, size);
      assert |after| == |payload| + |rest| - 4;
    } else {
      FrameReadsBackIff(payload, rest);
    }
  }

  /** One that does: its size is the header's, and it names the size zero, so nothing is left of it. */
  lemma StripLosesThisFrame()
    ensures
      var payload: Bytes := [3, 0, 0, 0] + Zeros(0x574106 - 4);
      |payload| < SIZE_LIMIT && LooksLikeIntro(payload, []) && StripHandshakeFrame(Frame(payload) + []) == Some([])
  {
    var payload: Bytes := [3, 0, 0, 0] + Zeros(0x574106 - 4);
    assert payload[1..4] == [0, 0, 0];
    assert BE(payload[1..4]) == 0 by { ZeroSize(); }
    IntroGuard(payload, []);
    var data := Frame(payload) + [];
    assert data[4..7] == payload[1..4];
    assert data[7..7 + BE(data[4..7])] == [];
  }

  lemma ZeroSize()
    ensures BE([0, 0, 0]) == 0
  {
    SizeReadsBack(0);
    assert ToBE(0, 3) == [0, 0, 0] by {
      assert ToBE(0, 1) == [0];
      assert ToBE(0, 2) == [0, 0];
    }
  }

  /** Behind the intro header every payload whose size fits is stripped back to itself. */
  lemma StripInvertsIntroFrame(payload: Bytes, rest: Bytes)
    requires |payload| < SIZE_LIMIT
    ensures StripHandshakeFrame(NOISE_HEADER + Frame(payload) + rest) == Some(payload)
  {
    var size := ToBE(|payload|, 3);
    var data := NOISE_HEADER + Frame(payload) + rest;
    assert data == NOISE_HEADER + size + (payload + rest);
    assert data[..4] == NOISE_HEADER && data[4..7] == size && data[7..] == payload + rest;
    SizeReadsBack(|payload|);
    assert data[7..7 + |payload|] == data[7..][..|payload|] == payload;
  }

  /** The client's first frame for some data. */
  function FirstFrame(c: Primitives, routingInfo: Option<Bytes>, ephemeral: KeyPair, trusted: TrustedCert,
                      data: Bytes): Bytes {
    EncodeFrame(c, NewClient(c, NOISE_HEADER, routingInfo, ephemeral, trusted), data).1
  }

  /** The size that "ED" and the zero byte after it spell. */
  const ROUTING_SIZE := 0x454400

  lemma RoutingSize()
    ensures BE([0x45, 0x44, 0]) == ROUTING_SIZE
  {
    SizeReadsBack(ROUTING_SIZE);
    assert ToBE(ROUTING_SIZE, 3) == [0x45, 0x44, 0] by {
      assert ROUTING_SIZE / 256 == 0x4544 && ROUTING_SIZE % 256 == 0;
      assert ToBE(0x45, 1) == [0x45];
      assert ToBE(0x4544, 2) == [0x45, 0x44];
    }
  }

  /** The server reads the first frame of a client without routing info, intro header included. With
      routing info the frame starts with a prefix the server does not know: it takes the prefix for a
      size, and reads nothing, or as many bytes as that size says from behind it. */
  lemma ServerReadsFirstFrame(c: Primitives, routingInfo: Option<Bytes>, ephemeral: KeyPair, trusted: TrustedCert,
                              data: Bytes)
    requires |data| < SIZE_LIMIT
    ensures
      var bytes := FirstFrame(c, routingInfo, ephemeral, trusted, data);
      StripHandshakeFrame(bytes) ==
        if routingInfo.None? then Some(data)
        else if |bytes| < 3 + ROUTING_SIZE then None
        else Some(bytes[3..3 + ROUTING_SIZE])
  {
    if routingInfo.None? {
      StripInvertsIntroFrame(data, []);
      assert NOISE_HEADER + Frame(data) + [] == NOISE_HEADER + Frame(data);
    } else {
      var bytes := FirstFrame(c, routingInfo, ephemeral, trusted, data);
      var intro := BuildIntroHeader(NOISE_HEADER, routingInfo);
      assert bytes == intro + Frame(data);
      assert bytes[..3] == intro[..3] == [0x45, 0x44, 0];
      assert bytes[0] != NOISE_HEADER[0];
      RoutingSize();
    }
  }

  /** So with routing info the server gets the data only if these have exactly that many bytes. */
  lemma RoutingInfoHidesFrame(c: Primitives, info: Bytes, ephemeral: KeyPair, trusted: TrustedCert, data: Bytes)
    requires |data| < SIZE_LIMIT && |data| != ROUTING_SIZE
    ensures StripHandshakeFrame(FirstFrame(c, Some(info), ephemeral, trusted, data)) != Some(data)
  {
    ServerReadsFirstFrame(c, Some(info), ephemeral, trusted, data);
    var bytes := FirstFrame(c, Some(info), ephemeral, trusted, data);
    if |bytes| >= 3 + ROUTING_SIZE { assert |bytes[3..3 + ROUTING_SIZE]| == ROUTING_SIZE; }
  }
}
