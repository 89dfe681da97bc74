# A verified model of the cryptographic core of baileys_ex

baileys_ex is an Elixir client for the WhatsApp Web protocol with a small Rust NIF. This project models the
parts of it that carry cryptographic or protocol reasoning and proves what they are for:

| file | models |
|---|---|
| `Octets.dfy` | bytes, little- and big-endian encodings, bit masks |
| `Crypto.dfy` | HKDF (RFC 5869), PKCS7 padding (section 6.3 of RFC 5652), the AES-CBC and AES-GCM wrappers |
| `XEdDSA.dfy` | XEdDSA signing and verification |
| `Handshake.dfy` | the symmetric handshake state: transcript hash, salt, keys, counter |
| `Noise.dfy` | the WhatsApp Noise handshake, client and server, with its certificate chain |
| `Frames.dfy` | length-prefixed frames, transport counters, the server's frame helpers |
| `NoiseSession.dfy` | the mutex-guarded session resource of the NIF, alone and in pairs |
| `LtHash.dfy` | the rolling hash of the Syncd protocol and the generator that keeps it |
| `SyncdMac.dfy` | the byte strings under the Syncd MACs |
| `Ratchet.dfy`, `Conversation.dfy` | Signal's session set-up and double ratchet; every run of two sessions |

`dafny verify dfyconfig.toml` checks everything.

## How it is modelled

Code made of expressions is functions; code that works in place is methods on arrays and classes, each proved
equal to a function: the byte masks and the output buffer of `xeddsa.rs`, the loops of the LTHash, the MAC
buffers, and the session resource whose state is taken out and put back.

What the repository calls but does not contain enters as function-valued fields of a datatype (`Primitives`,
`Curve`, `Suite`, `Env`), and the laws assumed of it are that datatype's `Lawful`. Each `Lawful` has a lemma
`LawfulIsSatisfiable` that gives a toy instance, so no assumption contradicts another; `Noise.SuiteFor` and
`Conversation.FirstMessageArrives` meet all the assumptions of a handshake and of a
conversation, and `NoiseSession.FirstDelivery` is a run in which a message gets through. The laws are:

- AES-GCM and CBC: a string decrypts to a plaintext exactly when it is that plaintext's encryption; lengths.
- X25519: both ends of an exchange compute one secret (section 6.1 of RFC 7748).
- Edwards curve: an abelian group, a base point of order exactly l, encodings that round-trip, and a birational
  map with an inverse away from the identity of the prime-order subgroup.

No hash is assumed injective, which a 32-byte digest cannot be. Where an argument needs that no collision
happens, the conclusion names the collision instead: two different strings hashed in the run at hand, or one
ciphertext sealed in two ways. Session and handshake executions are sequences of calls, steps or deliveries of
any length; a lemma about all of them speaks about every run. A session of the NIF holds its mutex for the whole
of each call, so these sequences are all its interleavings.

Where code and comment disagree the code is followed: `noise.rs:29-31` says that `Transitioning` is never
observed by callers, but a `finish` that comes too early leaves it in place for good
(`NoiseSession.TransitioningObservedIff` says exactly when, `EarlyFinishIsObserved` gives the shortest run).

Three more results say where the code does less than one might expect, each with an input and the exact
condition: `Noise.AcceptedKeyIsCertifiedIff`, `Frames.StripInvertsFrameIff`, `Frames.ServerReadsFirstFrame`.

## Model

| member | source | states |
|---|---|---|
| Crypto.ExpandIsStreamPrefix | lib/baileys_ex/crypto.ex:176-187 | for every requested length the fold with its wrapping counter byte returns that prefix of T(1), T(2), ... of RFC 5869, and outside 1..8160 nothing |
| Crypto.ExpandPrefixMonotone | lib/baileys_ex/crypto.ex:173-187 | a shorter output is a prefix of a longer one |
| Crypto.HkdfStart | lib/baileys_ex/crypto.ex:155-187 | from keying material on: zeros for an empty salt, and each block over the one before, the info and its number |
| Crypto.MediaKeysTileTheStream | lib/baileys_ex/crypto.ex:277-284 | iv and the three media keys are adjacent pieces of T(1)..T(4), straddling block borders |
| Crypto.SyncdKeysAreBlocks | dev/scripts/generate_syncd_vectors.mjs:15-34 | the five Syncd subkeys are the first five blocks |
| Crypto.UnpadInvertsPad | lib/baileys_ex/crypto.ex:297-336 | for every block size, unpadding gives d exactly for the padding of d, provided the pad length fits its byte (always, up to 255) |
| Crypto.PadHasForm | lib/baileys_ex/crypto.ex:297-336 | padded strings are exactly the whole blocks that start with the data and go on with one to a block of bytes that say how many they are |
| Crypto.CbcDecryptIffEncrypted | lib/baileys_ex/crypto.ex:73-95 | a ciphertext decrypts to p exactly if it is the encryption of p; ciphertexts have 16*(n/16+1) bytes |
| Crypto.CbcEncryptsPadded | lib/baileys_ex/crypto.ex:73-78 | what the cipher is given is the plaintext in that form |
| Crypto.GcmDecryptIffEncrypted | lib/baileys_ex/crypto.ex:38-63 | a sealed string opens to p exactly if it is p sealed; the tag adds 16 bytes |
| Crypto.GcmTagIsLast | lib/baileys_ex/crypto.ex:38-63 | ciphertext first, 16-byte tag behind it |
| XEdDSA.ClampInPlace | native/baileys_nif/src/xeddsa.rs:16-19 | the three masks compute the clamp of the key |
| XEdDSA.ClampRange | native/baileys_nif/src/xeddsa.rs:16-19 | the clamped scalar is a multiple of 8 in [2^254, 2^255) |
| XEdDSA.ClampKeepsTheRest | native/baileys_nif/src/xeddsa.rs:16-19 | clamping sets bit 254, clears bit 255 and the three lowest, and keeps every other bit of the key |
| XEdDSA.ClampedScalarIsNotZero | native/baileys_nif/src/xeddsa.rs:16-22 | it is never 0 modulo l, so the public point is never the identity |
| XEdDSA.Sign | native/baileys_nif/src/xeddsa.rs:10-49 | the in-place body returns R, s and the sign bit packed as specified, or refuses a key that is not 32 bytes |
| XEdDSA.Verify | native/baileys_nif/src/xeddsa.rs:52-98 | the early-return body accepts exactly when the point is recovered, R decompresses, s is canonical and s*B = R + h*A |
| XEdDSA.AcceptsIff | native/baileys_nif/src/xeddsa.rs:53-97 | acceptance spelled out: sign bit, R, canonical s below l, and s*B = R + h*A with h the SHA-512 of R, A and the message |
| XEdDSA.AcceptanceBindsMessage | native/baileys_nif/src/xeddsa.rs:90-97 | a signature accepted for one message is accepted for another exactly if both hashes give one multiple of the public point |
| XEdDSA.SignatureFields | native/baileys_nif/src/xeddsa.rs:21-48 | what the 64 bytes of a signature hold, and what the public key is |
| XEdDSA.PointRecovered | native/baileys_nif/src/xeddsa.rs:22-24 | from the Montgomery key and the sign bit the verifier gets back the signer's Edwards point |
| XEdDSA.SignedMessagesVerify | native/baileys_nif/src/xeddsa.rs:10-98 | every signature by every key over every message verifies under that key's X25519 public key |
| XEdDSA.AcceptedSignatureIsUnique | native/baileys_nif/src/xeddsa.rs:74-97 | for one key and message, accepted signatures with the same R and sign bit are the same 64 bytes |
| Handshake.InitialStateIsName | test_helpers/connection/noise_server.exs:14-15 | hash, salt and keys start as the protocol name and four zeros; the header is "WA", 6, 3 |
| Handshake.MixSplitsBlocks | test_helpers/connection/noise_server.exs:160-163 | the first HKDF block of the secret under the salt is the new salt, the second the new key, and the counter starts again |
| Handshake.FinishSplitsBlocks | test_helpers/connection/noise_server.exs:132-143 | the client writes under the first block and reads under the second, the server the other way |
| Handshake.MessageFields | test_helpers/connection/noise_server.exs:145-150 | a message is sealed under sending key, counter and hash; then the counter goes on and the ciphertext is hashed |
| Handshake.MessageAcceptedIff | test_helpers/connection/noise_server.exs:152-158 | a ciphertext is accepted exactly if it is such a sealing under the receiving key, with the same next state |
| Handshake.ScriptsStayInStep | test_helpers/connection/noise_server.exs:145-165 | two peers in equal states stay in equal states through every script of hashing, mixing and messages in either direction, and hear exactly what was said |
| Handshake.ScriptsEndInOppositeTransports | test_helpers/connection/noise_server.exs:127-143 | from the initial state every such script ends in crossed transport keys |
| Handshake.IvsCollideIff | test_helpers/connection/noise_server.exs:175 | two counters give one iv exactly if they agree modulo 2^32 |
| Handshake.IvValue | test_helpers/connection/noise_server.exs:175 | eight zeros and the counter modulo 2^32, most significant byte first |
| Handshake.IvsRepeatOnlyAfterWrap | test_helpers/connection/noise_server.exs:145-163 | in every run, ivs of one key epoch repeat exactly after a multiple of 2^32 messages; the counter starts again only when a key is mixed |
| Handshake.AuthenticateAllHashes | test_helpers/connection/noise_server.exs:165 | authenticating a list moves the hash and nothing else |
| Handshake.TranscriptBinding | test_helpers/connection/noise_server.exs:165 | equal hashes after equally many items mean equal items, or a SHA-256 collision between the two transcripts |
| Handshake.AcceptanceBinds | test_helpers/connection/noise_server.exs:152-157 | accepting a peer's ciphertext means equal key, iv and transcript hash, or one ciphertext sealed in two ways |
| Noise.IssuedChainValidatesIff | lib/baileys_ex/protocol/noise.ex:284-306 | a chain built under the trusted root validates exactly if it names the trusted serial |
| Noise.IssuedChainLinks | test_helpers/connection/noise_server.exs:95-125 | the leaf is about the server's key, names the intermediate's serial and is signed with its key; the intermediate names the issuer and is signed with the root key |
| Noise.ChainValidIff | lib/baileys_ex/protocol/noise.ex:284-306 | of a complete chain exactly three things decide: the intermediate verifies under the trusted key, the leaf under the intermediate's key, and the serial is the trusted one |
| Noise.ForgedChainRefused | lib/baileys_ex/protocol/noise.ex:297-306 | an otherwise honest server whose chain fails one of them is refused with invalid_certificate |
| Noise.AcceptedHelloIsCertified | lib/baileys_ex/protocol/noise.ex:253-282 | any hello the client accepts, from whomever, holds a sealed chain that passes all three |
| Noise.NewClientFields | lib/baileys_ex/protocol/noise.ex:104-131 | a new client has hashed header and ephemeral key and sent and received nothing |
| Noise.HelloAcceptedIffChainValid | lib/baileys_ex/protocol/noise.ex:253-282 | whatever chain an otherwise honest server shows, the client accepts its hello exactly if the chain validates, and is refused with invalid_certificate otherwise |
| Noise.AcceptedKeyIsCertifiedIff | lib/baileys_ex/protocol/noise.ex:284-306 | a trusted chain issued for any key is accepted with any server key: the key the server holds is the certified one exactly if the server shows a chain for its own key |
| Noise.UncertifiedKeyAccepted | lib/baileys_ex/protocol/noise.ex:253-306 | an accepted server whose chain is for another key |
| Noise.ServerHelloAccepted | lib/baileys_ex/protocol/noise.ex:253-282 | the client accepts the server's hello to its own ephemeral key and ends in step with the server |
| Noise.IncompleteHelloRefused | lib/baileys_ex/protocol/noise.ex:253-282 | a message without all parts of a server hello is invalid_server_hello in every state |
| Noise.TransportKeepsHash | lib/baileys_ex/protocol/noise.ex:417-421 | a hello processed in transport mode leaves the hash alone |
| Noise.ClientFinishFields | lib/baileys_ex/protocol/noise.ex:175-199 | refused before a server hello and after the switch; otherwise the waiting static key goes out and waits no more |
| Noise.FinishInitOnce | lib/baileys_ex/protocol/noise.ex:202-208 | switching to transport mode twice is switching once |
| Noise.FinishAcceptedIff | test_helpers/connection/noise_server.exs:72-93 | the server finishes with a key and a payload exactly if they were sealed under its states before and after mixing, and fails to match otherwise |
| Noise.FinishAccepted | test_helpers/connection/noise_server.exs:72-93 | the server reads the client's static key and payload and both derive crossed transport keys |
| Noise.HandshakeCompletes | test_helpers/connection/noise_server.exs:19-93 | the whole handshake between the real client and the server succeeds with those results |
| Noise.AcceptanceMeansAgreement | lib/baileys_ex/protocol/noise.ex:253-282 | whatever was delivered in between, if the server opens the client's static key then both saw one header, one pair of ephemeral keys and one server hello, or a collision is exhibited |
| Frames.DecodeSplits | lib/baileys_ex/protocol/noise.ex:322-331 | decoding a ++ b is decoding a and going on with what is left and b, errors included |
| Frames.ChunkingIsInvisible | lib/baileys_ex/protocol/noise.ex:240-251 | every way of cutting a byte stream yields the same frames, state, leftover and error |
| Frames.FrameReadsBackIff | lib/baileys_ex/protocol/noise.ex:218-231 | a frame is read back whole exactly if its size is below 2^24 |
| Frames.SurvivesIffFits | lib/baileys_ex/protocol/noise.ex:218-231 | a message survives framing exactly below 2^24 bytes, sealed ones below 16 less |
| Frames.StreamDelivered | lib/baileys_ex/protocol/noise.ex:358-376 | everything one aligned end encodes the other decodes, once and in order, for every chunking; counters stay aligned |
| Frames.DecodedWasEncoded | lib/baileys_ex/protocol/noise.ex:318-331 | conversely, what is decoded from any bytes without an error is what an aligned peer would have encoded as these very bytes, up to the incomplete frame left over |
| Frames.StreamIsGenuine | lib/baileys_ex/protocol/noise.ex:240-251 | so nothing comes out of a stream, in any chunks, that the peer would not have sent |
| Frames.StreamsAfterHandshake | lib/baileys_ex/protocol/noise.ex:202-251 | after an honest handshake this holds in both directions, from any state with the agreed transport, intro header out or not |
| Frames.TransportStreamIsFrames | lib/baileys_ex/protocol/noise.ex:218-231 | every run of a finished client puts out the frames sealed under its one key and the counters from the present one on |
| Frames.TransportIvsRepeatIff | lib/baileys_ex/protocol/noise.ex:358-366 | two of these frames share an iv exactly if a multiple of 2^32 frames lies between them |
| Frames.StripInvertsFrameIff | test_helpers/connection/noise_server.exs:184-194 | stripping a framed payload gives it back exactly if it does not pass for an intro header, or starts over four bytes further on, which takes at least four bytes behind the frame |
| Frames.StripLosesThisFrame | test_helpers/connection/noise_server.exs:184-194 | a payload of 0x574106 bytes of which nothing is left |
| Frames.StripInvertsIntroFrame | test_helpers/connection/noise_server.exs:185-188 | behind the intro header every payload below 2^24 bytes comes back |
| Frames.ServerReadsFirstFrame | lib/baileys_ex/protocol/noise.ex:218-231 | without routing info the server strips the client's first frame to its payload; with it the server takes the "ED" prefix for a size and reads nothing, or that many bytes from behind it |
| Frames.RoutingInfoHidesFrame | lib/baileys_ex/protocol/noise.ex:423-434 | so with routing info no payload but one of exactly 0x454400 bytes can come back |
| Noise.IntroCarriesRoutingInfo | lib/baileys_ex/protocol/noise.ex:423-434 | "ED", 0, 1, the size in 24 bits, the routing info and the header |
| NoiseSession.Session.HandshakeWrite | native/baileys_nif/src/noise.rs:197-218 | new state, returned bytes and errors are those of `Step` |
| NoiseSession.Session.HandshakeRead | native/baileys_nif/src/noise.rs:229-250 | new state, returned payload and errors are those of `Step` |
| NoiseSession.Session.Finish | native/baileys_nif/src/noise.rs:262-281 | taking the state out and putting one back gives the state and reply of `Step`, with nothing put back after a failed transition |
| NoiseSession.Session.Encrypt | native/baileys_nif/src/noise.rs:292-313 | new state and reply are those of `Step` |
| NoiseSession.Session.Decrypt | native/baileys_nif/src/noise.rs:324-345 | new state and reply are those of `Step` |
| NoiseSession.Sessions.Init | native/baileys_nif/src/noise.rs:71-103 | a session in handshake state counted once, or an error for a key that is not 32 bytes and no change to the count |
| NoiseSession.Sessions.Drop | native/baileys_nif/src/noise.rs:52-56 | the count stays the number of live sessions |
| NoiseSession.FirstFinishDecides | native/baileys_nif/src/noise.rs:262-281 | in every run the first finish decides the state for good: handshake before it, then transport or Transitioning for ever |
| NoiseSession.SuccessOnlyInPhase | native/baileys_nif/src/noise.rs:204-344 | which calls can succeed at which point of any run, handshake calls exactly; at most one finish does |
| NoiseSession.PatternOrder | native/baileys_nif/src/noise.rs:197-281 | the replies of the handshake: the initiator writes the first and third message, the responder the second, and a finish succeeds after the third |
| NoiseSession.EncryptSucceedsIff | native/baileys_nif/src/noise.rs:297-313 | at any point of any run, exactly in transport mode, up to 65519 bytes and 2^64 - 1 encryptions, under the nonce that counts them |
| NoiseSession.DecryptSucceedsIff | native/baileys_nif/src/noise.rs:329-345 | exactly in transport mode, on what the other role sealed under the nonce that counts decryptions |
| NoiseSession.RefusalNamesPhase | native/baileys_nif/src/noise.rs:202-344 | every refusal has the error of its phase, and only an early finish changes the state |
| NoiseSession.TransitioningObservedIff | native/baileys_nif/src/noise.rs:29-32 | Transitioning is observed exactly in the runs whose first finish is early and not the last call |
| NoiseSession.EarlyFinishIsObserved | native/baileys_nif/src/noise.rs:29-32 | the shortest such run |
| NoiseSession.OpensOnlyNext | native/baileys_nif/src/noise.rs:331-340 | of everything the network can deliver, exactly the peer's next ciphertext is accepted |
| NoiseSession.DeliveryIsInOrder | native/baileys_nif/src/noise.rs:292-345 | in every run of two sessions over a network that drops, repeats, reorders and reflects, what was decrypted is a prefix of what was encrypted and no nonce is used twice |
| LtHash.ExpandLoop | dev/scripts/generate_syncd_vectors.mjs:115-122 | the loop concatenates the four counter-prefixed digests |
| LtHash.LtHashSubtractThenAdd | dev/scripts/generate_syncd_vectors.mjs:124-149 | masking after every buffer gives in each lane the true difference of sums modulo 2^16, written back little-endian |
| LtHash.AddedLane | dev/scripts/generate_syncd_vectors.mjs:115-149 | adding a buffer v adds to little-endian lane 16b + k the k-th word of SHA-256(b, v), modulo 2^16 |
| LtHash.SubtractedLane | dev/scripts/generate_syncd_vectors.mjs:115-149 | and subtracting it takes that word away |
| LtHash.SingleValueIsDigests | dev/scripts/generate_syncd_vectors.mjs:115-149 | the hash of a single value is SHA-256 of it behind the bytes 0 to 3 |
| LtHash.OrderDoesNotMatter | dev/scripts/generate_syncd_vectors.mjs:130-142 | the result depends only on the multisets of buffers |
| LtHash.CallsCompose | dev/scripts/generate_syncd_vectors.mjs:124-149 | two calls are one call on the concatenated lists |
| LtHash.AddThenSubtractCancels | dev/scripts/generate_syncd_vectors.mjs:162-163 | what one call adds a later one takes back, in any order |
| LtHash.MixKeepsHash | lib/baileys_ex/syncd/codec.ex:163-190 | whatever a mutation does to the map its pending buffers do to the hash |
| LtHash.PatchKeepsHash | lib/baileys_ex/syncd/codec.ex:197-207 | one patch keeps the hash equal to that of the map, in any order of the values |
| LtHash.RollingHashIsHashOfMap | lib/baileys_ex/syncd/codec.ex:145-207 | after any patches the map is the plain replay and the rolling hash is the hash of the map from scratch |
| LtHash.ReplicasConverge | lib/baileys_ex/util/lt_hash.ex:5-9 | histories that amount to the same map give the same hash |
| SyncdMac.GenerateMac | dev/scripts/generate_syncd_vectors.mjs:44-57 | the buffers make the string opByte, key id, data, seven zeros, length byte |
| SyncdMac.ValueMacLayout | dev/scripts/generate_syncd_vectors.mjs:44-57 | where each field sits, 1 for a set and 2 for a removal, and the big-endian length of operation byte and key id modulo 256 |
| SyncdMac.ValueMacCollidesIff | dev/scripts/generate_syncd_vectors.mjs:44-57 | exactly when two value-MAC inputs give one string |
| SyncdMac.ValueMacDecodable | dev/scripts/generate_syncd_vectors.mjs:44-57 | with key ids of at most 255 bytes the string determines operation class, key id and data |
| SyncdMac.ValueMacClashAt256 | dev/scripts/generate_syncd_vectors.mjs:51-52 | at 256 bytes it no longer does |
| SyncdMac.To64BitNetworkOrder | dev/scripts/generate_syncd_vectors.mjs:59-63 | four zeros and the big-endian version; refused outside 32 bits |
| SyncdMac.NetworkOrderValue | dev/scripts/generate_syncd_vectors.mjs:59-63 | read as a big-endian number the eight bytes are the version |
| SyncdMac.PatchMacLayout | dev/scripts/generate_syncd_vectors.mjs:70-73 | the MAC is the HMAC of snapshot MAC, value MACs in order, version and name, each at its place |
| SyncdMac.PatchMacAmbiguousIff | dev/scripts/generate_syncd_vectors.mjs:70-73 | the patch-MAC string determines snapshot MAC, value MACs, version and name for exactly the pairs of names that are not confusable |
| SyncdMac.PatchMacBinds | dev/scripts/generate_syncd_vectors.mjs:70-73 | equal patch MACs under one key mean equal fields for names that are not confusable, or an HMAC collision on two named strings |
| SyncdMac.TextNamesNeverClash | dev/scripts/generate_syncd_vectors.mjs:70-73 | names without a zero byte are never confusable, whatever their lengths |
| SyncdMac.CollectionsNeverClash | lib/baileys_ex/syncd/codec.ex:42 | in particular the five collections |
| SyncdMac.SnapshotMacLayout | dev/scripts/generate_syncd_vectors.mjs:65-68 | the MAC is the HMAC of hash, version and name, each at its place |
| SyncdMac.SnapshotMacDecodable | dev/scripts/generate_syncd_vectors.mjs:65-68 | the snapshot-MAC string determines its fields |
| Ratchet.RootStepSplitsBlocks | lib/baileys_ex/signal/session_cipher.ex:294-310 | first HKDF block the root key, second the chain key, for the info WhisperRatchet |
| Ratchet.ChainStep | lib/baileys_ex/signal/session_cipher.ex:235-257 | along a chain, HMAC over the byte 1 gives the message seed and over the byte 2 the next chain key |
| Ratchet.MessageKeysAreBlocks | lib/baileys_ex/signal/session_cipher.ex:260-263 | cipher key, MAC key and iv are the first two and a half blocks for the info WhisperMessageKeys |
| Ratchet.RatchetStepFields | lib/baileys_ex/signal/session_cipher.ex:280-336 | two root steps, with the old key and with the fresh one, start the two new chains; the announced counter is that of the last message sent, or zero |
| Ratchet.DeriveIsFirstBlock | lib/baileys_ex/signal/session_builder.ex:46-52 | the first root key is the first block for the info WhisperText |
| Ratchet.SealFields | lib/baileys_ex/signal/session_cipher.ex:74-103 | a message carries its header, the padded plaintext encrypted, and eight bytes of HMAC over both identities and the serialized message |
| Ratchet.OpensIff | lib/baileys_ex/signal/session_cipher.ex:260-276 | any message whatever opens to a plaintext exactly if that MAC and that encryption are right; a wrong MAC is bad_mac |
| Ratchet.WrongMacRefused | lib/baileys_ex/signal/session_cipher.ex:207-276 | on a known chain or after a ratchet step, a wrong MAC is refused with bad_mac |
| Ratchet.AcceptedCarriesMac | lib/baileys_ex/signal/session_cipher.ex:187-276 | what is accepted carries the right MAC under the key of its counter, and spends that key |
| Ratchet.SkipBound | lib/baileys_ex/signal/session_cipher.ex:220-226 | 2000 keys ahead is given out, one more is not |
| Ratchet.TakeKeyExact | lib/baileys_ex/signal/session_cipher.ex:207-258 | which message keys a chain still gives out, closed or open, every refusal, and what is left after one is taken |
| Ratchet.CacheUntilFollows | lib/baileys_ex/signal/session_cipher.ex:382-404 | closing a chain caches every key up to the announced counter |
| Ratchet.CacheUntilGrows | lib/baileys_ex/signal/session_cipher.ex:382-404 | the cache grows by one key for every counter up to the announced one, without limit |
| Ratchet.DecryptExact | lib/baileys_ex/signal/session_cipher.ex:187-276 | a genuine message on a known chain is accepted exactly if its key is still to be had, refused with the error of its case, and changes nothing but that chain and what was pending |
| Ratchet.EncryptRefusedIff | lib/baileys_ex/signal/session_cipher.ex:66-71 | no_sending_chain exactly without an open chain of one's own |
| Conversation.SendPosts | lib/baileys_ex/signal/session_cipher.ex:64-133 | whatever was sent before, a party's next message is the one its epoch's chain has at that place, wrapped as a pre-key message exactly in the first epoch, and its session agrees with the record again |
| Ratchet.SecretFields | lib/baileys_ex/signal/session_builder.ex:171-193 | 32 bytes 0xff and the three or four exchanges in order |
| Ratchet.SecretsAgree | lib/baileys_ex/signal/session_builder.ex:171-219 | both sides of X3DH compute one secret, with and without a one-time key |
| Ratchet.InitFields | lib/baileys_ex/signal/session_builder.ex:28-169 | every field the two sessions start with |
| Conversation.TurnMatches | lib/baileys_ex/signal/session_cipher.ex:280-336 | a ratchet step derives the sender's chain, closes the old one where its sender stopped and starts a new sending chain |
| Conversation.DeliveryExact | lib/baileys_ex/signal/session_cipher.ex:187-276 | from every consistent pair of sessions a delivery is judged exactly, and leaves a consistent pair |
| Conversation.StartIsOk | lib/baileys_ex/signal/session_builder.ex:28-169 | the two sessions set up by X3DH are consistent |
| Conversation.FirstContact | lib/baileys_ex/signal/session_cipher.ex:41-50 | in every run exactly the messages of Alice's first epoch are wrapped, and each of them makes Bob set up one and the same session |
| Conversation.EveryDeliveryIsExact | lib/baileys_ex/signal/session_cipher.ex:64-336 | in every run with loss, repetition and reordering, a message is accepted exactly if it was not accepted before and its key is at most 2000 ahead, and yields what was sent |
| Conversation.AcceptedIsAuthentic | lib/baileys_ex/signal/session_cipher.ex:187-276 | in every run, any message under a known key that is accepted carries the MAC its fields call for under the message key of its unused counter |
| Conversation.NothingIsLost | lib/baileys_ex/signal/session_cipher.ex:367-404 | a message of a short epoch, or of one both sides have moved past, is accepted whenever it first arrives |

## Left out

- SHA-2, HMAC, AES, X25519, snow and curve25519-dalek: unseen libraries, taken as functions with the laws above.
- Protobuf: handshake messages, Signal messages and certificates are records; that the built certificate chain parses back is assumed where it is used.
- NoiseSession.Session.HandshakeWrite: the bytes snow makes of a payload, or its refusal, are an input of the call, because snow is not part of this model.
- NoiseSession.Session.HandshakeRead: likewise the payload snow finds in a message, or its refusal.
- Conversation.SendPosts: a registration id that a caller puts in place of the session's is taken as the session's own.
- X25519 on invalid points and shared_secret errors inside the ratchet.
- Frame decoding against forged ciphertexts: `NoiseSession.DeliveryIsInOrder` covers a hostile network, with ciphertexts as symbols.
- Mutex poisoning and memory behaviour of the NIF resource.
- Signal records with several sessions, trying closed ones after the open one (whose errors then come out as no_session), and trimming them.
- Raw and prefixed forms of Signal public keys: the ratchet model has prefixed keys only.
- Signal group sender keys.
- Decoding and encrypting Syncd records, external blobs and the order of decoded mutations.
- JSON tree codec of dev/tools/run_baileys_reference.mts: an easy round trip.
- PBKDF2, MD5, AES-CTR, random numbers: one call each into the runtime.
