# Relay: a verified model of the secure channel

Relay carries end-to-end encrypted messages over a WebSocket. This project models its own code in
Dafny, from the handshake driver to the frame codec, and proves what that code promises. Run
`dafny verify dfyconfig.toml` to check the whole project.

The cryptography is ideal and its assumptions are visible in the types:

- **AEAD** (`CipherState.dfy`). `Seal` is any function that appends a 16-byte tag. A shared log records
  every sealed (key, nonce, header, ciphertext), in this session or in others; opening succeeds exactly on
  what is in the log. A key is named by its session's handshake transcript, a direction and an epoch. As in sections 5.1 and 5.2 of the Noise Protocol Framework (revision
  34), the nonce is implicit, advances on success only, survives `Rekey`, and its last value is unusable.
- **Handshake** (`Handshake.dfy`). Pattern XX (section 7.5 of the same document) is three messages with
  reading inverting writing and a transcript hash of 32 bytes; the keys are split from the transcript.
  `Handshakes.CorrectSuiteExists` exhibits a suite that meets this.
- **Signatures** (`Certificates.dfy`). What the authority has issued verifies, and nothing verifies under its
  key but texts it signed. `Certificates.AuthoritiesExist` exhibits one such scheme for all authorities at once.

Everything the network may do is one action: deliver any byte string to either endpoint at any time.
Dropping, duplicating, reordering, reflecting and forging are all instances of it. Other sessions may seal
anything under their own keys before and during a run.

| file | part of the program |
|---|---|
| `Protocol.dfy`, `Numerals.dfy`, `Text.dfy`, `Bits.dfy` | constants and errors; big-endian, decimal and hexadecimal numerals; UTF-8; shift, or, and on naturals of any width |
| `Framing.dfy` | the frame codec |
| `ReplayWindow.dfy` | the bitmap window, and the set of accepted numbers it stands for |
| `RekeyPolicy.dfy`, `CipherState.dfy`, `SecureChannel.dfy` | the endpoint: policy, ciphers, `encrypt`, `decrypt`, `close_frame` |
| `Lockstep.dfy` | one direction: sequence number, nonce, key epoch and window all count one list of frames |
| `Duplex.dfy` | two endpoints and an adversarial network, over all runs |
| `KeyUsage.dfy`, `KeyAge.dfy`, `Schedule.dfy` | how much a key protects and for how long, and where each message lands |
| `Exhaustion.dfy` | runs that use up the nonces |
| `Connection.dfy` | `send` and `recv` over FIFO links, and honest delivery |
| `Liveness.dfy` | delivery after any adversarial run |
| `Handshake.dfy`, `HandshakeDriver.dfy`, `Session.dfy` | the handshake, two concurrent drivers, hand-over to the channel |
| `Certificates.dfy`, `KnownPeers.dfy`, `Authentication.dfy` | certificates, pins, and the decision to accept a peer |
| `SafetyNumber.dfy` | the safety number |

Each class is specified by a function of its state or by a ghost view (`ReplayWindow.accepted`); the
lemmas over whole runs are about those. Limits, layouts and errors that the code fixes as numbers stand as
numbers in the contracts. Clock readings are arguments: `due` and `reset` each read the
clock, so an encryption takes two.

Points where the code differs from what one might expect, each stated exactly:

- A sequence number is spent even when the cipher refuses, so after the nonce runs out the two counters
  part (`Duplex.CountersAgree`). An encryption can fail after sealing a REKEY frame that is then lost
  (`Lockstep.FailedEncryptSealsExactlyWhen`). Runs that get there are in `Exhaustion.CountersPart` and
  `Exhaustion.LostRekeyReachable`.
- The window tolerates reordering, but the channel does not: a later genuine frame passes the window and
  is refused by the cipher (`Lockstep.OutOfTurn`).
- A failed connection can leave a new pin behind (`Authentication.FailedAttemptPinsExactlyWhen`, with a
  concrete attempt in `Authentication.FailedAttemptCanPin`).

## Model

| member | source | states |
|---|---|---|
| Framing.HeaderLayout | src/securews/framing.py:46-53 | Every header byte by byte: version 1, the type code, the number in eight big-endian bytes and the length in four; and the error for any other number or length |
| Framing.DecodesExactlyWhen | src/securews/framing.py:60-88 | Which bytes are a frame, what its fields are, and which error every other input gives |
| Framing.DecodeEncode | src/securews/framing.py:31-88 | Encoding is header and payload, succeeds exactly for 64-bit sequence numbers and payloads up to 65535 bytes, and decoding gives back type, number and payload |
| Framing.EncodeDecode | src/securews/framing.py:60-88 | Whatever decodes re-encodes to the identical bytes, and the header a receiver rebuilds is the frame's own first 14 bytes |
| Framing.TruncatedOrExtended | src/securews/framing.py:65-81 | Cutting or extending a valid frame is always a frame error, so no valid frame is a proper prefix of another |
| Framing.HeaderInjective | src/securews/framing.py:46-53 | The associated data determines type, sequence number and length |
| Protocol.MessageType.OfCode | src/securews/protocol.py:24-28 | A byte names a message type exactly when it is one of the four codes |
| Replay.ReplayWindow.Create | src/securews/replay.py:12-18 | A new window for any size asked for: an error below 1, and otherwise a window of that size that has accepted nothing |
| Replay.ReplayWindow.Check | src/securews/replay.py:28-37 | Passes exactly when the number is in range, not yet accepted, and no accepted number is `size` or more ahead |
| Replay.ReplayWindow.Commit | src/securews/replay.py:39-54 | After committing any number, the shifted and masked bitmap still represents the accepted numbers, which grew by this one |
| Replay.BitsExact | src/securews/replay.py:39-54 | When only numbers from 0 on were committed, bit i is set exactly when it lies in the window and `highest - i` was accepted |
| Replay.ReplayWindow.CheckAndUpdate | src/securews/replay.py:56-58 | Accepts exactly the numbers that pass the check and changes nothing otherwise |
| Replay.BitmapBelowTwoToSize | src/securews/replay.py:16-18 | The bitmap stays below 2^size |
| Replay.RepresentationUnique | src/securews/replay.py:39-54 | The accepted set, of numbers from 0 on, determines highest number and bitmap |
| Replay.InOrderBitmap | src/securews/replay.py:39-54 | After the first m numbers the bitmap is 2^min(m, size) - 1 |
| Replay.AfterCollects | src/securews/replay.py:56-58 | Over any run the accepted set is exactly the numbers accepted on the way |
| Replay.AcceptedOnce | src/securews/replay.py:28-58 | No number is ever accepted twice, in any run |
| Replay.CompleteUnderBoundedReordering | src/securews/replay.py:28-58 | A run is accepted entirely if and only if its numbers are in range, distinct, and none is overtaken by `size` or more |
| Replay.CompleteByDefault | src/securews/replay.py:6-12 | The default window is complete exactly for runs in which no number is overtaken by 1024 or more |
| Replay.StalenessPermanent | src/securews/replay.py:28-54 | An in-range number once refused is refused after any further operations |
| Rekeying.RekeyPolicy.Create | src/securews/rekey.py:15-29 | A policy for any limits asked for: an error unless at least one message and a positive time are allowed |
| Rekeying.RekeyPolicy.Due | src/securews/rekey.py:34-37 | Due exactly when the count or the age limit is reached |
| Rekeying.RekeyPolicy.NoteMessage | src/securews/rekey.py:31-32 | Counts one message and changes nothing else |
| Rekeying.RekeyPolicy.Reset | src/securews/rekey.py:39-41 | Starts counting and timing again from now |
| Channels.SecureChannel.EmitTransport | src/securews/channel.py:80-85 | One TRANSPORT frame sealed under the current key and nonce with its header authenticated; the sequence number is spent even on failure |
| Channels.SecureChannel.EmitControl | src/securews/channel.py:87-92 | The same for an empty control frame |
| Channels.SecureChannel.EncryptMessage | src/securews/channel.py:55-72 | Refines the encryption function: refusal when closed or too large, REKEY first when due, then the message |
| Channels.SecureChannel.Close | src/securews/channel.py:74-78 | Refines the closing function: a CLOSE frame, and closed only if it was sealed |
| Channels.SecureChannel.DecryptFrame | src/securews/channel.py:99-129 | Refines the decryption function: decode, check, open, commit, act, in this order, with every error outcome |
| Channels.RefusedMeansUnchanged | src/securews/channel.py:99-116 | Input that fails decoding, the window or authentication leaves the endpoint as it was; any other input advances the nonce |
| Lockstep.EmitAppends | src/securews/channel.py:80-97 | Sealing succeeds exactly while nonces last, with the error named otherwise, and the bytes are determined by the frame's position: its number is its nonce and its key is the epoch of the REKEY frames before it |
| Lockstep.EncryptGrows | src/securews/channel.py:55-72 | An encryption hands out the wire bytes of exactly the frames it sealed, in order, and keeps sender, log and transcript in step |
| Lockstep.EncryptsExactlyWhen | src/securews/channel.py:55-72 | An encryption succeeds if and only if the channel is open, message and 16-byte tag fit 65535 bytes, and nonces below 2^64 - 1 suffice for one frame, or two if a REKEY is due; every refusal with its error, and unchanged state when closed or too large |
| Lockstep.ClosesExactlyWhen | src/securews/channel.py:74-78 | A close succeeds if and only if the channel is open and a nonce is left; every refusal with its error |
| Lockstep.CloseGrows | src/securews/channel.py:74-78 | A close frame is sealed at most once and closes the sender |
| Lockstep.FailedEncryptSealsExactlyWhen | src/securews/channel.py:63-72 | An encryption that fails has sealed a frame if and only if a due REKEY frame took the last nonce |
| Exhaustion.LostRekeyReachable | src/securews/channel.py:63-72 | For every cipher there is a reachable state in which an encryption fails after sealing a REKEY frame that is lost |
| Exhaustion.CountersPart | src/securews/channel.py:94-97 | For every cipher there is a reachable state in which the sequence number has gone past the last nonce |
| Lockstep.AcceptsExactlyTheNextFrame | src/securews/channel.py:99-129 | At any moment a receiver in step accepts exactly one byte string, the next genuine frame, and ignores all others |
| Lockstep.AnswersAnyInput | src/securews/channel.py:99-129 | What a receiver in step answers to any bytes: the next genuine frame's meaning, or the exact error of what is wrong with them |
| Lockstep.AcceptsNext | src/securews/channel.py:103-123 | The window never refuses the next genuine frame and the cipher opens it |
| Lockstep.OutOfTurn | src/securews/channel.py:104-114 | Earlier genuine frames are replays; later ones pass the window and fail authentication |
| Lockstep.NonceUsedOnce | src/securews/channel.py:80-97 | Two log entries of one direction with one nonce are the same entry |
| Duplex.RunKeeps | src/securews/channel.py:55-129 | The agreement of counters, keys, windows, log and histories is kept by every step of every adversarial run |
| Duplex.Safety | src/securews/channel.py:55-129 | In every reachable state each receiver has returned a prefix of what its peer encrypted, in order and unaltered, across any number of rekeys |
| Duplex.CountersAgree | src/securews/channel.py:80-123 | In every reachable state sequence number, nonces, epochs, highest number and bitmap agree, up to nonce exhaustion |
| Duplex.ExactlyTheNextFrame | src/securews/channel.py:99-129 | In every reachable state, whatever other sessions have sealed, input is refused if and only if it is not the next genuine frame of this session |
| Duplex.AnswerToAnyInput | src/securews/channel.py:99-129 | The same in every reachable state: frame and protocol errors for bytes that are no frame, a replay error below the next number, a nonce or decryption error otherwise, and closed if and only if the next genuine frame is CLOSE |
| Duplex.GenuineOutOfTurn | src/securews/channel.py:104-114 | In every reachable state a genuine frame out of its turn is refused, with the error that says on which side of its turn it is |
| Duplex.UnexpectedTypeUnreachable | src/securews/channel.py:129 | No input to a reachable endpoint reaches the branch for unexpected types |
| Duplex.NoncesNeverRepeat | src/securews/channel.py:80-97 | No nonce is used twice in one direction over the life of a channel, whatever the key and whatever other sessions do |
| Duplex.CleanCloseIsComplete | src/securews/channel.py:125-128 | When a delivery closes an endpoint, it has returned every message its peer ever encrypted, and the peer is closed |
| Duplex.ClosedRefuses | src/securews/channel.py:99-101 | A closed endpoint refuses to encrypt, close and decrypt, and keeps its state |
| Duplex.ClosedForever | src/securews/channel.py:131-133 | After a clean close no action changes either endpoint, either history, or anything sealed in this session |
| Duplex.RefusedFramesErasable | src/securews/channel.py:99-116 | Erasing all refused deliveries from any run leaves the same final state and the same returned messages |
| KeyUsage.KeyBudget | src/securews/rekey.py:31-41 | Over any adversarial run and any clock no key seals more than `max_messages` messages plus one control frame |
| KeyUsage.RunWithinBudget | src/securews/channel.py:63-72 | The policy's count is the number of messages under the current key, in every run |
| KeyUsage.KeyNeverStale | src/securews/channel.py:64-71 | One encryption with a monotone clock never uses a key that is due by age or by count, and changes the key exactly when a REKEY frame precedes the message |
| KeyAges.KeysStayYoung | src/securews/rekey.py:34-41 | Over any adversarial run in which one side's clock never runs backwards, every message that side ever sealed was sealed less than `max_seconds` after its key began |
| Schedule.ClosedForm | src/securews/rekey.py:31-41 | With only the count trigger active and limit M, message i is sealed with sequence number i + i div M in its header and as its nonce, under key epoch i div M |
| Schedule.ClosedFormByDefault | src/securews/rekey.py:6-24 | With the default limits and all messages within 900 seconds, message i has sequence number i + i div 10000 and key epoch i div 10000 |
| Connections.SecureConnection.Send | src/securews/transport.py:150-152 | Puts exactly the frames of the encryption on the link, in order, or nothing |
| Connections.SecureConnection.Recv | src/securews/transport.py:154-158 | Consumes frames up to and including the first that yields a message or an error |
| Connections.HonestDelivery | src/securews/transport.py:150-158 | For any two endpoints in step, whatever is outstanding between them, and any messages, thresholds and clock readings: in-order delivery makes repeated receives return exactly the outstanding messages and those whose send returned, one or two frames each |
| Connections.ReceiveTakesOne | src/securews/transport.py:154-158 | One receive on waiting genuine frames takes the next one, and with a REKEY frame the one behind it, and ends as the last of them says |
| Connections.ReceiveAnyLink | src/securews/transport.py:154-158 | One receive on a link that holds anything: it takes the genuine REKEY frames in front and exactly one more frame, ends as that frame says or with the error of such bytes, and leaves the rest on the link |
| Liveness.ReceiveOnAnyLink | src/securews/transport.py:154-158 | The same in every reachable state |
| Connections.ReceiveAllTakesAll | src/securews/transport.py:154-158 | Repeated receives take every waiting genuine frame: all messages in order, then waiting, or the close |
| Liveness.OutstandingArrives | src/securews/transport.py:154-158 | From every reachable state, receiving the outstanding frames in order gives an open endpoint exactly the messages it has not returned yet, and the close if the peer sent one |
| Liveness.DeliveryAfterAnyRun | src/securews/transport.py:150-158 | From every reachable state with both ends open, the same with any messages sent on top |
| Liveness.ReachableOrderly | src/securews/channel.py:55-78 | In every reachable state each REKEY frame is followed by a message, unless it took the last nonce, and only the last frame closes |
| Connections.SendAllOnTheLink | src/securews/transport.py:150-152 | From any state in step, the link carries the newly sealed frames in order, every REKEY followed by its message; only a REKEY sealed with the last nonce can be missing |
| Connections.EverySendReturns | src/securews/channel.py:55-72 | From any state in step, every send returns while messages of at most 65519 bytes are sent and nonces suffice, two per message at worst |
| Handshakes.NoiseXXHandshake.WriteMessage | src/securews/handshake.py:91-97 | Writes the next message and advances, or refuses out of turn and changes nothing |
| Handshakes.NoiseXXHandshake.ReadMessage | src/securews/handshake.py:99-113 | Reads the next message, captures the peer's static key when it is revealed and advances, or refuses and changes nothing |
| Handshakes.TurnsExactlyWhen | src/securews/handshake.py:91-113 | Writing and reading succeed exactly in turn, within three messages, and for readable messages; any other call is a handshake error and changes nothing |
| Handshakes.NoiseXXHandshake.Result | src/securews/handshake.py:115-128 | Available exactly after three messages with the peer's key captured, with the two ciphers that Split derives from the transcript |
| Handshakes.ResultExactlyWhen | src/securews/handshake.py:115-128 | There is a result exactly after three messages with the peer's key captured, and its hash tells handshakes apart whenever the hashes of their messages differ |
| Handshakes.KeysAgreeExactlyWhen | src/securews/handshake.py:115-128 | The ideal Split assumed here: two complete handshakes have crosswise keys if and only if their roles differ and their transcripts agree |
| Drivers.HandshakeLoop.DriveHandshake | src/securews/transport.py:80-99 | The loop, run until it ends or waits, is the iteration of its passes |
| Drivers.ReadsExactlyWhen | src/securews/transport.py:92-98 | What a driver makes of any bytes: a readable handshake frame is taken, and anything else stops it with its error and changes nothing more |
| Drivers.MoveKeeps | src/securews/transport.py:85-98 | Every interleaving of two drivers stays in seven states, and a pass that can run moves one message on |
| Drivers.NeverDeadlocks | src/securews/transport.py:80-99 | In every interleaving no driver fails or reads a frame of another type, one of them can run until both are finished, and they are finished exactly after six passes over three messages |
| Drivers.FinishesExactlyWhenCertificatesFit | src/securews/transport.py:80-99 | For certificates of any length, the handshake can finish on both sides if and only if the responder's leaves room for 96 bytes and the initiator's for 64 in 65535 |
| Drivers.CertificatePlacement | src/securews/transport.py:87-91 | A certificate travels only in the second or third message, never in the first |
| Drivers.Agreement | src/securews/transport.py:92-99 | Both finished sides hold each other's certificate and static key, the hash of the three messages, opposite roles and crosswise keys, and early application frames still wait on the links in order |
| Drivers.EarlyFramesPossible | src/securews/transport.py:80-99 | Any frames can be sent by the initiator before the responder has finished, and the handshake still finishes with exactly these waiting |
| Sessions.HandshakeStartsChannel | src/securews/channel.py:15-30 | Two finished handshakes have one transcript; the channels built from them are the endpoints of that session that the channel guarantees start from, and both show a safety number, the same one |
| Sessions.EarlyMessagesArrive | src/securews/transport.py:80-99 | Messages the initiator sends before the responder has finished are returned by the responder's channel, all and in order |
| Sessions.MutualAuthentication | src/securews/transport.py:289-316 | In every interleaving in which both sides finish, each side that trusts the issuer of the other's certificate admits the other if and only if that certificate is for the static key the other side really has, for an acceptable subject, unexpired and unrevoked |
| Texts.Utf8Injective | src/securews/ca.py:25-28 | Encoding text loses nothing |
| Texts.Utf8Examples | src/securews/ca.py:25-28 | Characters of one to four bytes, byte by byte |
| Certificates.CanonicalInjective | src/securews/ca.py:25-28 | Equal signed bytes mean equal subject, key, expiry and issuer, whatever the subjects contain |
| Certificates.CanonicalExample | src/securews/ca.py:25-28 | The signed text of one certificate, character by character |
| Numerals.DecimalText | src/securews/ca.py:25-28 | A decimal text is a sign if needed and digits of the right value by position, with no zero in front |
| Numerals.HexAt | src/securews/ca.py:25-28 | Each byte is shown as two lower-case hexadecimal digits, high half first |
| Certificates.IssuesExactlyWhen | src/securews/ca.py:124-157 | Issuing succeeds exactly for a 32-byte key and one expiry, in one of its two forms, after the epoch; the certificate carries the request, a lifetime rounded down to whole seconds, and a signature over exactly its fields |
| Certificates.VerifiesThroughHistory | src/securews/ca.py:71-96 | After any operations on the revocation list, a certificate verifies if and only if it is well formed, of the trusted issuer, signed over exactly its fields, not past a positive expiry, and nothing has ever named it; a key of the wrong length is a value error, all else an identity error |
| Certificates.RefusedForGood | src/securews/ca.py:71-96 | A certificate once refused is refused at every later time and whatever else is revoked |
| Certificates.RevokedExactlyWhen | src/securews/ca.py:173-187 | After any operations, exactly what was revoked before or was named by one of them is revoked |
| Certificates.VerifiedWasIssued | src/securews/ca.py:71-96 | A certificate that verifies against an authority carries, field for field, an identity it issued |
| Certificates.IssuedVerifies | src/securews/ca.py:124-157 | Of the same authority, every issued certificate verifies if and only if its issuer is the trusted one, it has not expired, and neither key nor subject is revoked |
| Certificates.RevocationList.RevokeKey | src/securews/ca.py:173-175 | Adds a key of the right length and nothing else; a wrong length is an error |
| Certificates.RevocationList.RevokeSubject | src/securews/ca.py:177-178 | Adds a subject and nothing else |
| Pinning.KnownPeers.Pin | src/securews/identity.py:76-78 | Sets one pin if the key has the right length |
| Pinning.KnownPeers.Verify | src/securews/identity.py:80-89 | Passes exactly when the label is pinned to this key, and says which error a refusal gives |
| Pinning.KnownPeers.TrustOrVerify | src/securews/identity.py:91-96 | Succeeds exactly when the label is new or pinned to this key, never changes an existing pin, and says which error a refusal gives |
| Authentication.AuthenticatePeerOn | src/securews/transport.py:179-208 | The pinning step on the shared pins refines its function |
| Authentication.CertificateAuthenticates | src/securews/transport.py:102-127 | A certificate is accepted only if the authority certified this very static key for an acceptable subject, unexpired and unrevoked |
| Authentication.IssuedIsAccepted | src/securews/transport.py:102-127 | An issued certificate that vouches for the peer in this sense is accepted |
| Authentication.RequiredMeansAuthenticated | src/securews/transport.py:211-221 | With `require`, an admitted peer is unrevoked and vouched for by the expected key, an earlier pin or the authority, and nothing is pinned |
| Authentication.AdmittedContradictsNothing | src/securews/transport.py:297-316 | An admitted peer never contradicts the revocations, a configured key, an existing pin or the trusted issuer |
| Authentication.AdmitsExactlyWhen | src/securews/transport.py:297-316 | A peer is admitted if and only if no configured anchor contradicts it and, with `require`, at least one anchor is configured for it; admission pins exactly on a first use without `require` |
| Authentication.RefusalErrors | src/securews/transport.py:297-316 | Every refusal with its error and the pins it leaves, in the order revocation, expected key, pin, certificate, requirement |
| Authentication.IssuedIsAdmittedExactlyWhen | src/securews/transport.py:297-316 | A peer that sends an issued certificate is admitted if and only if it is for the key it holds and an acceptable subject, unexpired and unrevoked, unless an expected key or a pin speaks against it |
| Authentication.FailedAttemptPinsExactlyWhen | src/securews/transport.py:297-316 | An attempt fails and leaves a new pin if and only if it was a first use whose certificate alone does not fit |
| Authentication.FailedAttemptCanPin | src/securews/transport.py:204-206 | A concrete attempt that fails and pins |
| Authentication.PinsAreStable | src/securews/transport.py:179-208 | Over any history a pin never changes, later passes for its label carry the pinned key, and `require` pins nothing |
| SafetyNumbers.ShownFaithfully | src/securews/crypto.py:94-106 | Twelve groups of five digits whose value by position is the digest's value by position modulo 10^60 |
| SafetyNumbers.NumberOfEveryHash | src/securews/crypto.py:94-106 | A safety number exists exactly for a 32-byte hash, and shows the digest of the domain tag and that hash |
| SafetyNumbers.AgreeExactlyWhenCongruent | src/securews/crypto.py:100-106 | Two safety numbers agree if and only if the digest values are congruent modulo 10^60 |
| Numerals.FromBigEndianWeighs | src/securews/crypto.py:100 | Reading big-endian bytes gives byte i of n the weight 256^(n - 1 - i) |

## Left out

- WebSocket and TLS plumbing, `connect` and `serve`, timeouts and TLS certificate pinning: input and output over foreign libraries; links are sequences of byte strings.
- The mathematics of the Noise handshake, ChaCha20-Poly1305, X25519, Ed25519 and SHA-256: foreign code, modelled as the ideal functions above; different transcripts give different keys, and a prologue mismatch and a tampered handshake message are not modelled.
- JSON encoding of certificates, and saving and loading certificates, pins and revocation lists: the parser of certificate bytes is a parameter.
- `SecretBytes`, `secure_zero` and the log redaction: single loops and regular expressions.
- Checks of Python types (`isinstance`) and text WebSocket messages.
- `SecureConnection.close` and `__anext__`: they swallow errors around operations that are modelled; the end of an iteration is not a clean close.
- `trust_or_verify` is modelled but no other part of the program calls it.
- Sharing one replay window or one rekey policy between channels, which the constructor permits: each channel here owns its own.
- Clock readings and lifetimes are real numbers, so rounding of floats is not captured.
- Subjects are texts without lone surrogates, which the source cannot encode either.
- Channels.SecureChannel.EncryptMessage: the two sends of one message are not interleaved with those of another; delivery in order assumes that sends on one connection do not overlap, safety does not.
- Ciphers.CipherState.EncryptWithAd: the library's cipher is ideal, so a forged ciphertext is never accepted at all rather than with negligible probability.
