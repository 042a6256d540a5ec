# Verified model of google-find-my-tools-go

This project models the hand-written cores of the Google Find My tools library and proves
what they are for. The main results speak of all inputs, all runs or all reachable states; a
few rows concern the published constants, one configuration or a single counterexample, and
say so.

- **Location reports** (`Octets`, `Arithmetic`, `NumberTheory`, `Group`, `Curve`, `Bytes`,
  `Bits`, `Cmac`, `Eax`, `Eid`, `Report`). A tracker advertises the abscissa of `r*G`; a
  finder seals a report to it with a fresh scalar; the owner recomputes `r` from the identity
  key and the time and opens it. The proof goes from Fermat's little theorem through modular
  square roots, point decompression, scalar multiplication in an abelian group, CMAC
  (NIST SP 800-38B), EAX and the rotating timestamp to the round trip.
- **Push connection** (`Varint`, `McsStream`, `McsClient`, `PushProtocol`,
  `ListenRefinement`). The size prefix, the framing with its one version byte, the
  partial-write loop, the receive loop and the reconnecting loop around it, and the handle /
  remember / acknowledge / reconnect protocol against a server and a network that may fail at
  any step, with the proof that the client's runs are runs of that protocol.
- **Secrets store** (`CrashDisk`, `SecretsStore`, `StoreConcurrency`). Temp file, sync,
  rename and directory sync on a file system that tears unsynced data, first as one thread in
  the code's order with a crash considered after every system call, then as any number of
  threads interleaved at every system call with crashes in between.
- **Smaller loops** (`Redact`, `ListSpecs`, `Retry`).

Foreign code is a parameter: the block cipher is a function from key and 16-byte block to
16-byte block (a permutation only where `Cmac.Permutation` is required), HKDF-SHA256 is a
function to 32 bytes, protobuf marshalling and web-push decryption are the functions of
`McsClient.Codec`, URL parsing is `ListSpecs.UrlPath`, what the receive loop observes
between two reads (a cancelled context, a deadline that cannot be set) is `McsClient.Context`,
and random jitter, the context and the retried function are `Retry.Environment`. Writes and
the system calls of the store fail at any time; `McsClient.Conn.broken` and
`SecretsStore.FileSystem.failed` record which did. The curve addition is a function too. The results
about it assume `Curve.ValidCurve`: both moduli are prime, the field modulus is 3 modulo 4,
the addition makes the curve points an abelian group with reflection as inverse, and the
generator has the stated order. `Report.PublishedCurveSetup` shows which of these the
published constants satisfy by computation and which remain assumptions, and
`Curve.ValidCurveExists` shows that all of them together can be met.

Points where the code and its comments differ, modelled as the code does it:

- `DecryptForeignTracker` lifts `sx` to the even ordinate; the comment about a parity bit in
  the high bit (pkg/googlefindmy/crypto/foreigntracker.go:91-93) does not apply.
- `firstMessage` is one flag for both directions, cleared by the first read
  (pkg/googlefindmy/fcm/push.go:386-390), so each send before that read carries a version
  byte. `McsStream.SessionRoundTripIff` gives the exact condition under which the stream is
  readable.
- `sendMsg` does not apply the 16 MiB limit that `readMsg` applies
  (pkg/googlefindmy/fcm/push.go:354-374, 417); the same lemma states what follows.
- `decodeVarint32` accepts padded sizes and ignores the upper bits of a fifth byte
  (pkg/googlefindmy/fcm/push.go:487). `Varint.DecodeNotInjective` and
  `Varint.FifthByteLosesBits` give inputs, and `Varint.CanonicalIff` says exactly which
  accepted inputs are encodings.
- `retryWith` called with no attempts allowed returns nil without calling its function
  (pkg/googlefindmy/fcm/register.go:378-409). A delay of 2^62 ns or more turns negative when
  doubled, and the random call of the next wait then panics: `Retry.ScheduleIff` gives the
  exact condition on a configuration.
- The directory is synced "so the rename survives a crash"
  (pkg/googlefindmy/auth/store.go:128-132), but errors of that sync are ignored, and `Clear`
  does not sync at all. `SecretsStore.CrashFindsOldOrNew` gives the exact condition under
  which a crash finds the old or the new value, `SecretsStore.ExposedSinceDurable` what
  crashes can bring back after any sequence of calls, and `UnsyncedSaveThenCrash` and
  `ClearThenCrash` the runs that find neither.

## Model

| member | source | states |
|---|---|---|
| NumberTheory.Fermat | pkg/googlefindmy/crypto/secp160r1.go:75-84 | a^p = a modulo p for every integer a and prime p, which the square root relies on; proved from the binomial theorem |
| Curve.RootOfSquare | pkg/googlefindmy/crypto/secp160r1.go:75-84 | for p = 3 mod 4 the exponent (p+1)/4 yields a root of every square |
| Curve.RhsByParts | pkg/googlefindmy/crypto/secp160r1.go:67-73 | reducing x^3 and -3x separately and then the sum, negative terms included, gives x^3-3x+b mod p |
| Curve.PointFromX | pkg/googlefindmy/crypto/secp160r1.go:61-92 | the code with its updated integers and early returns computes the decompression that the next three rows characterise |
| Curve.LiftSound | pkg/googlefindmy/crypto/secp160r1.go:80-91 | a returned point has the given x, lies on the curve, has y in [0,p) and y even |
| Curve.LiftComplete | pkg/googlefindmy/crypto/secp160r1.go:61-85 | decompression succeeds if and only if x < p and x^3-3x+b is a square mod p |
| Curve.LiftRecovers | pkg/googlefindmy/crypto/secp160r1.go:58-92 | for any curve point, decompressing its x gives the point or its negation, and the point itself whenever its y is even |
| Curve.ConstantsFit | pkg/googlefindmy/crypto/secp160r1.go:31-39 | the published p is 3 mod 4 and at most 256^20, and the published generator satisfies the curve equation |
| Curve.BaseMul | pkg/googlefindmy/crypto/foreigntracker.go:139-142 | every multiple of the generator is on the curve and is infinity exactly for multiples of the order |
| Groups.MulNeg | pkg/googlefindmy/crypto/foreigntracker.go:144-148 | scalar multiplication commutes with negation in any abelian group |
| Curve.MulLifted | pkg/googlefindmy/crypto/foreigntracker.go:52-63 | multiplying the decompressed abscissa of P gives the abscissa of multiplying P, whichever parity P had |
| Curve.KeyAgreement | pkg/googlefindmy/crypto/foreigntracker.go:52-63 | for all r, s nonzero mod the order, x(s*lift(x(rG))) = x(r*lift(x(sG))), both sides finite |
| Cmac.ShiftLeft | pkg/googlefindmy/crypto/eax.go:87-94 | the right-to-left loop with its carry shifts a byte string of any length left by one bit and leaves the rest of the destination alone |
| Cmac.ShiftDoubles | pkg/googlefindmy/crypto/eax.go:87-94 | that shift is 2*value mod 256^n on the big-endian value, for every length n |
| Cmac.DoubleLinear | pkg/googlefindmy/crypto/eax.go:29-39 | subkey doubling is linear over XOR |
| Cmac.DoubleBijective | pkg/googlefindmy/crypto/eax.go:29-39 | subkey doubling is a bijection on blocks, with its inverse given |
| Cmac.DoubleIsTimesX | pkg/googlefindmy/crypto/eax.go:29-39 | doubling multiplies by x modulo x^128+x^7+x^2+x+1, coefficient by coefficient |
| Cmac.DeriveSubKey | pkg/googlefindmy/crypto/eax.go:29-39 | shifting in place and reducing on the top bit computes the doubling |
| Cmac.XorBytes | pkg/googlefindmy/crypto/eax.go:96-100 | the in-place loop XORs correctly also when the destination is the first operand |
| Cmac.Cmac | pkg/googlefindmy/crypto/eax.go:18-84 | for every key and message, empty, full-block and partial-block, the loop equals the recursive CBC-MAC over the padded and masked block list, which the next row spells out; wrong key sizes are errors |
| Cmac.MacByStandard | pkg/googlefindmy/crypto/eax.go:24-83 | for every message all blocks but the last are chained from zero, and the last one is masked with the doubled encryption of zero when whole, else padded with 0x80 and zeros and masked with its double |
| Cmac.MasksDiffer | pkg/googlefindmy/crypto/eax.go:29-39 | the two masks are equal exactly when the cipher maps the zero block to itself |
| Cmac.FormatInjective | pkg/googlefindmy/crypto/eax.go:47-83 | distinct messages differ in their block list or in the choice of mask |
| Cmac.FormatLength | pkg/googlefindmy/crypto/eax.go:47-69 | number of blocks: n for whole-block messages, n+1 for all others, the empty one included |
| Eax.EaxOmac | pkg/googlefindmy/crypto/eax.go:105-109 | appending the data to the flag block and MACing it is the tweaked MAC |
| Eax.OmacInputsDistinct | pkg/googlefindmy/crypto/eax.go:105-109 | tweaked inputs coincide only for equal flag and data, and are never empty |
| Eax.OmacContinues | pkg/googlefindmy/crypto/eax.go:102-109 | for nonempty data the tweaked MAC is the chain continued from the encrypted prefix; for empty data it is one K1-masked block |
| Eax.CtrCancels | pkg/googlefindmy/crypto/eax.go:128-131 | counter mode undoes itself |
| Eax.EqualBlocksDiffer | pkg/googlefindmy/crypto/eax.go:128-131 | under a block permutation, equal plaintext blocks of one message have equal ciphertext blocks only when a multiple of 2^128 blocks apart |
| Eax.EncryptEAX | pkg/googlefindmy/crypto/eax.go:113-143 | the code returns ciphertext followed by the XOR of the three MACs, or the key-size error; the next two rows say of every byte what it is |
| Eax.SealedByte | pkg/googlefindmy/crypto/eax.go:128-131 | byte j of the ciphertext is byte j of the message XOR byte j mod 16 of the encryption of the counter block with value nonce MAC + j/16 modulo 2^128 |
| Eax.SealedTag | pkg/googlefindmy/crypto/eax.go:105-143 | each tag byte is the XOR of the MACs of nonce, header and ciphertext, prefixed with fifteen zeros and 0, 1 and 2 |
| Eax.DecryptEAX | pkg/googlefindmy/crypto/eax.go:146-184 | the code rejects short input before wrong keys, compares the whole tag, and only then returns plaintext; by `Eax.EaxExact` it accepts exactly what `Eax.SealedByte` and `Eax.SealedTag` describe |
| Eax.RejectedAs | pkg/googlefindmy/crypto/eax.go:146-184 | which error each rejected string gives: too short, then a key not of 16, 24 or 32 bytes, then a tag that no message has |
| Eax.EaxExact | pkg/googlefindmy/crypto/eax.go:113-184 | decryption of a string returns m if and only if encrypting m gives that string, for every key, nonce, header and string |
| Eax.AcceptedUnique | pkg/googlefindmy/crypto/eax.go:113-184 | each nonce, header and message has one accepted ciphertext |
| Eax.TagBinds | pkg/googlefindmy/crypto/eax.go:138-141 | the tag changes exactly when the MAC of the changed part changes |
| Eax.HeaderAuthenticated | pkg/googlefindmy/crypto/eax.go:123-126 | opening under another header succeeds exactly when both headers have the same tweaked MAC |
| Bits.MaskLow | pkg/googlefindmy/crypto/eid.go:23-24 | masking the k low bits of a two's-complement integer rounds it down to a multiple of 2^k, negative values included |
| Eid.GetMaskedTimestamp | pkg/googlefindmy/crypto/eid.go:22-30 | the byte loop writes the window start modulo 2^32, big-endian, for every timestamp and k |
| Eid.WindowValue | pkg/googlefindmy/crypto/eid.go:20-30 | the masked bytes read big-endian equal (1024*floor(t/1024)) mod 2^32 |
| Eid.AesEcbEncrypt | pkg/googlefindmy/crypto/eax.go:193-206 | the block loop encrypts each 16-byte block on its own; wrong keys and unaligned input are errors, in that order |
| Eid.EcbBlock | pkg/googlefindmy/crypto/eax.go:202-204 | block i of the output is the encryption of block i of the input, for every length |
| Eid.FillStructure | pkg/googlefindmy/crypto/eid.go:42-50 | the buffer filled in place is two blocks carrying the same exponent and timestamp behind different padding |
| Eid.CalculateR | pkg/googlefindmy/crypto/eid.go:35-58 | r is the encrypted structure read big-endian, modulo the order; keys not of 32 bytes are errors |
| Eid.ScalarSpelled | pkg/googlefindmy/crypto/eid.go:35-58 | r is E(0xFF^11 10 ts) * 2^128 + E(0^11 10 ts) modulo the order, ts being (1024*floor(t/1024)) mod 2^32 in four big-endian bytes |
| Eid.GenerateEID | pkg/googlefindmy/crypto/eid.go:63-78 | the identifier is the 20-byte abscissa of r*G, which always fits; a zero r is an error |
| Eid.IdentifierSpelled | pkg/googlefindmy/crypto/eid.go:63-78 | the identifier exists exactly for r other than zero, has twenty bytes and reads big-endian as the abscissa of r*G |
| Eid.RotationExact | pkg/googlefindmy/crypto/eid.go:35-58 | under any block permutation two times give the same 32 bytes if and only if their window indices agree mod 2^22, and the two halves always differ |
| Report.EncryptForeignTracker | pkg/googlefindmy/crypto/foreigntracker.go:37-86 | the code, whose buffers never overflow and whose points are always on the curve, computes the sealed report of the next row, or the stated error |
| Report.SealedSpelled | pkg/googlefindmy/crypto/foreigntracker.go:42-86 | a sealed report is the EAX sealing of the message, without header, under the HKDF of the twenty bytes of the abscissa of k*P, P the even point with the identifier's abscissa, and a nonce of the last eight bytes of both abscissas; beside it stands the abscissa of k*G |
| Report.DecryptForeignTracker | pkg/googlefindmy/crypto/foreigntracker.go:94-137 | likewise for opening, with the order of its error checks |
| Report.OpenedSpelled | pkg/googlefindmy/crypto/foreigntracker.go:100-137 | whatever is opened is the EAX sealing of the message under the HKDF of the abscissa of r*S and the nonce of both abscissas, with r the owner's scalar |
| Report.SpelledOpens | pkg/googlefindmy/crypto/foreigntracker.go:100-137 | and everything sealed under that key and nonce is opened |
| Report.KeyAndNonceUnique | pkg/googlefindmy/crypto/foreigntracker.go:57-75 | that key and that nonce are determined by the scalar and the abscissas |
| Report.SealFailsAs | pkg/googlefindmy/crypto/foreigntracker.go:38-55 | which error each failed sealing gives |
| Report.OpenFailsAs | pkg/googlefindmy/crypto/foreigntracker.go:95-116 | which error each failed opening gives, in the order of the checks |
| Report.SealSucceedsIff | pkg/googlefindmy/crypto/foreigntracker.go:37-58 | sealing succeeds if and only if the scalar is nonzero mod the order and the identifier is a reduced abscissa of a curve point |
| Report.ReportRoundTrip | pkg/googlefindmy/crypto/foreigntracker.go:37-137 | for every identity key, message and scalar bytes nonzero mod the order, with r nonzero and both times in one window, sealing to the advertised identifier succeeds and opening returns exactly the message |
| Report.AcceptedIsSealed | pkg/googlefindmy/crypto/foreigntracker.go:94-137 | whatever opening accepts is the sealing of the returned message under the owner's key and nonce |
| Report.PublishedCurveSetup | pkg/googlefindmy/crypto/secp160r1.go:31-42 | the report results apply to the published curve given primality, group law and order |
| Bits.OrDisjoint | pkg/googlefindmy/fcm/push.go:487 | or-ing in a shifted group adds it |
| Varint.EncodeVarint32 | pkg/googlefindmy/fcm/push.go:462-470 | the loop writes the recursive encoding |
| Varint.DecodeExact | pkg/googlefindmy/fcm/push.go:476-494 | the decoder on every input: which prefixes it accepts, the sum of (b_i mod 128)*128^i mod 2^32 it returns, what it leaves, and which error otherwise |
| Varint.VarintRoundTrip | pkg/googlefindmy/fcm/push.go:462-494 | decoding an encoding followed by anything returns the value and exactly what follows |
| Varint.EncodeLength | pkg/googlefindmy/fcm/push.go:462-470 | encodings of 32-bit values are 1 to 5 bytes long |
| Varint.EncodePrefixFree | pkg/googlefindmy/fcm/push.go:462-470 | no encoding is a proper prefix of another |
| Varint.DecodeNotInjective | pkg/googlefindmy/fcm/push.go:476-494 | a padded input decodes to the same value as the unpadded one |
| Varint.FifthByteLosesBits | pkg/googlefindmy/fcm/push.go:487 | an input whose fifth byte spells 2^32 decodes to zero |
| Varint.CanonicalIff | pkg/googlefindmy/fcm/push.go:462-494 | an accepted input is the encoding of its value exactly when it has no padding group and no bits above the 32nd |
| McsStream.FrameRoundTripIff | pkg/googlefindmy/fcm/push.go:354-374 | a frame reads back as itself, leaving what follows, exactly when its payload is at most 16 MiB |
| McsStream.UnframeExact | pkg/googlefindmy/fcm/push.go:404-434 | reading a frame succeeds exactly on a known tag number, a size prefix, possibly padded, of at most 16 MiB, and a payload of that size, and leaves what follows |
| McsStream.FirstReadExact | pkg/googlefindmy/fcm/push.go:386-403 | on the first read versions below 41 other than 38 are refused, and otherwise the frame after the version byte is read |
| McsStream.FramesRoundTripIff | pkg/googlefindmy/fcm/push.go:380-434 | a sequence of frames reads back exactly, with nothing left over, if and only if every payload is within the limit |
| McsStream.SessionRoundTripIff | pkg/googlefindmy/fcm/push.go:349-390 | what a session of sends and reads writes is read back exactly if and only if one send preceded the first read and all payloads are within the limit; then it is one version byte and the frames |
| McsClient.DecodeVarint32 | pkg/googlefindmy/fcm/push.go:476-494 | the reading loop agrees with the decoder and reads at most six bytes on any input |
| McsClient.WriteAll | pkg/googlefindmy/fcm/push.go:365-374 | under any splitting into partial writes the whole frame is written, or on failure a prefix of it; it fails exactly when a write fails or writes nothing |
| McsClient.MCSClient.SendMsg | pkg/googlefindmy/fcm/push.go:338-376 | the frame, with the version byte while the flag is up, reaches the wire whole or as a prefix |
| McsClient.MCSClient.ReadMsg | pkg/googlefindmy/fcm/push.go:380-435 | the method reads what `McsStream.Read` reads, with the same errors, and clears the flag |
| McsClient.MCSClient.HandleDataMessage | pkg/googlefindmy/fcm/push.go:649-671 | the id is returned even when decryption fails; the handler runs only for decrypted messages with an id |
| McsClient.MessageEffects | pkg/googlefindmy/fcm/push.go:264-289 | by tag number: 8 with an id is remembered and answered with 7 whether or not it decrypts, and handled if it does; 0 is answered with 1; nothing else has any effect, and only 4 and 10 stop the loop |
| McsClient.MCSClient.Dispatch | pkg/googlefindmy/fcm/push.go:264-289 | the effects of `McsClient.MessageEffects` in the order handle, remember, acknowledge; the id stays remembered when the acknowledgement fails, which happens exactly when a write fails; the loop goes on exactly when the message is neither a close nor a stream error and its reply, if any, was written |
| McsClient.MCSClient.Listen | pkg/googlefindmy/fcm/push.go:216-291 | whatever ends the loop, the messages read were processed in order, every id was remembered and the replies written are a prefix of those due, all of them unless a write failed; the reason returned is that of the last message, a cancelled context, a deadline that could not be set, or the next read, whichever came first |
| McsClient.MCSClient.Login | pkg/googlefindmy/fcm/push.go:136-212 | the login names every remembered id, is the one send before the first read and carries the only version byte; it succeeds exactly when no write fails and a login response is read |
| McsClient.LoginOnWire | pkg/googlefindmy/fcm/push.go:349-361 | the login's bytes: 41, 2, the size and the payload that names the ids |
| McsClient.MCSClient.Run | pkg/googlefindmy/fcm/push.go:295-318 | over any sequence of dials each connection gets a login naming all ids remembered by then, followed by its receive loop; ids and handler calls are those of all messages processed, in order |
| McsClient.AcksAreIds | pkg/googlefindmy/fcm/push.go:274-282 | the replies due acknowledge exactly the remembered ids, once each and in order |
| McsClient.HandledAreRemembered | pkg/googlefindmy/fcm/push.go:274-282 | no id has more handler calls than remembered occurrences |
| PushProtocol.StepInv | pkg/googlefindmy/fcm/push.go:239-318 | every step of client, server and network keeps the protocol invariant |
| PushProtocol.RunSafety | pkg/googlefindmy/fcm/push.go:239-318 | in every interleaving the handler runs at most once per id, no id leaves the server before it was handled, acknowledged ids are remembered, and a reconnect names all of them |
| PushProtocol.ExactlyOnceWhenDrained | pkg/googlefindmy/fcm/push.go:239-318 | once the server's queue is empty each id was handled exactly once, undecryptable ones never |
| PushProtocol.NothingStuck | pkg/googlefindmy/fcm/push.go:295-318 | from every reachable state every pending id can still reach `handleDataMessage` |
| ListenRefinement.RemembersInFlight | pkg/googlefindmy/fcm/push.go:274-279 | the client remembers exactly the ids that the data messages bring, decryptable or not |
| ListenRefinement.ListenRefines | pkg/googlefindmy/fcm/push.go:239-290 | when the ids of the data messages read are those in flight, a receive loop whose replies were all written is a sequence of protocol steps with the same remembered ids, handler calls and acknowledgements |
| ListenRefinement.FailingRefines | pkg/googlefindmy/fcm/push.go:274-282 | a loop whose last acknowledgement could not be written is one too: the last id is remembered and handled but not acknowledged |
| ListenRefinement.SessionRefines | pkg/googlefindmy/fcm/push.go:131-290 | from any reachable protocol state between connections, login and receive loop, however they end, are protocol steps if the server respects the login |
| ListenRefinement.RunRefines | pkg/googlefindmy/fcm/push.go:295-318 | every run of the client against such a server is a protocol run from the initial state, with the same ids, handler calls and acknowledgements |
| ListenRefinement.RunIsSafe | pkg/googlefindmy/fcm/push.go:295-318 | so the client's handler runs at most once per id over all connections, and only remembered ids are acknowledged |
| ListenRefinement.DistinctIffRespected | pkg/googlefindmy/fcm/push.go:113-123 | the client remembers some id twice exactly when the server redelivered an id on one connection or one that a login had named |
| CrashDisk.CrashKeepsValue | pkg/googlefindmy/auth/store.go:99-134 | on a sound disk any crash leaves the path complete, holding an exposed value, leftover temp file included |
| CrashDisk.CrashesFindIff | pkg/googlefindmy/auth/store.go:124-132 | every crash finds one of a set of values if and only if all exposed values are in it: each exposed value is found by some crash |
| CrashDisk.RenameSound | pkg/googlefindmy/auth/store.go:124-127 | renaming a complete, synced temp file exposes exactly the new value beside the old ones |
| SecretsStore.Store.SaveLocked | pkg/googlefindmy/auth/store.go:99-134 | it returns the error of the first failing call and succeeds when none fails; an error leaves the path, and all that later crashes can bring back, as before, and no temp file unless removing it fails; success stores the value, durably exactly when the directory sync did not fail, else also what was exposed before can come back; at every system call in between a crash finds one of these |
| SecretsStore.NothingFailed | pkg/googlefindmy/auth/store.go:105-134 | when no call fails a save succeeds and every later crash finds exactly the new value |
| SecretsStore.Store.Update | pkg/googlefindmy/auth/store.go:82-97 | the function sees exactly the stored value or the empty record; its result is saved with the same guarantee, its error writes nothing, and a failed read is an error |
| SecretsStore.Store.Clear | pkg/googlefindmy/auth/store.go:145-152 | clearing is atomic in the same sense, never durable, and fails exactly when removing an existing file fails |
| SecretsStore.CrashFindsOldOrNew | pkg/googlefindmy/auth/store.go:99-134 | every crash during a call, whatever its outcome, finds the old or the new value if and only if no other value was exposed when it began |
| SecretsStore.ExposedSinceDurable | pkg/googlefindmy/auth/store.go:99-152 | after any sequence of calls crashes can bring back exactly the values stored by the last durable call and the successful calls since, and with no durable call also what was exposed at the beginning |
| SecretsStore.UnsyncedSaveThenCrash | pkg/googlefindmy/auth/store.go:128-132 | a save whose directory sync failed, another save and a crash can find the value from before both |
| SecretsStore.ClearThenCrash | pkg/googlefindmy/auth/store.go:145-152 | likewise for a clear followed by a save |
| StoreConcurrency.StepInv | pkg/googlefindmy/auth/store.go:50-152 | every system call of every thread, and every crash, keeps the store invariant |
| StoreConcurrency.RunsAreSerial | pkg/googlefindmy/auth/store.go:50-97 | every interleaving equals a serial history in lock order: it explains each load and success, replays to the stored value, and has each writer once |
| StoreConcurrency.SaveCompletes | pkg/googlefindmy/auth/store.go:50-134 | from every reachable state with a free lock, a save or an update whose function succeeds, with no failing call, stores its value durably and enters the history as a success |
| StoreConcurrency.LockComesFree | pkg/googlefindmy/auth/store.go:50-152 | from every reachable state the lock can come free with the same calls pending, even when all calls fail |
| StoreConcurrency.CrashRollsBack | pkg/googlefindmy/auth/store.go:99-134 | a crash after any run leaves the value of a prefix of the serial history, never shorter than what the oldest directory state since the last sync reflects |
| StoreConcurrency.SyncedSurvives | pkg/googlefindmy/auth/store.go:128-132 | what is in the history at a successful directory sync stays in it for ever, through any further events and any number of crashes |
| StoreConcurrency.RunsLoseNoUpdate | pkg/googlefindmy/auth/store.go:79-97 | on every run whose successful calls each add one, the stored count is the initial count plus the number of successes |
| Redact.Redact | pkg/googlefindmy/internal/httpbody/httpbody.go:41-64 | the consuming loop rewrites each field and keeps each separator |
| Redact.SplitJoin | pkg/googlefindmy/internal/httpbody/httpbody.go:44-53 | splitting undoes joining for separator-free fields |
| Redact.JoinSplit | pkg/googlefindmy/internal/httpbody/httpbody.go:44-61 | joining the fields and separators of a text gives the text back |
| Redact.RedactedFields | pkg/googlefindmy/internal/httpbody/httpbody.go:54-61 | the output has the same separators, every non-sensitive field unchanged and only the key of each sensitive one |
| Redact.SecretHidden | pkg/googlefindmy/internal/httpbody/httpbody.go:14-24 | a field that starts with one of the nine keys becomes that key and three stars, whatever its value |
| Redact.OthersKept | pkg/googlefindmy/internal/httpbody/httpbody.go:54-60 | a field that starts with none of them stays as it is |
| Redact.FieldByField | pkg/googlefindmy/internal/httpbody/httpbody.go:36-62 | the five separators end fields, which are redacted one by one |
| Redact.Noninterference | pkg/googlefindmy/internal/httpbody/httpbody.go:38-64 | two inputs have the same output if and only if they have the same separators and pairwise equal or same-key sensitive fields |
| Redact.Idempotent | pkg/googlefindmy/internal/httpbody/httpbody.go:41-64 | redacting twice is redacting once |
| Redact.KeysPrefixFree | pkg/googlefindmy/internal/httpbody/httpbody.go:14-24 | no sensitive key starts a field that starts with another one |
| ListSpecs.FindIdExact | pkg/googlefindmy/maps/savedplaces/savedplaces.go:50-54 | the search gives the identifier of the leftmost, longest match of the pattern, and nothing only where the pattern matches nowhere |
| ListSpecs.ExtractExact | pkg/googlefindmy/maps/savedplaces/savedplaces.go:94-111 | a value yields an identifier exactly when the list path matches in it, or else the data parameter does, or else the list path matches in its URL path, or else it is a bare identifier |
| ListSpecs.BareIdAccepted | pkg/googlefindmy/maps/savedplaces/savedplaces.go:94-111 | a bare identifier is accepted as itself, because neither pattern can match inside one |
| ListSpecs.NamedLine | pkg/googlefindmy/maps/savedplaces/savedplaces.go:61-92 | a line of name, tab and value, with any spaces around the three, contributes the identifier of the value under that name, or is bad |
| ListSpecs.BareLine | pkg/googlefindmy/maps/savedplaces/savedplaces.go:61-92 | a line without a tab contributes its identifier unnamed; blank lines and comments nothing |
| ListSpecs.LinesOfJoined | pkg/googlefindmy/maps/savedplaces/savedplaces.go:61 | splitting undoes joining newline-free lines |
| ListSpecs.NameOfExact | pkg/googlefindmy/maps/savedplaces/savedplaces.go:72-79 | the name of an identifier is the first nonempty one given to it |
| ListSpecs.ParseListSpecs | pkg/googlefindmy/maps/savedplaces/savedplaces.go:58-85 | the result groups the lines by first occurrence with first nonempty names, or the error names the first bad line, or every line was skipped |
| ListSpecs.SeenIffOccurs | pkg/googlefindmy/maps/savedplaces/savedplaces.go:59-79 | the index map answers exactly whether an id occurred on an earlier line |
| ListSpecs.DistinctIds | pkg/googlefindmy/maps/savedplaces/savedplaces.go:72-79 | grouped specs have distinct ids |
| ListSpecs.GroupsUnique | pkg/googlefindmy/maps/savedplaces/savedplaces.go:58-85 | grouping by first occurrence determines the result |
| Retry.TransientExactly | pkg/googlefindmy/fcm/register.go:333-365 | an error is worth retrying exactly when its chain has no context error and has a transient mark, or 429 or a status from 500 on as its outermost HTTP status, or a network error and no HTTP status |
| Retry.WrappingKeepsClass | pkg/googlefindmy/fcm/register.go:339-365 | wrapping keeps an error's class, and the transient mark makes it retryable unless a context error is inside |
| Retry.DoublingIff | pkg/googlefindmy/fcm/register.go:403-406 | doubling a delay below 2^62 gives the capped double; from 2^62 on it gives a delay whose wait panics |
| Retry.NominalClosed | pkg/googlefindmy/fcm/register.go:379-406 | the nominal delays are the base and then min(base*2^i, max), base 0 and a base above the cap included |
| Retry.ScheduleIff | pkg/googlefindmy/fcm/register.go:394-406 | for every 64-bit configuration, negative ones included: none of the first n waits panics if and only if no nominal delay is below -1 and none that is doubled for a further wait reaches 2^62; then all delays are nominal |
| Retry.NominalIff | pkg/googlefindmy/fcm/register.go:394-406 | with base and cap not negative, the delays of the first n waits are the nominal ones if and only if no nominal delay that is still doubled reaches 2^62 |
| Retry.RetryWith | pkg/googlefindmy/fcm/register.go:378-409 | for every configuration: at most `attempts` calls, every non-final one failed transiently, the context checked before every call and during every wait, each wait between half its delay and twice that half, and one of six endings with exactly its condition and result, a panic of the random call among them |
| Retry.WaitBounds | pkg/googlefindmy/fcm/register.go:394 | each wait is at least half its delay, rounded down, and at most the delay; the random call panics exactly for delays of -2 and below |
| Retry.TotalWait | pkg/googlefindmy/fcm/register.go:394-407 | when the nominal delays fit, the total wait is at most their sum |
| Retry.FcmRetryBound | pkg/googlefindmy/fcm/register.go:374 | the configuration in use never panics and waits at most 91 seconds in all |

## Left out

- AES, SHA-256, HKDF, GCM, P-256 and Go's generic curve arithmetic: foreign code, taken as the function parameters described above.
- Primality of the two secp160r1 moduli, associativity of its point addition and the order of its generator: assumed through `Curve.ValidCurve` and `Report.PublishedCurveSetup`.
- Web-push content decryption and its padding (pkg/googlefindmy/fcm/push.go:496-644): layering over standard primitives; its outcome is `McsClient.Codec.decrypt`.
- Protobuf marshalling and unmarshalling errors: payloads are opaque bytes under a tag.
- The heartbeat sent on a read timeout (pkg/googlefindmy/fcm/push.go:255-260): read errors reach that type assertion wrapped, so every read error ends the loop.
- The watcher goroutine that closes the connection on cancellation (pkg/googlefindmy/fcm/push.go:231-237): in `PushProtocol` a disconnect is a step that can happen at any time; its effect on a later connection is not covered.
- Persistence of the remembered ids across restarts of the client process: the source keeps them in memory only.
- The backoff timer of `Run` (pkg/googlefindmy/fcm/push.go:296-316): timing only; its bounded doubling, from constants, is the easier form of the one in `Retry`.
- McsClient.MCSClient.Listen: does not cover another goroutine calling `Close` during the loop, because the class is modelled with one thread; `PushProtocol` covers lost connections at every step.
- SecretsStore.Store.Load: models a read failure only as an error result, because the path is proved never to hold a partial record on a sound disk.
- JSON encoding of the secrets: a record is opaque once marshalled; re-indenting raw fields is not modelled.
- Several `Store` values or processes on one path: the lock is per value, so the results are for one `Store`.
- `Truncate`, `Safe` and `NewStore`: single expressions or directory creation.
- Retry.WrappingKeepsClass: error chains are single-linked; joined errors are not modelled.
- ListSpecs.ExtractExact: strings are sequences of code points and regular-expression search is written out for the two patterns in use.
- Key backup, gRPC framing, HTTP clients, browser, maps and saved-list discovery code: thin layers over libraries or easier than what is modelled.
- Timing behaviour of any kind.
