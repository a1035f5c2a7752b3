# Jabit Bitmessage node: verified model of the wire core

This project models the parts of the Jabit Bitmessage node that turn bytes
into protocol objects and back, and proves their properties in Dafny. It
covers four areas:

- **The protocol-v3 frame decoders.** There are two versions:
  - the Kotlin `V3MessageFactory` (`KotlinFactory`);
  - the older Java one (`JavaFactory`).

  Both find or test the four magic bytes, then read:
  - the NUL-padded 12-byte command;
  - the payload length, which only the Kotlin version caps;
  - the 4-byte checksum, compared against SHA-512 of the payload;
  - the payload itself, dispatched on the command to the `version`, `addr`, `inv`, `getdata` and `object` parsers.

  The parsers the two decoders share are in `Messages`. Each decoder is
  modelled as written, differences included.
- **Proof of work** (`Security`): the hashcash target `2^64 / (ntpb · (L + L·TTL/2^16))`, computed in exact integer arithmetic with Java's truncating division. It also covers the check of a received object and the nonce search that mines one.
- **Payload serialisers:**
  - the Kotlin `V2Pubkey` (`KotlinPubkey`);
  - the Java `V2Pubkey`, `V3Pubkey` and `V4Pubkey` (`JavaPubkeys`);
  - the `ProofOfWorkRequest` of the proof-of-work server extension (`PowRequest`).
- **Utilities:**
  - `Property` (`PropertyTree`), a name tree with path lookup and a JSON-like rendering;
  - `UnixTime`.

Supporting modules:

- `Wire` holds the integer widths, big-endian and var_int encodings, and the results with their error causes.
- `Streams` holds an `InputStream` cursor (`ByteStream`), an `OutputStream` (`OutputSink`) and a `ByteBuffer` over an array. It also has a small algebra of "puts" (`Put`, `StreamRun`, `BufferRun`) that says what a sequence of write calls emits, and where it stops when a call throws.
- `Frames` holds the command-field scan shared by both `getCommand`s.

Every stream reader is a method on `ByteStream`. It is proved equal to a function of the input bytes and the start position, and that function says where the cursor stops on success and on failure alike. Every writer is a method proved to emit the `StreamRun` or `BufferRun` of its list of calls. Lemmas then relate those runs to the readers.

Things the model takes as parameters or leaves abstract:

- SHA-512 is a parameter `sha512: bytes -> Digest`, and the clock is `nowMillis`.
- The object payload factory is a parameter `PayloadFactory`, and so is the custom message reader.
- The hash codes of the sender and of the enum constant are parameters.

## Model

| member | source | states |
|---|---|---|
| KotlinFactory.FindMagicSpec | core/src/main/kotlin/ch/dissem/bitmessage/factory/V3MessageFactory.kt:199-215 | findMagic reads at most the scan bound. It fails with NodeException at min(start + bound, end of input), or stops after a window whose last bytes are MAGIC's last two |
| KotlinFactory.ScanFrom | core/src/main/kotlin/ch/dissem/bitmessage/factory/V3MessageFactory.kt:203-213 | the scan state after k bytes: while scanning it is below 4 and remembers the bytes that led to it; once found, the last bytes read are a MAGIC tail |
| KotlinFactory.FoundStays | core/src/main/kotlin/ch/dissem/bitmessage/factory/V3MessageFactory.kt:203-213 | once the scan has found magic, later bytes never change the answer |
| KotlinFactory.StaysAtOne | core/src/main/kotlin/ch/dissem/bitmessage/factory/V3MessageFactory.kt:203-213 | on the shifted-magic stream the scan is stuck at state 1 from byte 3 onward |
| KotlinFactory.FindMagic | core/src/main/kotlin/ch/dissem/bitmessage/factory/V3MessageFactory.kt:199-215 | the loop over `pos` equals FindMagicSpec, both in result and in where the cursor stops |
| KotlinFactory.FindMagicAligned | core/src/main/kotlin/ch/dissem/bitmessage/factory/V3MessageFactory.kt:199-215 | a stream that begins with MAGIC returns after exactly 4 bytes |
| KotlinFactory.FindMagicMissesShiftedMagic | core/src/main/kotlin/ch/dissem/bitmessage/factory/V3MessageFactory.kt:203-213 | as written, one junk byte before MAGIC is never resynchronised: the scan runs to the end and fails |
| KotlinFactory.FindMagicAcceptsNonMagic | core/src/main/kotlin/ch/dissem/bitmessage/factory/V3MessageFactory.kt:203-213 | as written, any first byte followed by MAGIC's last three bytes is accepted as magic |
| KotlinFactory.GetCommand | core/src/main/kotlin/ch/dissem/bitmessage/factory/V3MessageFactory.kt:185-197 | the 12-byte loop equals CommandSpec and leaves the cursor where it says |
| KotlinFactory.CommandMeaning | core/src/main/kotlin/ch/dissem/bitmessage/factory/V3MessageFactory.kt:185-197 | it fails exactly when a non-NUL byte follows a NUL. Otherwise it consumes 12 bytes and returns the bytes before the first NUL, or all 12 |
| KotlinFactory.CommandSpec | core/src/main/kotlin/ch/dissem/bitmessage/factory/V3MessageFactory.kt:185-197 | getCommand either fails on broken NUL padding, or consumes min(12, bytes left) and returns at most 12 characters, none of them NUL |
| KotlinFactory.CommandRoundTrip | core/src/main/kotlin/ch/dissem/bitmessage/factory/V3MessageFactory.kt:185-197 | a NUL-padded command name of up to 12 characters reads back as itself |
| KotlinFactory.TestChecksum | core/src/main/kotlin/ch/dissem/bitmessage/factory/V3MessageFactory.kt:180-183 | true exactly when the checksum equals the leading bytes of sha512(payload) |
| KotlinFactory.ReadObject | core/src/main/kotlin/ch/dissem/bitmessage/factory/V3MessageFactory.kt:78-107 | the object reader equals ObjectSpec, with the cursor where it says |
| Messages.ObjectHeaderSpec | core/src/main/kotlin/ch/dissem/bitmessage/factory/V3MessageFactory.kt:80-85 | the header reads (8 bytes of nonce, int64 expiry, uint32 type, var_int version and stream) take at least 22 bytes, never past the end of the input, and the nonce is the first 8 of them |
| KotlinFactory.ObjectSpec | core/src/main/kotlin/ch/dissem/bitmessage/factory/V3MessageFactory.kt:78-107 | a decoded object ends exactly `length` bytes after its start, within the input; its nonce is the 8 bytes at the start and its expiry and type are the int64 and uint32 read after them |
| KotlinFactory.ObjectHandsRemainder | core/src/main/kotlin/ch/dissem/bitmessage/factory/V3MessageFactory.kt:78-107 | the payload parser gets exactly length minus the header bytes. A parser failure becomes a GenericPayload holding version, stream and those raw bytes. A header longer than `length` fails with NegativeArraySize |
| KotlinFactory.PayloadOfCommand | core/src/main/kotlin/ch/dissem/bitmessage/factory/V3MessageFactory.kt:61-74 | an unknown command gives a null payload and nothing else does |
| KotlinFactory.PayloadSpec | core/src/main/kotlin/ch/dissem/bitmessage/factory/V3MessageFactory.kt:61-74 | a non-null payload is of the kind its command names, and only the version, addr, inv, getdata, object and custom readers can fail |
| KotlinFactory.GetPayload | core/src/main/kotlin/ch/dissem/bitmessage/factory/V3MessageFactory.kt:61-74 | the dispatch equals PayloadSpec |
| KotlinFactory.Read | core/src/main/kotlin/ch/dissem/bitmessage/factory/V3MessageFactory.kt:41-59 | read equals ReadSpec, with the cursor where it says |
| KotlinFactory.ReadSpec | core/src/main/kotlin/ch/dissem/bitmessage/factory/V3MessageFactory.kt:41-59 | a decoded frame has consumed at least its 24-byte header, and the cursor never passes the end of the input |
| KotlinFactory.FrameHead | core/src/main/kotlin/ch/dissem/bitmessage/factory/V3MessageFactory.kt:41-46 | an encoded frame head yields its magic, command and length fields in order |
| KotlinFactory.ReadValidFrame | core/src/main/kotlin/ch/dissem/bitmessage/factory/V3MessageFactory.kt:41-59 | a well-formed frame within the cap decodes to its command's payload, null for an unknown command, and consumes 24 + length bytes |
| KotlinFactory.ReadChecksumMismatch | core/src/main/kotlin/ch/dissem/bitmessage/factory/V3MessageFactory.kt:53-58 | a wrong checksum fails with "Checksum failed" after the payload bytes are read |
| KotlinFactory.ReadOversize | core/src/main/kotlin/ch/dissem/bitmessage/factory/V3MessageFactory.kt:45-48 | a declared length above 1,600,003 fails with NodeException before the checksum is read |
| KotlinFactory.ReadNegativeLength | core/src/main/kotlin/ch/dissem/bitmessage/factory/V3MessageFactory.kt:44-52 | a length field of 2^31 or more is a negative `int` and fails when the payload array is made |
| JavaFactory.MagicFrom | domain/src/main/java/ch/dissem/bitmessage/factory/V3MessageFactory.java:188-193 | testMagic from byte i is true exactly when the remaining MAGIC bytes all match, and then it has read them all |
| JavaFactory.MagicStopsAtMismatch | domain/src/main/java/ch/dissem/bitmessage/factory/V3MessageFactory.java:188-193 | testMagic stops reading right after the first byte that differs |
| JavaFactory.TestMagic | domain/src/main/java/ch/dissem/bitmessage/factory/V3MessageFactory.java:188-193 | the loop returns whether the next 4 bytes (0xFF past the end) are MAGIC, and leaves the cursor where TestMagicSpec says |
| JavaFactory.TestMagicSpec | domain/src/main/java/ch/dissem/bitmessage/factory/V3MessageFactory.java:188-193 | testMagic never throws, and returns true exactly when the next 4 bytes are MAGIC |
| JavaFactory.GetCommand | domain/src/main/java/ch/dissem/bitmessage/factory/V3MessageFactory.java:174-186 | the loop equals CommandSpec and leaves the cursor where it says |
| JavaFactory.CommandMeaning | domain/src/main/java/ch/dissem/bitmessage/factory/V3MessageFactory.java:174-186 | it fails exactly when a non-NUL byte follows a NUL, or when there is no NUL at all (`end = -1`). Otherwise it returns the bytes before the first NUL |
| JavaFactory.CommandSpec | domain/src/main/java/ch/dissem/bitmessage/factory/V3MessageFactory.java:174-186 | getCommand fails on broken NUL padding or, with IndexOutOfBounds, when there is no NUL; otherwise it consumes min(12, bytes left) and returns fewer than 12 characters, none of them NUL |
| JavaFactory.CommandRoundTrip | domain/src/main/java/ch/dissem/bitmessage/factory/V3MessageFactory.java:174-186 | names under 12 characters read back; a 12-character name fails |
| JavaFactory.TestChecksum | domain/src/main/java/ch/dissem/bitmessage/factory/V3MessageFactory.java:164-172 | the early-exit loop returns true exactly when the checksum equals the leading bytes of sha512(payload) |
| JavaFactory.ParseObject | domain/src/main/java/ch/dissem/bitmessage/factory/V3MessageFactory.java:78-95 | parseObject equals ObjectSpec |
| JavaFactory.ObjectSpec | domain/src/main/java/ch/dissem/bitmessage/factory/V3MessageFactory.java:78-95 | a decoded object starts with a 22-byte header inside the input; its nonce is the 8 bytes at the start and its expiry and type are the int64 and uint32 read after them |
| JavaFactory.ObjectHandsWholeLength | domain/src/main/java/ch/dissem/bitmessage/factory/V3MessageFactory.java:78-95 | the payload factory gets the rest of the stream and the whole frame length, and its failure is the result's failure, with no fallback. Otherwise the object carries the nonce, version and stream read |
| JavaFactory.PayloadOfCommand | domain/src/main/java/ch/dissem/bitmessage/factory/V3MessageFactory.java:58-76 | an unknown command gives a null payload and nothing else does |
| JavaFactory.PayloadSpec | domain/src/main/java/ch/dissem/bitmessage/factory/V3MessageFactory.java:58-76 | a non-null payload is of the kind its command names, and only the version, addr, inv, getdata and object parsers can fail |
| JavaFactory.GetPayload | domain/src/main/java/ch/dissem/bitmessage/factory/V3MessageFactory.java:58-76 | the switch equals PayloadSpec |
| JavaFactory.Read | domain/src/main/java/ch/dissem/bitmessage/factory/V3MessageFactory.java:38-56 | read equals ReadSpec, with the cursor where it says |
| JavaFactory.ReadSpec | domain/src/main/java/ch/dissem/bitmessage/factory/V3MessageFactory.java:38-56 | read returns null exactly when the first 4 bytes are not MAGIC; a decoded frame has consumed at least its 24-byte header; the cursor never passes the end |
| JavaFactory.ReadBadMagic | domain/src/main/java/ch/dissem/bitmessage/factory/V3MessageFactory.java:38-41 | when the first 4 bytes are not MAGIC, read returns null without throwing |
| JavaFactory.FrameHead | domain/src/main/java/ch/dissem/bitmessage/factory/V3MessageFactory.java:38-43 | an encoded frame head yields its magic, command and length fields in order |
| JavaFactory.ReadValidFrame | domain/src/main/java/ch/dissem/bitmessage/factory/V3MessageFactory.java:38-56 | a well-formed frame decodes to a NetworkMessage wrapping its payload, and for an unknown command still to a NetworkMessage, with a null payload |
| JavaFactory.ReadChecksumMismatch | domain/src/main/java/ch/dissem/bitmessage/factory/V3MessageFactory.java:44-51 | a wrong checksum fails with IOException |
| Messages.ParseAddress | core/src/main/kotlin/ch/dissem/bitmessage/factory/V3MessageFactory.kt:158-178 | parseAddress equals AddressSpec, with the cursor where it says |
| Messages.AddressSpec | core/src/main/kotlin/ch/dissem/bitmessage/factory/V3MessageFactory.kt:158-178 | parseAddress never moves the cursor past the end of the input |
| Messages.AddressConsumes | core/src/main/kotlin/ch/dissem/bitmessage/factory/V3MessageFactory.kt:158-178 | light form reads 26 bytes with time and stream 0; full form reads 38; the IP is 16 bytes |
| Messages.AddressRoundTrip | core/src/main/kotlin/ch/dissem/bitmessage/factory/V3MessageFactory.kt:158-178 | an encoded address reads back, with time and stream zeroed in light form |
| Messages.ParseInventoryVector | core/src/main/kotlin/ch/dissem/bitmessage/factory/V3MessageFactory.kt:156 | reads one 32-byte vector |
| Messages.ReadVectors | core/src/main/kotlin/ch/dissem/bitmessage/factory/V3MessageFactory.kt:109-125 | the `for` loop equals `count` repetitions of the vector parser, stopping at the first failure |
| Messages.Repeat | core/src/main/kotlin/ch/dissem/bitmessage/factory/V3MessageFactory.kt:109-134 | a counted list parser never moves the cursor past the end of the input |
| Messages.VectorListSpec | core/src/main/kotlin/ch/dissem/bitmessage/factory/V3MessageFactory.kt:109-125 | the inv/getdata body (a var_int count, then the vectors) never moves the cursor past the end |
| Messages.AddrSpec | core/src/main/kotlin/ch/dissem/bitmessage/factory/V3MessageFactory.kt:127-134 | the addr body (a var_int count, then the full-form addresses) never moves the cursor past the end |
| Messages.VersionSpec | core/src/main/kotlin/ch/dissem/bitmessage/factory/V3MessageFactory.kt:136-154 | the version body never moves the cursor past the end |
| Messages.ReadAddresses | core/src/main/kotlin/ch/dissem/bitmessage/factory/V3MessageFactory.kt:127-134 | the `for` loop equals `count` repetitions of the full-form address parser |
| Messages.ParseInv | core/src/main/kotlin/ch/dissem/bitmessage/factory/V3MessageFactory.kt:118-125 | parseInv equals the counted vector list wrapped as Inv |
| Messages.ParseGetData | core/src/main/kotlin/ch/dissem/bitmessage/factory/V3MessageFactory.kt:109-116 | parseGetData equals the counted vector list wrapped as GetData |
| Messages.ParseAddr | core/src/main/kotlin/ch/dissem/bitmessage/factory/V3MessageFactory.kt:127-134 | parseAddr equals the counted full-form address list wrapped as Addr |
| Messages.ParseVersion | core/src/main/kotlin/ch/dissem/bitmessage/factory/V3MessageFactory.kt:136-154 | parseVersion equals VersionSpec wrapped as a version message |
| Messages.VectorsShape | core/src/main/kotlin/ch/dissem/bitmessage/factory/V3MessageFactory.kt:109-125 | `count` vectors are exactly `count` consecutive 32-byte slices in stream order, consuming 32·count bytes |
| Messages.VectorListRoundTrip | core/src/main/kotlin/ch/dissem/bitmessage/factory/V3MessageFactory.kt:109-125 | a var_int count followed by the vectors reads back as the same list |
| Messages.AddrRoundTrip | core/src/main/kotlin/ch/dissem/bitmessage/factory/V3MessageFactory.kt:127-134 | a var_int count followed by full-form addresses reads back as the same list |
| Messages.VarIntListRoundTrip | core/src/main/kotlin/ch/dissem/bitmessage/factory/V3MessageFactory.kt:144 | Decode.varIntList reads back a var_int count followed by that many var_ints, as the same list |
| Messages.VersionRoundTrip | core/src/main/kotlin/ch/dissem/bitmessage/factory/V3MessageFactory.kt:136-154 | a well-formed version payload (int32 version, int64 services and timestamp, two light-form addresses, int64 nonce, var_str user agent, var_int list of streams) reads back as the same message and consumes exactly its bytes |
| Messages.ObjectHeaderRoundTrip | core/src/main/kotlin/ch/dissem/bitmessage/factory/V3MessageFactory.kt:80-85 | an encoded object header reads back as the same header and consumes exactly its bytes |
| Messages.RepeatRoundTrip | core/src/main/kotlin/ch/dissem/bitmessage/factory/V3MessageFactory.kt:109-134 | repeating a parser that inverts an encoder reads back the concatenated encodings |
| Messages.CountedRoundTrip | core/src/main/kotlin/ch/dissem/bitmessage/factory/V3MessageFactory.kt:109-134 | the same, after a var_int count |
| Security.DoubleSha512 | domain/src/main/java/ch/dissem/bitmessage/utils/Security.java:45-51 | hashes the concatenation of all chunks, then hashes that digest |
| Security.Sha512 | domain/src/main/java/ch/dissem/bitmessage/utils/Security.java:122-128 | feeding every chunk to one digest and then digesting gives SHA-512 of the chunks concatenated |
| Security.MessageDigest.Update | domain/src/main/java/ch/dissem/bitmessage/utils/Security.java:45-51 | update appends its input to what the digest has buffered |
| Security.MessageDigest.DigestAll | domain/src/main/java/ch/dissem/bitmessage/utils/Security.java:45-51 | digest() hashes everything buffered and resets the digest |
| Security.MessageDigest.DigestWith | domain/src/main/java/ch/dissem/bitmessage/utils/Security.java:45-51 | digest(input) hashes the buffered bytes followed by input and resets the digest |
| Security.DoubleHashSplits | domain/src/main/java/ch/dissem/bitmessage/utils/Security.java:45-51 | how the data is split into chunks does not change the double hash |
| Security.FirstBytes | domain/src/main/java/ch/dissem/bitmessage/utils/Security.java:138-142 | bytes(data, n) is the first n bytes, NegativeArraySize for n < 0, IndexOutOfBounds for n > length |
| Security.TimeToLive | domain/src/main/java/ch/dissem/bitmessage/utils/Security.java:115 | for a non-negative clock and expiry, TTL is the expiry minus the whole seconds of the clock: (expiry − TTL)·1000 ≤ now < (expiry − TTL)·1000 + 1000 |
| Security.PowDenominator | domain/src/main/java/ch/dissem/bitmessage/utils/Security.java:118 | for ntpb > 0 and L > 0 the denominator is at least ntpb·L when TTL ≥ 0 and positive while TTL > −2^16; at TTL = −2^16 it is 0 |
| Security.Denominator | domain/src/main/java/ch/dissem/bitmessage/utils/Security.java:115-118 | with positive ntpb, non-negative extraBytes, a payload length plus extraBytes in (0, 2^63) and TTL above −2^16, the denominator is positive |
| Security.ProofOfWorkTarget | domain/src/main/java/ch/dissem/bitmessage/utils/Security.java:114-120 | fails with division by zero exactly when the denominator is 0; for a positive denominator the bytes, read unsigned, are the floor of 2^64 / denominator |
| Security.TargetValue | domain/src/main/java/ch/dissem/bitmessage/utils/Security.java:114-120 | fails with division by zero exactly for a zero denominator; for a positive one it is the floor of 2^64 / denominator, and for a negative one the quotient truncated toward zero, minus the floor of 2^64 divided by the absolute denominator |
| Security.TargetBytes | domain/src/main/java/ch/dissem/bitmessage/utils/Security.java:114-120 | the two's-complement bytes of the target read back, unsigned, as the quotient |
| Security.ToByteArray | domain/src/main/java/ch/dissem/bitmessage/utils/Security.java:119 | BigInteger.toByteArray: the shortest two's-complement big-endian form |
| Security.SignedLength | domain/src/main/java/ch/dissem/bitmessage/utils/Security.java:119 | the length of the shortest two's-complement form: the value fits in that many bytes and not in one fewer |
| Security.QuotientAntitone | domain/src/main/java/ch/dissem/bitmessage/utils/Security.java:118-119 | a larger positive denominator gives a smaller or equal target |
| Security.TargetAntitoneInTrials | domain/src/main/java/ch/dissem/bitmessage/utils/Security.java:114-120 | for L ≥ 1 and TTL ≥ 0 the target does not grow with nonceTrialsPerByte |
| Security.TargetAntitoneInTtl | domain/src/main/java/ch/dissem/bitmessage/utils/Security.java:114-120 | for L ≥ 1 and ntpb ≥ 1 the target does not grow with TTL |
| Security.ObjectTargetAntitone | domain/src/main/java/ch/dissem/bitmessage/utils/Security.java:114-120 | the same two facts for an object's target with its long arithmetic |
| Security.PowValueOfChunks | domain/src/main/java/ch/dissem/bitmessage/utils/Security.java:101-103 | the trial value is the first 8 bytes of doubleSha512(nonce, initialHash) |
| Security.InitialHash | domain/src/main/java/ch/dissem/bitmessage/utils/Security.java:110-112 | getInitialHash is SHA-512 of the payload bytes as a single chunk |
| Security.PowValue | domain/src/main/java/ch/dissem/bitmessage/utils/Security.java:101-103 | POWValue is exactly 8 bytes; PowValueOfChunks states which 8 |
| Security.CheckProofOfWork | domain/src/main/java/ch/dissem/bitmessage/utils/Security.java:96-112 | the check throws "Insufficient proof of work" exactly when target < trial value, and division by zero exactly when the target does; a null nonce throws |
| Security.CheckProofOfWorkNumeric | domain/src/main/java/ch/dissem/bitmessage/utils/Security.java:96-108 | numerically: it fails exactly when 2^64/denominator < the first 8 bytes of doubleSha512(nonce ‖ sha512(payload)) |
| Security.IncValue | domain/src/main/java/ch/dissem/bitmessage/utils/Security.java:80 | incrementing a big-endian byte string adds 1 modulo 256^length |
| Security.Inc | domain/src/main/java/ch/dissem/bitmessage/utils/Security.java:80 | the in-place carry loop over the array computes IncBytes |
| Security.NonceValue | domain/src/main/java/ch/dissem/bitmessage/utils/Security.java:77-83 | after k increments of the zeroed 8-byte nonce it holds k modulo 2^64, so the first nonce tried is 1 |
| Security.NonceIsBigEndian | domain/src/main/java/ch/dissem/bitmessage/utils/Security.java:77-83 | the nonce after k increments is the 8-byte big-endian encoding of k modulo 2^64 |
| Security.NextTrial | domain/src/main/java/ch/dissem/bitmessage/utils/Security.java:79-83 | one loop pass increments the nonce and computes its trial value through the reused digest |
| Security.SearchNonce | domain/src/main/java/ch/dissem/bitmessage/utils/Security.java:77-84 | the search stops at the first nonce whose trial does not exceed the target, every earlier one having exceeded it |
| Security.DoProofOfWork | domain/src/main/java/ch/dissem/bitmessage/utils/Security.java:67-88 | the nonce found is written into the object, and with the same clock the object then passes checkProofOfWork; a target failure is passed on |
| KotlinPubkey.Add0x04 | core/src/main/kotlin/ch/dissem/bitmessage/entity/payload/V2Pubkey.kt:37-38 | assumed behaviour of add0x04: 65 bytes unchanged, else 0x04 followed by the first 64, failing below 64 |
| KotlinPubkey.Normalise | core/src/main/kotlin/ch/dissem/bitmessage/entity/payload/V2Pubkey.kt:37-38 | a 64-byte key gains the 0x04 prefix; any other key is stored unchanged |
| KotlinPubkey.NormaliseIdempotent | core/src/main/kotlin/ch/dissem/bitmessage/entity/payload/V2Pubkey.kt:37-38 | normalising twice is normalising once |
| KotlinPubkey.NewV2Pubkey | core/src/main/kotlin/ch/dissem/bitmessage/entity/payload/V2Pubkey.kt:28-39 | the constructor keeps version, stream and bitfield and normalises both keys |
| KotlinPubkey.WriteOutput | core/src/main/kotlin/ch/dissem/bitmessage/entity/payload/V2Pubkey.kt:46-50 | write emits the 4-byte bitfield and bytes 1..64 of each key, 132 bytes, dropping each key's first byte; a key shorter than 65 bytes throws |
| KotlinPubkey.BufferWriteMatchesStream | core/src/main/kotlin/ch/dissem/bitmessage/entity/payload/V2Pubkey.kt:46-56 | with room for 132 bytes the ByteBuffer write emits what the stream write emits, and with less it overflows |
| KotlinPubkey.Writer.Write | core/src/main/kotlin/ch/dissem/bitmessage/entity/payload/V2Pubkey.kt:46-50 | the stream writer appends exactly the run of its three calls |
| KotlinPubkey.Writer.constructor | core/src/main/kotlin/ch/dissem/bitmessage/entity/payload/V2Pubkey.kt:42-44 | the writer holds the key it writes |
| KotlinPubkey.Writer.WriteBuffer | core/src/main/kotlin/ch/dissem/bitmessage/entity/payload/V2Pubkey.kt:52-56 | the buffer writer puts exactly the buffer run of its three calls |
| KotlinPubkey.Writer.WriteBytesToSign | core/src/main/kotlin/ch/dissem/bitmessage/entity/payload/V2Pubkey.kt:58-60 | writes nothing |
| KotlinPubkey.Writer.WriteUnencrypted | core/src/main/kotlin/ch/dissem/bitmessage/entity/payload/V2Pubkey.kt:62-64 | identical to write |
| KotlinPubkey.Writer.WriteUnencryptedBuffer | core/src/main/kotlin/ch/dissem/bitmessage/entity/payload/V2Pubkey.kt:66-68 | identical to the buffer write |
| KotlinPubkey.ReadSpec | core/src/main/kotlin/ch/dissem/bitmessage/entity/payload/V2Pubkey.kt:110-118 | read succeeds exactly when 132 bytes remain, consumes them, and yields version 2, the given stream and two 65-byte keys |
| KotlinPubkey.Read | core/src/main/kotlin/ch/dissem/bitmessage/entity/payload/V2Pubkey.kt:110-118 | the reader equals ReadSpec, with the cursor where it says |
| KotlinPubkey.WriteReadRoundTrip | core/src/main/kotlin/ch/dissem/bitmessage/entity/payload/V2Pubkey.kt:46-50 | read(write(k)) == k for a version 2 key with 65-byte 0x04-prefixed keys |
| KotlinPubkey.ReadWriteRoundTrip | core/src/main/kotlin/ch/dissem/bitmessage/entity/payload/V2Pubkey.kt:110-118 | write(read(b)) == b for any 132 bytes |
| KotlinPubkey.BitfieldRoundTrip | core/src/main/kotlin/ch/dissem/bitmessage/entity/payload/V2Pubkey.kt:113 | the 4-byte bitfield read as an `int` is written back as the same 4 bytes |
| KotlinPubkey.Builder.Build | core/src/main/kotlin/ch/dissem/bitmessage/entity/payload/V2Pubkey.kt:98-106 | build fails with NullPointer when a key was never set and with IndexOutOfBounds when one is under 64 bytes. Otherwise it yields version 2 with the builder's stream and bitfield, and each key is add0x04 of the one given: 65 bytes unchanged, else 0x04 followed by the first 64 |
| KotlinPubkey.Builder.constructor | core/src/main/kotlin/ch/dissem/bitmessage/entity/payload/V2Pubkey.kt:72-76 | a new builder has stream and bitfield 0 and no keys |
| KotlinPubkey.Builder.Stream | core/src/main/kotlin/ch/dissem/bitmessage/entity/payload/V2Pubkey.kt:78-81 | sets the stream number and nothing else |
| KotlinPubkey.Builder.BehaviorBitfield | core/src/main/kotlin/ch/dissem/bitmessage/entity/payload/V2Pubkey.kt:83-86 | sets the bitfield and nothing else |
| KotlinPubkey.Builder.PublicSigningKey | core/src/main/kotlin/ch/dissem/bitmessage/entity/payload/V2Pubkey.kt:88-91 | sets the signing key and nothing else |
| KotlinPubkey.Builder.PublicEncryptionKey | core/src/main/kotlin/ch/dissem/bitmessage/entity/payload/V2Pubkey.kt:93-96 | sets the encryption key and nothing else |
| KotlinPubkey.BuiltKeyRoundTrip | core/src/main/kotlin/ch/dissem/bitmessage/entity/payload/V2Pubkey.kt:98-118 | a key built from keys of at least 64 bytes, each either not 65 bytes long or starting with 0x04, is canonical, and written and read back it is the same key |
| KotlinPubkey.OtherFirstByteLost | core/src/main/kotlin/ch/dissem/bitmessage/entity/payload/V2Pubkey.kt:98-118 | a 65-byte signing key whose first byte is not 0x04 is kept by build, but the write drops that byte and the read puts 0x04 in its place, so the key does not come back |
| PowRequest.ValueOf | extensions/src/main/kotlin/ch/dissem/bitmessage/extensions/pow/ProofOfWorkRequest.kt:82-86 | only CALCULATE, CALCULATING and COMPLETE decode; any other name fails |
| PowRequest.NameBytes | extensions/src/main/kotlin/ch/dissem/bitmessage/extensions/pow/ProofOfWorkRequest.kt:45 | the encoded name decodes as the name |
| PowRequest.ValueOfName | extensions/src/main/kotlin/ch/dissem/bitmessage/extensions/pow/ProofOfWorkRequest.kt:82-86 | valueOf(name) gives back every request: the names are a bijection |
| PowRequest.WriteOutput | extensions/src/main/kotlin/ch/dissem/bitmessage/extensions/pow/ProofOfWorkRequest.kt:43-47 | write emits the raw initialHash, var_str(name) and var_bytes(data), and never fails |
| PowRequest.BufferWriteMatchesStream | extensions/src/main/kotlin/ch/dissem/bitmessage/extensions/pow/ProofOfWorkRequest.kt:43-53 | with room for it, the ByteBuffer write emits the same bytes |
| PowRequest.DefaultDataEncoding | extensions/src/main/kotlin/ch/dissem/bitmessage/extensions/pow/ProofOfWorkRequest.kt:35 | the default empty data is written as a single zero length byte |
| PowRequest.Writer.Write | extensions/src/main/kotlin/ch/dissem/bitmessage/extensions/pow/ProofOfWorkRequest.kt:43-47 | the stream writer appends exactly the run of its five calls |
| PowRequest.Writer.constructor | extensions/src/main/kotlin/ch/dissem/bitmessage/extensions/pow/ProofOfWorkRequest.kt:37-40 | the writer holds the request it writes |
| PowRequest.Writer.WriteBuffer | extensions/src/main/kotlin/ch/dissem/bitmessage/extensions/pow/ProofOfWorkRequest.kt:49-53 | the buffer writer puts exactly the buffer run of its five calls |
| PowRequest.ReadSpec | extensions/src/main/kotlin/ch/dissem/bitmessage/extensions/pow/ProofOfWorkRequest.kt:90-97 | read takes exactly 64 bytes of hash, then a name and the data, with the given sender |
| PowRequest.ReadRequestName | extensions/src/main/kotlin/ch/dissem/bitmessage/extensions/pow/ProofOfWorkRequest.kt:94 | an unknown name fails in valueOf right after it is read; a known one becomes the request |
| PowRequest.ReadRequest | extensions/src/main/kotlin/ch/dissem/bitmessage/extensions/pow/ProofOfWorkRequest.kt:90-97 | the reader equals ReadSpec, with the cursor where it says |
| PowRequest.Reader.Read | extensions/src/main/kotlin/ch/dissem/bitmessage/extensions/pow/ProofOfWorkRequest.kt:57-61 | ignores its sender argument and uses the reader's identity |
| PowRequest.Reader.constructor | extensions/src/main/kotlin/ch/dissem/bitmessage/extensions/pow/ProofOfWorkRequest.kt:57 | the reader holds the identity it reads for |
| PowRequest.Equals | extensions/src/main/kotlin/ch/dissem/bitmessage/extensions/pow/ProofOfWorkRequest.kt:64-72 | equals holds exactly when the other object is a request with the same sender, the same hash contents, the same request and the same data contents; it is false for null |
| PowRequest.EqualHashCodes | extensions/src/main/kotlin/ch/dissem/bitmessage/extensions/pow/ProofOfWorkRequest.kt:64-80 | equal requests have equal hash codes |
| PowRequest.HashCode | extensions/src/main/kotlin/ch/dissem/bitmessage/extensions/pow/ProofOfWorkRequest.kt:74-80 | hashCode is 31^3·h(sender) + 31^2·h(initialHash) + 31·h(request) + h(data), wrapped to a 32-bit int |
| PowRequest.WriteReadRoundTrip | extensions/src/main/kotlin/ch/dissem/bitmessage/extensions/pow/ProofOfWorkRequest.kt:43-47 | for a 64-byte hash, read(sender, write(x)) is `equals` to x |
| JavaPubkeys.Version | domain/src/main/java/ch/dissem/bitmessage/entity/payload/V2Pubkey.java:43-46 | getVersion is 2, 3 or 4 exactly for the V2, V3 and V4 classes |
| JavaPubkeys.SigningKey | domain/src/main/java/ch/dissem/bitmessage/entity/payload/V4Pubkey.java:74-77 | getSigningKey returns the stored key; a V4 key delegates and throws when nothing is decrypted |
| JavaPubkeys.EncryptionKey | domain/src/main/java/ch/dissem/bitmessage/entity/payload/V4Pubkey.java:79-82 | the same for getEncryptionKey |
| JavaPubkeys.V2WriteOutput | domain/src/main/java/ch/dissem/bitmessage/entity/payload/V2Pubkey.java:63-68 | write emits the 4-byte bitfield, then each key whole, 4 + both key lengths; a null key throws there |
| JavaPubkeys.V3TailOutput | domain/src/main/java/ch/dissem/bitmessage/entity/payload/V3Pubkey.java:46-49 | after the V2 layout come var_int(ntpb), var_int(extraBytes), var_int(signature length) and the signature; a null signature throws after the two parameters |
| JavaPubkeys.V3WriteOutput | domain/src/main/java/ch/dissem/bitmessage/entity/payload/V3Pubkey.java:43-50 | the V3 output is the V2 output and the tail, and its length is the V2 length plus the three var_int sizes and the signature length |
| JavaPubkeys.V3AfterV2 | domain/src/main/java/ch/dissem/bitmessage/entity/payload/V3Pubkey.java:43-50 | what super.write emitted is the start of the V3 run, and a failure in it is the failure of the whole write |
| JavaPubkeys.UnsignedV3WriteFails | domain/src/main/java/ch/dissem/bitmessage/entity/payload/V3Pubkey.java:48-49 | a key whose signature was never set cannot be written |
| JavaPubkeys.WriteV2 | domain/src/main/java/ch/dissem/bitmessage/entity/payload/V2Pubkey.java:63-68 | the writer appends exactly the run of its three calls |
| JavaPubkeys.WriteV3 | domain/src/main/java/ch/dissem/bitmessage/entity/payload/V3Pubkey.java:43-50 | super.write followed by the four V3 calls appends exactly the run of the V3 call list |
| JavaPubkeys.WriteV4 | domain/src/main/java/ch/dissem/bitmessage/entity/payload/V4Pubkey.java:54-58 | the writer appends the tag, then the ciphertext |
| JavaPubkeys.Write | domain/src/main/java/ch/dissem/bitmessage/entity/payload/V4Pubkey.java:54-58 | the write of any of the three classes appends its own call run |
| JavaPubkeys.ReadV4Spec | domain/src/main/java/ch/dissem/bitmessage/entity/payload/V4Pubkey.java:50-52 | read takes 32 bytes of tag and then `length - 32` (an `int`) bytes of ciphertext, with the given stream and nothing decrypted; a length below 32 fails with NegativeArraySize |
| JavaPubkeys.V4ReadWrite | domain/src/main/java/ch/dissem/bitmessage/entity/payload/V4Pubkey.java:50-58 | write(read(b, s, length of b)) == b for b of at least 32 bytes |
| JavaPubkeys.V4WriteRead | domain/src/main/java/ch/dissem/bitmessage/entity/payload/V4Pubkey.java:50-58 | a key with a 32-byte tag and nothing decrypted, written and read back with its stream and length, is the same key |
| JavaPubkeys.V4FromV3 | domain/src/main/java/ch/dissem/bitmessage/entity/payload/V4Pubkey.java:43-48 | the stream and key getters agree with the decrypted key; tag and ciphertext are null, so write throws and emits nothing |
| JavaPubkeys.ReadV4HasNoKeys | domain/src/main/java/ch/dissem/bitmessage/entity/payload/V4Pubkey.java:74-82 | for a key built by read, both key getters throw, and getVersion is 4 |
| JavaPubkeys.V2Builder.Build | domain/src/main/java/ch/dissem/bitmessage/entity/payload/V2Pubkey.java:36-41 | the getters of the built key return exactly what was given to the builder, and the version is 2 |
| JavaPubkeys.V2Builder.constructor | domain/src/main/java/ch/dissem/bitmessage/entity/payload/V2Pubkey.java:70-77 | a new builder has stream and bitfield 0 and no keys |
| JavaPubkeys.V2Builder.StreamNumber | domain/src/main/java/ch/dissem/bitmessage/entity/payload/V2Pubkey.java:79-82 | sets the stream number and nothing else |
| JavaPubkeys.V2Builder.BehaviorBitfield | domain/src/main/java/ch/dissem/bitmessage/entity/payload/V2Pubkey.java:84-87 | sets the bitfield and nothing else |
| JavaPubkeys.V2Builder.PublicSigningKey | domain/src/main/java/ch/dissem/bitmessage/entity/payload/V2Pubkey.java:89-92 | sets the signing key, null included, and nothing else |
| JavaPubkeys.V2Builder.PublicEncryptionKey | domain/src/main/java/ch/dissem/bitmessage/entity/payload/V2Pubkey.java:94-97 | sets the encryption key, null included, and nothing else |
| JavaPubkeys.V3Builder.Build | domain/src/main/java/ch/dissem/bitmessage/entity/payload/V3Pubkey.java:32-41 | the constructor copies all seven builder fields unchanged, and the version is 3 |
| JavaPubkeys.V3Builder.constructor | domain/src/main/java/ch/dissem/bitmessage/entity/payload/V3Pubkey.java:57-68 | a new builder has every number 0 and no keys or signature |
| JavaPubkeys.V3Builder.StreamNumber | domain/src/main/java/ch/dissem/bitmessage/entity/payload/V3Pubkey.java:70-73 | sets the stream number only |
| JavaPubkeys.V3Builder.BehaviorBitfield | domain/src/main/java/ch/dissem/bitmessage/entity/payload/V3Pubkey.java:75-78 | sets the bitfield only |
| JavaPubkeys.V3Builder.PublicSigningKey | domain/src/main/java/ch/dissem/bitmessage/entity/payload/V3Pubkey.java:80-83 | sets the signing key only |
| JavaPubkeys.V3Builder.PublicEncryptionKey | domain/src/main/java/ch/dissem/bitmessage/entity/payload/V3Pubkey.java:85-88 | sets the encryption key only |
| JavaPubkeys.V3Builder.NonceTrialsPerByte | domain/src/main/java/ch/dissem/bitmessage/entity/payload/V3Pubkey.java:90-93 | sets nonceTrialsPerByte only |
| JavaPubkeys.V3Builder.ExtraBytes | domain/src/main/java/ch/dissem/bitmessage/entity/payload/V3Pubkey.java:95-98 | sets extraBytes only |
| JavaPubkeys.V3Builder.Signature | domain/src/main/java/ch/dissem/bitmessage/entity/payload/V3Pubkey.java:100-103 | sets the signature only |
| PropertyTree.Leaf | core/src/main/kotlin/ch/dissem/bitmessage/utils/Property.kt:34 | the value constructor makes a leaf with no children, in which every lookup finds nothing |
| PropertyTree.Node | core/src/main/kotlin/ch/dissem/bitmessage/utils/Property.kt:35-36 | the child constructors set the value to null, and each child is found by its own name |
| PropertyTree.FirstNamed | core/src/main/kotlin/ch/dissem/bitmessage/utils/Property.kt:43-45 | the first child with the name, or none when no child has it |
| PropertyTree.GetProperty | core/src/main/kotlin/ch/dissem/bitmessage/utils/Property.kt:42-52 | the node reached carries the last path element as its name. Null when no child matches. Throws only for an empty path on a node with children |
| PropertyTree.GetPropertyStep | core/src/main/kotlin/ch/dissem/bitmessage/utils/Property.kt:43-50 | one step descends into the first child named by the path's head |
| PropertyTree.GetPropertyCompose | core/src/main/kotlin/ch/dissem/bitmessage/utils/Property.kt:42-52 | looking up a + b is looking up a, then b from the node reached |
| PropertyTree.FirstMatchWins | core/src/main/kotlin/ch/dissem/bitmessage/utils/Property.kt:43-50 | siblings after the first match, whatever their names, never change the answer |
| PropertyTree.FirstNamedAppend | core/src/main/kotlin/ch/dissem/bitmessage/utils/Property.kt:43-45 | appending children after a match leaves the first match unchanged |
| PropertyTree.AsJson | core/src/main/kotlin/ch/dissem/bitmessage/utils/Property.kt:74-82 | asJson only throws from the reduce of an empty collection |
| PropertyTree.ToJson | core/src/main/kotlin/ch/dissem/bitmessage/utils/Property.kt:58-72 | the rendering starts with the indentation and `"name": `; the final `null` branch is unreachable |
| PropertyTree.ToString | core/src/main/kotlin/ch/dissem/bitmessage/utils/Property.kt:54-56 | toString is toJson("") and starts with `"name": ` |
| PropertyTree.ToJsonSucceeds | core/src/main/kotlin/ch/dissem/bitmessage/utils/Property.kt:58-82 | rendering throws exactly when it reaches an empty collection; children of a node with a value are not rendered |
| PropertyTree.AsJsonSucceeds | core/src/main/kotlin/ch/dissem/bitmessage/utils/Property.kt:74-82 | a value renders exactly when no collection inside it is empty |
| PropertyTree.JoinItems | core/src/main/kotlin/ch/dissem/bitmessage/utils/Property.kt:78-80 | joining a collection's items can only fail on an empty collection inside one of them |
| PropertyTree.JoinChildren | core/src/main/kotlin/ch/dissem/bitmessage/utils/Property.kt:64-67 | joining the children can only fail on an empty collection inside one of them |
| PropertyTree.JoinChildrenHolds | core/src/main/kotlin/ch/dissem/bitmessage/utils/Property.kt:64-67 | every child of a rendered list is rendered, and its text occurs in the joined text at an offset it returns |
| PropertyTree.ChildRendered | core/src/main/kotlin/ch/dissem/bitmessage/utils/Property.kt:64-67 | a node with children and no value contains each child's rendering at indentation + 2 spaces |
| PropertyTree.LeafRendering | core/src/main/kotlin/ch/dissem/bitmessage/utils/Property.kt:61-63 | a leaf renders as `"name": ` followed by asJson(value), and a null value as `null` |
| PropertyTree.SingleChildRendering | core/src/main/kotlin/ch/dissem/bitmessage/utils/Property.kt:64-67 | a single child appears between `{` and `}` at indentation + 2 spaces |
| UnixTime.Lengths | core/src/main/kotlin/ch/dissem/bitmessage/utils/UnixTime.kt:26-34 | MINUTE = 60, HOUR = 60·MINUTE = 3600, DAY = 24·HOUR = 86400 |
| UnixTime.Now | core/src/main/kotlin/ch/dissem/bitmessage/utils/UnixTime.kt:39-42 | for millis ≥ 0, now·1000 ≤ millis < now·1000 + 1000, truncating toward zero for negative millis |
| UnixTime.NowMonotone | core/src/main/kotlin/ch/dissem/bitmessage/utils/UnixTime.kt:41 | now does not decrease as the clock advances |

## Left out

- SHA-512 is a parameter `bytes -> Digest` with a 64-byte result; its computation is not modelled.
- `System.currentTimeMillis()` is the parameter `nowMillis` (Security) or `millis` (UnixTime).
- Logging calls are left out.
- `Factory.getObjectPayload` and `CustomMessage.read` are not part of this model. They are parameters. A `Failure` stands for any exception they throw.
- The `Version`, `Addr` and `Inv` builders are modelled as datatype constructors.
- `Decode`/`Encode` are not part of this model. Their assumed behaviour is stated as functions in `Wire`:
  - fixed-width integers are big-endian;
  - `var_int` follows the Bitmessage protocol;
  - `var_str`/`var_bytes` are a var_int length followed by the bytes;
  - reading past the end fails with EndOfStream.

  A fixed-width integer or a var_int is written in one call. A `var_str` or
  `var_bytes` is two calls: the var_int length, then the bytes. A writer that
  fails between the two has emitted the length only.
- A var_int is decoded as an unsigned number below 2^64. The reinterpretation of values of 2^63 and up as a negative JVM `long` is not modelled.
- Messages.VersionSpec: the user agent is kept as the bytes of its var_str. Turning them into a String is not modelled.
- `var_str` decoding maps bytes below 128 to the same character and any other byte to U+FFFD. Multi-byte UTF-8 decoding is not modelled.
- `Bytes.inc` and `Bytes.lt` are not part of this model. `inc` is an in-place big-endian increment with carry, and `lt` is an unsigned comparison.
- `add0x04` is not part of this model. `KotlinPubkey.Add0x04` states its assumed behaviour.
- Security.SearchNonce: the do-while of doProofOfWork is unbounded. The model cuts it off after `fuel` trials and returns `GaveUp`, so it says nothing about termination.
- JavaFactory.ParseObject: where the Java stream is left after the payload factory consumed part of it is not modelled, because the factory's consumption is unknown. The decoder's result does not depend on it.
- `BitmessageAddress` (the request's sender) is a type parameter. Its `hashCode` and the enum's `hashCode` are parameters of `PowRequest.HashCode`.
- A JVM array is far shorter than 2^64 bytes. `PowRequest` states this as a precondition on the data length.
- `JavaPubkeys` limits arrays to 2^31 bytes through the `JBytes` type.
- PropertyTree.AsJson: `Number.toString` and the `toString` of other objects are abstract. The text is carried in the value (`Number(digits)`, `Text(s)`). A `Collection` is a sequence of values.
- JavaPubkeys.Stream has no contract of its own. What it returns is stated through `V4FromV3` and the builders.
- `getTag` and the other plain field reads of V4Pubkey are the datatype's fields.
- The V4 private constructor is the datatype constructor.
- Multi-threading, sockets and databases are outside the modelled core.
