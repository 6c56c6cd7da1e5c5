# Timelocked: a verified model

Timelocked locks a file behind a time-lock puzzle, optionally with a passphrase, and writes a container
that survives limited damage. Its promise is that a container *unlocks to the exact original bytes or
fails explicitly*. This Dafny project models the whole path, from creating a puzzle over writing, damage
and parsing to the unlock loop and the password prompt, and proves that promise.

`dafny verify dfyconfig.toml` checks everything.

## How the model is built

| files | what they model |
|---|---|
| `Base`, `Utf8`, `Streams` | results and errors, fixed-width integers, exclusive or; which bytes are text; readers with an arbitrary schedule of short reads, writers |
| `NumberTheory`, `TimelockPuzzle`, `PuzzleCreation` | the repeated-squaring puzzle: trapdoor, solver loop with its token and progress, prime and base searches; Fermat's theorem and the combination of congruences are proved, not assumed |
| `ChunkFrame`, `ProtectedStream`, `StreamShape` | chunk frames, associated data, encryption with one chunk of look-ahead, decryption, the structural scan and what it accepts |
| `ReedSolomon`, `PayloadRegion` | the codec behind a contract, shard records, striping, padding, erasure recovery |
| `FieldTower`, `Polynomials`, `PolynomialCodec` | a concrete code that meets the codec's contract, over a field of 256 elements built from bits |
| `PasswordProtection`, `SuperblockBody`, `CanonicalForm`, `Superblock`, `Notice`, `Reader`, `Writer` | key wrapping, the superblock printer and parser, its two copies, the notice and the rescue scan, reading and writing a container |
| `Format`, `Truncation` | the stored bytes field by field, as `docs/binary-file-format.md` lays them out, with the place of every chunk and every shard; superblocks that break off |
| `Recovery`, `EndToEnd` | recovery with a key, verification, and what a written file guarantees |
| `OutputPath`, `Unlock`, `LockFlow`, `LockUnlock` | output names, the unlock flow with its attempts and files, the lock flow, and both together |
| `PromptProtocol` | worker thread and user interface as interleaved steps over an event queue, reply channels and a cancellation flag; the worker runs the unlock flow |
| `Instances` | nothing is assumed in vain: a cipher and a codec for which all hypotheses hold |

Code that loops over buffers, readers, the token or the files is modelled by methods and classes that
are proved against functions; the theorems are about those functions, so the methods have them too.
Short lemmas that are not listed below fix what has no theorem of its own to literals: the order and widths
of the stored fields (`Format.FileLayout`, `Format.BodyLayout`), the kinds of errors
(`Truncation.ValidationReports`, `ReedSolomon.ShardsRefused`, `Unlock.PreparationReports`), limits and defaults
(`Notice.NoticeFits`, `Reader.NoCopyNothing`).

### What is assumed, and where

- The checksum, the hash and the key derivation are arbitrary functions. Nothing is assumed of them:
  damage to a shard counts as survivable only if its checksum shows it, and a theorem that would fail for
  a hash or a derivation that collides says so, for the inputs that matter.
- The cipher appends a 16-byte tag (section 2.8 of RFC 8439) and, where a theorem says so, is ideal with
  respect to a log of what was sealed: it opens exactly what is in the log. `Instances.IdealCipherExists`
  shows that such a cipher exists for every stream.
- The codec meets `ReedSolomon.ErasureCode`: parity has the length of the data, and filling the empty
  slots of d or more of the d + p shards gives all of them.
  `PolynomialCodec.PolynomialsAreErasureCodes` proves it of a concrete code for every supported layout.
- Randomness, the clock and cancellation are inputs: primes, base, key, salt, nonces, time, and the
  answers of the token at every check. A token is a function of the check, so it may even be withdrawn.
- Integers have the source's widths: sums and casts that wrap are written out. `usize` has 64 bits, and
  the minimum modulus is the one of release builds, 2048 bits.

### Where the code does not do what one might expect

- Not every plaintext comes back. What is locked without a filename, for instance from standard input or
  from a file whose name is not UTF-8, is unlocked as a message, and a message that is not UTF-8 is refused
  even when the file is undamaged. `LockUnlock.UnlocksWithoutPassphrase` and
  `LockUnlock.UnlocksWithPassphrase` say exactly when, `LockUnlock.BinaryMessageIsLost` gives an input.
- Re-encoding is not the identity on everything that decodes. `docs/binary-file-format.md` defines the
  digest over the stored body bytes, but the code re-encodes the decoded body; the two agree exactly for
  canonical bytes (`CanonicalForm.EncodeAfterDecode`), which is all the writer produces.
- The format says a terminal chunk is marked with 1; the code accepts any nonzero value
  (`ChunkFrame.TerminalFlagIsNotUnique`, and exactly when it matters `ChunkFrame.FrameReencoded`).
- The format calls the file magic necessary for recovery; the code reads a file with any other four bytes
  there from its end copy (`Reader.MagicIsNotNeeded`).
- An empty filename is stored like none, so a file named "" comes back as a text
  (`SuperblockBody.DecodeAfterEncode`, `SuperblockBody.DigestSurvivesStorage`).
- Every read of the plaintext becomes a chunk, so that short reads can give more chunks than predicted;
  then the lock fails, without writing anything. It fails exactly when the reads together stay below the
  buffer by a whole chunk or more (`Writer.LockSucceedsExactly`); two bytes read one at a time into a buffer
  of two are an example (`Writer.ShortReadsSpoilTheLock`).
- The counter in an output name is found again only if the name has an extension
  (`OutputPath.PrintedNameParses`): when "foo.1" is taken the next name is "foo.1.1"
  (`OutputPath.CounterWithoutExtension`).
- A damaged notice can hide the true start copy only behind another decodable copy
  (`Notice.DamagedNoticeStartFound` says exactly when).

## Model

| member | source | states |
|---|---|---|
| `NumberTheory.Fermat` | src/domains/timelock/puzzle_service.rs:65-75 | Fermat's little theorem, proved from the product of the residues: a^(p-1) = 1 modulo a prime p that does not divide a |
| `NumberTheory.PowModuloOrder` | src/domains/timelock/puzzle_service.rs:70-75 | for every k and r, a^((p-1)k + r) and a^r agree modulo p |
| `NumberTheory.CombineCongruences` | src/domains/timelock/puzzle_service.rs:67-70 | numbers congruent modulo two distinct primes are congruent modulo their product |
| `NumberTheory.LcmMultiple` | src/domains/timelock/puzzle_service.rs:68-70 | the least common multiple the exponent is reduced by is a multiple of p-1 and of q-1 |
| `NumberTheory.LcmDivides` | src/domains/timelock/puzzle_service.rs:68-70 | and it divides every common multiple of the two |
| `NumberTheory.CoprimeToFactor` | src/domains/timelock/puzzle_service.rs:107-126 | a base coprime to the product of p and q is not divisible by p |
| `TimelockPuzzle.SquaredIsPower` | src/domains/timelock/puzzle_service.rs:144-193 | after t squarings the solver holds a^(2^t) modulo n, reduced below n |
| `TimelockPuzzle.ReduceExponent` | src/domains/timelock/puzzle_service.rs:74-75 | reducing an exponent modulo lambda changes no power modulo either prime |
| `TimelockPuzzle.TrapdoorAgrees` | src/domains/timelock/puzzle_service.rs:65-77 | for distinct primes, a coprime base and every T >= 1, the creator's shortcut a^(2^T mod lcm(p-1,q-1)) mod pq is the value that T sequential squarings reach |
| `TimelockPuzzle.CreatedMaskIsHash` | src/domains/timelock/puzzle_service.rs:77-85 | the creator's mask is the hash of the shortest big-endian form of a^(2^T) modulo pq, T being the iterations |
| `TimelockPuzzle.SolvePuzzleMask` | src/domains/timelock/puzzle_service.rs:144-193 | success makes exactly T squarings and returns the hash of the shortest big-endian form of a^(2^T) modulo n; it succeeds exactly when no check finds the token set, and reports exactly the progress counts up to there |
| `TimelockPuzzle.SameMaskSameSolution` | src/domains/timelock/puzzle_service.rs:272-277 | two puzzles have the same mask only if a^(2^T) modulo n is the same for both or the hash collides |
| `TimelockPuzzle.RunsPastExactly` | src/domains/timelock/puzzle_service.rs:149-176 | the checks the solver passes are those at the start, after every 1,024 squarings, and before every report |
| `TimelockPuzzle.ProgressCounts` | src/domains/timelock/puzzle_service.rs:170-187 | progress counts are strictly increasing and are the multiples of 10,000 up to the total, and the total, nothing else |
| `TimelockPuzzle.CancellationIsPrompt` | src/domains/timelock/puzzle_service.rs:160-187 | a token set after s/2 squarings stops the solver within 1,024 further squarings; a solver that completes had passed its last check before |
| `TimelockPuzzle.SolverMatchesCreator` | src/domains/timelock/puzzle_service.rs:40-86 | the solver's mask is the mask the puzzle was created with |
| `TimelockPuzzle.UnwrapKey` | src/domains/timelock/puzzle_service.rs:135-142 | the unwrapped key is the stored key masked with the hash of a^(2^T) modulo n; failure is cancellation and happens exactly when a check finds the token set |
| `TimelockPuzzle.WrappedKeyIsRecovered` | src/domains/timelock/puzzle_service.rs:23-38 | creating, wrapping, solving and unwrapping gives back exactly the key |
| `PuzzleCreation.GenBlumPrime` | src/domains/timelock/puzzle_service.rs:88-99 | returns the first drawn prime that is 3 modulo 4, skipping all others |
| `PuzzleCreation.PickPrimes` | src/domains/timelock/puzzle_service.rs:56-63 | the first Blum prime drawn and the first later one that is another and not too close to it |
| `PuzzleCreation.TooCloseExactly` | src/domains/timelock/puzzle_service.rs:101-105 | two primes are too close exactly when their difference has fewer binary digits than asked for |
| `PuzzleCreation.RandomCoprimeBase` | src/domains/timelock/puzzle_service.rs:107-126 | the first candidate modulo n that is at least 2 and coprime to n |
| `PuzzleCreation.CreatePuzzleAndDeriveMask` | src/domains/timelock/puzzle_service.rs:40-86 | with draws on which the three searches end, the puzzle is made of the first draws that will do, and its mask is the hash of a^(2^T) modulo n, which is what solving it gives; refused exactly for zero iterations or an odd or too small modulus |
| `Base.XorKeys` | src/domains/timelock/puzzle_service.rs:279-285 | the byte loop computes the bytewise exclusive or |
| `Base.XorCancels` | src/domains/timelock/puzzle_service.rs:279-285 | masking twice with one mask gives the key back |
| `Base.XorIsBitwise` | src/domains/timelock/puzzle_service.rs:279-285 | a bit of the result is set exactly when the two bits differ |
| `Base.XorInjective` | src/domains/timelock/puzzle_service.rs:279-285 | two masks that take a key to the same result are the same |
| `Base.LeRoundTrip` | src/domains/timelocked_file/superblock_body.rs:366-388 | a number that fits its width is read back from its little-endian bytes |
| `Base.LeOfFromLe` | src/domains/timelocked_file/superblock_body.rs:366-388 | little-endian bytes are the bytes of the number read from them |
| `Base.LeDigit` | src/domains/timelocked_file/superblock_body.rs:366-388 | byte k of the little-endian form is the digit of weight 256^k |
| `Base.BeRoundTrip` | src/domains/timelocked_file/superblock_body.rs:175-176 | a natural is read back from its shortest big-endian form |
| `Base.ToBeExactly` | src/domains/timelocked_file/superblock_body.rs:175-176 | the big-endian form is the one sequence of bytes with that value that has no leading zero, or the single byte zero |
| `Base.FromBeFirst` | src/domains/timelocked_file/superblock_body.rs:269-281 | the first of n + 1 bytes has the weight 256^n |
| `Streams.ByteReader.Fill` | src/domains/timelocked_file/chunk_frame.rs:134-150 | repeated short reads deliver the wanted bytes, or all there are, in order |
| `Utf8.TextExactly` | src/domains/timelocked_file/superblock_body.rs:396-412 | bytes are accepted as text if and only if they are the encoding, in one to four bytes each, of a sequence of Unicode scalar values |
| `ChunkFrame.WriteChunkFrame` | src/domains/timelocked_file/chunk_frame.rs:19-37 | appends exactly the frame, or refuses a length field that does not match and writes nothing |
| `ChunkFrame.ReadExactOrEof` | src/domains/timelocked_file/chunk_frame.rs:134-150 | nothing at the end of input, an error inside the field, else exactly the field, whatever the short reads |
| `ChunkFrame.ReadChunkFrame` | src/domains/timelocked_file/chunk_frame.rs:39-71 | reading through short reads agrees with parsing the remaining bytes: same frame, same rest, same error |
| `ChunkFrame.FrameRoundTrip` | src/domains/timelocked_file/chunk_frame.rs:19-71 | a frame that was written parses to its header, its ciphertext and the untouched rest |
| `ChunkFrame.TruncatedFrame` | src/domains/timelocked_file/chunk_frame.rs:39-71 | a frame that breaks off is never parsed: nothing is the end of the input, fewer than 8 bytes a format error, anything longer an unexpected end |
| `ChunkFrame.TaglessFrame` | src/domains/timelocked_file/chunk_frame.rs:46-54 | a ciphertext shorter than 16 bytes is a format error |
| `ChunkFrame.FrameReencoded` | src/domains/timelocked_file/chunk_frame.rs:46-71 | a parsed frame is written back as the same bytes if and only if its terminal flag was stored as 0 or 1 |
| `ChunkFrame.TerminalFlagIsNotUnique` | src/domains/timelocked_file/chunk_frame.rs:46-71 | a written terminal frame parses to the same frame with any nonzero byte as its flag |
| `ChunkFrame.AcceptedLengths` | src/domains/timelocked_file/chunk_frame.rs:73-105 | a parsed frame that is accepted has a ciphertext exactly 16 bytes longer than its plaintext: the wrapping u32 sum never lets another through |
| `ChunkFrame.AadInjective` | src/domains/timelocked_file/chunk_frame.rs:107-120 | the associated data determines digest, index, length and terminal flag |
| `ProtectedStream.ReadChunksSound` | src/domains/timelocked_file/protected_stream.rs:77-160 | under every schedule of short reads the chunks are the plaintext cut into pieces of at most the chunk size, none empty but a lone terminal one |
| `ProtectedStream.ChunkCount` | src/domains/timelocked_file/protected_stream.rs:77-160 | no schedule gives fewer chunks than ceil(plaintext / chunk), and one gives exactly as many if and only if its reads together stay below the buffer by less than one chunk |
| `ProtectedStream.StreamLength` | src/domains/timelocked_file/protected_stream.rs:77-173 | the stream is the plaintext plus 57 bytes for every chunk |
| `ProtectedStream.EncryptChunks` | src/domains/timelocked_file/protected_stream.rs:113-173 | the look-ahead loop writes the frames of all chunks in order, the terminal flag on the last alone |
| `ProtectedStream.EncryptProtectedStream` | src/domains/timelocked_file/protected_stream.rs:53-173 | success appends exactly the stream of the chunks that were read, with their counts, and no look at the token, before the first read and before every chunk, found it set; failure is cancellation, a zero chunk size or a chunk whose length does not fit u32 |
| `ProtectedStream.DecryptProtectedStream` | src/domains/timelocked_file/protected_stream.rs:198-299 | through short reads, result and written bytes are those of decrypting the remaining bytes |
| `ProtectedStream.ScanProtectedStreamStructural` | src/domains/timelocked_file/protected_stream.rs:301-344 | through short reads, the result is that of scanning the remaining bytes |
| `ProtectedStream.SealedChunkFrames` | src/domains/timelocked_file/protected_stream.rs:119-158 | a sealed chunk parses as the next, accepted frame of the stream with its ciphertext and the untouched rest |
| `ProtectedStream.DecryptSealedStream` | src/domains/timelocked_file/protected_stream.rs:218-299 | decrypting a sealed stream writes the plaintext with the same chunk and byte counts |
| `ProtectedStream.DecryptAfterEncrypt` | src/domains/timelocked_file/protected_stream.rs:77-299 | decrypting what was encrypted is the identity for every plaintext, chunk size and schedule of short reads |
| `ProtectedStream.OtherKeyFailsAuthentication` | src/domains/timelocked_file/protected_stream.rs:246-262 | under a key that sealed nothing the first frame fails authentication and nothing is written |
| `ProtectedStream.OpenedFrameIsChunk` | src/domains/timelocked_file/protected_stream.rs:228-262 | a frame that opens carries the chunk its index names, is terminal just when that chunk is the last, and is bound to the original digest |
| `ProtectedStream.OnlyTheOriginalDecrypts` | src/domains/timelocked_file/protected_stream.rs:218-299 | with an ideal cipher, ANY bytes fail to decrypt or give exactly the plaintext of the one stream sealed under the key, under its digest: no truncation, reordering, duplication or extension passes |
| `ProtectedStream.WrittenIsPrefix` | src/domains/timelocked_file/protected_stream.rs:218-299 | from ANY bytes, on success and on every failure, the bytes written are the first chunks of that plaintext and nothing else |
| `ProtectedStream.OnlyItsKeyDecrypts` | src/domains/timelocked_file/protected_stream.rs:228-262 | under a digest that one key alone was used with, every other key fails and writes nothing, whatever else it has sealed |
| `ProtectedStream.UnknownKeyNeverDecrypts` | src/domains/timelocked_file/protected_stream.rs:246-262 | under a key that sealed nothing, any bytes fail and nothing is written |
| `ProtectedStream.WrittenIsCounted` | src/domains/timelocked_file/protected_stream.rs:284-298 | success means the written bytes are as many as counted and as the superblock records |
| `ProtectedStream.TokenIsObeyed` | src/domains/timelocked_file/protected_stream.rs:208-222 | decryption succeeds only if no look at the token, before the first frame and before every frame, found it set, and is cancelled only if one did |
| `ProtectedStream.ScanRefinesDecrypt` | src/domains/timelocked_file/protected_stream.rs:198-344 | what decrypts also scans, with the same counts; what scans with the recorded length decrypts or fails by cancellation or authentication alone |
| `StreamShape.ScanExactly` | src/domains/timelocked_file/protected_stream.rs:301-361 | the scan accepts a stream with certain counts if and only if it is whole frames end to end with indices from 0, the last and only the last terminal, none above the chunk size, none but the last empty, each tagged, and these counts |
| `Format.ChunkAt` | src/domains/timelocked_file/protected_stream.rs:119-158 | chunk i of a stream lies after the chunks before it and 57 bytes for each, field by field: index, terminal flag, both lengths, the i-th nonce, and the chunk sealed under key, nonce and associated data of just these |
| `ReedSolomon.ReconstructAfterErasure` | src/domains/timelocked_file/reed_solomon.rs:17-37 | with no more shards erased than there are parity shards, reconstruction gives the encoding back |
| `ReedSolomon.EncodedShape` | src/domains/timelocked_file/reed_solomon.rs:5-15 | an encoding has all shards, of the length of the slots, the data shards first and unchanged |
| `ReedSolomon.EncodeShardsInPlace` | src/domains/timelocked_file/reed_solomon.rs:5-15 | for any array: the parity slots are overwritten and the data slots are not; unsupported counts, a wrong number of slots, empty slots or different lengths fail and change nothing |
| `ReedSolomon.ReconstructShardsInPlace` | src/domains/timelocked_file/reed_solomon.rs:17-37 | for any array: the empty slots are filled and the others kept; wrong counts or lengths are format errors, too few shards a verification error, and failure changes nothing |
| `PolynomialCodec.PolynomialsAreErasureCodes` | src/domains/timelocked_file/reed_solomon.rs:5-51 | the contract the codec is used under can be met: for every supported number of shards a code over bytes, polynomials over a field of 256 elements, is systematic and restores all shards from any d of them |
| `PayloadRegion.ShardRecordRoundTrip` | src/domains/timelocked_file/shard_record.rs:5-25 | a shard record decodes to its shard |
| `Format.RecordAt` | src/domains/timelocked_file/payload_region.rs:52-94 | record j of stripe i lies after all records before it: the checksum of its shard, then the shard; data shards are the stream in order, zeros behind its end, and the parity shards are those of just these data shards |
| `PayloadRegion.DecodeDamaged` | src/domains/timelocked_file/shard_record.rs:12-25 | damage that shows in the checksum erases shards and alters none, no more than were damaged |
| `PayloadRegion.StripeRecovers` | src/domains/timelocked_file/payload_region.rs:116-129 | a stripe with at most parity visibly damaged records gives its data back |
| `PayloadRegion.ReconstructAfterDamage` | src/domains/timelocked_file/payload_region.rs:52-139 | for every stream and valid layout, reconstruction of the damaged encoding is exactly the stream when each stripe has at most parity visibly damaged records |
| `PayloadRegion.ReconstructionSucceeds` | src/domains/timelocked_file/payload_region.rs:116-129 | for arbitrary stored bytes the stripes are reconstructed if and only if every stripe keeps as many records with matching checksum as it has data shards; else the error is a verification error |
| `PayloadRegion.RegionReports` | src/domains/timelocked_file/payload_region.rs:96-139 | parameters out of range are a format error, everything else that goes wrong a verification error, among it a region that is no whole number of stripes; success has the recorded length and no stripe over its budget |
| `PayloadRegion.EncodedLengthIsPredicted` | src/domains/timelocked_file/payload_region.rs:141-159 | the encoded region has exactly the predicted length |
| `PayloadRegion.EncodingSucceeds` | src/domains/timelocked_file/payload_region.rs:52-94 | with parameters in range encoding fails if and only if there are more than 256 shards, as a format error |
| `PayloadRegion.CutShards` | src/domains/timelocked_file/payload_region.rs:72-85 | the loop cuts a stripe into zero-padded data shards |
| `PayloadRegion.EncodePayloadRegion` | src/domains/timelocked_file/payload_region.rs:52-94 | the stripe loop computes the region of the padded stream |
| `PayloadRegion.ReconstructPayloadRegion` | src/domains/timelocked_file/payload_region.rs:96-139 | the stripe loop computes the reconstruction, trimmed to the recorded length, with the same errors |
| `PasswordProtection.KeyIsRecovered` | src/domains/timelocked_file/password_protection.rs:135-190 | with the mask and the passphrase of the lock, exactly the file key is recovered; metadata is stored just when there is a passphrase |
| `PasswordProtection.DerivationInput` | src/domains/timelocked_file/password_protection.rs:104-133 | the derivation is given exactly the domain text, the mask and the passphrase, if the parameters are valid |
| `PasswordProtection.RecoversExactly` | src/domains/timelocked_file/password_protection.rs:135-190 | of a protected lock, mask and passphrase recover the key if and only if the derivation gives what it gave at the lock: unless it collides on the two inputs, exactly the mask and the passphrase of the lock |
| `PasswordProtection.MaskRecoversExactly` | src/domains/timelocked_file/password_protection.rs:147-152 | without a passphrase exactly the mask of the lock recovers the key |
| `PasswordProtection.KdfInputInjective` | src/domains/timelocked_file/password_protection.rs:119-125 | the input of the key derivation determines mask and passphrase |
| `SuperblockBody.DecodeAfterEncode` | src/domains/timelocked_file/superblock_body.rs:172-326 | a valid body whose texts are text decodes to itself if and only if its filename is not empty, its text lengths fit u16 and its encoding is at most 1 MiB |
| `SuperblockBody.DigestSurvivesStorage` | src/domains/timelocked_file/superblock_body.rs:362-364 | the digest at unlock, computed by re-encoding the decoded body, is the digest at lock, also for an empty filename, which is stored like none |
| `SuperblockBody.DecodedIsStorable` | src/domains/timelocked_file/superblock_body.rs:231-326 | whatever decodes is valid, holds text, and has lengths that fit and a positive modulus and base |
| `SuperblockBody.NonCanonicalAccepted` | src/domains/timelocked_file/superblock_body.rs:269-281 | every storable body whose encoding is shorter than 1 MiB has a second, longer form that decodes to it |
| `SuperblockBody.EncodeSuperblockBody` | src/domains/timelocked_file/superblock_body.rs:172-229 | the growing buffer ends as the encoding, or validation refuses the body |
| `SuperblockBody.DecodeSuperblockBody` | src/domains/timelocked_file/superblock_body.rs:231-360 | the cursor reads the same body or the same error as parsing the bytes |
| `CanonicalForm.EncodeAfterDecode` | src/domains/timelocked_file/superblock_body.rs:231-326 | re-encoding decoded bytes gives the bytes back if and only if the two naturals have no leading zero and an absent target time is stored as zero |
| `CanonicalForm.ReadableExactly` | src/domains/timelocked_file/superblock_body.rs:46-170 | a body can be read from some bytes, written by this program or not, if and only if it follows the field rules of the format (versions, algorithms, flags, sizes, puzzle, password metadata just in version 2), holds text, has no empty filename and fits its fields and 1 MiB |
| `CanonicalForm.SameDigestSameBody` | src/domains/timelocked_file/superblock_body.rs:362-364 | two superblocks that can be read and have one digest are the same, or the hash collides |
| `Truncation.BodyBreaksOff` | src/domains/timelocked_file/superblock_body.rs:231-326 | every beginning of a stored body that is not all of it is an unexpected end of the input: none is read as another body |
| `Superblock.StartCopyRoundTrip` | src/domains/timelocked_file/superblock.rs:19-68 | a start copy decodes to its body, wherever more bytes follow |
| `Superblock.EndCopyRoundTrip` | src/domains/timelocked_file/superblock.rs:30-104 | an end copy decodes to its body |
| `Superblock.StartCopyExactly` | src/domains/timelocked_file/superblock.rs:41-68 | a start copy decodes if and only if the input begins with the frame of a body that decodes: magic, length and checksum all match |
| `Superblock.EndCopyExactly` | src/domains/timelocked_file/superblock.rs:70-104 | an end copy decodes if and only if it is the frame of a body that decodes |
| `Notice.NoticeRoundTrip` | src/domains/timelocked_file/notice.rs:13-42 | a notice of at most 4096 bytes is read back, with its end |
| `Notice.NoticeExactly` | src/domains/timelocked_file/notice.rs:13-42 | a notice decodes if and only if the input begins with the encoding of a text of at most 4096 bytes |
| `Notice.FindStartSuperblockOffset` | src/domains/timelocked_file/notice.rs:44-70 | the bounded loop returns what the search specifies |
| `Notice.UndamagedStartFound` | src/domains/timelocked_file/notice.rs:44-57 | on an undamaged file the start copy is found right after the notice, whatever the notice says |
| `Notice.DamagedNoticeStartFound` | src/domains/timelocked_file/notice.rs:49-70 | with magic and start copy intact and ANY bytes as notice length and text, the true offset is found if and only if the notice still ends there or no other decodable start copy comes first |
| `Notice.LoneStartFound` | src/domains/timelocked_file/notice.rs:49-70 | a start copy that is the only decodable one in the window is found, whatever the notice has become |
| `Notice.FoundStartDecodes` | src/domains/timelocked_file/notice.rs:44-70 | what the search returns is the offset of a decodable start copy |
| `Notice.FindStartExactly` | src/domains/timelocked_file/notice.rs:44-70 | an offset is found if and only if a start copy decodes there and it is the one the notice claims, or none decodes at the claimed one and it is the least from 6 on with its magic within the first 8,198 bytes |
| `Reader.AcceptedIsInBounds` | src/domains/timelocked_file/reader.rs:26-164 | an accepted file has start <= payload <= payload end <= end copy <= file length within u64, and reading its payload slice succeeds |
| `Reader.CopiesAgree` | src/domains/timelocked_file/reader.rs:31-44 | a file is accepted only on a usable copy, never on two that disagree, and what is read is what every usable copy says |
| `Reader.EitherCopySuffices` | src/domains/timelocked_file/reader.rs:31-88 | with both copies, only the start or only the end copy usable, the same superblock and the same three offsets are read; with the start copy the file may be cut off behind the payload region or extended |
| `Reader.StartCopyAlone` | src/domains/timelocked_file/reader.rs:26-110 | with only a start copy a file is accepted if and only if it still holds the whole payload region behind it |
| `Reader.EndCopyAlone` | src/domains/timelocked_file/reader.rs:46-110 | with only an end copy a file is accepted if and only if the payload region and one superblock fit in front of it, and the payload is the bytes right before it |
| `Reader.BothCopies` | src/domains/timelocked_file/reader.rs:31-110 | with both copies a file is accepted if and only if they agree byte for byte and the payload region fits between them |
| `Reader.LocatedIsRead` | src/domains/timelocked_file/reader.rs:26-164 | a payload region found behind a start copy, or before the end copy when no start copy is found, is read, wherever it lies and whatever has become of the rest of the file |
| `Reader.MagicIsNotNeeded` | src/domains/timelocked_file/reader.rs:26-45 | a written file with any other four bytes as its magic has no start copy for the reader and is read from its end copy, superblock and payload |
| `Reader.UndamagedSurvives` | src/domains/timelocked_file/reader.rs:26-122 | in a file as written both copies are found and the payload slice is the region |
| `Writer.AdaptiveShardBytes` | src/domains/timelocked_file/writer.rs:153-162 | the shard size is a power of two from 64 to 65,536; a stream below 64 KiB fits one stripe of four, and no smaller bucket from 64 on would hold it |
| `Writer.StreamLengthPrediction` | src/domains/timelocked_file/writer.rs:98-119 | the length checks pass if and only if the plaintext is as long as announced and the reads together stay below the buffer by less than one chunk; else they fail as a format error |
| `Writer.LockSucceedsExactly` | src/domains/timelocked_file/writer.rs:50-134 | a lock with a valid superblock, short notice, fitting chunks and supported shards succeeds if and only if the lengths match in this sense; else it fails as a format error |
| `Writer.ShortReadsSpoilTheLock` | src/domains/timelocked_file/writer.rs:98-119 | a concrete failing input: two bytes read one at a time into a buffer of two, for every otherwise valid request |
| `Writer.RegionLengthPrediction` | src/domains/timelocked_file/writer.rs:121-126 | a stream of the predicted length is stored in a region of the predicted length |
| `Writer.PredictionsAreExact` | src/domains/timelocked_file/writer.rs:63-126 | with a reader that fills the buffer none of the three mismatch errors can fire, and a valid request succeeds |
| `Writer.WriteTimelockedArtifact` | src/domains/timelocked_file/writer.rs:50-134 | success appends exactly the artifact of the plaintext as it was read; any failure writes nothing and is the first thing that stands against the artifact, or cancellation |
| `Recovery.RecoverPayloadToWriter` | src/domains/timelocked_file/recovery.rs:54-110 | reconstruction, digest and decryption in sequence give the specified result and bytes |
| `Recovery.VerificationAgrees` | src/domains/timelocked_file/verification.rs:48-98 | keyed verification accepts exactly what recovery accepts, with the structural counts, so its internal assertion always holds |
| `Recovery.StructuralExactly` | src/domains/timelocked_file/verification.rs:21-114 | structural verification accepts exactly a region whose stream can be reconstructed and is a stream of the format with these counts, as long as the superblock records |
| `Recovery.KeyedVerificationReports` | src/domains/timelocked_file/verification.rs:48-98 | keyed verification reports whatever is structurally wrong as structural verification does, and for a sound structure its counts, a cancellation or failed authentication, nothing else |
| `EndToEnd.UnlocksToTheOriginal` | src/domains/timelocked_file/recovery.rs:54-110 | from a file in which one copy still locates the payload region, whatever its length and whatever has become of notice, magic and the other copy, with at most parity visibly damaged records in each stripe, recovery with the file key writes exactly the plaintext |
| `EndToEnd.UndamagedIsSurvivable` | src/domains/timelocked_file/writer.rs:128-133 | the file as written is such a file |
| `EndToEnd.NoticeComesBack` | src/domains/timelocked_file/writer.rs:128-129 | a file as written shows the notice that was asked for, or the default text |
| `EndToEnd.TailMayBeAnything` | src/domains/timelocked_file/reader.rs:31-110 | so is one whose bytes behind the payload region are cut off or are any bytes that do not read as an end copy |
| `EndToEnd.FrontMayBeAnything` | src/domains/timelocked_file/reader.rs:46-110 | so is one with any bytes in front of the payload region that hold no start copy and would have room for one |
| `EndToEnd.ExactOrFails` | src/domains/timelocked_file/recovery.rs:54-110 | for ANY bytes in place of the file, recovery with the file key fails or writes exactly the plaintext, and then under a superblock with the original digest |
| `EndToEnd.OnlyPlaintextIsWritten` | src/domains/timelocked_file/recovery.rs:54-110 | for ANY bytes, with the file key, what has been written on success or failure is a prefix of the plaintext |
| `EndToEnd.OriginalDigestIsExact` | src/domains/timelocked_file/recovery.rs:54-110 | with an unchanged superblock digest and ANY payload bytes, a recovery that succeeds used the file key and wrote the plaintext, whatever else the cipher was used for under other keys and digests |
| `EndToEnd.OriginalDigestOriginalSuperblock` | src/domains/timelocked_file/superblock_body.rs:362-364 | a file read under the original digest has the original superblock, or the hash collides |
| `EndToEnd.UnknownKeyRecoversNothing` | src/domains/timelocked_file/recovery.rs:54-110 | a key that has sealed nothing fails and writes nothing, whatever the file has become and whatever else was locked |
| `EndToEnd.OtherKeysFailAuthentication` | src/domains/timelocked_file/recovery.rs:54-110 | on a recoverable file any other key fails with the one error that unlock retries |
| `LockFlow.WritePayloadArtifacts` | src/usecases/lock/payload_writer.rs:37-134 | plans and writes: success appends the artifact of the plan, every failure writes nothing and names its cause in order |
| `LockFlow.PlanIsValid` | src/usecases/lock/payload_writer.rs:69-159 | every plan is a superblock that validates, version 2 just when there is a passphrase |
| `LockFlow.PlannedExactly` | src/usecases/lock/payload_writer.rs:69-159 | a lock can be planned if and only if the puzzle parameters are valid and a passphrase is not empty and its derivation succeeds; the plan has the puzzle, key and clock drawn, 64 MiB, 3 passes and 1 lane on the salt drawn, chunks of 1 MiB and 4 + 2 shards |
| `LockUnlock.EveryFileLocks` | src/usecases/lock/payload_writer.rs:69-134 | every staged file below 2^63 bytes whose superblock can be stored locks, for every schedule of reads that stays below the buffer by less than one chunk: no length overflows, no mismatch |
| `LockUnlock.LockedKeyIsRecovered` | src/usecases/lock/payload_writer.rs:136-159 | the mask solved from the stored puzzle, with the passphrase of the lock, recovers the file key |
| `LockUnlock.MetadataComesBack` | src/usecases/lock/payload_writer.rs:95-117 | filename, profile, target time, iterations, modulus size, creation time and plaintext size are read back as they were locked |
| `LockUnlock.UnlocksWithoutPassphrase` | src/usecases/unlock.rs:84-117 | lock, recoverable damage, unlock: without a passphrase the plaintext is delivered exactly and nobody is asked, except that a message, locked without a filename, is refused if and only if it is not UTF-8 |
| `LockUnlock.UnlocksWithPassphrase` | src/usecases/unlock.rs:119-185 | with a passphrase the same is delivered at the first right answer of three, after that many prompts |
| `LockUnlock.BinaryMessageIsLost` | src/usecases/unlock.rs:196-216 | a concrete plaintext that does not come back: the byte 0xFF locked without a filename |
| `LockUnlock.WrongPassphrasesFail` | src/usecases/unlock.rs:161-184 | three wrong answers end in failed authentication after three prompts |
| `LockUnlock.LockedKeyExactly` | src/usecases/lock/payload_writer.rs:136-159 | exactly those passphrases recover the file key from which the derivation gives the same as from that of the lock |
| `LockUnlock.PassphraseDecides` | src/usecases/unlock.rs:119-185 | the first of three answers that is the passphrase of the lock delivers the plaintext, after that many prompts, and when none is the unlock fails authentication after three; of other passphrases only this is assumed: their derivation succeeds and collides neither with that of the lock nor leads to the key of another lock |
| `LockUnlock.AnswerIsThePlaintext` | src/usecases/unlock.rs:195-253 | for a locked file the caller is answered with the plaintext as text, just when it was locked as a message, or with the path of a new file that holds exactly the plaintext |
| `LockUnlock.ExactOrExplicitFailure` | src/usecases/unlock.rs:84-253 | any number of files may have been locked with the cipher; for ANY bytes as the file, any superblock they show, any answers and any cancellation, an unlock that succeeds delivers exactly the plaintext of one of these locks, the one made under the key it came to, under that lock's superblock digest |
| `LockUnlock.OriginalSuperblockIsExact` | src/usecases/unlock.rs:84-253 | while the superblock still has the digest of a lock, whatever the payload, the answers and the other locks, an unlock that succeeds delivers exactly the plaintext of that lock |
| `LockUnlock.ShownIsExact` | src/userinterfaces/tui/app_state/worker_poll.rs:74-142 | over every run of the application, with any files and any typing, a result shown as complete is exactly the plaintext of a lock |
| `LockUnlock.LockedFileIsShown` | src/userinterfaces/tui/app_state/worker_poll.rs:110-133 | when the session for a locked file comes to its end on screen, after the right passphrase if there is one, the screen has exactly the plaintext |
| `Instances.IdealCipherExists` | src/domains/timelocked_file/protected_stream.rs:112-125 | for every stream there is an ideal cipher that sealed it and nothing else |
| `Instances.HypothesesAreMet` | src/usecases/lock/payload_writer.rs:69-134 | every storable file locks under some cipher and the polynomial code so that all hypotheses of the unlock theorems hold |
| `OutputPath.PrintedNameParses` | src/domains/timelocked_file/output_path.rs:13-28 | a search from a name that was printed with counter i resumes at i+1 (at most 2^64-1) with the same base and extension if and only if there is an extension; without one the counter is taken for the extension and counting restarts at 1 |
| `OutputPath.CounterWithoutExtension` | src/domains/timelocked_file/output_path.rs:13-28 | a concrete case: when "foo.1", the first counter of "foo", is taken, the next name is "foo.1.1" |
| `OutputPath.PrintedCounterParses` | src/domains/timelocked_file/output_path.rs:44-65 | a stem printed with a dot and counter i parses back to the stem and i+1, at most 2^64-1 |
| `OutputPath.CounterExactly` | src/domains/timelocked_file/output_path.rs:44-65 | a stem has a counter exactly when it is a nonempty base, a dot and digits that fit u64; counting goes on behind it, or starts at 1 |
| `OutputPath.CandidateIs` | src/domains/timelocked_file/output_path.rs:24-30 | a candidate is the base, a dot, the counter in decimal digits without leading zeros, and the extension, if any, behind a dot, in the same directory |
| `OutputPath.ExtensionExactly` | src/domains/timelocked_file/output_path.rs:13-19 | the extension is what follows the last dot, unless that dot comes first |
| `OutputPath.SearchIsLeast` | src/domains/timelocked_file/output_path.rs:24-41 | the search returns the least free counter from the start, or fails when all up to 2^64-1 are taken |
| `OutputPath.FreeNameFound` | src/domains/timelocked_file/output_path.rs:8-42 | with fewer files than counters left, a free name is found |
| `OutputPath.ResolvedIsFree` | src/domains/timelocked_file/output_path.rs:8-42 | a resolved name is not taken |
| `OutputPath.ResolvedStaysBeside` | src/domains/timelocked_file/output_path.rs:8-33 | the result stays in the wanted directory and is the wanted name exactly when that is free |
| `OutputPath.ResolveAvailableOutputPath` | src/domains/timelocked_file/output_path.rs:8-42 | the incrementing loop terminates and returns what the search specifies |
| `Unlock.PromptDiscipline` | src/usecases/unlock.rs:123-144 | prompts are numbered 1, 2, 3, never more than three, and say that the previous attempt failed exactly after the first |
| `Unlock.FirstDecisiveAttempt` | src/usecases/unlock.rs:146-179 | the result is that of the first attempt that does not fail authentication, or of the third; nothing is asked after it |
| `Unlock.RecoverPasswordProtectedFileKey` | src/usecases/unlock.rs:255-291 | the puzzle is run just when no mask is cached, and the provider is asked once unless solving failed |
| `Unlock.RecoverPayloadOnce` | src/usecases/unlock.rs:187-253 | failure leaves the files unchanged; success delivers text or adds the recovered file |
| `Unlock.DeliveredIsRecovered` | src/usecases/unlock.rs:195-253 | what is delivered is what recovery has written, counted; a message is text, and a file has passed the check of the token before it is persisted |
| `Unlock.ResponseIsTheDelivery` | src/usecases/unlock.rs:195-253 | the response is text just when there is no filename, and then the delivered text; else the path of the one file added, which did not exist and holds what was delivered |
| `Unlock.WantedPath` | src/usecases/unlock.rs:301-328 | a recovered file goes where it was asked to, or under its stored name into the directory asked for or beside the input; a taken name gives another one in the same directory |
| `Unlock.UnlockProtected` | src/usecases/unlock.rs:119-185 | for every provider: the puzzle is run once, prompts, result and files are those of the attempts |
| `Unlock.PreparedArtifact` | src/usecases/unlock.rs:90-104 | what is prepared is the parsed input file, and its modulus is never zero |
| `Unlock.Execute` | src/usecases/unlock.rs:84-185 | the puzzle is run at most once, a file without metadata never asks, every failure leaves all files unchanged; success answers with the delivered text and no change, or with the path of a new file that holds what is delivered, and the number of its bytes |
| `Unlock.SuccessAddsOneFile` | src/usecases/unlock.rs:217-250 | success adds exactly one file at a path that did not exist and changes no other; a text adds none |
| `PromptProtocol.StepKeepsInv` | src/userinterfaces/tui/worker.rs:74-110 | every step of worker, poll, key press, quit and shutdown keeps the protocol invariant |
| `PromptProtocol.KeyKeepsInv` | src/userinterfaces/tui/app_state/routing.rs:14-41 | every key, routed to the quit flag, the modal or the screen, keeps the protocol invariant |
| `PromptProtocol.PromptSafety` | src/userinterfaces/tui/app_state/worker_poll.rs:74-142 | over every run of any number of sessions, whose workers ask as the unlock loop they run does: at most one request outstanding; an open prompt means an uncancelled session whose worker waits on exactly this reply; every request has at most one reply; never more than three requests, numbered from 1; every passphrase is received in order |
| `PromptProtocol.SessionRefinesUnlock` | src/userinterfaces/tui/worker.rs:80-109 | the protocol carries out the unlock: at the end of a session the worker has asked exactly the prompts of the unlock given the passphrases received and then cancellation, and the result reported and shown is what that unlock delivers |
| `PromptProtocol.EveryEndIsShown` | src/userinterfaces/tui/app_state/worker_poll.rs:110-133 | over every run, the progress screen is left only with the application or by a poll, and then for the completed screen with what the unlock delivers if and only if it delivers, else for the main menu with the reason |
| `PromptProtocol.StepRunsUnlock` | src/userinterfaces/tui/worker.rs:70-110 | every step keeps what has been asked a prefix of the prompts of the unlock, whatever has been typed so far |
| `PromptProtocol.NoPromptAfterCancel` | src/userinterfaces/tui/features/unlock/progress.rs:60-66 | a cancelled session stays cancelled and never shows a prompt again |
| `PromptProtocol.CancelKeys` | src/userinterfaces/tui/features/unlock/progress.rs:132-154 | Esc cancels a session on screen, with or without a prompt, and so does Enter on a focused cancel button; no other key does |
| `PromptProtocol.WaitingIsAttended` | src/userinterfaces/tui/worker.rs:91-101 | a waiting worker has a reply, a set flag, or its request still with the interface; the reply channel is lost only when the application closes |
| `PromptProtocol.TypedIsReceived` | src/userinterfaces/tui/app_state/modal.rs:87-91 | the passphrase typed is the one the worker receives for this attempt |
| `PromptProtocol.PromptKeyAnswers` | src/userinterfaces/tui/app_state/modal.rs:51-100 | a key closes the open prompt exactly when it is Enter or Esc; then the waiting worker's channel, and no other, gets its one reply, the text as typed or a cancellation with the flag set, and the worker can receive it; any other key leaves the request open and unanswered |
| `PromptProtocol.SessionCanEnd` | src/userinterfaces/tui/features/unlock/progress.rs:132-154 | no session can get stuck: from every reachable state it can still come to its end, Esc being the only key needed, on the screen that shows the outcome of its unlock |
| `PromptProtocol.CancelCommutes` | src/userinterfaces/tui/app_state/modal.rs:93-100 | a worker step between answering and setting the flag has the same effect after both |
| `PromptProtocol.PollExactly` | src/userinterfaces/tui/app_state/worker_poll.rs:74-142 | a poll takes the reports in front and the event after them: a request opens its prompt or, in a cancelled session, is answered with cancellation; a result is shown, or its error |
| `PromptProtocol.FocusMoves` | src/userinterfaces/tui/app_state/modal.rs:56-66 | Tab and BackTab go round password, unlock and cancel in opposite directions, and text goes to the password alone |
| `PromptProtocol.Tui.PollUnlockWorker` | src/userinterfaces/tui/app_state/worker_poll.rs:74-142 | the draining loop has just this effect on screen, modal, queue and reply, and keeps the protocol invariant |

## Left out

- I/O errors of readers, writers and the file system, permissions, directory creation and races with other processes: files are a map from paths to bytes, a temporary file is the writer, and persisting is one step.
- Staging of the lock input, difficulty and duration parsing, hardware profiles, persisting the lock output: short branches before and after the modelled flow.
- The insides of XChaCha20-Poly1305, BLAKE3, Argon2id, CRC32C and the `reed-solomon-erasure` crate; secrecy and hardness are not stated at all.
- PuzzleCreation.CreatePuzzleAndDeriveMask: assumes draws with which the searches end, because their termination is a matter of probability, and that the two numbers picked are prime.
- Unlock.Execute: the token is asked at the points the flow checks it, each with its own answer; progress events of the unlock flow are modelled only for the solver.
- PolynomialCodec.PolynomialsAreErasureCodes: shows that the contract can be met, by interpolation over a field of 256 elements built here; that the matrices and tables of the `reed-solomon-erasure` crate meet it is assumed, because the crate is not part of this model.
- ReedSolomon.EncodeShardsInPlace: the checks of that crate on the number and the lengths of slots are modelled, how it computes parity is not.
- ReedSolomon.ReconstructShardsInPlace: likewise for the shards that are present, and how it computes the missing ones is not.
- Error messages: errors keep their kind only; the two faults of the cryptographic layer that unlock tells apart by message are two constructors.
- PromptProtocol.PromptSafety: what the token answers within the unlock flow is fixed per session and arbitrary, not tied to the moment the flag is set, which allows more runs than the program has; a key handler is one step, and an event of a poll is one step; `PromptProtocol.CancelCommutes` and `PromptProtocol.PollIsRun` justify both. What keys do on other screens is an arbitrary choice, editing the password field is an arbitrary new text.
- PromptProtocol.SessionCanEnd: says that an end stays reachable, not that the scheduler takes it.
- Lock, verify and calibration workers, rendering, layout, forms, the file browser, footers: plumbing that would add easy members.
- The inspect view and its derived header, zeroization, redaction and the release script.
- Six source files of the container domain that are not compiled (`chunk_crypto.rs`, `container.rs`, `prefix.rs`, `payload_recovery.rs`, `timelock_material.rs`, `header_factory.rs`).
- Path normalisation and non-UTF-8 names: a path is a parent and a name, and joining a directory with a stored name is a parameter.
