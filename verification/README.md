# Remanence verification

A Dafny model of the parts of Remanence that carry its guarantees, with proofs.

- **Envelope** (`Envelope`, `EnvelopeHeader`, `KeyFrame`, `Metadata`, `MetadataDecoder`, `Kdf`, `Wrap`, `Stream`,
  `InputOutput`, `Seal`, `Sealer`, `SealConditions`, `Open`, `Opener`, `EnvelopeRoundTrip`, `OpenFailures`, `Range`,
  `RangeReader`, `Inspect`, `SealExamples`): sealing, whole-object opening, ranged opening and keyless inspection of
  one encrypted object. Sealed objects open for every recipient; ranges and inspection agree with whole open; cut,
  extended and damaged objects fail in fixed ways.
- **Parity** (`Bits`, `Gf256`, `Gf256Inverse`, `Cauchy`, `ParityCode`, `Stripes`, `Crc64`, `SidecarIndex`): the field,
  the Cauchy code, the stripe interleave, the checksum and the sidecar index. A set of shards determines the data if and
  only if it holds k of them; a burst is survived if and only if it is within an exact tolerance.
- **Deterministic CBOR** (`Cbor`, `CborTruncation`, `PythonCbor`, `PythonDecoders`, `CborKeyOrder`, `Utf8`, `ByteStrings`):
  one strict decoder, with a profile for each tool, proved to accept exactly the encodings of admitted items; the
  encoders of the two Python tools, with the exact conditions under which they round-trip and agree.
- **Canonical tar** (`Pax`, `PaxRecords`, `CanonicalTar`): the self-referential pax length, the pad solver, the records
  and their reader, and the object builder.
- **Terminal index** (`TerminalSlots`, `TerminalRows`, `TerminalObjects`, `TerminalIndex`): exactly which payloads are
  accepted, and that acceptance implies a partition of the tape's ordinals.
- **Publishing** (`Publish`, `PublishRecovery`): the journalled publish protocol as a transition system with lost
  answers, crashes, power loss and restarts.

Code that only computes is modelled by functions. Loops and objects that change state are methods and classes, each
proved against such a function or against the property itself; the lemmas then say what the functions mean.

The cryptographic primitives are arbitrary functions. What is assumed of them is `Envelope.Lawful`: lengths, that
ChaCha20-Poly1305 (section 2.8 of RFC 8439) opens what it sealed, and that HPKE in Base mode (section 6 of RFC 9180)
opens for the owner of the key. `Envelope.TransparentIsLawful` shows that these assumptions are consistent, and
`SealExamples.SmallObjectsAreSealed` that objects are sealed and opened under them. Readers may end in an I/O error and
writers may fail after any number of bytes; entropy draws may fail.

Integers are unbounded; 64-bit overflow, truncation and field widths are written out where the code checks or relies on
them. Where the code and its documentation could differ, the model follows the code.

Check everything with `dafny verify dfyconfig.toml`.

Findings about the code:

- A seal whose stored size does not fit 64 bits, while its payload does, writes the footer before it reports the
  overflow, unless the bytes up to the footer already do not count in 64 bits, which the writer reports first
  (`Sealer.SealWithMaterial`). `Seal.SealOutcome` states that a failed seal leaves a footer exactly then, and
  `SealExamples.FooterOfFailedSeal` gives an input.
- The re-encoding comparisons at the end of two strict decoders can never refuse (`PythonDecoders.EncodeInvertsDecode`,
  `TerminalSlots.ReencodingIsRedundant`), nor can the length error of the key-frame serializer
  (`KeyFrame.SerializeNeverTooLong`), nor the failure branch of the pad solver (`Pax.AlignmentPad`).
- The two CBOR key orders in use can differ on keys of different major types, so the two tools can write one dictionary
  differently (`CborKeyOrder.EncodersDisagree`); `CborKeyOrder.EncodersAgreeIff` says exactly when they do not.
- The parity tool encodes dictionaries with tuple keys, and its own decoder refuses the result
  (`PythonDecoders.TupleKeyIsNotReadBack`); the object tool reads negative integers that it cannot write
  (`PythonDecoders.NegativeIsNotWritten`). The round-trip theorems state the exact conditions.
- The archive writer takes pax keywords with control characters that the archive reader refuses
  (`PaxRecords.TabIsNotReadBack`); `PaxRecords.ReadsWhatWasWritten` states that nothing else is lost.

## Model

| member | source | states |
|---|---|---|
| Gf256.GfMul | tools/rem_parity_rederive.py:76-87 | the eight shift-and-reduce rounds compute the field product for every pair of bytes and refuse anything else |
| Gf256.Commutative | tools/rem_parity_rederive.py:76-87 | the product commutes |
| Gf256.Associative | tools/rem_parity_rederive.py:76-87 | the product is associative |
| Gf256.DistributesLeft | tools/rem_parity_rederive.py:76-87 | the product distributes over XOR |
| Gf256.GfPow | tools/rem_parity_rederive.py:90-99 | square-and-multiply computes the power for every base and exponent, refusing negative exponents and, unless the exponent is zero, bases that are not bytes |
| Gf256Inverse.TwoIsPrimitive | tools/rem_parity_rederive.py:76-105 | every nonzero byte is a power of 2, and the 255th power of 2 is 1 |
| Gf256Inverse.Inverse | tools/rem_parity_rederive.py:102-105 | the 254th power of every nonzero byte is its multiplicative inverse |
| Gf256Inverse.NoZeroDivisors | tools/rem_parity_rederive.py:76-105 | a product is zero exactly when a factor is |
| Gf256Inverse.GfInv | tools/rem_parity_rederive.py:102-105 | inversion succeeds exactly on nonzero bytes, and its result times the argument is 1 |
| Cauchy.Nonsingular | tools/rem_parity_rederive.py:108-116 | a square Cauchy system has only the zero solution, by elimination, for any distinct seeds |
| Cauchy.Singular | tools/rem_parity_rederive.py:108-116 | a Cauchy system with more unknowns than equations has a nonzero solution |
| ParityCode.EncodeParity | tools/rem_parity_rederive.py:119-153 | the table-driven accumulation gives, byte for byte, the matrix-vector product over the field, and refuses exactly the inputs the checks refuse |
| ParityCode.CombineOfOne | tools/rem_parity_rederive.py:144-153 | where every shard but one is zero, a parity byte is that shard's byte times its coefficient |
| ParityCode.ParityIsLinear | tools/rem_parity_rederive.py:144-153 | the parity of the XOR of two data sets is the XOR of their parities |
| ParityCode.MatrixInvertsSeeds | tools/rem_parity_rederive.py:108-116 | every matrix entry is the inverse of the sum of its two seeds, for every legal k and m |
| ParityCode.EncodeStripe | tools/rem_parity_rederive.py:1131-1147 | data plus parity under the derived matrix is the stripe the recovery theorem speaks of |
| ParityCode.StripeOfOne | tools/rem_parity_rederive.py:108-153 | a stripe holds its data as they are; where only data shard i is nonzero, parity shard j times the sum of the seeds k+j and i is that shard |
| ParityCode.EnoughShards | tools/rem_parity_rederive.py:108-153 | two data sets that agree on k of the k+m shards are equal |
| ParityCode.TooFewShards | tools/rem_parity_rederive.py:108-153 | for any fewer than k shards there are two different data sets that agree on all of them |
| ParityCode.RecoverableIffKShards | tools/rem_parity_rederive.py:108-153 | for every legal k and m and every shard size: a set of shards determines the data if and only if it holds at least k of them |
| Stripes.ToleratedIff | tools/rem_parity_rederive.py:1134-1147 | no stripe of a burst loses more than m shards if and only if the number of parity blocks lost is within an exact tolerance |
| Stripes.BurstRecoverableIff | tools/rem_parity_rederive.py:1134-1147 | every stripe of a burst can be decoded if and only if the burst is within that tolerance, with decoding meaning that the kept shards determine the data |
| Stripes.AlignedEpoch | tools/verify_publication_test_vectors.py:695-698 | with full rows of data the limit is exactly m*S+H+1 records |
| Stripes.ShortEpoch | tools/verify_publication_test_vectors.py:703-713 | with less than one row of data the limit is exactly (m-1)*S+R+H+1 records |
| Stripes.OneRecordTooMany | tools/verify_publication_test_vectors.py:699-713 | one record past the limit always costs some stripe exactly m+1 shards |
| Crc64.TableStep | tools/rem_parity_rederive.py:156-168 | looking the low byte up in the table equals eight single-bit steps, because the step is XOR-linear |
| Crc64.CrcTableEntry | tools/rem_parity_rederive.py:156-165 | the loop computes the table entry of a byte |
| Crc64.CrcByTable | tools/rem_parity_rederive.py:171-176 | the table-driven loop computes the CRC of every byte sequence |
| Crc64.CrcByBit | tools/verify_terminal_index_vectors.py:138-144 | the bit-by-bit loop computes the same CRC of every byte sequence |
| Crc64.DetectsBurst | tools/rem_parity_rederive.py:171-176 | two messages of equal length that differ only within eight consecutive bytes have different CRCs |
| Crc64.TopEntry | tools/rem_parity_rederive.py:156-165 | the table entry of the top bit is the reflected polynomial |
| Crc64.StartsFromOnes | tools/rem_parity_rederive.py:171-176 | the empty message has checksum 0 and eight 0xFF bytes have all ones, which fixes initial value and final inversion |
| Crc64.ResidueIff | tools/rem_parity_rederive.py:171-176 | eight bytes after a message are its checksum, lowest byte first, if and only if the checksum of the whole is one fixed residue |
| SidecarIndex.SidecarLayout | tools/rem_parity_rederive.py:711-729 | the pass succeeds exactly when block size and parity count are legal, and reports the number of index blocks and the inline bytes of the greedy layout |
| SidecarIndex.EntrySizes | tools/rem_parity_rederive.py:719-719 | 16 bytes for a parity entry, 8 for a data entry |
| SidecarIndex.BlocksAreFewest | tools/rem_parity_rederive.py:711-729 | no layout that keeps the order of the entries needs fewer index blocks |
| SidecarIndex.InlineEnds | tools/rem_parity_rederive.py:717-728 | the inline bytes end where the first block is left, or where the entries end |
| SidecarIndex.EntriesStayInside | tools/rem_parity_rederive.py:711-764 | no entry overruns the computed blocks, straddles two of them, or touches the first header or a checksum trailer |
| SidecarIndex.EntriesAreDisjoint | tools/rem_parity_rederive.py:711-764 | entries occupy pairwise disjoint extents, in order |
| SidecarIndex.ExtractIndexStream | tools/rem_parity_rederive.py:732-764 | the extraction loop, with its moving block and offset, reads each entry at its place in the layout, for every block size that holds a trailer |
| SidecarIndex.ExtractsWhenIntact | tools/rem_parity_rederive.py:732-764 | with the computed number of blocks, extraction succeeds if and only if every block is present and its checksum matches |
| SidecarIndex.IntactIff | tools/rem_parity_rederive.py:740-750 | a block is intact if and only if it lies in the data and the CRC-64/XZ of all of it is the residue |
| SidecarIndex.CrcIsChecksum | tools/rem_parity_rederive.py:171-176 | CRC-64/XZ fits the eight-byte trailer, so the packing results hold for it |
| SidecarIndex.PackThenExtract | tools/rem_parity_rederive.py:711-764 | an index packed greedily into checksummed blocks, anywhere in a file, is extracted entry for entry |
| Cbor.Sound | tools/rem_parity_rederive.py:228-290 | whatever a strict decoder accepts is the encoding, at that place, of an item its profile admits, of the size it counted |
| Cbor.Complete | tools/rem_parity_rederive.py:228-290 | every encoding of an admitted item is accepted and decodes to that item |
| Cbor.AcceptsExactly | tools/rem_parity_rederive.py:228-298 | a whole input is accepted if and only if it encodes an admitted item within the item budget |
| CborTruncation.PrefixIsTooShort | tools/rem_parity_rederive.py:228-290 | every proper prefix of an accepted input is refused as too short, not as malformed |
| Cbor.ParseItem | tools/rem_parity_rederive.py:247-290 | the recursive decoder computes the specified parse |
| Cbor.ParseItems | tools/rem_parity_rederive.py:268-272 | the array loop computes the specified parse of its items |
| Cbor.ParseMap | tools/rem_parity_rederive.py:273-285 | the map loop, with its previous key, computes the specified parse of its entries |
| Cbor.NumberExamples | tools/rem_parity_rederive.py:179-192 | integers of Appendix A of RFC 8949 and their encodings |
| Cbor.LargeNumberExamples | tools/rem_parity_rederive.py:179-192 | four- and eight-byte integers of Appendix A of RFC 8949 and their encodings |
| Cbor.OtherExamples | tools/rem_parity_rederive.py:195-225 | strings, empty collections and simple values of Appendix A of RFC 8949 and their encodings |
| Cbor.NestedExamples | tools/rem_parity_rederive.py:195-225 | an array and a map, with their encodings and the items they count as |
| Cbor.OneKey | tools/rem_parity_rederive.py:273-285 | which single keys each key rule admits |
| Cbor.TwoKeys | tools/rem_parity_rederive.py:273-285 | two keys are admitted together if and only if they are in the required order and Python does not take them for one |
| Utf8.ValidIff | tools/rem_parity_rederive.py:262-267 | bytes are well-formed text if and only if they encode a sequence of Unicode scalar values |
| PythonCbor.EncodeIsPrintCanon | tools/rem_parity_rederive.py:195-225 | sorting encoded pairs while encoding equals printing the value with its entries sorted at every level |
| PythonDecoders.EncodeInvertsDecode | tools/rem_parity_rederive.py:293-298 | encoding an accepted value gives the input back, so the final comparison never refuses |
| PythonDecoders.DecodeInvertsEncode | tools/rem_parity_rederive.py:195-298 | for every value that the encoder takes: decoding its encoding gives it back, up to dictionary order, if and only if it nests at most 64 deep and has no tuple as a key, and is refused otherwise |
| PythonDecoders.TupleKeyIsNotReadBack | tools/rem_parity_rederive.py:212-284 | the dictionary {(1,): 0} is encoded as a1 81 01 00, which the decoder refuses |
| PythonDecoders.EncodeIsInjective | tools/rem_parity_rederive.py:195-225 | in both key orders, two values, tuple keys included, share an encoding if and only if they differ only in dictionary order |
| PythonDecoders.DecodeDeterministicCbor | tools/rem_parity_rederive.py:293-298 | the decoder accepts exactly one item with nothing after it |
| PythonDecoders.DecodeCborExact | tools/verify_rem_object_vectors_independent.py:562-630 | the object tool accepts exactly one item with nothing after it; encoding that item gives the input back if and only if it holds no negative integer, and is refused otherwise |
| PythonDecoders.NegativeIsNotWritten | tools/verify_rem_object_vectors_independent.py:502-503 | the object tool reads 0x20 as -1 and refuses to write it |
| PythonDecoders.DecodeExactInvertsEncode | tools/verify_rem_object_vectors_independent.py:496-630 | for every value that the object tool writes: decoding gives it back, up to dictionary order, if and only if it nests at most 32 deep, and is refused otherwise |
| PythonDecoders.NestingLimits | tools/rem_parity_rederive.py:250-250 | arrays nested n deep are read back by the parity tool if and only if n is at most 64, and by the object tool if and only if n is at most 32 |
| CborKeyOrder.OrdersAgree | tools/verify_rem_object_vectors_independent.py:512-514 | length-first and bytewise order agree on any two scalar keys of one major type |
| CborKeyOrder.OrdersAgreeIff | tools/verify_rem_object_vectors_independent.py:512-514 | the two orders agree on two scalar keys if and only if they have one major type or the key of the lower type is not the longer |
| CborKeyOrder.OrdersDisagreeAcrossTypes | tools/verify_rem_object_vectors_independent.py:512-514 | 24 and the empty byte string, keys that both encoders take, are ranked differently by the two orders |
| CborKeyOrder.EncodersAgreeIff | tools/rem_parity_rederive.py:195-225 | the two tools write the same bytes for a value if and only if the object tool takes it (no negative integer, no tuple key) and in every map every two keys have one major type or the key of the lower type is not the longer |
| CborKeyOrder.EncodersDisagree | tools/verify_rem_object_vectors_independent.py:496-515 | the dictionary {24: 0, b"": 0} is taken by both tools and written differently |
| EnvelopeHeader.FillHeader | crates/remanence-aead/src/header.rs:125-141 | filling the buffer field by field serializes the header, failing exactly on invalid headers |
| EnvelopeHeader.FillObjectIdField | crates/remanence-aead/src/header.rs:219-226 | the padded object-id field, refused exactly when empty, too long or containing NUL |
| EnvelopeHeader.AcceptsExactly | crates/remanence-aead/src/header.rs:66-123 | 128 bytes are accepted if and only if magic, lengths, versions, reserved bytes, salt, ranges and the object-id field meet the format byte by byte |
| EnvelopeHeader.WireSlices | crates/remanence-aead/src/header.rs:125-141 | every field of a serialized header at its offset |
| EnvelopeHeader.ParsesSerialized | crates/remanence-aead/src/header.rs:66-141 | parsing a serialized header gives it back |
| EnvelopeHeader.SerializesParsed | crates/remanence-aead/src/header.rs:66-141 | serializing a parsed header gives the same 128 bytes back |
| KeyFrame.ParseFrame | crates/remanence-aead/src/key_frame.rs:47-94 | the cursor loop computes the specified parse |
| KeyFrame.SerializeFrame | crates/remanence-aead/src/key_frame.rs:97-118 | appending slot by slot serializes the frame, failing exactly on invalid frames |
| KeyFrame.Validate | crates/remanence-aead/src/key_frame.rs:121-143 | the one-pass validation accepts exactly canonical frames of one to eight slots |
| KeyFrame.ValidIff | crates/remanence-aead/src/key_frame.rs:121-143 | valid frames are one to eight slots in index order with different epochs and short printable labels |
| KeyFrame.SlotLayout | crates/remanence-aead/src/key_frame.rs:97-118 | every field of a serialized slot at its offset |
| KeyFrame.FrameLayout | crates/remanence-aead/src/key_frame.rs:97-118 | magic, slot count, and every slot where the one before it ends |
| KeyFrame.SerializeNeverTooLong | crates/remanence-aead/src/key_frame.rs:97-118 | every valid frame is 1191 to 9749 bytes long, so the length error cannot occur |
| KeyFrame.ParsesSerialized | crates/remanence-aead/src/key_frame.rs:47-118 | parsing a serialized frame gives its slots back |
| KeyFrame.SerializesParsed | crates/remanence-aead/src/key_frame.rs:47-118 | serializing a parsed frame gives the same bytes back |
| Metadata.WriteCbor | crates/remanence-aead/src/metadata.rs:45-58 | appending head by head writes the deterministic encoding of the four-entry map, or the validation error |
| Metadata.WrittenBytes | crates/remanence-aead/src/metadata.rs:45-58 | the exact bytes that are written |
| Metadata.ValidIffPayloadFits | crates/remanence-aead/src/metadata.rs:71-85 | metadata validate exactly when the chunk size is legal and the payload length computes without error, so opening cannot fail on it later |
| Metadata.AcceptsExactly | crates/remanence-aead/src/metadata.rs:61-85 | bytes are accepted as given metadata if and only if they encode, within the depth and item limits, a map with unsigned keys that holds exactly those required entries, and the sizes are valid |
| Metadata.ReadsWritten | crates/remanence-aead/src/metadata.rs:45-68 | reading written metadata gives them back |
| Metadata.WritesRead | crates/remanence-aead/src/metadata.rs:45-68 | accepted bytes whose map declares exactly four entries are byte-identical to what the writer writes |
| MetadataDecoder.Decoder.ReadTypeLen | crates/remanence-aead/src/metadata.rs:284-324 | reads one head in shortest form and moves the cursor past it, with the same errors |
| MetadataDecoder.Decoder.SkipItem | crates/remanence-aead/src/metadata.rs:237-282 | ends on every input; agrees with the general decoder on acceptance, error, position and count; each counted item has taken at least a byte |
| MetadataDecoder.Decoder.SkipMap | crates/remanence-aead/src/metadata.rs:262-275 | the same for map entries, for any declared count up to 2^64-1 |
| MetadataDecoder.Decoder.DecodeMetadataMap | crates/remanence-aead/src/metadata.rs:137-198 | on success and on failure the cursor stays in the input, at most 65,536 items count and none below level 32 |
| MetadataDecoder.DecodeMetadata | crates/remanence-aead/src/metadata.rs:61-68 | the cursor-based decoder returns exactly the specified metadata or error |
| Kdf.DeriveSalt | crates/remanence-aead/src/kdf.rs:76-100 | returns the first candidate of counters 0 to 255 that is not zero, and fails exactly when all are zero |
| Kdf.SaltInfoLayout | crates/remanence-aead/src/kdf.rs:86-92 | the 16-byte salt comes from HKDF with no salt, and label, counter, object id, plaintext digest and metadata hash at their offsets in the HKDF info |
| Kdf.SaltInfoBinds | crates/remanence-aead/src/kdf.rs:86-92 | the info determines counter, object id, plaintext digest and metadata hash |
| Kdf.KeySchedule | crates/remanence-aead/src/kdf.rs:102-140 | the object secret is bound to DEK, salt and header hash, and the two keys are expanded from it under different labels |
| Wrap.FillWrapInfo | crates/remanence-aead/src/wrap.rs:510-523 | filling the 103-byte buffer field by field gives the transcript |
| Wrap.WrapInfoLayout | crates/remanence-aead/src/wrap.rs:510-523 | every field of the transcript at its offset |
| Wrap.WrapInfoBinds | crates/remanence-aead/src/wrap.rs:510-523 | the transcript determines object id, epoch and slot index |
| Wrap.WrapToAll | crates/remanence-aead/src/wrap.rs:526-537 | wraps to each recipient in order, stops at the first failure, and refuses non-canonical slot sets |
| Wrap.WrappedForEach | crates/remanence-aead/src/wrap.rs:526-573 | slot i names recipient i and holds the DEK encapsulated to its key under the transcript of object, epoch and slot |
| Wrap.UnwrapDek | crates/remanence-aead/src/wrap.rs:575-607 | reports an epoch mismatch exactly when no slot has the epoch, and otherwise a 32-byte key or an HPKE failure |
| Wrap.UnwrapsIff | crates/remanence-aead/src/wrap.rs:575-607 | a key unwraps exactly what the first slot of its epoch opens to under that transcript, if it is 32 bytes |
| Wrap.UnwrapsWrapped | crates/remanence-aead/src/wrap.rs:526-607 | the key of any listed recipient unwraps the data-encryption key, whatever the other slots hold |
| Stream.NonceIsUnique | crates/remanence-aead/src/stream.rs:99-104 | the nonce determines frame index and finality, so no two frames of an object share one |
| Stream.NonceLayout | crates/remanence-aead/src/stream.rs:99-104 | three zero bytes, the index in eight bytes, and a last byte that is 1 exactly on the final frame |
| Stream.StoredSizeClosedForm | crates/remanence-aead/src/stream.rs:107-142 | checked arithmetic gives the closed-form stored size, or overflow exactly when that does not fit 64 bits |
| Stream.ChunksFromStoredSize | crates/remanence-aead/src/stream.rs:116-180 | the stored size determines the chunk count, because the fill is shorter than one frame |
| Sealer.ValidateRecipientSet | crates/remanence-aead/src/seal.rs:80-107 | three passes accept exactly distinct, nonzero epochs in increasing slot order |
| Sealer.PrepareSeal | crates/remanence-aead/src/seal.rs:161-214 | all steps before the first write, with their errors in order |
| Sealer.EncryptPayload | crates/remanence-aead/src/seal.rs:270-298 | writes exactly the frames of the chunks the input delivers; a failing output holds a prefix of them |
| Sealer.HashingWriter.WriteAll | crates/remanence-aead/src/seal.rs:349-361 | count and hash follow the bytes that reached the output, also when the output fails part-way |
| Sealer.WriteZeroFill | crates/remanence-aead/src/seal.rs:318-327 | writes exactly the fill in blocks |
| Sealer.SealWithMaterial | crates/remanence-aead/src/seal.rs:149-258 | writes exactly the specified bytes with the specified result, or a prefix of them with an I/O error when the output fails; an unlimited output fails if and only if the bytes written do not count in 64 bits |
| Sealer.SealWithEntropy | crates/remanence-aead/src/seal.rs:119-129 | a refused recipient set and a failed entropy draw write nothing |
| SealConditions.PrepareSucceedsIff | crates/remanence-aead/src/seal.rs:161-214 | a seal is prepared if and only if options, recipients, primitives and salt meet stated conditions: no length or header check refuses more |
| Seal.SealOutcome | crates/remanence-aead/src/seal.rs:149-258 | a prepared seal succeeds if and only if the input is the announced plaintext and the stored size fits 64 bits; it has then written exactly that size, and reports the header, slots, lengths, sizes and the digests of what it read and of all it wrote; when only the size does not fit it reports an overflow with all frames and the footer written, and every other failure leaves whole frames and no footer |
| Seal.ReportedBlocks | crates/remanence-aead/src/seal.rs:243-257 | the reported number of blocks, in chunks, is what was written |
| Seal.SealFailure | crates/remanence-aead/src/seal.rs:219-243 | why a prepared seal fails: early end, read error, digest, surplus input or size, in that order |
| SealExamples.FooterOfFailedSeal | crates/remanence-aead/src/seal.rs:233-243 | 17591917613055 chunks of 2^20 bytes for one recipient: frames and footer end below 2^64 and are written, and then the seal fails |
| SealExamples.SmallObjectsAreSealed | crates/remanence-aead/src/seal.rs:149-258 | under the consistency witness every small plaintext of zeros is sealed, and its recipient opens it, so the envelope theorems speak of something |
| EnvelopeRoundTrip.AuthenticatesSealed | crates/remanence-aead/src/open.rs:59-84 | the front of a sealed object authenticates for every listed recipient, to the same header, slots, metadata and keys |
| EnvelopeRoundTrip.SealedLayout | crates/remanence-aead/src/seal.rs:149-258 | header, key frame, metadata frame, each chunk's frame under its own index, footer and zero fill stand at their offsets, and are those of the options |
| EnvelopeRoundTrip.SealThenOpen | crates/remanence-aead/src/open.rs:54-115 | whenever sealing succeeds, opening with any listed recipient releases the same plaintext, reports the same header and key frame, and consumes every stored byte |
| Opener.AuthenticateFront | crates/remanence-aead/src/open.rs:59-84 | reads header, key frame and metadata frame in order, with the specified result, and stops at the payload |
| Open.AuthenticateAccepts | crates/remanence-aead/src/open.rs:59-84 | the front authenticates if and only if it is a header, a key frame the key unwraps, and a metadata frame that opens under keys bound to the exact front bytes, with the salt derived from the identity and the metadata |
| Opener.DecryptPayload | crates/remanence-aead/src/open.rs:126-162 | releases the plaintext of each frame that verifies and stops at the first that does not |
| Opener.ReadZeroFill | crates/remanence-aead/src/open.rs:173-185 | checks the fill block by block |
| Opener.OpenObject | crates/remanence-aead/src/open.rs:54-115 | returns the specified result and releases the specified plaintext, also on late failures |
| Open.DecryptedDecodes | crates/remanence-aead/src/open.rs:126-162 | a complete release is the concatenation of what every frame opens to under its own index and finality |
| Open.OpenAccepts | crates/remanence-aead/src/open.rs:54-115 | opening succeeds if and only if the input is exactly frames of a plaintext with the recorded digest, footer and zero fill |
| OpenFailures.TruncatedFails | crates/remanence-aead/src/open.rs:54-185 | every proper prefix of an object fails, with an early end or inside the payload a missing chunk, after releasing exactly the chunks whose frames it holds whole; a reader that breaks gives its own error |
| OpenFailures.ExtendedFails | crates/remanence-aead/src/open.rs:54-185 | an object with anything after it releases the plaintext and then fails |
| OpenFailures.DamagedTailFails | crates/remanence-aead/src/open.rs:164-185 | an object damaged after its frames releases the plaintext and then fails on the footer or on the fill |
| Range.ValidateRange | crates/remanence-aead/src/range.rs:397-414 | a range is valid exactly when it ends inside the plaintext and below 2^64 |
| Range.GeometryCovers | crates/remanence-aead/src/range.rs:207-262 | a reported geometry covers exactly the chunks that hold a requested byte, in one contiguous run of whole frames |
| Range.GeometryFits | crates/remanence-aead/src/range.rs:207-262 | when the object fits 64 bits every in-bounds range has a geometry, inside the payload |
| Range.RangeAgreesWithOpen | crates/remanence-aead/src/range.rs:95-334 | on every object whole open accepts, every in-bounds range opens to exactly that part of the plaintext, from the minimal contiguous run of frames |
| Range.InnerRangeAgreesWithOpen | crates/remanence-aead/src/range.rs:113-133 | the same for ranges counted from an inner chunk |
| Range.RangeRefusedIff | crates/remanence-aead/src/range.rs:397-414 | on an object whole open accepts, a range is released if and only if it ends inside the plaintext, and is otherwise refused as invalid |
| Range.RangeIsLocal | crates/remanence-aead/src/range.rs:169-395 | two inputs that agree on the front and on the fetched frames give identical results, whatever the other bytes are |
| RangeReader.Gather | crates/remanence-aead/src/range.rs:303-332 | the loop releases the requested part of each frame; every subtraction and slice in it is in bounds |
| RangeReader.OpenFromReader | crates/remanence-aead/src/range.rs:265-334 | the reader form returns the specified result and release, refusing a wrong start |
| RangeReader.OpenRange | crates/remanence-aead/src/range.rs:95-110 | the slice form returns the specified result |
| Inspect.ShapeIsUnique | crates/remanence-aead/src/inspect.rs:73-102 | a stored size is accepted for a chunk count if and only if it is the closed-form size for that count |
| Inspect.InspectAccepts | crates/remanence-aead/src/inspect.rs:35-131 | inspection succeeds if and only if the front parses and the data have, for some chunk count, exactly its stored size with footer and zero fill in place |
| Inspect.InspectReports | crates/remanence-aead/src/inspect.rs:104-131 | the report of an inspection: front, size and digest of the data, and the sizes of its chunk count |
| Inspect.InspectAgreesWithOpen | crates/remanence-aead/src/inspect.rs:35-131 | whatever can be opened whole can be inspected without a key, with the same header, sizes, chunk count and footer offset |
| Inspect.InspectReader | crates/remanence-aead/src/inspect.rs:35-131 | the seeking, buffered inspection returns the specified report or error |
| Pax.PaxLenIsLeast | tools/verify_rem_object_vectors_independent.py:326-334 | the record length is the least number that counts its own digits |
| Pax.PaxLenStep | tools/verify_rem_object_vectors_independent.py:326-334 | one more value byte lengthens a record by one or two: at most one length is skipped |
| Pax.PaxRecordLen | tools/verify_rem_object_vectors_independent.py:326-334 | the digit-count iteration ends at that length |
| Pax.MaxPadLen | tools/verify_rem_object_vectors_independent.py:357-371 | the binary search finds the longest pad that fits, or 0 when none does |
| Pax.LongestPadReaches | tools/verify_rem_object_vectors_independent.py:383-389 | the longest pad brings the rounded body exactly to the target |
| Pax.AlignmentPad | tools/verify_rem_object_vectors_independent.py:374-391 | for every chunk size that is a multiple of 512 and every aligned offset, the retry loop over targets returns a pad, the longest for its first target, which is the least that ends on a chunk boundary |
| PaxRecords.RecordStatesLength | tools/verify_rem_object_vectors_independent.py:337-343 | an encoded record is as long as it says, so the fixed-point assertion never fires |
| PaxRecords.RecordExample | tools/verify_rem_object_vectors_independent.py:337-343 | key "a" and value "b" are written as "6 a=b" and a newline |
| PaxRecords.RecordStands | tools/verify_rem_object_vectors_independent.py:346-350 | records follow one another in the order given |
| PaxRecords.InsertKeepsOrder | tools/verify_rem_object_vectors_independent.py:346-350 | adding the pad keeps the records in key order and changes no other |
| PaxRecords.ParsePaxRecords | crates/remanence-format/src/reader.rs:988-1028 | the reader computes the specified records, and no slice it takes is out of bounds |
| PaxRecords.ReadsWhatWasWritten | crates/remanence-format/src/reader.rs:988-1028 | the reader gives back every record the writer takes, and nothing else, if and only if no keyword holds a control character |
| PaxRecords.TabIsNotReadBack | crates/remanence-format/src/pax.rs:185-196 | a keyword with a tab is written and then refused |
| CanonicalTar.PlanOneFile | tools/verify_rem_object_vectors_independent.py:674-697 | returns the one plan of an entry at an offset: offsets follow from record lengths, and a nonempty payload is planned on a chunk boundary |
| CanonicalTar.WrittenAsPlanned | tools/verify_rem_object_vectors_independent.py:773-807 | an appended entry has both headers, pax body, payload and zero padding at the planned offsets |
| CanonicalTar.BuildPlaintext | tools/verify_rem_object_vectors_independent.py:810-849 | fails if and only if the global pax body, or the pax body of a file or of the manifest as planned, outgrows an octal field; otherwise every byte is accounted for: the global header and records, each entry in order with headers, records, payload and padding at its planned offsets, two zero records and zeros to a chunk boundary; nonempty payloads start chunks |
| TerminalSlots.DecodesExactly | tools/verify_terminal_index_vectors.py:360-369 | a slot decodes to a value if and only if it is the slot of that value and the value is admitted |
| TerminalSlots.SlotLayout | tools/verify_terminal_index_vectors.py:360-365 | the length, lowest byte first, then the encoding, then zeros to the end of the slot |
| TerminalSlots.ReencodingIsRedundant | tools/verify_terminal_index_vectors.py:368-368 | the re-encoding check refuses nothing that strict decoding accepts |
| TerminalSlots.KeyExamples | tools/verify_terminal_index_vectors.py:316-338 | integer keys of either sign, shorter encodings first |
| TerminalRows.WalkIsFitting | tools/verify_terminal_index_vectors.py:465-509 | accepted rows state exactly the running sums of the rows before them, and the counters are those sums |
| TerminalRows.FittingIsWalked | tools/verify_terminal_index_vectors.py:465-509 | every such sequence of rows is accepted |
| TerminalRows.LocatorsAre | tools/verify_terminal_index_vectors.py:481-492 | the locators name exactly the Object files with their blocks, in order |
| TerminalRows.SpansAreBlocksAndMarks | tools/verify_terminal_index_vectors.py:506-506 | the covered prefix is all blocks and one filemark for each file |
| TerminalObjects.AcceptsExactlyRows | tools/verify_terminal_index_vectors.py:372-435 | an Object row is accepted for a file if and only if it is a plaintext row with a manifest in its blocks, or an encrypted row with its frames and recipients, with nothing of the other kind |
| TerminalIndex.MapsExactly | tools/verify_terminal_index_vectors.py:465-509 | structural rows are accepted if and only if their slots encode fitting rows |
| TerminalIndex.ObjectsExactly | tools/verify_terminal_index_vectors.py:512-517 | the Object region is read as certain locators if and only if each slot encodes an Object row of its file |
| TerminalIndex.AcceptsExactly | tools/verify_terminal_index_vectors.py:438-528 | a payload is accepted with certain rows if and only if it stands in the data as the header counts it, with zero padding, and its slots encode these rows and their Object rows, with the sums the header states |
| TerminalIndex.AcceptedIsPartition | tools/verify_terminal_index_vectors.py:438-528 | an accepted payload is the declared bytes after the header record, partitions the data ordinals among Object files and the protected ordinals among sidecars, its Object rows are the kind-0 rows in order, and spans plus filemarks end at replica A |
| TerminalIndex.MapAll | tools/verify_terminal_index_vectors.py:465-509 | the loop with its running counters computes the specified walk |
| TerminalIndex.ReadObjectRows | tools/verify_terminal_index_vectors.py:512-517 | the loop over Object rows computes the locators that `TerminalIndex.ObjectsExactly` describes |
| TerminalIndex.ValidatePayload | tools/verify_terminal_index_vectors.py:438-528 | accepts exactly the payloads that `TerminalIndex.AcceptsExactly` describes, and returns the domain-separated digest of the payload and the digest of the map it encodes |
| Publish.NextKeepsInv | tools/zenodo_deposit.py:578-668 | every step of the process, the repository, a crash, a power loss or a restart keeps the protocol invariant |
| Publish.PostOnlyWhenReady | tools/zenodo_deposit.py:619-651 | in every run a POST is sent for a record only after this process last listed nothing but baseline and planned records, preflighted all six and saw every earlier record done, with the record already journalled as uncertain and not as public |
| Publish.UnexpectedRecordStops | tools/zenodo_deposit.py:624-650 | in every run, once a listing holds a record that is neither in the baseline nor planned, the process sends no POST before it lists again |
| Publish.OnlySendingPosts | tools/zenodo_deposit.py:642-642 | nothing else sends a POST |
| Publish.JournalCoversPosts | tools/zenodo_deposit.py:601-661 | in every run everything the tool made public is in the journal's public or uncertain set, and what the journal calls public was once reported done |
| Publish.BaselineNeverChanges | tools/zenodo_deposit.py:578-632 | once durably journalled, the baseline inventory and the plan never change and no record leaves the journal |
| Publish.DoneIsNotPostedAgain | tools/zenodo_deposit.py:634-651 | from a state where a record is done and no run stands between its fetch and its POST of it, no POST is sent for it while it stays done, in any run |
| PublishRecovery.RerunCanFinish | tools/zenodo_deposit.py:578-668 | from every stopped state whose journal calls public only what is still done, a rerun of the plan can end with all six public and durably journalled |
| PublishRecovery.WithdrawnBlocks | tools/zenodo_deposit.py:430-437 | when the repository no longer reports done a record the journal calls public, and no POST of it is under way, reruns send no POST at all |
| PublishRecovery.HandlerReconciles | tools/zenodo_deposit.py:653-668 | wherever a run raises, its handler tries to read all six records, whichever reads fail, and the durable journal then has exactly the records that answered done moved from uncertain to public |

## Left out

- ChaCha20-Poly1305, HKDF, SHA-256, HPKE and X-Wing themselves: parameters constrained by `Envelope.Lawful`.
- Secrecy, authenticity against forgery, zeroization and constant-time comparison: not functional properties.
- Interrupted reads and writes that are retried, and short writes that succeed on retry: one read or write stands for all.
- Wrap.UnwrapsWrapped: parsing of public and private keys is part of the HPKE parameters, so both report `HpkeFailed`.
- TerminalIndex.ValidatePayload: rejection codes are not modelled, only acceptance; SHA-256 is a parameter.
- PythonDecoders.DecodeExactInvertsEncode: the metadata-budget mode of that tool's decoder is the `Metadata` profile.
- CborKeyOrder.EncodersAgreeIff: an `Array` stands for a list, and for a tuple where it is a key; a tuple as a value, which only the parity tool takes, is not told apart from a list. Integers and lengths from 2^64 up, which have no CBOR head, are not values here.
- SidecarIndex.ExtractIndexStream: block sizes below eight bytes, which its callers refuse, have no trailer and are not modelled.
- CanonicalTar.BuildPlaintext: tar header blocks are parameters of one record each, and the contents of pax records other than the pad are arbitrary.
- PaxRecords.ParsePaxRecords: the kinds of its errors are not modelled.
- Publish.PostOnlyWhenReady: each check of a record's identity, metadata and files is one step that may pass or raise; HTTP transport, token masking and locking are not modelled.
- Frame layout of replicas and gaps, terminal-tail layout and edition digests in the terminal-index tool.
- Bootstrap, parity-map and filemark-map parsing in the parity tool.
- Recipient key files and staging of Zenodo drafts: straightforward field parsing and request sequences.
- PublishRecovery.RerunCanFinish: says that a rerun can finish, not that it will; answers are not assumed to be fair.
