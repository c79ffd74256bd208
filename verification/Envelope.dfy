/** Vocabulary of the encrypted envelope: errors, lengths, and the cryptographic primitives it is built on. */
module Envelope {
  import opened Bits
  import opened Outcomes
  import opened ByteStrings

  datatype Error =
    | InvalidMagicBytes
    | InvalidHeaderLength
    | UnsupportedFormatVersion
    | InvalidSuite
    | InvalidWrapSuite
    | InvalidKeyFrameLength
    | InvalidKeyFrame
    | EntropyUnavailable
    | HpkeFailed
    | RecipientEpochMismatch
    | InvalidChunkSize
    | ReservedBytesNotZero
    | InvalidSalt
    | MetadataFrameLengthInvalid
    | InvalidObjectIdField
    | InvalidInput
    | UnexpectedEof
    | MissingFinalChunk
    | InvalidFooter
    | TrailingData
    | FillNotZero
    | AeadAuthenticationFailed
    | InvalidCborEncoding
    | MissingRequiredMetadataField
    | InvalidMetadataField
    | SaltDerivationMismatch
    | PlaintextDigestMismatch
    | PlaintextSizeMismatch
    | SizeOverflow
    | Io

  type Outcome<+T> = Result<T, Error>

  const HEADER_LEN: nat := 128
  const TAG_LEN: nat := 16
  const KEY_FRAME_MIN_LEN: nat := 1191
  const KEY_FRAME_MAX_LEN: nat := 16384
  const METADATA_FRAME_MIN_LEN: nat := 17
  const METADATA_FRAME_MAX_LEN: nat := 16 * 1024 * 1024
  const XWING_CIPHERTEXT_LEN: nat := 1120
  const WRAPPED_DEK_LEN: nat := 48

  /** "REMO_STREAM_END." */
  const FOOTER: bytes := [82, 69, 77, 79, 95, 83, 84, 82, 69, 65, 77, 95, 69, 78, 68, 46]

  function ValidateChunkSize(chunkSize: nat): Outcome<()> {
    if chunkSize == 0 || chunkSize % 512 != 0 then Err(InvalidChunkSize) else Ok(())
  }

  /**
    The primitives: ChaCha20-Poly1305 (section 2.8 of RFC 8439), SHA-256, HKDF-SHA-256
    (RFC 5869) and single-shot HPKE in Base mode (section 6 of RFC 9180). Each is an
    arbitrary function; `Lawful` is all that is known about them.
   */
  datatype Primitives = Primitives(
    aeadSeal: (bytes, bytes, bytes) -> bytes,
    aeadOpen: (bytes, bytes, bytes) -> Option<bytes>,
    sha256: bytes -> bytes,
    hkdf: (bytes, bytes, bytes, nat) -> bytes,
    publicKey: bytes -> bytes,
    hpkeSeal: (bytes, bytes, bytes, bytes) -> Option<(bytes, bytes)>,
    hpkeOpen: (bytes, bytes, bytes, bytes) -> Option<bytes>)

  ghost predicate Lawful(c: Primitives) {
    && (forall k, n, p :: |c.aeadSeal(k, n, p)| == |p| + TAG_LEN)
    && (forall k, n, p :: c.aeadOpen(k, n, c.aeadSeal(k, n, p)) == Some(p))
    && (forall k, n, x :: c.aeadOpen(k, n, x).Some? ==> |x| == |c.aeadOpen(k, n, x).value| + TAG_LEN)
    && (forall x :: |c.sha256(x)| == 32)
    && (forall salt, ikm, info, len :: |c.hkdf(salt, ikm, info, len)| == len)
    && (forall pk, info, pt, r :: c.hpkeSeal(pk, info, pt, r).Some? ==>
          |c.hpkeSeal(pk, info, pt, r).value.0| == XWING_CIPHERTEXT_LEN
          && |c.hpkeSeal(pk, info, pt, r).value.1| == |pt| + TAG_LEN)
    && (forall sk, info, pt, r :: c.hpkeSeal(c.publicKey(sk), info, pt, r).Some? ==>
          var (enc, ct) := c.hpkeSeal(c.publicKey(sk), info, pt, r).value;
          c.hpkeOpen(sk, enc, info, ct) == Some(pt))
  }

  function Ones(n: nat): (r: bytes)
    ensures |r| == n && forall i :: 0 <= i < n ==> r[i] == 1
  {
    seq(n, _ => 1)
  }

  /** Primitives that meet the laws without hiding anything, so that the laws are known to be consistent. */
  ghost function Transparent(): Primitives {
    Primitives(
      (k, n, p) => p + Zeros(TAG_LEN),
      (k, n, x: bytes) => if |x| >= TAG_LEN then Some(x[..|x| - TAG_LEN]) else None,
      x => Zeros(32),
      (salt, ikm, info, len) => Ones(len),
      sk => sk,
      (pk, info, pt, r) => Some((Zeros(XWING_CIPHERTEXT_LEN), pt + Zeros(TAG_LEN))),
      (sk, enc, info, ct: bytes) => if |ct| >= TAG_LEN then Some(ct[..|ct| - TAG_LEN]) else None)
  }

  lemma TransparentIsLawful()
    ensures Lawful(Transparent())
  {
    var c := Transparent();
    assert forall p: bytes :: (p + Zeros(TAG_LEN))[..|p|] == p;
  }
}
