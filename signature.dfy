/** The RPO-Falcon512 signature façade: the raw public-key and signature bytes with their
    cached decodes, nonce extraction, hash-to-point of a message, the verification
    predicate, and serialization as `pk ‖ sig`. */
module FalconSignature {
  import opened FalconTypes
  import opened NonceCodec
  import opened Hashing
  import opened Ring

  /** The Rpo256 primitives: the permutation over the 12-element state, and
      `hash_elements`, the commitment hash over a sequence of field elements. */
  datatype Rpo256 = Rpo256(applyPermutation: State -> State, hashElements: seq<Felt> -> Word)

  /** The two codecs of the math module: each either fails or yields a 512-coefficient
      polynomial. */
  datatype Decoders = Decoders(
    pubKeyFromBytes: PublicKeyBytes -> Option<Poly>,
    decompressSignature: SignatureBytes -> Option<Poly>)

  /** Length of `pk ‖ sig`. */
  const SERIALIZED_LEN: nat := PK_LEN + SIG_LEN

  datatype Signature = Signature(pk: PublicKeyBytes, sig: SignatureBytes, pkPoly: Poly, sigPoly: Poly)
  {
    /** The cached polynomials are the decodes of the raw bytes. */
    predicate Valid(d: Decoders)
    {
      d.pubKeyFromBytes(pk) == Some(pkPoly) && d.decompressSignature(sig) == Some(sigPoly)
    }

    /** `pub_key_poly`: the public-key polynomial h, the decode of the public-key bytes. */
    function PubKeyPoly(): (h: Poly)
      ensures forall d: Decoders :: Valid(d) ==> d.pubKeyFromBytes(pk) == Some(h)
    {
      pkPoly
    }

    /** `sig_poly`: the signature polynomial s2, the decode of the signature bytes. */
    function SigPoly(): (s2: Poly)
      ensures forall d: Decoders :: Valid(d) ==> d.decompressSignature(sig) == Some(s2)
    {
      sigPoly
    }

    /** `nonce`: the 40 bytes after the one-byte header of the signature blob. The slice is
        always in range, since the blob has 666 bytes. */
    function Nonce(): (nonce: NonceBytes)
      ensures forall k :: 0 <= k < SIG_NONCE_LEN ==> nonce[k] == sig[SIG_HEADER_LEN + k]
    {
      sig[SIG_HEADER_LEN .. SIG_HEADER_LEN + SIG_NONCE_LEN]
    }

    /** `Signature::hash_to_point`: hash-to-point of the message under this signature's nonce. */
    method HashToPoint(rpo: Rpo256, message: Word) returns (c: Poly)
      ensures c == HashedPoint(rpo.applyPermutation, message, Nonce())
    {
      var nonce := Nonce();
      c := Hashing.HashToPoint(rpo.applyPermutation, message, nonce);
    }

    /** The digest of h that `verify` compares with the caller's commitment. */
    function Commitment(rpo: Rpo256, math: FalconMath): Word
    {
      rpo.hashElements(math.intoFelts(pkPoly))
    }

    /** s1 as `verify` computes it in the transform domain:
        `ifft(fft(c) - fft(s2) ⊙ fft(h))`. */
    function S1(rpo: Rpo256, math: FalconMath, message: Word): Poly
    {
      var c := HashedPoint(rpo.applyPermutation, message, Nonce());
      math.ifft(math.sub(math.fft(c), math.hadamardMul(math.fft(sigPoly), math.fft(pkPoly))))
    }

    /** `verify`: the commitment gate, then the strict squared-norm bound on (s1, s2). Over a
        ring transform this is the Falcon condition s1 = c - s2 * h with
        |s1|^2 + |s2|^2 < SIG_L2_BOUND. */
    function Verify(rpo: Rpo256, math: FalconMath, message: Word, pubkeyCom: Word): (accepted: bool)
      ensures Commitment(rpo, math) != pubkeyCom ==> !accepted
      ensures accepted <==>
        Commitment(rpo, math) == pubkeyCom &&
        math.normSquared(S1(rpo, math, message)) + math.normSquared(sigPoly) < SIG_L2_BOUND
      ensures IsRingTransform(math) ==>
        (accepted <==>
          Commitment(rpo, math) == pubkeyCom &&
          var c := HashedPoint(rpo.applyPermutation, message, Nonce());
          math.normSquared(RingSub(c, RingMul(sigPoly, pkPoly))) + math.normSquared(sigPoly) < SIG_L2_BOUND)
    {
      if Commitment(rpo, math) != pubkeyCom then false
      else
        var lengthSquared := math.normSquared(S1(rpo, math, message)) + math.normSquared(sigPoly);
        // the u64 sum cannot wrap, so `as u64` leaves it unchanged
        assert lengthSquared < U64_LIMIT;
        lengthSquared < SIG_L2_BOUND
    }

    /** `write_into`: the public-key bytes, then the signature bytes, with no prefixes. */
    method WriteInto(target: ByteWriter)
      modifies target
      ensures target.bytes == old(target.bytes) + pk + sig
    {
      target.WriteBytes(pk);
      target.WriteBytes(sig);
    }

    /** `to_bytes`: `write_into` on a fresh writer. */
    method ToBytes() returns (bytes: seq<Byte>)
      ensures |bytes| == SERIALIZED_LEN
      ensures bytes[..PK_LEN] == pk && bytes[PK_LEN..] == sig
    {
      var writer := new ByteWriter();
      WriteInto(writer);
      bytes := writer.bytes;
    }
  }

  /** A byte sink that only appends. */
  class ByteWriter {
    var bytes: seq<Byte>

    constructor ()
      ensures bytes == []
    {
      bytes := [];
    }

    method WriteBytes(bs: seq<Byte>)
      modifies this
      ensures bytes == old(bytes) + bs
    {
      bytes := bytes + bs;
    }
  }

  datatype DeserializationError =
    | UnexpectedEof             // fewer bytes than `read_array` needs
    | InvalidPublicKey          // `pub_key_from_bytes` failed
    | InvalidSignatureEncoding  // `decompress_signature` failed

  datatype ReadResult =
    | Read(signature: Signature, rest: seq<Byte>)
    | Failed(error: DeserializationError)

  /** `read_from`: reads the 897 public-key bytes and the 666 signature bytes from the front
      of the source, decodes both, and yields the signature with what is left of the source. */
  function ReadFrom(d: Decoders, source: seq<Byte>): (r: ReadResult)
    ensures r.Read? <==>
      && |source| >= SERIALIZED_LEN
      && d.pubKeyFromBytes(source[..PK_LEN]).Some?
      && d.decompressSignature(source[PK_LEN..SERIALIZED_LEN]).Some?
    ensures r.Read? ==>
      && r.signature.Valid(d)
      && r.signature.pk == source[..PK_LEN]
      && r.signature.sig == source[PK_LEN..SERIALIZED_LEN]
      && r.rest == source[SERIALIZED_LEN..]
    ensures |source| < SERIALIZED_LEN ==> r == Failed(UnexpectedEof)
    ensures |source| >= SERIALIZED_LEN && d.pubKeyFromBytes(source[..PK_LEN]).None? ==>
      r == Failed(InvalidPublicKey)
    ensures (&& |source| >= SERIALIZED_LEN
             && d.pubKeyFromBytes(source[..PK_LEN]).Some?
             && d.decompressSignature(source[PK_LEN..SERIALIZED_LEN]).None?) ==>
      r == Failed(InvalidSignatureEncoding)
  {
    if |source| < PK_LEN then Failed(UnexpectedEof)
    else
      var pk: PublicKeyBytes := source[..PK_LEN];
      var afterPk := source[PK_LEN..];
      if |afterPk| < SIG_LEN then Failed(UnexpectedEof)
      else
        var sig: SignatureBytes := afterPk[..SIG_LEN];
        var rest := afterPk[SIG_LEN..];
        assert sig == source[PK_LEN..SERIALIZED_LEN] && rest == source[SERIALIZED_LEN..];
        match d.pubKeyFromBytes(pk)
        case None => Failed(InvalidPublicKey)
        case Some(pkPolynomial) =>
          match d.decompressSignature(sig)
          case None => Failed(InvalidSignatureEncoding)
          case Some(sigPolynomial) => Read(Signature(pk, sig, pkPolynomial, sigPolynomial), rest)
  }

  // ---------------------------------------------------------------------------------------
  // Properties
  // ---------------------------------------------------------------------------------------

  /** Reading back what `write_into` wrote gives the same signature, hence the same
      `pub_key_poly` and `sig_poly`, and leaves any following bytes unread. */
  lemma ReadWriteRoundTrip(d: Decoders, s: Signature, rest: seq<Byte>)
    requires s.Valid(d)
    ensures ReadFrom(d, s.pk + s.sig + rest) == Read(s, rest)
    ensures ReadFrom(d, s.pk + s.sig + rest).signature.PubKeyPoly() == s.PubKeyPoly()
    ensures ReadFrom(d, s.pk + s.sig + rest).signature.SigPoly() == s.SigPoly()
  {
    var source := s.pk + s.sig + rest;
    assert source[..PK_LEN] == s.pk;
    assert source[PK_LEN..][..SIG_LEN] == s.sig;
    assert source[PK_LEN..][SIG_LEN..] == rest;
  }

  /** Writing a signature that was read reproduces the bytes it was read from. */
  lemma WriteReadRoundTrip(d: Decoders, source: seq<Byte>)
    requires ReadFrom(d, source).Read?
    ensures var r := ReadFrom(d, source); r.signature.pk + r.signature.sig + r.rest == source
  {
  }

  /** The commitment `verify` checks is fixed by the public-key bytes: two signatures whose
      cached decodes are valid and that carry the same public key have the same commitment. */
  lemma CommitmentDeterminedByPublicKey(rpo: Rpo256, math: FalconMath, d: Decoders, s: Signature, s': Signature)
    requires s.Valid(d) && s'.Valid(d) && s.pk == s'.pk
    ensures s.Commitment(rpo, math) == s'.Commitment(rpo, math)
  {
  }

  /** The nonce sits at bytes 898..938 of the serialized signature. */
  lemma NonceInSerialization(s: Signature)
    ensures (s.pk + s.sig)[PK_LEN + SIG_HEADER_LEN .. PK_LEN + SIG_HEADER_LEN + SIG_NONCE_LEN] == s.Nonce()
  {
  }

  /** The commitment gate rejects whatever the message and the signature polynomial are. */
  lemma VerifyRejectsWrongCommitment(rpo: Rpo256, math: FalconMath, s: Signature, s': Signature,
                                     message: Word, message': Word, pubkeyCom: Word)
    requires s'.pkPoly == s.pkPoly
    requires s.Commitment(rpo, math) != pubkeyCom
    ensures !s.Verify(rpo, math, message, pubkeyCom) && !s'.Verify(rpo, math, message', pubkeyCom)
  {
  }

  /** The bound is strict: a pair whose squared norms sum to exactly SIG_L2_BOUND is rejected. */
  lemma VerifyRejectsAtBound(rpo: Rpo256, math: FalconMath, s: Signature, message: Word, pubkeyCom: Word)
    requires math.normSquared(s.S1(rpo, math, message)) + math.normSquared(s.sigPoly) == SIG_L2_BOUND
    ensures !s.Verify(rpo, math, message, pubkeyCom)
  {
  }

  /** `verify` reads the nonce only through hash-to-point: two signatures with the same
      polynomials and the same nonce agree on every message and commitment. */
  lemma VerifyDependsOnNonceAndPolys(rpo: Rpo256, math: FalconMath, s: Signature, s': Signature,
                                     message: Word, pubkeyCom: Word)
    requires s.pkPoly == s'.pkPoly && s.sigPoly == s'.sigPoly && s.Nonce() == s'.Nonce()
    ensures s.Verify(rpo, math, message, pubkeyCom) == s'.Verify(rpo, math, message, pubkeyCom)
  {
  }
}
