# RPO-Falcon512 signature façade in Dafny

This project models the signature façade of an RPO-Falcon512 verifier
(`src/dsa/rpo_falcon512/signature.rs`) and proves properties of the model. A
`Signature` holds four things: the 897 public-key bytes, the 666 signature bytes,
and the two polynomials decoded from them (h and s2). The façade provides:

- the nonce, which is bytes 1..41 of the signature blob;
- `decode_nonce`, which reads those 40 bytes as eight Goldilocks field elements, one per
  5-byte little-endian chunk;
- hash-to-point, a sponge over the 12-element Rpo256 state. The nonce is absorbed and
  permuted, the message word is absorbed, and 64 squeeze rounds of 8 rate elements,
  each reduced mod q = 12289, give the 512 coefficients;
- the verification predicate. It applies a commitment gate, computes
  s1 = ifft(fft(c) − fft(s2) ⊙ fft(h)), and accepts only strictly below the squared
  L2 bound 34034726;
- serialization as `pk ‖ sig`, and all-or-nothing deserialization that caches both decodes.

Files, one module each:

- `falcon_types.dfy` (`FalconTypes`): constants, byte/u64/Felt/Z_q types, `Felt::new`,
  the `as i16` cast, `FalconFelt::new`.
- `nonce.dfy` (`NonceCodec`): little-endian values, `decode_nonce` and its inverse.
- `hash_to_point.dfy` (`Hashing`): the sponge as functions, and the in-place method that
  works on a state array and a coefficient array with a running index.
- `ring.dfy` (`Ring`): the math-module operations as a record of functions. It also holds a
  reference model of Z_q[x]/(x^512 + 1): coefficient-wise subtraction and negacyclic
  multiplication.
- `signature.dfy` (`FalconSignature`): the `Signature` value, `verify`, `write_into`,
  `to_bytes` and `read_from`.

Collaborators that the source calls but does not define are parameters:

- the Rpo256 permutation and `hash_elements` are fields of `Rpo256`;
- fft, ifft, the Hadamard product, subtraction in the transform domain, `norm_squared`
  and the conversion to Goldilocks elements are fields of `FalconMath`;
- `pub_key_from_bytes` and `decompress_signature` are fields of `Decoders`.

Their types carry the only contracts assumed of them:

- the permutation maps a 12-element state to a 12-element state;
- each decoder fails or returns 512 coefficients in [0, q);
- `ifft` always returns a polynomial of 512 coefficients in [0, q). The source's
  `Polynomial` type does not fix its length, so this is an assumption of the model;
- fft, the Hadamard product and subtraction return transform-domain values (`Ntt`), on
  which nothing else is assumed;
- `as_int` is below the Goldilocks modulus;
- `norm_squared` is at most 512 · 6144², the largest sum of 512 squared centered
  coefficients.

`Signature.Valid(d)` says that the cached polynomials are the decodes of the raw bytes.
The accessors `Signature.PubKeyPoly` and `Signature.SigPoly` return those decodes under
every `d` for which the signature is valid.

Constants that `signature.rs` imports but does not define are taken from the scheme and
its RPO parameters:

- STATE_WIDTH = 12, with the rate at slots 4..12 and the capacity at 0..4;
- N = 512 and q = 12289;
- SIG_L2_BOUND = 34034726;
- the Goldilocks modulus 2^64 − 2^32 + 1;
- blob lengths 897 and 666.

The doc comment at `signature.rs:24` states the bound as `<=`. The code at line 114 uses
`<`, and the model follows the code: `VerifyRejectsAtBound` shows that equality rejects.

## Model

| member | source | states |
|---|---|---|
| `FalconTypes.FeltNew` | src/dsa/rpo_falcon512/signature.rs:193-195 | `Felt::new` leaves a value below the Goldilocks modulus unchanged and reduces one above it by the modulus |
| `FalconTypes.AsI16` | src/dsa/rpo_falcon512/signature.rs:179 | the `as i16` cast yields a 16-bit signed value congruent to its input mod 2^16 |
| `FalconTypes.FalconFeltNew` | src/dsa/rpo_falcon512/signature.rs:179 | `FalconFelt::new` yields the representative in [0, q) congruent to its input |
| `FalconTypes.ReduceToZq` | src/dsa/rpo_falcon512/signature.rs:179 | the squeezed coefficient is exactly `as_int % 12289`: the i16 cast never truncates it and `FalconFelt::new` does not change it |
| `NonceCodec.LeValue` | src/dsa/rpo_falcon512/signature.rs:195 | a little-endian value of n bytes is below 256^n |
| `NonceCodec.LeValueZeroPadded` | src/dsa/rpo_falcon512/signature.rs:189-195 | zero bytes appended after a little-endian chunk do not change its value; so the 8-byte buffer whose top 3 bytes stay zero has the value of its 5-byte chunk |
| `NonceCodec.ChunkValue` | src/dsa/rpo_falcon512/signature.rs:191-195 | the value of each 5-byte nonce chunk is below 2^40, so it is a field element |
| `NonceCodec.NonceElements` | src/dsa/rpo_falcon512/signature.rs:188-199 | a nonce yields exactly 8 elements |
| `NonceCodec.DecodeNonce` | src/dsa/rpo_falcon512/signature.rs:188-199 | element i is the little-endian value of bytes [5i, 5i+5), below 2^40, so `Felt::new` never reduces it; the loop with the reused buffer computes `NonceElements` |
| `NonceCodec.NonceElementsInjective` | src/dsa/rpo_falcon512/signature.rs:188-199 | two nonces with equal decodes are equal: decoding loses no nonce byte |
| `NonceCodec.DecodeEncodeNonce` | src/dsa/rpo_falcon512/signature.rs:188-199 | every 8 elements below 2^40 are the decode of the nonce that encodes them in 5 little-endian bytes each |
| `Hashing.AbsorbAt` | src/dsa/rpo_falcon512/signature.rs:163-171 | absorbing overwrites rate slot 4+j with input j for every j below the input's length and leaves every other slot as it was |
| `Hashing.RateCoefficients` | src/dsa/rpo_falcon512/signature.rs:178-181 | one squeeze round yields 8 coefficients, number j being rate element j mod q |
| `Hashing.Squeeze` | src/dsa/rpo_falcon512/signature.rs:174-182 | k rounds yield 8k coefficients; coefficient idx is rate slot idx % 8 of the state after idx / 8 + 1 permutations, mod q |
| `Hashing.HashedPointCoefficient` | src/dsa/rpo_falcon512/signature.rs:174-182 | 64 rounds of 8 fill exactly N = 512 slots; coefficient 8k + j is rate element j after the (k+1)-th squeeze permutation, mod 12289 |
| `Hashing.NonceStateLayout` | src/dsa/rpo_falcon512/signature.rs:159-165 | the nonce replaces the whole rate of the all-zero state, and the capacity stays zero |
| `Hashing.MessageStateLayout` | src/dsa/rpo_falcon512/signature.rs:166-171 | the message replaces only rate slots 4..8; the capacity and rate slots 8..12 keep their values after the first permutation |
| `Hashing.DistinctNoncesDistinctStates` | src/dsa/rpo_falcon512/signature.rs:159-166 | distinct nonces give distinct absorbed states before the first permutation |
| `Hashing.ApplyPermutation` | src/dsa/rpo_falcon512/signature.rs:166 | the state array afterwards holds the permutation of its old contents |
| `Hashing.AbsorbInto` | src/dsa/rpo_falcon512/signature.rs:163-165 | the zip loop leaves the state array equal to `Absorb` of its old contents |
| `Hashing.SqueezeInto` | src/dsa/rpo_falcon512/signature.rs:173-182 | the 64 rounds of permute-then-write with the running index `i` return `Squeeze` of the absorbed state (every write `res[i]` is in bounds) and leave the state array permuted 64 times |
| `Hashing.HashToPoint` | src/dsa/rpo_falcon512/signature.rs:158-185 | the in-place sponge with the running index returns `HashedPoint(message, nonce)`: 512 coefficients, number idx being rate slot idx % 8 after idx / 8 + 1 squeeze permutations, mod q |
| `Ring.TransformDomainS1` | src/dsa/rpo_falcon512/signature.rs:107-109 | over a ring transform (ifft undoes fft, fft turns ring subtraction and negacyclic multiplication into their transform-domain forms), `ifft(fft(c) − fft(s2) ⊙ fft(h))` is c − s2·h in Z_q[x]/(x^512+1) |
| `FalconSignature.Signature.PubKeyPoly` | src/dsa/rpo_falcon512/signature.rs:60-62 | `pub_key_poly` is the decode of the public-key bytes under every decoder the signature is valid for |
| `FalconSignature.Signature.SigPoly` | src/dsa/rpo_falcon512/signature.rs:77-79 | `sig_poly` is the decode of the signature bytes under every decoder the signature is valid for |
| `FalconSignature.Signature.Nonce` | src/dsa/rpo_falcon512/signature.rs:68-74 | the nonce is exactly bytes 1..41 of the signature blob; the slice is always in range |
| `FalconSignature.Signature.HashToPoint` | src/dsa/rpo_falcon512/signature.rs:85-88 | `Signature::hash_to_point(m)` equals the free `hash_to_point(m, self.nonce())` |
| `FalconSignature.Signature.Verify` | src/dsa/rpo_falcon512/signature.rs:94-115 | rejects whenever the commitment of h differs from `pubkey_com`; accepts iff the commitment matches and norm²(s1) + norm²(s2) < SIG_L2_BOUND, with s1 computed in the transform domain; over a ring transform, s1 = c − s2·h. The body proves that the u64 sum stays below 2^64, given the assumed `norm_squared` bound |
| `FalconSignature.Signature.WriteInto` | src/dsa/rpo_falcon512/signature.rs:122-125 | the writer gains the public-key bytes followed by the signature bytes, with no prefix |
| `FalconSignature.Signature.ToBytes` | src/dsa/rpo_falcon512/signature.rs:122-125 | the serialization is 1563 bytes: pk bytes, then sig bytes |
| `FalconSignature.ByteWriter.WriteBytes` | src/dsa/rpo_falcon512/signature.rs:123-124 | `write_bytes` appends its argument to what was written |
| `FalconSignature.ReadFrom` | src/dsa/rpo_falcon512/signature.rs:129-150 | succeeds iff 1563 bytes are present and both decoders succeed; on success it stores the raw bytes with their decodes and leaves the rest of the source; otherwise UnexpectedEof, InvalidPublicKey or InvalidSignatureEncoding, in that order of checking |
| `FalconSignature.ReadWriteRoundTrip` | src/dsa/rpo_falcon512/signature.rs:209-216 | reading `pk ‖ sig` of a valid signature gives back the same signature, hence equal `pub_key_poly` and `sig_poly` |
| `FalconSignature.WriteReadRoundTrip` | src/dsa/rpo_falcon512/signature.rs:122-150 | a signature that was read serializes to exactly the bytes it was read from |
| `FalconSignature.CommitmentDeterminedByPublicKey` | src/dsa/rpo_falcon512/signature.rs:95-96 | the commitment `verify` recomputes, `hash_elements` of h's coefficients as field elements, depends only on the public-key bytes: valid signatures with the same key have the same commitment |
| `FalconSignature.NonceInSerialization` | src/dsa/rpo_falcon512/signature.rs:68-74 | the nonce is bytes 898..938 of the serialized signature |
| `FalconSignature.VerifyRejectsWrongCommitment` | src/dsa/rpo_falcon512/signature.rs:95-98 | with a mismatched commitment `verify` rejects for every message and every s2 |
| `FalconSignature.VerifyRejectsAtBound` | src/dsa/rpo_falcon512/signature.rs:111-114 | a squared-norm sum exactly equal to SIG_L2_BOUND is rejected |
| `FalconSignature.VerifyDependsOnNonceAndPolys` | src/dsa/rpo_falcon512/signature.rs:94-115 | `verify` depends on the signature only through h, s2 and the nonce |

## Left out

- The Rpo256 permutation and `Rpo256::hash_elements` are cryptographic primitives that are not part of this model. They are total function parameters of type `State -> State` and `seq<Felt> -> Word`.
- The math module is not part of this model. This covers FFT/IFFT, `hadamard_mul`, polynomial subtraction, `norm_squared` and the conversion of `Polynomial<FalconFelt>` into `Polynomial<Felt>`; all are parameters. The only assumption about `norm_squared` is its bound of 512 · 6144². The naive ring model is used only to state what s1 means when the transform obeys the ring laws.
- `pub_key_from_bytes` and `decompress_signature` are not part of this model: their bit-level codecs are elsewhere. They are fallible decoders returning `Option`.
- Goldilocks arithmetic is not modelled beyond `Felt::new` and `as_int`. `FalconFelt::new` is modelled as the canonical representative mod q; hash-to-point only passes it values already in [0, q).
- `ByteReader`/`ByteWriter` are modelled as a byte sequence and an append-only sequence. The error-message strings become the three constructors of `DeserializationError`. `read_from_bytes`'s check for unconsumed bytes is not in `signature.rs` (it is `Deserializable`'s provided method): `ReadFrom` returns the unread rest instead.
- `SecretKey::new` and `sign` in the test use randomness and trapdoor sampling and are external. The round trip is stated for every valid signature rather than for a freshly signed one.
- Thread safety and sharing of the `Signature` value are not modelled. The value is immutable.
