/** Scheme constants, value types and the two small integer conversions used by the
    signature façade of RPO-Falcon512: bytes, unsigned 64-bit words, Goldilocks field
    elements (`Felt`), elements of Z_q with q = 12289 (`FalconFelt`), RPO words and
    states, polynomials, and the fixed-length byte blobs. */
module FalconTypes {

  // ---------------------------------------------------------------------------------------
  // Scheme constants
  // ---------------------------------------------------------------------------------------

  /** Degree of the ring Z_q[x]/(x^N + 1). */
  const N: nat := 512
  /** The Falcon modulus q (`MODULUS` in the source). */
  const Q: nat := 12289
  /** The Goldilocks prime 2^64 - 2^32 + 1, the modulus of `Felt`. */
  const FELT_MODULUS: nat := 0xFFFF_FFFF_0000_0001
  const U64_LIMIT: nat := 0x1_0000_0000_0000_0000

  /** Width of the Rpo256 state, and its rate range 4..12 (the capacity is 0..4). */
  const STATE_WIDTH: nat := 12
  const RATE_START: nat := 4
  const RATE_WIDTH: nat := 8

  /** Number of squeeze rounds in hash-to-point; each yields RATE_WIDTH coefficients. */
  const SQUEEZE_ROUNDS: nat := 64

  const SIG_HEADER_LEN: nat := 1
  const SIG_NONCE_LEN: nat := 40
  /** Bytes per nonce element and number of nonce elements (40 = 8 * 5). */
  const NONCE_CHUNK: nat := 5
  const NONCE_ELEMENTS: nat := 8

  const PK_LEN: nat := 897
  const SIG_LEN: nat := 666

  /** Squared L2 bound of Falcon-512: a signature is accepted only strictly below it. */
  const SIG_L2_BOUND: nat := 34034726

  /** Largest centered representative of Z_q in absolute value, and hence the largest
      value `norm_squared` can return for one 512-coefficient polynomial. */
  const HALF_Q: nat := 6144
  const MAX_NORM_SQUARED: nat := N * HALF_Q * HALF_Q

  // ---------------------------------------------------------------------------------------
  // Value types
  // ---------------------------------------------------------------------------------------

  type Byte = x: int | 0 <= x < 256
  type U64 = x: int | 0 <= x < U64_LIMIT

  /** A Goldilocks field element, represented by its canonical value (`as_int`). */
  type Felt = x: int | 0 <= x < FELT_MODULUS

  /** A `FalconFelt`: an element of Z_q given by its canonical representative in [0, q). */
  type Zq = x: int | 0 <= x < Q

  /** An RPO digest / message: four field elements. */
  type Word = s: seq<Felt> | |s| == 4 witness [0, 0, 0, 0]

  /** The Rpo256 permutation state. */
  type State = s: seq<Felt> | |s| == STATE_WIDTH witness [0, 0, 0, 0, 0, 0, 0, 0, 0, 0, 0, 0]

  /** A polynomial of Z_q[x]/(x^N + 1) in coefficient form: coefficient i belongs to x^i. */
  type Poly = s: seq<Zq> | |s| == N witness seq(N, _ => 0)

  /** A polynomial in the transform (evaluation) domain; a distinct type so that it cannot
      be confused with coefficient form. */
  datatype Ntt = Ntt(values: seq<Zq>)

  /** The value `norm_squared` returns: a sum of 512 squared centered coefficients. */
  type NormSquared = n: nat | n <= MAX_NORM_SQUARED

  type NonceBytes = s: seq<Byte> | |s| == SIG_NONCE_LEN witness seq(SIG_NONCE_LEN, _ => 0)
  type PublicKeyBytes = s: seq<Byte> | |s| == PK_LEN witness seq(PK_LEN, _ => 0)
  type SignatureBytes = s: seq<Byte> | |s| == SIG_LEN witness seq(SIG_LEN, _ => 0)

  datatype Option<T> = None | Some(value: T)

  // ---------------------------------------------------------------------------------------
  // Conversions
  // ---------------------------------------------------------------------------------------

  /** `Felt::new`: reduces a 64-bit value into the Goldilocks field. */
  function FeltNew(v: U64): (f: Felt)
    ensures v < FELT_MODULUS ==> f == v
    ensures v >= FELT_MODULUS ==> f == v - FELT_MODULUS
  {
    v % FELT_MODULUS
  }

  /** Rust's `as i16` on a u64: keep the low 16 bits and read them in two's complement. */
  function AsI16(v: U64): (r: int)
    ensures -0x8000 <= r < 0x8000
    ensures (r - v) % 0x1_0000 == 0
  {
    var low := v % 0x1_0000;
    if low < 0x8000 then low else low - 0x1_0000
  }

  /** `FalconFelt::new`: the canonical representative in [0, q) of a 16-bit signed value. */
  function FalconFeltNew(v: int): (z: Zq)
    requires -0x8000 <= v < 0x8000
    ensures (z - v) % Q == 0
  {
    v % Q
  }

  /** How hash-to-point turns a squeezed rate element into a coefficient,
      `FalconFelt::new((a.as_int() % MODULUS as u64) as i16)`. The i16 cast never truncates (a value below q is below 2^15), and `FalconFelt::new`
      does not change the already reduced value: the coefficient is exactly `as_int % q`. */
  function ReduceToZq(a: Felt): (z: Zq)
    ensures z == a % Q
  {
    var m := a % Q;
    assert AsI16(m) == m;
    FalconFeltNew(AsI16(m))
  }
}
