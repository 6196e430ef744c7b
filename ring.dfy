/** The ring Z_q[x]/(x^512 + 1) and the transform-domain operations `verify` uses. The
    transform (`fft`/`ifft`), the Hadamard product, subtraction in the transform domain,
    `norm_squared` and the conversion of a polynomial to Goldilocks elements belong to a
    math module that is not part of this model: they are fields of `FalconMath`. The ring's
    own subtraction and (negacyclic) multiplication are given here as a reference. */
module Ring {
  import opened FalconTypes

  datatype FalconMath = FalconMath(
    fft: Poly -> Ntt,
    ifft: Ntt -> Poly,
    hadamardMul: (Ntt, Ntt) -> Ntt,
    sub: (Ntt, Ntt) -> Ntt,
    normSquared: Poly -> NormSquared,
    intoFelts: Poly -> seq<Felt>)

  /** a - b in Z_q[x]/(x^N + 1), coefficient by coefficient. */
  function RingSub(a: Poly, b: Poly): (d: Poly)
  {
    seq<Zq>(N, i requires 0 <= i < N => (a[i] - b[i]) % Q)
  }

  /** The first n terms of coefficient k of a * b modulo x^N + 1: a[i] * b[k - i] for i <= k,
      and -a[i] * b[k - i + N] for i > k, since x^N = -1. */
  function NegacyclicSum(a: Poly, b: Poly, k: nat, n: nat): int
    requires k < N && n <= N
  {
    if n == 0 then 0
    else
      var i := n - 1;
      NegacyclicSum(a, b, k, i) + (if i <= k then a[i] as int * b[k - i] else -(a[i] as int * b[k - i + N]))
  }

  /** a * b in Z_q[x]/(x^N + 1). */
  function RingMul(a: Poly, b: Poly): (p: Poly)
  {
    seq<Zq>(N, k requires 0 <= k < N => NegacyclicSum(a, b, k, N) % Q)
  }

  /** The laws of a ring transform: `ifft` undoes `fft`, subtraction commutes with it, and it
      turns ring multiplication into the Hadamard product. */
  ghost predicate IsRingTransform(m: FalconMath)
  {
    && (forall p: Poly :: m.ifft(m.fft(p)) == p)
    && (forall a: Poly, b: Poly :: m.fft(RingSub(a, b)) == m.sub(m.fft(a), m.fft(b)))
    && (forall a: Poly, b: Poly :: m.fft(RingMul(a, b)) == m.hadamardMul(m.fft(a), m.fft(b)))
  }

  /** Over a ring transform, `ifft(fft(c) - fft(s2) ⊙ fft(h))` is c - s2 * h. */
  lemma TransformDomainS1(m: FalconMath, c: Poly, s2: Poly, h: Poly)
    requires IsRingTransform(m)
    ensures m.ifft(m.sub(m.fft(c), m.hadamardMul(m.fft(s2), m.fft(h)))) == RingSub(c, RingMul(s2, h))
  {
  }
}
