/** Hash-to-point: the sponge construction over the Rpo256 state that maps a message word
    and a nonce to a polynomial of Z_q[x]/(x^512 + 1) (`hash_to_point`). The Rpo256
    permutation itself is a parameter of type `State -> State`. */
module Hashing {
  import opened FalconTypes
  import opened NonceCodec

  // ---------------------------------------------------------------------------------------
  // Specification
  // ---------------------------------------------------------------------------------------

  /** `[ZERO; STATE_WIDTH]`. */
  function ZeroState(): State
  {
    seq(STATE_WIDTH, _ => 0)
  }

  /** Overwrites the first |input| rate slots of the state with the input; every other slot
      keeps its value. This is what the two `zip` loops over `state[RATE_RANGE]` do. */
  function Absorb(state: State, input: seq<Felt>): State
    requires |input| <= RATE_WIDTH
  {
    state[..RATE_START] + input + state[RATE_START + |input|..]
  }

  lemma AbsorbAt(state: State, input: seq<Felt>, k: nat)
    requires |input| <= RATE_WIDTH && k < STATE_WIDTH
    ensures Absorb(state, input)[k] ==
      if RATE_START <= k < RATE_START + |input| then input[k - RATE_START] else state[k]
  {
  }

  /** The state after the nonce is absorbed, before the first permutation. */
  function NonceState(nonce: NonceBytes): State
  {
    Absorb(ZeroState(), NonceElements(nonce))
  }

  /** The state after the message is absorbed into the permuted nonce state. */
  function MessageState(permute: State -> State, message: Word, nonce: NonceBytes): State
  {
    Absorb(permute(NonceState(nonce)), message)
  }

  /** The state after k further applications of the permutation. */
  function Iterate(permute: State -> State, s: State, k: nat): State
  {
    if k == 0 then s else permute(Iterate(permute, s, k - 1))
  }

  /** The 8 coefficients read from the rate of one squeezed state. */
  function RateCoefficients(s: State): (cs: seq<Zq>)
    ensures |cs| == RATE_WIDTH
    ensures forall j :: 0 <= j < RATE_WIDTH ==> cs[j] == s[RATE_START + j] % Q
  {
    var cs := seq<Zq>(RATE_WIDTH, j requires 0 <= j < RATE_WIDTH => ReduceToZq(s[RATE_START + j]));
    assert forall j :: 0 <= j < RATE_WIDTH ==> cs[j] == ReduceToZq(s[RATE_START + j]);
    cs
  }

  /** The coefficients produced by k squeeze rounds starting from state s: coefficient
      8r + j is slot j of the rate after r + 1 permutations, reduced mod q. */
  function Squeeze(permute: State -> State, s: State, k: nat): (cs: seq<Zq>)
    ensures |cs| == RATE_WIDTH * k
    ensures forall idx :: 0 <= idx < |cs| ==>
      cs[idx] == Iterate(permute, s, idx / RATE_WIDTH + 1)[RATE_START + idx % RATE_WIDTH] % Q
  {
    if k == 0 then []
    else
      var prefix := Squeeze(permute, s, k - 1);
      var last := Iterate(permute, s, k);
      var cs := prefix + RateCoefficients(last);
      assert forall idx :: RATE_WIDTH * (k - 1) <= idx < RATE_WIDTH * k ==>
        idx / RATE_WIDTH + 1 == k && idx % RATE_WIDTH == idx - RATE_WIDTH * (k - 1);
      cs
  }

  /** The polynomial `hash_to_point(message, nonce)` returns. */
  function HashedPoint(permute: State -> State, message: Word, nonce: NonceBytes): Poly
  {
    Squeeze(permute, MessageState(permute, message, nonce), SQUEEZE_ROUNDS)
  }

  // ---------------------------------------------------------------------------------------
  // Properties of the specification
  // ---------------------------------------------------------------------------------------

  /** Coefficient 8k + j is the j-th rate element of the state after the (k+1)-th squeeze
      permutation, reduced mod q; 64 rounds of 8 slots give exactly the 512 coefficients. */
  lemma HashedPointCoefficient(permute: State -> State, message: Word, nonce: NonceBytes, k: nat, j: nat)
    requires k < SQUEEZE_ROUNDS && j < RATE_WIDTH
    ensures RATE_WIDTH * k + j < N
    ensures HashedPoint(permute, message, nonce)[RATE_WIDTH * k + j] ==
      Iterate(permute, MessageState(permute, message, nonce), k + 1)[RATE_START + j] % Q
  {
  }

  /** The nonce replaces the whole rate of the all-zero state; the capacity stays zero. */
  lemma NonceStateLayout(nonce: NonceBytes)
    ensures NonceState(nonce)[..RATE_START] == [0, 0, 0, 0]
    ensures NonceState(nonce)[RATE_START..] == NonceElements(nonce)
  {
  }

  /** The message replaces only the first four rate slots; the capacity and the last four rate
      slots keep the values the first permutation gave them. */
  lemma MessageStateLayout(permute: State -> State, message: Word, nonce: NonceBytes)
    ensures var t := permute(NonceState(nonce));
      && MessageState(permute, message, nonce)[..RATE_START] == t[..RATE_START]
      && MessageState(permute, message, nonce)[RATE_START..RATE_START + 4] == message
      && MessageState(permute, message, nonce)[RATE_START + 4..] == t[RATE_START + 4..]
  {
  }

  /** Distinct nonces give distinct states before the first permutation, so the nonce is not
      lost by absorption. */
  lemma DistinctNoncesDistinctStates(a: NonceBytes, b: NonceBytes)
    requires a != b
    ensures NonceState(a) != NonceState(b)
  {
    if NonceState(a) == NonceState(b) {
      NonceStateLayout(a);
      NonceStateLayout(b);
      NonceElementsInjective(a, b);
      assert false;
    }
  }

  // ---------------------------------------------------------------------------------------
  // The in-place implementation
  // ---------------------------------------------------------------------------------------

  /** `Rpo256::apply_permutation(&mut state)`. */
  method ApplyPermutation(permute: State -> State, state: array<Felt>)
    requires state.Length == STATE_WIDTH
    modifies state
    ensures state[..] == permute(old(state[..]))
  {
    var next := permute(state[..]);
    for k := 0 to STATE_WIDTH
      invariant state[..k] == next[..k]
    {
      state[k] := next[k];
    }
  }

  /** `for (&x, s) in input.iter().zip(state[RATE_RANGE].iter_mut()) { *s = x; }` */
  method AbsorbInto(state: array<Felt>, input: seq<Felt>)
    requires state.Length == STATE_WIDTH && |input| <= RATE_WIDTH
    modifies state
    ensures state[..] == Absorb(old(state[..]), input)
  {
    for j := 0 to |input|
      invariant forall k :: 0 <= k < STATE_WIDTH ==>
        state[k] == if RATE_START <= k < RATE_START + j then input[k - RATE_START] else old(state[k])
    {
      state[RATE_START + j] := input[j];
    }
    forall k | 0 <= k < STATE_WIDTH
      ensures state[..][k] == Absorb(old(state[..]), input)[k]
    {
      AbsorbAt(old(state[..]), input, k);
    }
  }

  /** The squeeze phase of `hash_to_point`: 64 rounds, each permuting the state and then
      writing its 8 reduced rate elements at the running index i. */
  method SqueezeInto(permute: State -> State, state: array<Felt>) returns (c: Poly)
    requires state.Length == STATE_WIDTH
    modifies state
    ensures c == Squeeze(permute, old(state[..]), SQUEEZE_ROUNDS)
    ensures state[..] == Iterate(permute, old(state[..]), SQUEEZE_ROUNDS)
  {
    ghost var absorbed: State := state[..];
    var i := 0;
    var res := new Zq[N](_ => 0);
    for round := 0 to SQUEEZE_ROUNDS
      invariant i == RATE_WIDTH * round
      invariant state[..] == Iterate(permute, absorbed, round)
      invariant res[..i] == Squeeze(permute, absorbed, round)
    {
      ApplyPermutation(permute, state);
      ghost var done := res[..i];
      for j := 0 to RATE_WIDTH
        invariant i == RATE_WIDTH * round + j
        invariant state[..] == Iterate(permute, absorbed, round + 1)
        invariant res[..i] == done + RateCoefficients(state[..])[..j]
      {
        res[i] := ReduceToZq(state[RATE_START + j]);
        i := i + 1;
      }
    }
    assert absorbed == old(state[..]);
    c := res[..];
  }

  /** `hash_to_point(message, nonce)`: absorbs the nonce and the message into a zeroed state
      and fills the 512 coefficients with a running index over 64 squeeze rounds of 8. */
  method HashToPoint(permute: State -> State, message: Word, nonce: NonceBytes) returns (c: Poly)
    ensures c == HashedPoint(permute, message, nonce)
    ensures forall idx :: 0 <= idx < N ==>
      c[idx] == Iterate(permute, MessageState(permute, message, nonce), idx / RATE_WIDTH + 1)[RATE_START + idx % RATE_WIDTH] % Q
  {
    var state := new Felt[STATE_WIDTH](_ => 0);
    assert state[..] == ZeroState();

    // absorb the nonce into the state
    var elements := DecodeNonce(nonce);
    AbsorbInto(state, elements);
    ApplyPermutation(permute, state);

    // absorb the message into the state
    AbsorbInto(state, message);

    // squeeze the coefficients of the polynomial
    c := SqueezeInto(permute, state);
  }
}
