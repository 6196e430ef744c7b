/** The nonce of a signature: 40 raw bytes, read as eight field elements, one per 5-byte
    little-endian chunk (`decode_nonce`). */
module NonceCodec {
  import opened FalconTypes

  /** 256^n. */
  function Pow256(n: nat): (p: nat)
    ensures p >= 1
  {
    if n == 0 then 1 else 256 * Pow256(n - 1)
  }

  /** 2^40, the bound of a 5-byte little-endian value. */
  const NONCE_ELEMENT_LIMIT: nat := 0x100_0000_0000

  lemma Pow256Chunk()
    ensures Pow256(NONCE_CHUNK) == NONCE_ELEMENT_LIMIT
  {
  }

  /** The unsigned value of a little-endian byte string (`u64::from_le_bytes` for eight
      bytes). */
  function LeValue(bs: seq<Byte>): (v: nat)
    ensures v < Pow256(|bs|)
  {
    if bs == [] then 0 else bs[0] + 256 * LeValue(bs[1..])
  }

  /** The n-byte little-endian encoding of v (the low n bytes of v). */
  function LeBytes(v: nat, n: nat): (bs: seq<Byte>)
    ensures |bs| == n
  {
    if n == 0 then [] else [v % 256] + LeBytes(v / 256, n - 1)
  }

  /** Little-endian decoding is left-inverse to encoding: a byte string is the encoding of
      its own value, so no two byte strings of one length share a value. */
  lemma {:induction false} LeBytesOfValue(bs: seq<Byte>)
    ensures LeBytes(LeValue(bs), |bs|) == bs
  {
    if bs != [] {
      var v := LeValue(bs);
      assert v % 256 == bs[0] && v / 256 == LeValue(bs[1..]);
      LeBytesOfValue(bs[1..]);
      assert bs == [bs[0]] + bs[1..];
    }
  }

  /** Encoding then decoding a value that fits in n bytes gives it back. */
  lemma {:induction false} LeValueOfBytes(v: nat, n: nat)
    requires v < Pow256(n)
    ensures LeValue(LeBytes(v, n)) == v
  {
    if n > 0 {
      var bs := LeBytes(v, n);
      assert bs[1..] == LeBytes(v / 256, n - 1);
      LeValueOfBytes(v / 256, n - 1);
    }
  }

  /** Trailing zero bytes do not change a little-endian value: the upper three bytes of the
      8-byte buffer in `decode_nonce` are zero, so the chunk's value is the buffer's. */
  lemma {:induction false} LeValueZeroPadded(bs: seq<Byte>, pad: seq<Byte>)
    requires forall k :: 0 <= k < |pad| ==> pad[k] == 0
    ensures LeValue(bs + pad) == LeValue(bs)
  {
    if bs == [] {
      if pad != [] {
        LeValueZeroPadded([], pad[1..]);
        assert [] + pad[1..] == pad[1..] && ([] + pad)[1..] == pad[1..];
      }
    } else {
      assert (bs + pad)[1..] == bs[1..] + pad;
      LeValueZeroPadded(bs[1..], pad);
    }
  }

  /** The i-th 5-byte chunk of the nonce. */
  function Chunk(nonce: NonceBytes, i: nat): (c: seq<Byte>)
    requires i < NONCE_ELEMENTS
    ensures |c| == NONCE_CHUNK
  {
    nonce[NONCE_CHUNK * i .. NONCE_CHUNK * i + NONCE_CHUNK]
  }

  /** The value of chunk i: below 2^40, hence a field element that `Felt::new` does not
      reduce. */
  function ChunkValue(nonce: NonceBytes, i: nat): (e: Felt)
    requires i < NONCE_ELEMENTS
    ensures e < NONCE_ELEMENT_LIMIT
  {
    Pow256Chunk();
    LeValue(Chunk(nonce, i))
  }

  /** The field elements of a nonce: element i is the little-endian value of bytes
      [5i, 5i + 5). */
  function NonceElements(nonce: NonceBytes): (es: seq<Felt>)
    ensures |es| == NONCE_ELEMENTS
  {
    seq(NONCE_ELEMENTS, i requires 0 <= i < NONCE_ELEMENTS => ChunkValue(nonce, i))
  }

  /** `u64::from_le_bytes` on an 8-byte buffer; the obligation discharged here is that the
      value fits the `U64` result type, since 256^8 = 2^64. */
  function U64FromLeBytes(buffer: seq<Byte>): U64
    requires |buffer| == 8
  {
    assert Pow256(8) == U64_LIMIT by {
      Pow256Chunk();
      assert Pow256(8) == Pow256(5) * 256 * 256 * 256;
    }
    LeValue(buffer)
  }

  /** `decode_nonce`: copies each 5-byte chunk into the low bytes of a reused 8-byte buffer
      whose upper three bytes stay zero, and stores `Felt::new` of the buffer's value. */
  method DecodeNonce(nonce: NonceBytes) returns (elements: seq<Felt>)
    ensures elements == NonceElements(nonce)
    ensures forall i :: 0 <= i < NONCE_ELEMENTS ==>
      elements[i] == LeValue(nonce[NONCE_CHUNK * i .. NONCE_CHUNK * i + NONCE_CHUNK]) < NONCE_ELEMENT_LIMIT
  {
    var buffer := new Byte[8](_ => 0);
    var result := new Felt[NONCE_ELEMENTS](_ => 0);
    for i := 0 to NONCE_ELEMENTS
      invariant forall k :: NONCE_CHUNK <= k < 8 ==> buffer[k] == 0
      invariant forall k :: 0 <= k < i ==> result[k] == ChunkValue(nonce, k)
    {
      // buffer[..5].copy_from_slice(bytes)
      for j := 0 to NONCE_CHUNK
        invariant forall k :: NONCE_CHUNK <= k < 8 ==> buffer[k] == 0
        invariant forall k :: 0 <= k < j ==> buffer[k] == nonce[NONCE_CHUNK * i + k]
        invariant forall k :: 0 <= k < i ==> result[k] == ChunkValue(nonce, k)
      {
        buffer[j] := nonce[NONCE_CHUNK * i + j];
      }
      ghost var chunk := Chunk(nonce, i);
      assert buffer[..] == chunk + buffer[NONCE_CHUNK..];
      LeValueZeroPadded(chunk, buffer[NONCE_CHUNK..]);
      var word := U64FromLeBytes(buffer[..]);
      Pow256Chunk();
      result[i] := FeltNew(word);
    }
    elements := result[..];
  }

  /** Distinct nonces decode to distinct field elements: `decode_nonce` loses nothing. */
  lemma NonceElementsInjective(a: NonceBytes, b: NonceBytes)
    requires NonceElements(a) == NonceElements(b)
    ensures a == b
  {
    forall k | 0 <= k < SIG_NONCE_LEN
      ensures a[k] == b[k]
    {
      var i := k / NONCE_CHUNK;
      assert NonceElements(a)[i] == NonceElements(b)[i];
      LeBytesOfValue(Chunk(a, i));
      LeBytesOfValue(Chunk(b, i));
      assert Chunk(a, i) == Chunk(b, i);
      assert a[k] == Chunk(a, i)[k - NONCE_CHUNK * i];
    }
  }

  /** The bytes of eight 40-bit field elements, five little-endian bytes each: the inverse
      of `decode_nonce`. */
  function EncodeNonce(es: seq<Felt>): (nonce: NonceBytes)
    requires |es| == NONCE_ELEMENTS
  {
    seq(SIG_NONCE_LEN, k requires 0 <= k < SIG_NONCE_LEN =>
      LeBytes(es[k / NONCE_CHUNK], NONCE_CHUNK)[k % NONCE_CHUNK])
  }

  /** Every sequence of eight field elements below 2^40 is the decode of exactly one nonce. */
  lemma DecodeEncodeNonce(es: seq<Felt>)
    requires |es| == NONCE_ELEMENTS
    requires forall i :: 0 <= i < NONCE_ELEMENTS ==> es[i] < NONCE_ELEMENT_LIMIT
    ensures NonceElements(EncodeNonce(es)) == es
  {
    var nonce := EncodeNonce(es);
    forall i | 0 <= i < NONCE_ELEMENTS
      ensures NonceElements(nonce)[i] == es[i]
    {
      var bs := LeBytes(es[i], NONCE_CHUNK);
      assert Chunk(nonce, i) == bs by {
        forall j | 0 <= j < NONCE_CHUNK
          ensures Chunk(nonce, i)[j] == bs[j]
        {
          var k := NONCE_CHUNK * i + j;
          assert k / NONCE_CHUNK == i && k % NONCE_CHUNK == j;
        }
      }
      Pow256Chunk();
      LeValueOfBytes(es[i], NONCE_CHUNK);
    }
  }
}
