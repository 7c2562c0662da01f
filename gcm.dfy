// AES-256-GCM as the authentication cookie code writes it out by hand
// (back_end/src/auth/crypto.rs). The AES block function under the fixed
// server key is a parameter `aes: U128 -> U128`; everything around it
// (counter blocks, keystream, GF(2^128) multiplication, GHASH, tag and the
// nonce ‖ ciphertext ‖ tag framing) is modelled as the code computes it.
//
// A `u128` (and the 96-bit nonce) is modelled as its string of bits, least
// significant first: bit `i` of a value is element `i` of the sequence, and
// in GF(2^128) it is the coefficient of x^i. Bytes stay 8-bit vectors.
module Gcm {
  import opened Wrappers

  type Byte = bv8

  function ZeroBits(n: nat): (r: seq<bool>)
    ensures |r| == n && forall i :: 0 <= i < n ==> !r[i]
  {
    seq(n, _ => false)
  }

  /** A `u128`, bit 0 first. */
  type U128 = s: seq<bool> | |s| == 128 witness ZeroBits(128)
  /** An `intx::U96`, bit 0 first. */
  type U96 = s: seq<bool> | |s| == 96 witness ZeroBits(96)

  datatype DecryptError = InvalidTag | InvalidMessage

  const NonceLen: nat := 12
  const TagLen: nat := 16

  // ---------------------------------------------------------------------
  // Bits and big-endian bytes (`to_be_bytes` / `from_be_bytes`)
  // ---------------------------------------------------------------------

  /** The bits of one byte, least significant first. */
  function ByteBits(b: Byte): (r: seq<bool>)
    ensures |r| == 8
  {
    [b & 1 != 0, b & 2 != 0, b & 4 != 0, b & 8 != 0,
     b & 16 != 0, b & 32 != 0, b & 64 != 0, b & 128 != 0]
  }

  /** The byte whose bits, least significant first, are `s`. */
  function BitsByte(s: seq<bool>): Byte
    requires |s| == 8
  {
    (if s[0] then 1 else 0) | (if s[1] then 2 else 0) | (if s[2] then 4 else 0) | (if s[3] then 8 else 0)
    | (if s[4] then 16 else 0) | (if s[5] then 32 else 0) | (if s[6] then 64 else 0) | (if s[7] then 128 else 0)
  }

  lemma ByteBitsRoundTrip(b: Byte)
    ensures BitsByte(ByteBits(b)) == b
  {
  }

  lemma BitsByteRoundTrip(s: seq<bool>)
    requires |s| == 8
    ensures ByteBits(BitsByte(s)) == s
  {
  }

  /** `from_be_bytes`: the first byte is the most significant. */
  function FromBytes(bytes: seq<Byte>): (r: seq<bool>)
    ensures |r| == 8 * |bytes|
  {
    if |bytes| == 0 then [] else ByteBits(bytes[|bytes| - 1]) + FromBytes(bytes[..|bytes| - 1])
  }

  /** `to_be_bytes`: the most significant byte comes first. */
  function ToBytes(x: seq<bool>): (r: seq<Byte>)
    requires |x| % 8 == 0
    ensures 8 * |r| == |x|
    decreases |x|
  {
    if |x| == 0 then [] else ToBytes(x[8..]) + [BitsByte(x[..8])]
  }

  lemma {:induction false} FromBytesToBytes(x: seq<bool>)
    requires |x| % 8 == 0
    ensures FromBytes(ToBytes(x)) == x
    decreases |x|
  {
    if |x| > 0 {
      var rest := ToBytes(x[8..]);
      var bytes := rest + [BitsByte(x[..8])];
      assert bytes[..|bytes| - 1] == rest;
      BitsByteRoundTrip(x[..8]);
      FromBytesToBytes(x[8..]);
      assert x == x[..8] + x[8..];
    }
  }

  lemma {:induction false} ToBytesFromBytes(bytes: seq<Byte>)
    ensures ToBytes(FromBytes(bytes)) == bytes
  {
    if |bytes| > 0 {
      var init := bytes[..|bytes| - 1];
      var x := FromBytes(bytes);
      assert x[..8] == ByteBits(bytes[|bytes| - 1]);
      assert x[8..] == FromBytes(init);
      ByteBitsRoundTrip(bytes[|bytes| - 1]);
      ToBytesFromBytes(init);
      assert bytes == init + [bytes[|bytes| - 1]];
    }
  }

  // ---------------------------------------------------------------------
  // Unsigned values of bit strings
  // ---------------------------------------------------------------------

  function Pow2(n: nat): (r: nat)
    ensures r >= 1
  {
    if n == 0 then 1 else 2 * Pow2(n - 1)
  }

  /** The unsigned number whose bits, least significant first, are `s`. */
  function Value(s: seq<bool>): (r: nat)
    ensures r < Pow2(|s|)
  {
    if |s| == 0 then 0 else (if s[0] then 1 else 0) + 2 * Value(s[1..])
  }

  /** `n as uN` for a `width`-bit N: the low `width` bits of `n`. */
  function NatBits(n: nat, width: nat): (r: seq<bool>)
    ensures |r| == width
  {
    if width == 0 then [] else [n % 2 == 1] + NatBits(n / 2, width - 1)
  }

  /** Converting a number that fits in `width` bits keeps its value. */
  lemma {:induction false} NatBitsValue(n: nat, width: nat)
    requires n < Pow2(width)
    ensures Value(NatBits(n, width)) == n
  {
    if width > 0 {
      var r := NatBits(n, width);
      assert r[1..] == NatBits(n / 2, width - 1);
      NatBitsValue(n / 2, width - 1);
    }
  }

  // ---------------------------------------------------------------------
  // Counter blocks
  // ---------------------------------------------------------------------

  /** Add one to the number with bits `s`, dropping the carry out of the top bit. */
  function Increment(s: seq<bool>): (r: seq<bool>)
    ensures |r| == |s|
  {
    if |s| == 0 then []
    else if !s[0] then [true] + s[1..]
    else [false] + Increment(s[1..])
  }

  lemma {:induction false} IncrementValue(s: seq<bool>)
    ensures Value(Increment(s)) == if Value(s) + 1 == Pow2(|s|) then 0 else Value(s) + 1
  {
    if |s| > 0 {
      var r := Increment(s);
      if !s[0] {
        assert r[1..] == s[1..];
      } else {
        assert r[1..] == Increment(s[1..]);
        IncrementValue(s[1..]);
      }
    }
  }

  /** `inc32`: add one to the low 32 bits, wrapping, and keep the rest. */
  function Inc32(block: U128): U128 {
    Increment(block[..32]) + block[32..]
  }

  /** The upper 96 bits (the nonce) stay; the low 32 bits count up modulo 2^32. */
  lemma Inc32Spec(block: U128)
    ensures Inc32(block)[32..] == block[32..]
    ensures Value(Inc32(block)[..32])
         == if Value(block[..32]) + 1 == Pow2(32) then 0 else Value(block[..32]) + 1
  {
    var r := Inc32(block);
    assert r[..32] == Increment(block[..32]);
    IncrementValue(block[..32]);
  }

  /** `pre_counter_block`: J0 for a 96-bit IV is IV ‖ 0^31 ‖ 1. */
  function PreCounterBlock(iv: U96): (r: U128)
    ensures r[32..] == iv
    ensures Value(r[..32]) == 1
  {
    var r := [true] + ZeroBits(31) + iv;
    assert r[..32][1..] == ZeroBits(31);
    ValueZero(31);
    r
  }

  lemma {:induction false} ValueZero(n: nat)
    ensures Value(ZeroBits(n)) == 0
  {
    if n > 0 {
      assert ZeroBits(n)[1..] == ZeroBits(n - 1);
      ValueZero(n - 1);
    }
  }

  // ---------------------------------------------------------------------
  // GCTR
  // ---------------------------------------------------------------------

  function Min(a: nat, b: nat): nat { if a < b then a else b }

  /** `aes_encrypt(counter).to_be_bytes()`: one block of keystream. */
  function KeyBlock(aes: U128 -> U128, counter: U128): (r: seq<Byte>)
    ensures |r| == 16
  {
    ToBytes(aes(counter))
  }

  /** The counter block after `k` applications of `inc32`. */
  function CounterAt(counter: U128, k: nat): U128 {
    if k == 0 then counter else Inc32(CounterAt(counter, k - 1))
  }

  /**
   * Keystream byte `k` of GCTR started from `counter`: chunk `k / 16` is
   * encrypted under the counter incremented `k / 16 + 1` times, because
   * `gctr` increments before it encrypts.
   */
  function KeyStreamByte(aes: U128 -> U128, counter: U128, k: nat): Byte {
    KeyBlock(aes, CounterAt(counter, k / 16 + 1))[k % 16]
  }

  /** GCTR: every byte of `data` XORed with the keystream byte at its position. */
  function GctrSpec(aes: U128 -> U128, counter: U128, data: seq<Byte>): (r: seq<Byte>)
    ensures |r| == |data|
  {
    seq(|data|, k requires 0 <= k < |data| => data[k] ^ KeyStreamByte(aes, counter, k))
  }

  /** GCTR with the same counter is its own inverse. */
  lemma GctrInvolution(aes: U128 -> U128, counter: U128, data: seq<Byte>)
    ensures GctrSpec(aes, counter, GctrSpec(aes, counter, data)) == data
  {
    var once := GctrSpec(aes, counter, data);
    var twice := GctrSpec(aes, counter, once);
    forall k | 0 <= k < |data|
      ensures twice[k] == data[k]
    {
      var ks := KeyStreamByte(aes, counter, k);
      assert twice[k] == (data[k] ^ ks) ^ ks;
    }
  }

  lemma KeyStreamInChunk(aes: U128 -> U128, counter: U128, chunks: nat, i: nat)
    requires i < 16
    ensures KeyStreamByte(aes, counter, 16 * chunks + i) == KeyBlock(aes, CounterAt(counter, chunks + 1))[i]
  {
    var k := 16 * chunks + i;
    assert k / 16 == chunks && k % 16 == i;
  }

  /** The first `n` output bytes are GCTR of the first `n` input bytes. */
  ghost predicate GctrPrefix(aes: U128 -> U128, counter: U128, data: seq<Byte>, output: seq<Byte>, n: nat) {
    n <= |data| && |output| == n
    && forall k :: 0 <= k < n ==> output[k] == data[k] ^ KeyStreamByte(aes, counter, k)
  }

  lemma GctrPrefixExtend(aes: U128 -> U128, counter: U128, data: seq<Byte>, output: seq<Byte>,
                         chunks: nat, i: nat, b: Byte)
    requires i < 16 && GctrPrefix(aes, counter, data, output, 16 * chunks + i)
    requires 16 * chunks + i < |data|
    requires b == data[16 * chunks + i] ^ KeyBlock(aes, CounterAt(counter, chunks + 1))[i]
    ensures GctrPrefix(aes, counter, data, output + [b], 16 * chunks + i + 1)
  {
    KeyStreamInChunk(aes, counter, chunks, i);
  }

  lemma GctrPrefixAll(aes: U128 -> U128, counter: U128, data: seq<Byte>, output: seq<Byte>)
    requires GctrPrefix(aes, counter, data, output, |data|)
    ensures output == GctrSpec(aes, counter, data)
  {
  }

  /** `gctr`: the chunk loop with its inner byte loop. */
  method Gctr(aes: U128 -> U128, counter0: U128, plaintext: seq<Byte>) returns (output: seq<Byte>)
    ensures output == GctrSpec(aes, counter0, plaintext)
  {
    output := [];
    var counter := counter0;
    var pos := 0;
    ghost var chunks := 0;
    while pos < |plaintext|
      invariant pos == |plaintext| || pos == 16 * chunks
      invariant counter == CounterAt(counter0, chunks)
      invariant GctrPrefix(aes, counter0, plaintext, output, pos)
      decreases |plaintext| - pos
    {
      var chunk := plaintext[pos..pos + Min(16, |plaintext| - pos)];
      counter := Inc32(counter);
      var keyStream := KeyBlock(aes, counter);
      for i := 0 to |chunk|
        invariant GctrPrefix(aes, counter0, plaintext, output, pos + i)
      {
        GctrPrefixExtend(aes, counter0, plaintext, output, chunks, i, chunk[i] ^ keyStream[i]);
        output := output + [chunk[i] ^ keyStream[i]];
      }
      pos := pos + |chunk|;
      chunks := chunks + 1;
    }
    GctrPrefixAll(aes, counter0, plaintext, output);
  }

  // ---------------------------------------------------------------------
  // Multiplication in GF(2^128) (`gf_mul`)
  // ---------------------------------------------------------------------

  /** `a ^ b` on `u128`: addition of polynomials over GF(2). */
  function Xor(a: U128, b: U128): (r: U128)
    ensures forall i :: 0 <= i < 128 ==> r[i] == (a[i] != b[i])
  {
    seq(128, i requires 0 <= i < 128 => a[i] != b[i])
  }

  const Zero: U128 := ZeroBits(128)
  const One: U128 := [true] + ZeroBits(127)
  /** The reduction constant 0x87 of `gf_mul`: x^128 = x^7 + x^2 + x + 1. */
  const Modulus: U128 := [true, true, true, false, false, false, false, true] + ZeroBits(120)

  /** `a << 1`: the top bit falls off. */
  function ShiftLeft(a: U128): U128 {
    [false] + a[..127]
  }

  /** `b >> 1`. */
  function ShiftRight(b: U128): U128 {
    b[1..] + [false]
  }

  /** One round of `gf_mul` on `a`: multiply by x, reducing when the top bit falls off. */
  function XTime(a: U128): U128 {
    if a[127] then Xor(ShiftLeft(a), Modulus) else ShiftLeft(a)
  }

  /** `a * x^i`. */
  function XTimes(a: U128, i: nat): U128 {
    if i == 0 then a else XTime(XTimes(a, i - 1))
  }

  /** The sum of `a * x^i` over the set bits `i < k` of `b`. */
  function GfMulUpTo(a: U128, b: U128, k: nat): U128
    requires k <= 128
  {
    if k == 0 then Zero else Xor(GfMulUpTo(a, b, k - 1), if b[k - 1] then XTimes(a, k - 1) else Zero)
  }

  /** The product of `a` and `b` in GF(2^128) as `gf_mul` represents it. */
  function GfProduct(a: U128, b: U128): U128 {
    GfMulUpTo(a, b, 128)
  }

  /** One round of `gf_mul`: add `a` when the low bit of `b` is set, multiply `a` by x, shift `b` down. */
  method GfRound(a: U128, b: U128, result: U128) returns (a': U128, b': U128, result': U128)
    ensures a' == XTime(a) && b' == ShiftRight(b)
    ensures result' == Xor(result, if b[0] then a else Zero)
  {
    result' := result;
    if b[0] {
      result' := Xor(result', a);
    } else {
      XorZero(result);
    }
    var carry := a[127];
    a' := ShiftLeft(a);
    if carry {
      a' := Xor(a', Modulus);
    }
    b' := ShiftRight(b);
  }

  /** After `round` shifts, the low bit of `b` is bit `round` of the original. */
  lemma ShiftedBits(b0: U128, round: nat)
    requires round < 128
    ensures (b0[round..] + ZeroBits(round))[0] == b0[round]
    ensures ShiftRight(b0[round..] + ZeroBits(round)) == b0[round + 1..] + ZeroBits(round + 1)
  {
    assert ZeroBits(round) + [false] == ZeroBits(round + 1);
  }

  /** `gf_mul`: 128 rounds of conditional add, multiply `a` by x, shift `b` down. */
  method GfMul(a0: U128, b0: U128) returns (result: U128)
    ensures result == GfProduct(a0, b0)
  {
    var a, b := a0, b0;
    result := Zero;
    for round := 0 to 128
      invariant a == XTimes(a0, round)
      invariant b == b0[round..] + ZeroBits(round)
      invariant result == GfMulUpTo(a0, b0, round)
    {
      ShiftedBits(b0, round);
      a, b, result := GfRound(a, b, result);
    }
    assert b0[0..] == b0;
  }

  lemma XorZero(a: U128)
    ensures Xor(a, Zero) == a && Xor(Zero, a) == a
  {
  }

  lemma {:induction false} GfMulUpToZeroRight(a: U128, k: nat)
    requires k <= 128
    ensures GfMulUpTo(a, Zero, k) == Zero
  {
    if k > 0 {
      GfMulUpToZeroRight(a, k - 1);
      XorZero(Zero);
    }
  }

  /** `gf_mul(a, 0) == 0`. */
  lemma GfProductZeroRight(a: U128)
    ensures GfProduct(a, Zero) == Zero
  {
    GfMulUpToZeroRight(a, 128);
  }

  lemma {:induction false} XTimesZero(i: nat)
    ensures XTimes(Zero, i) == Zero
  {
    if i > 0 {
      XTimesZero(i - 1);
      assert ShiftLeft(Zero) == Zero;
    }
  }

  lemma {:induction false} GfMulUpToZeroLeft(b: U128, k: nat)
    requires k <= 128
    ensures GfMulUpTo(Zero, b, k) == Zero
  {
    if k > 0 {
      GfMulUpToZeroLeft(b, k - 1);
      XTimesZero(k - 1);
      XorZero(Zero);
    }
  }

  /** `gf_mul(0, b) == 0`. */
  lemma GfProductZeroLeft(b: U128)
    ensures GfProduct(Zero, b) == Zero
  {
    GfMulUpToZeroLeft(b, 128);
  }

  lemma {:induction false} GfMulUpToOne(a: U128, k: nat)
    requires 1 <= k <= 128
    ensures GfMulUpTo(a, One, k) == a
  {
    if k == 1 {
      XorZero(a);
    } else {
      GfMulUpToOne(a, k - 1);
      assert !One[k - 1];
      XorZero(a);
    }
  }

  /** `gf_mul(a, 1) == a`: 1 is the multiplicative identity. */
  lemma GfProductOne(a: U128)
    ensures GfProduct(a, One) == a
  {
    GfMulUpToOne(a, 128);
  }

  lemma XorSelf(a: U128)
    ensures Xor(a, a) == Zero
  {
  }

  lemma XorSwap(p: U128, q: U128, r: U128, t: U128)
    ensures Xor(Xor(p, q), Xor(r, t)) == Xor(Xor(p, r), Xor(q, t))
  {
  }

  /** The term that bit `k` of `b` adds to the product. */
  function Term(a: U128, b: U128, k: nat): U128
    requires k < 128
  {
    if b[k] then XTimes(a, k) else Zero
  }

  lemma TermXorRight(a: U128, b: U128, c: U128, k: nat)
    requires k < 128
    ensures Term(a, Xor(b, c), k) == Xor(Term(a, b, k), Term(a, c, k))
  {
    XorZero(XTimes(a, k));
    XorZero(Zero);
    XorSelf(XTimes(a, k));
  }

  lemma {:induction false} GfMulUpToXorRight(a: U128, b: U128, c: U128, k: nat)
    requires k <= 128
    ensures GfMulUpTo(a, Xor(b, c), k) == Xor(GfMulUpTo(a, b, k), GfMulUpTo(a, c, k))
  {
    if k == 0 {
      XorZero(Zero);
    } else {
      GfMulUpToXorRight(a, b, c, k - 1);
      TermXorRight(a, b, c, k - 1);
      XorSwap(GfMulUpTo(a, b, k - 1), GfMulUpTo(a, c, k - 1), Term(a, b, k - 1), Term(a, c, k - 1));
    }
  }

  /** Multiplication distributes over addition (XOR) in its second argument. */
  lemma GfProductXorRight(a: U128, b: U128, c: U128)
    ensures GfProduct(a, Xor(b, c)) == Xor(GfProduct(a, b), GfProduct(a, c))
  {
    GfMulUpToXorRight(a, b, c, 128);
  }

  lemma XTimeXor(a: U128, c: U128)
    ensures XTime(Xor(a, c)) == Xor(XTime(a), XTime(c))
  {
    var sa, sc := ShiftLeft(a), ShiftLeft(c);
    assert ShiftLeft(Xor(a, c)) == Xor(sa, sc);
    if a[127] && c[127] {
      XorSwap(sa, Modulus, sc, Modulus);
      XorSelf(Modulus);
      XorZero(Xor(sa, sc));
    } else if a[127] {
      XorSwap(sa, Modulus, sc, Zero);
      XorZero(sc);
      XorZero(Modulus);
    } else if c[127] {
      XorSwap(sa, Zero, sc, Modulus);
      XorZero(sa);
      XorZero(Modulus);
    }
  }

  lemma {:induction false} XTimesXor(a: U128, c: U128, i: nat)
    ensures XTimes(Xor(a, c), i) == Xor(XTimes(a, i), XTimes(c, i))
  {
    if i > 0 {
      XTimesXor(a, c, i - 1);
      XTimeXor(XTimes(a, i - 1), XTimes(c, i - 1));
    }
  }

  lemma TermXorLeft(a: U128, c: U128, b: U128, k: nat)
    requires k < 128
    ensures Term(Xor(a, c), b, k) == Xor(Term(a, b, k), Term(c, b, k))
  {
    XTimesXor(a, c, k);
    XorZero(Zero);
  }

  lemma {:induction false} GfMulUpToXorLeft(a: U128, c: U128, b: U128, k: nat)
    requires k <= 128
    ensures GfMulUpTo(Xor(a, c), b, k) == Xor(GfMulUpTo(a, b, k), GfMulUpTo(c, b, k))
  {
    if k == 0 {
      XorZero(Zero);
    } else {
      GfMulUpToXorLeft(a, c, b, k - 1);
      TermXorLeft(a, c, b, k - 1);
      XorSwap(GfMulUpTo(a, b, k - 1), GfMulUpTo(c, b, k - 1), Term(a, b, k - 1), Term(c, b, k - 1));
    }
  }

  /** Multiplication distributes over addition (XOR) in its first argument. */
  lemma GfProductXorLeft(a: U128, c: U128, b: U128)
    ensures GfProduct(Xor(a, c), b) == Xor(GfProduct(a, b), GfProduct(c, b))
  {
    GfMulUpToXorLeft(a, c, b, 128);
  }

  // ---------------------------------------------------------------------
  // GHASH
  // ---------------------------------------------------------------------

  /** `hash_key`: H is the block function applied to the zero block. */
  function HashKey(aes: U128 -> U128): U128 {
    aes(Zero)
  }

  /** A chunk of at most 16 bytes, zero-padded on the right and read big-endian. */
  function BlockOf(chunk: seq<Byte>): (r: U128)
    requires |chunk| <= 16
  {
    FromBytes(chunk + seq(16 - |chunk|, _ => 0 as Byte))
  }

  /** `ciphertext.len() as u128`: the final GHASH block (a byte count, no AAD length). */
  function LengthBlock(n: nat): U128 {
    NatBits(n, 128)
  }

  /** The chunk loop of GHASH continued from accumulator `x` over `data`. */
  function GhashChunks(h: U128, x: U128, data: seq<Byte>): U128
    decreases |data|
  {
    if |data| == 0 then x
    else
      var n := Min(16, |data|);
      GhashChunks(h, GfProduct(Xor(x, BlockOf(data[..n])), h), data[n..])
  }

  /** GHASH of a ciphertext: the chunk loop, then one more step for the length block. */
  function GhashSpec(aes: U128 -> U128, data: seq<Byte>): U128 {
    var h := HashKey(aes);
    GfProduct(Xor(GhashChunks(h, Zero, data), LengthBlock(|data|)), h)
  }

  /** One turn of the chunk loop: the chunk at `pos` is taken in and the loop goes on from the next one. */
  lemma GhashChunksStep(h: U128, x: U128, data: seq<Byte>, pos: nat, n: nat)
    requires pos < |data| && n == Min(16, |data| - pos)
    ensures GhashChunks(h, x, data[pos..]) == GhashChunks(h, GfProduct(Xor(x, BlockOf(data[pos..pos + n])), h), data[pos + n..])
  {
    var rest := data[pos..];
    assert rest[..n] == data[pos..pos + n];
    assert rest[n..] == data[pos + n..];
  }

  /** The chunk loop of `ghash`: each 16-byte chunk, zero-padded, is added in and multiplied by `h` with `gf_mul`. */
  method GhashLoop(h: U128, ciphertext: seq<Byte>) returns (x: U128)
    ensures x == GhashChunks(h, Zero, ciphertext)
  {
    x := Zero;
    var pos := 0;
    while pos < |ciphertext|
      invariant pos <= |ciphertext|
      invariant GhashChunks(h, x, ciphertext[pos..]) == GhashChunks(h, Zero, ciphertext)
      decreases |ciphertext| - pos
    {
      var n := Min(16, |ciphertext| - pos);
      var chunk := ciphertext[pos..pos + n];
      GhashChunksStep(h, x, ciphertext, pos, n);
      x := GfMul(Xor(x, BlockOf(chunk)), h);
      pos := pos + n;
    }
    assert ciphertext[pos..] == [];
  }

  /** `ghash`: the chunk loop, then the length block multiplied in last. */
  method Ghash(aes: U128 -> U128, ciphertext: seq<Byte>) returns (x: U128)
    ensures x == GhashSpec(aes, ciphertext)
  {
    var h := HashKey(aes);
    x := GhashLoop(h, ciphertext);
    var length := LengthBlock(|ciphertext|);
    x := GfMul(Xor(x, length), h);
  }

  /** The empty ciphertext hashes to zero: its only block is the length block 0. */
  lemma GhashEmpty(aes: U128 -> U128)
    ensures GhashSpec(aes, []) == Zero
  {
    ValueZero(128);
    NatBitsZero(128);
    XorZero(Zero);
    GfProductZeroLeft(HashKey(aes));
  }

  lemma {:induction false} NatBitsZero(width: nat)
    ensures NatBits(0, width) == ZeroBits(width)
  {
    if width > 0 {
      NatBitsZero(width - 1);
    }
  }

  lemma {:induction false} GhashChunksZeroKey(x: U128, data: seq<Byte>)
    requires x == Zero
    ensures GhashChunks(Zero, x, data) == Zero
    decreases |data|
  {
    if |data| > 0 {
      var n := Min(16, |data|);
      GfProductZeroRight(Xor(x, BlockOf(data[..n])));
      GhashChunksZeroKey(Zero, data[n..]);
    }
  }

  /**
   * With a hash key of zero every ciphertext hashes to zero, so the tag no
   * longer depends on the ciphertext.
   */
  lemma GhashZeroKey(aes: U128 -> U128, data: seq<Byte>)
    requires HashKey(aes) == Zero
    ensures GhashSpec(aes, data) == Zero
  {
    GfProductZeroRight(Xor(GhashChunks(Zero, Zero, data), LengthBlock(|data|)));
  }

  // ---------------------------------------------------------------------
  // Tag, detached encryption and decryption
  // ---------------------------------------------------------------------

  /** `ghash(ciphertext) ^ aes_encrypt(j0)`. */
  function ExpectedTag(aes: U128 -> U128, iv: U96, ciphertext: seq<Byte>): U128 {
    Xor(GhashSpec(aes, ciphertext), aes(PreCounterBlock(iv)))
  }

  /** The counter handed to `gctr`: J0 incremented once. */
  function FirstCounter(iv: U96): U128 {
    Inc32(PreCounterBlock(iv))
  }

  /**
   * `gctr` increments before it encrypts, so the first keystream block is
   * encrypted under J0 + 2: low 32 bits 3 and the IV above them.
   */
  lemma FirstKeyStreamCounter(iv: U96)
    ensures CounterAt(FirstCounter(iv), 1)[32..] == iv
    ensures Value(CounterAt(FirstCounter(iv), 1)[..32]) == 3
  {
    var j0 := PreCounterBlock(iv);
    Inc32Spec(j0);
    Inc32Spec(Inc32(j0));
    assert Pow2(32) > 3 by {
      Pow2Grows(2, 32);
    }
  }

  lemma {:induction false} Pow2Grows(m: nat, n: nat)
    requires m <= n
    ensures Pow2(m) <= Pow2(n)
    decreases n
  {
    if m < n {
      Pow2Grows(m, n - 1);
    }
  }

  /** `encrypt_detached`: GCTR from J0 + 1, then the tag over the ciphertext. */
  method EncryptDetached(aes: U128 -> U128, iv: U96, plaintext: seq<Byte>)
    returns (ciphertext: seq<Byte>, tag: U128)
    ensures ciphertext == GctrSpec(aes, FirstCounter(iv), plaintext)
    ensures |ciphertext| == |plaintext|
    ensures tag == ExpectedTag(aes, iv, ciphertext)
  {
    var j0 := PreCounterBlock(iv);
    var counter := Inc32(j0);
    ciphertext := Gctr(aes, counter, plaintext);
    var s := Ghash(aes, ciphertext);
    tag := Xor(s, aes(j0));
  }

  /** `decrypt_detached`: the tag is checked before any plaintext is produced. */
  function DecryptDetachedSpec(aes: U128 -> U128, iv: U96, ciphertext: seq<Byte>, tag: U128)
    : Result<seq<Byte>, DecryptError>
  {
    if ExpectedTag(aes, iv, ciphertext) != tag then Err(InvalidTag)
    else Ok(GctrSpec(aes, FirstCounter(iv), ciphertext))
  }

  method DecryptDetached(aes: U128 -> U128, iv: U96, ciphertext: seq<Byte>, tag: U128)
    returns (r: Result<seq<Byte>, DecryptError>)
    ensures r == DecryptDetachedSpec(aes, iv, ciphertext, tag)
    ensures r.Err? <==> tag != ExpectedTag(aes, iv, ciphertext)
    ensures r.Err? ==> r.error == InvalidTag
    ensures r.Ok? ==> |r.value| == |ciphertext|
  {
    var j0 := PreCounterBlock(iv);
    var s := Ghash(aes, ciphertext);
    var expectedTag := Xor(s, aes(j0));
    if expectedTag != tag {
      return Err(InvalidTag);
    }
    var counter := Inc32(j0);
    var plaintext := Gctr(aes, counter, ciphertext);
    r := Ok(plaintext);
  }

  /** Detached decryption undoes detached encryption under the same IV. */
  lemma DetachedRoundTrip(aes: U128 -> U128, iv: U96, plaintext: seq<Byte>)
    ensures var ciphertext := GctrSpec(aes, FirstCounter(iv), plaintext);
            DecryptDetachedSpec(aes, iv, ciphertext, ExpectedTag(aes, iv, ciphertext)) == Ok(plaintext)
  {
    GctrInvolution(aes, FirstCounter(iv), plaintext);
  }

  // ---------------------------------------------------------------------
  // Framing: nonce ‖ ciphertext ‖ tag
  // ---------------------------------------------------------------------

  /** The bytes of a message: nonce ‖ ciphertext ‖ tag, both numbers big-endian. */
  function Framed(nonce: U96, ciphertext: seq<Byte>, tag: U128): (r: seq<Byte>)
    ensures |r| == NonceLen + |ciphertext| + TagLen
  {
    ToBytes(nonce) + ciphertext + ToBytes(tag)
  }

  /** What `encrypt` returns for a given nonce (the nonce is drawn from the OS). */
  function EncryptSpec(aes: U128 -> U128, nonce: U96, plaintext: seq<Byte>): (r: seq<Byte>)
    ensures |r| == NonceLen + |plaintext| + TagLen
  {
    var ciphertext := GctrSpec(aes, FirstCounter(nonce), plaintext);
    Framed(nonce, ciphertext, ExpectedTag(aes, nonce, ciphertext))
  }

  /** Copies the three parts into one zeroed buffer, as `encrypt` does with `split_at_mut`. */
  method FillFrame(nonce: U96, ciphertext: seq<Byte>, tag: U128) returns (out: seq<Byte>)
    ensures out == Framed(nonce, ciphertext, tag)
  {
    var n := |ciphertext|;
    var buffer := new Byte[NonceLen + n + TagLen](_ => 0);
    var nonceBytes := ToBytes(nonce);
    var tagBytes := ToBytes(tag);
    forall i | 0 <= i < NonceLen {
      buffer[i] := nonceBytes[i];
    }
    forall i | 0 <= i < n {
      buffer[NonceLen + i] := ciphertext[i];
    }
    forall i | 0 <= i < TagLen {
      buffer[NonceLen + n + i] := tagBytes[i];
    }
    out := buffer[..];
    var framed := nonceBytes + ciphertext + tagBytes;
    forall i | 0 <= i < |out|
      ensures out[i] == framed[i]
    {
      if i < NonceLen {
      } else if i < NonceLen + n {
        assert out[i] == ciphertext[i - NonceLen];
      } else {
        assert out[i] == tagBytes[i - NonceLen - n];
      }
    }
  }

  /** `encrypt`: detached encryption under the given nonce, framed into one buffer. */
  method Encrypt(aes: U128 -> U128, nonce: U96, plaintext: seq<Byte>) returns (out: seq<Byte>)
    ensures out == EncryptSpec(aes, nonce, plaintext)
  {
    var ciphertext, tag := EncryptDetached(aes, nonce, plaintext);
    out := FillFrame(nonce, ciphertext, tag);
  }

  /** `encrypt`'s output is laid out as nonce, ciphertext and tag. */
  lemma EncryptLayout(aes: U128 -> U128, nonce: U96, plaintext: seq<Byte>)
    ensures var out := EncryptSpec(aes, nonce, plaintext);
            var ciphertext := out[NonceLen..NonceLen + |plaintext|];
            && out[..NonceLen] == ToBytes(nonce)
            && ciphertext == GctrSpec(aes, FirstCounter(nonce), plaintext)
            && out[NonceLen + |plaintext|..] == ToBytes(ExpectedTag(aes, nonce, ciphertext))
  {
    var ciphertext := GctrSpec(aes, FirstCounter(nonce), plaintext);
    var out := EncryptSpec(aes, nonce, plaintext);
    assert out == ToBytes(nonce) + ciphertext + ToBytes(ExpectedTag(aes, nonce, ciphertext));
    assert out[NonceLen..NonceLen + |plaintext|] == ciphertext;
  }

  /** The three parts of a message, as `decrypt` cuts it. */
  datatype Frame = Frame(nonce: U96, ciphertext: seq<Byte>, tag: U128)

  /**
   * `decrypt`'s split of a message into nonce, ciphertext and tag, with the
   * tag position computed without underflow: anything shorter than nonce
   * plus tag is an invalid message.
   */
  function Split(value: seq<Byte>): (r: Result<Frame, DecryptError>)
    ensures r.Err? <==> |value| < NonceLen + TagLen
    ensures r.Err? ==> r.error == InvalidMessage
    ensures r.Ok? ==> value == Framed(r.value.nonce, r.value.ciphertext, r.value.tag)
  {
    if |value| < NonceLen + TagLen then Err(InvalidMessage)
    else
      var tagPos := |value| - TagLen;
      ToBytesFromBytes(value[..NonceLen]);
      ToBytesFromBytes(value[tagPos..]);
      assert value == value[..NonceLen] + value[NonceLen..tagPos] + value[tagPos..];
      Ok(Frame(FromBytes(value[..NonceLen]), value[NonceLen..tagPos], FromBytes(value[tagPos..])))
  }

  /** `usize::MAX + 1` on a 64-bit target. */
  const UsizeModulus: nat := 0x1_0000_0000_0000_0000

  /**
   * The split exactly as `decrypt` writes it: `remaining.len() - TAG_LEN`
   * panics when overflow checks are on and wraps otherwise, after which
   * `split_at_checked` rejects the huge position.
   */
  function SplitAsWritten(value: seq<Byte>, overflowChecks: bool): Outcome<Result<Frame, DecryptError>> {
    if |value| < NonceLen then Returned(Err(InvalidMessage))
    else
      var remaining := value[NonceLen..];
      if |remaining| < TagLen && overflowChecks then Panicked
      else
        var tagPos: nat := if |remaining| < TagLen then |remaining| + UsizeModulus - TagLen
                           else |remaining| - TagLen;
        if tagPos > |remaining| then Returned(Err(InvalidMessage))
        else Returned(Ok(Frame(FromBytes(value[..NonceLen]), remaining[..tagPos], FromBytes(remaining[tagPos..]))))
  }

  /**
   * The split as written panics exactly on messages of 12 to 27 bytes in a
   * build with overflow checks, and otherwise agrees with `Split`.
   */
  lemma SplitAsWrittenAgrees(value: seq<Byte>, overflowChecks: bool)
    ensures SplitAsWritten(value, overflowChecks).Panicked?
            <==> overflowChecks && NonceLen <= |value| < NonceLen + TagLen
    ensures !SplitAsWritten(value, overflowChecks).Panicked?
            ==> SplitAsWritten(value, overflowChecks) == Returned(Split(value))
  {
    if |value| >= NonceLen + TagLen {
      var remaining := value[NonceLen..];
      var tagPos := |remaining| - TagLen;
      assert remaining[..tagPos] == value[NonceLen..|value| - TagLen];
      assert remaining[tagPos..] == value[|value| - TagLen..];
    }
  }

  /** A 20-byte message: the subtraction at the tag position underflows. */
  lemma UnderflowOnShortMessage()
    ensures SplitAsWritten(seq(20, _ => 0 as Byte), true) == Panicked
    ensures Split(seq(20, _ => 0 as Byte)) == Err(InvalidMessage)
  {
  }

  /** `decrypt`: split the message, then decrypt detached. */
  function DecryptSpec(aes: U128 -> U128, value: seq<Byte>): Result<seq<Byte>, DecryptError> {
    match Split(value)
    case Err(e) => Err(e)
    case Ok(f) => DecryptDetachedSpec(aes, f.nonce, f.ciphertext, f.tag)
  }

  method Decrypt(aes: U128 -> U128, value: seq<Byte>) returns (r: Result<seq<Byte>, DecryptError>)
    ensures r == DecryptSpec(aes, value)
    ensures |value| < NonceLen + TagLen ==> r == Err(InvalidMessage)
  {
    if |value| < NonceLen {
      return Err(InvalidMessage);
    }
    var nonceBytes, remaining := value[..NonceLen], value[NonceLen..];
    if |remaining| < TagLen {
      return Err(InvalidMessage);
    }
    var tagPos := |remaining| - TagLen;
    var ciphertext, tagBytes := remaining[..tagPos], remaining[tagPos..];
    assert ciphertext == value[NonceLen..|value| - TagLen];
    assert tagBytes == value[|value| - TagLen..];
    var nonce := FromBytes(nonceBytes);
    var tag := FromBytes(tagBytes);
    r := DecryptDetached(aes, nonce, ciphertext, tag);
  }

  /**
   * Decrypting a well-formed message: the plaintext when the tag matches the
   * one computed over nonce and ciphertext, `InvalidTag` otherwise.
   */
  lemma DecryptFrame(aes: U128 -> U128, nonce: U96, ciphertext: seq<Byte>, tag: U128)
    ensures DecryptSpec(aes, Framed(nonce, ciphertext, tag))
         == if tag == ExpectedTag(aes, nonce, ciphertext)
            then Ok(GctrSpec(aes, FirstCounter(nonce), ciphertext))
            else Err(InvalidTag)
  {
    var value := Framed(nonce, ciphertext, tag);
    var tagPos := |value| - TagLen;
    assert value[..NonceLen] == ToBytes(nonce);
    assert value[NonceLen..tagPos] == ciphertext;
    assert value[tagPos..] == ToBytes(tag);
    FromBytesToBytes(nonce);
    FromBytesToBytes(tag);
  }

  /** `decrypt(encrypt(p)) == Ok(p)` for every block function, nonce and plaintext. */
  lemma RoundTrip(aes: U128 -> U128, nonce: U96, plaintext: seq<Byte>)
    ensures DecryptSpec(aes, EncryptSpec(aes, nonce, plaintext)) == Ok(plaintext)
  {
    var ciphertext := GctrSpec(aes, FirstCounter(nonce), plaintext);
    DecryptFrame(aes, nonce, ciphertext, ExpectedTag(aes, nonce, ciphertext));
    GctrInvolution(aes, FirstCounter(nonce), plaintext);
  }

  /** A message whose last 16 bytes are not the expected tag is rejected with `InvalidTag`. */
  lemma TamperedTagRejected(aes: U128 -> U128, nonce: U96, ciphertext: seq<Byte>, tag: U128)
    requires tag != ExpectedTag(aes, nonce, ciphertext)
    ensures DecryptSpec(aes, Framed(nonce, ciphertext, tag)) == Err(InvalidTag)
  {
    DecryptFrame(aes, nonce, ciphertext, tag);
  }
}
