/**
 * The keyed byte obfuscation of `StringEncrypter`. A seed is derived from the
 * token bytes, and every byte is shifted by `token[i mod len] * seed`, modulo 256.
 * This is obfuscation, not encryption: there is no diffusion and no integrity check.
 * The text <-> byte conversions (TextEncoder / TextDecoder) are not part of this
 * model: both the token and the data are given as bytes.
 */
module StringEncrypter {
  import opened Wrappers

  /** A value as kept by a `Uint8Array`. */
  type byte = x: int | 0 <= x < 256

  /** `reduce` over an empty token array without an initial value throws a TypeError. */
  datatype CipherError = EmptyToken

  const SeedModulus: nat := 1000000

  /** The left fold `(a, b) => a + b` over the token bytes, on plain numbers. */
  function Sum(bs: seq<byte>): (s: nat)
    ensures s <= 255 * |bs|
    ensures |bs| > 0 ==> bs[0] <= s
  {
    if |bs| == 0 then 0 else Sum(bs[..|bs| - 1]) + bs[|bs| - 1]
  }

  /** The fold starts from the first byte and adds the others from left to right. */
  lemma {:induction false} SumFromFirst(bs: seq<byte>)
    requires |bs| > 0
    ensures Sum(bs) == bs[0] + Sum(bs[1..])
    decreases |bs|
  {
    if |bs| > 1 {
      var n := |bs| - 1;
      SumFromFirst(bs[..n]);
      assert bs[..n][1..] == bs[1..][..n - 1];
      assert bs[1..][n - 1] == bs[n];
    }
  }

  /** The key seed `tokenSum`, shared by encoding and decoding. */
  function Seed(token: seq<byte>): (s: nat)
    requires |token| > 0
    ensures s < SeedModulus
    ensures Sum(token) < SeedModulus ==> s == Sum(token)
    ensures (Sum(token) - s) % SeedModulus == 0
  {
    var q := Sum(token) / SeedModulus;
    assert Sum(token) - Sum(token) % SeedModulus == SeedModulus * q;
    Sum(token) % SeedModulus
  }

  /** The amount byte `i` is shifted by: the token byte at `i mod len` times the seed. */
  function Offset(token: seq<byte>, i: nat): (k: nat)
    requires |token| > 0
    ensures k == 0 <==> Seed(token) == 0 || token[i % |token|] == 0
    ensures k >= Seed(token) || k == 0
  {
    ProductOfNaturals(token[i % |token|], Seed(token));
    token[i % |token|] * Seed(token)
  }

  /** A product of naturals is zero exactly when a factor is, and otherwise at least the second factor. */
  lemma ProductOfNaturals(a: nat, b: nat)
    ensures a * b == 0 <==> a == 0 || b == 0
    ensures a > 0 ==> a * b >= b
  {
    if a > 0 {
      var rest: nat := (a - 1) * b;
      assert a * b == rest + b;
    }
  }

  /** JavaScript's `a % n` for a positive divisor: the remainder keeps the dividend's sign. */
  function JsRemainder(a: int, n: int): (r: int)
    requires n > 0
    ensures -n < r < n
    ensures a >= 0 ==> 0 <= r
    ensures a <= 0 ==> r <= 0
    ensures a == n * (if a >= 0 then a / n else -((-a) / n)) + r
  {
    if a >= 0 then a % n
    else
      assert -a == n * ((-a) / n) + (-a) % n;
      -((-a) % n)
  }

  /** ToUint8: what a `Uint8Array` keeps of an integral number written into it. */
  function ToUint8(x: int): (b: byte)
    ensures (x - b) % 256 == 0
    ensures 0 <= x < 256 ==> b == x
  {
    x % 256
  }

  /** The byte that the result `x % 256` of a `map` callback becomes once stored. */
  function Stored(x: int): (b: byte)
    ensures 0 <= x ==> b == x % 256
  {
    ToUint8(JsRemainder(x, 256))
  }

  /** The truncating remainder followed by the Uint8Array conversion is floor modulo. */
  lemma StoredIsFloorModulo(x: int)
    ensures Stored(x) == x % 256
  {
    var r := JsRemainder(x, 256);
    if x < 0 {
      var q := (-x) / 256;
      assert -x == 256 * q + (-x) % 256;
      assert x == 256 * (-q) + r;
      SameResidue(x, r, -q);
    }
  }

  /** `x == 256 * q + r` puts `x` and `r` in the same residue class. */
  lemma SameResidue(x: int, r: int, q: int)
    requires x == 256 * q + r
    ensures x % 256 == r % 256
  {
    var a := r % 256;
    var b := r / 256;
    assert r == 256 * b + a;
    assert x == 256 * (q + b) + a;
  }

  /** Encoding byte-wise: each plain byte is shifted up by its offset. */
  function EncodeBytes(token: seq<byte>, plain: seq<byte>): (cipher: seq<byte>)
    requires |token| > 0
    ensures |cipher| == |plain|
  {
    seq(|plain|, i requires 0 <= i < |plain| => Stored(plain[i] + Offset(token, i)))
  }

  /** Decoding byte-wise: each cipher byte is shifted down by the same offset. */
  function DecodeBytes(token: seq<byte>, cipher: seq<byte>): (plain: seq<byte>)
    requires |token| > 0
    ensures |plain| == |cipher|
  {
    seq(|cipher|, i requires 0 <= i < |cipher| => Stored(cipher[i] - Offset(token, i)))
  }

  /** Output byte `i` of encoding, as a floor-modulo sum. */
  lemma EncodeByteAt(token: seq<byte>, plain: seq<byte>, i: nat)
    requires |token| > 0 && i < |plain|
    ensures EncodeBytes(token, plain)[i] == (plain[i] + token[i % |token|] * Seed(token)) % 256
  {
    StoredIsFloorModulo(plain[i] + Offset(token, i));
  }

  /** Output byte `i` of decoding, as a floor-modulo difference; the negative intermediate wraps. */
  lemma DecodeByteAt(token: seq<byte>, cipher: seq<byte>, i: nat)
    requires |token| > 0 && i < |cipher|
    ensures DecodeBytes(token, cipher)[i] == (cipher[i] - token[i % |token|] * Seed(token)) % 256
  {
    StoredIsFloorModulo(cipher[i] - Offset(token, i));
  }

  /** A NUL token byte (or a zero seed) leaves the byte it keys unobfuscated. */
  lemma ZeroShiftLeavesByte(token: seq<byte>, plain: seq<byte>, i: nat)
    requires |token| > 0 && i < |plain|
    requires token[i % |token|] == 0 || Seed(token) == 0
    ensures EncodeBytes(token, plain)[i] == plain[i]
  {
    EncodeByteAt(token, plain, i);
  }

  /** Output byte `i` depends on input byte `i`, the token and nothing else. */
  lemma EncodeIsLocal(token: seq<byte>, p: seq<byte>, q: seq<byte>, i: nat)
    requires |token| > 0 && i < |p| && i < |q| && p[i] == q[i]
    ensures EncodeBytes(token, p)[i] == EncodeBytes(token, q)[i]
  {
  }

  /** Shifting down undoes shifting up, modulo 256. */
  lemma ShiftCancels(v: byte, k: int)
    ensures ((v + k) % 256 - k) % 256 == v
  {
    var q := (v + k) / 256;
    assert v + k == 256 * q + (v + k) % 256;
    SameResidue(v, (v + k) % 256 - k, q);
  }

  /** Shifting up undoes shifting down, modulo 256. */
  lemma ShiftBackCancels(c: byte, k: int)
    ensures ((c - k) % 256 + k) % 256 == c
  {
    var q := (c - k) / 256;
    assert c - k == 256 * q + (c - k) % 256;
    SameResidue(c, (c - k) % 256 + k, q);
  }

  /** Decoding what was encoded with the same token restores every byte. */
  lemma {:induction false} DecodeEncode(token: seq<byte>, plain: seq<byte>)
    requires |token| > 0
    ensures DecodeBytes(token, EncodeBytes(token, plain)) == plain
  {
    var cipher := EncodeBytes(token, plain);
    var back := DecodeBytes(token, cipher);
    forall i | 0 <= i < |plain|
      ensures back[i] == plain[i]
    {
      EncodeByteAt(token, plain, i);
      DecodeByteAt(token, cipher, i);
      ShiftCancels(plain[i], Offset(token, i));
    }
  }

  /** Encoding what was decoded with the same token restores every byte: the transform is a bijection. */
  lemma {:induction false} EncodeDecode(token: seq<byte>, cipher: seq<byte>)
    requires |token| > 0
    ensures EncodeBytes(token, DecodeBytes(token, cipher)) == cipher
  {
    var plain := DecodeBytes(token, cipher);
    var again := EncodeBytes(token, plain);
    forall i | 0 <= i < |cipher|
      ensures again[i] == cipher[i]
    {
      DecodeByteAt(token, cipher, i);
      EncodeByteAt(token, plain, i);
      ShiftBackCancels(cipher[i], Offset(token, i));
    }
  }

  /** `encode`: fails on an empty token, and otherwise yields bytes that decode back. */
  function Encode(token: seq<byte>, plain: seq<byte>): (r: Result<seq<byte>, CipherError>)
    ensures r.Failure? <==> |token| == 0
    ensures r.Success? ==> |r.value| == |plain|
    ensures r.Success? ==> Decode(token, r.value) == Success(plain)
  {
    if |token| == 0 then Failure(EmptyToken)
    else
      DecodeEncode(token, plain);
      Success(EncodeBytes(token, plain))
  }

  /** `decode`: fails on an empty token, and otherwise yields bytes that encode back. */
  function Decode(token: seq<byte>, cipher: seq<byte>): (r: Result<seq<byte>, CipherError>)
    ensures r.Failure? <==> |token| == 0
    ensures r.Success? ==> |r.value| == |cipher|
    ensures r.Success? ==> EncodeBytes(token, r.value) == cipher
  {
    if |token| == 0 then Failure(EmptyToken)
    else
      EncodeDecode(token, cipher);
      Success(DecodeBytes(token, cipher))
  }
}
