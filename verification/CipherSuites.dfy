/**
 The parameters the library is generic over: the scalar field, the prime-order group, the hash
 functions and the cipher. Hashes and encodings of points are arbitrary functions, an index is
 encoded as four little-endian bytes, and the cipher opens what it sealed.
 */
module CipherSuites {
  import opened Wrappers
  import opened Fields

  type byte = x: nat | x < 256

  type Bytes = seq<byte>

  /** A point of the group, named by its discrete logarithm to the generator. */
  datatype Point<S> = Point(dlog: S)

  /** A secret share encrypted for its receiver. */
  datatype EncryptedShare = EncryptedShare(sender: u32, receiver: u32, nonce: Bytes, ciphertext: Bytes)

  /** An index as four little-endian bytes. */
  function LeBytes(i: u32): Bytes
  {
    [i % 256, (i / 0x100) % 256, (i / 0x1_0000) % 256, i / 0x100_0000]
  }

  /** The bytes are the digits of the index to the base 256, lowest first, so they tell indices apart. */
  lemma LeBytesDigits(i: u32)
    ensures |LeBytes(i)| == 4
    ensures var b: seq<int> := LeBytes(i); b[0] + 0x100 * b[1] + 0x1_0000 * b[2] + 0x100_0000 * b[3] == i
  {
    var first, second, third := i / 0x100, i / 0x1_0000, i / 0x100_0000;
    assert i == 0x100 * first + i % 0x100;
    assert first == 0x100 * second + first % 0x100;
    assert second == 0x100 * third + second % 0x100;
  }

  datatype CipherSuite<!S(==, !new)> = CipherSuite(
    F: Field<S>,
    compress: Point<S> -> Bytes,
    compressShare: EncryptedShare -> Bytes,
    hash0: Bytes -> S,
    hash1: Bytes -> S,
    hash2: Bytes -> S,
    hash4: Bytes -> Bytes,
    hash5: Bytes -> Bytes,
    hashComplaint: Bytes -> S,
    seal: (Bytes, Bytes, S) -> Bytes,
    unseal: (Bytes, Bytes, Bytes) -> Option<S>)
  {
    function H0(m: Bytes): S { hash0(m) }

    function H1(m: Bytes): S { hash1(m) }

    function H2(m: Bytes): S { hash2(m) }

    function H4(m: Bytes): Bytes { hash4(m) }

    function H5(m: Bytes): Bytes { hash5(m) }

    function HComplaint(m: Bytes): S { hashComplaint(m) }

    function Compress(p: Point<S>): Bytes { compress(p) }

    function CompressShare(e: EncryptedShare): Bytes { compressShare(e) }

    function Seal(key: Bytes, nonce: Bytes, s: S): Bytes { seal(key, nonce, s) }

    function Unseal(key: Bytes, nonce: Bytes, ciphertext: Bytes): Option<S> { unseal(key, nonce, ciphertext) }

    /** The generator times x. */
    function Base(x: S): Point<S> { Point(x) }

    function Identity(): Point<S> { Point(F.zero) }

    function GAdd(p: Point<S>, q: Point<S>): Point<S> { Point(F.Add(p.dlog, q.dlog)) }

    function GNeg(p: Point<S>): Point<S> { Point(F.Neg(p.dlog)) }

    function GMul(p: Point<S>, x: S): Point<S> { Point(F.Mul(p.dlog, x)) }

    ghost predicate CipherLaw(key: Bytes, nonce: Bytes, s: S)
    {
      Unseal(key, nonce, Seal(key, nonce, s)) == Some(s)
    }

    /** The cipher refuses every key but the one it sealed under. */
    ghost predicate KeyLaw(key: Bytes, other: Bytes, nonce: Bytes, s: S)
    {
      other != key ==> Unseal(other, nonce, Seal(key, nonce, s)) == None
    }

    ghost predicate CompressLaw(p: Point<S>, q: Point<S>)
    {
      Compress(p) == Compress(q) ==> p == q
    }

    /** A cipher that checks its key, with keys that tell the shared points apart. */
    ghost predicate ChecksKeys()
    {
      && (forall key, other, nonce, s :: KeyLaw(key, other, nonce, s))
      && (forall p, q :: CompressLaw(p, q))
    }

    ghost predicate Valid()
    {
      && F.Valid()
      && (forall key, nonce, s :: CipherLaw(key, nonce, s))
    }
  }
}
