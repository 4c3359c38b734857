/** The laws of a cipher suite are met over the residues, whatever the hash functions are. */
module ResidueSuites {
  import opened Wrappers
  import opened Fields
  import opened CipherSuites
  import opened Residues

  /** Writes a scalar down in unary. */
  ghost function Unary(s: Residue): (m: Bytes)
    ensures |m| == s
  {
    seq(s, i => 0)
  }

  ghost function Suite(
    compress: Point<Residue> -> Bytes, compressShare: EncryptedShare -> Bytes,
    hash0: Bytes -> Residue, hash1: Bytes -> Residue, hash2: Bytes -> Residue,
    hash4: Bytes -> Bytes, hash5: Bytes -> Bytes, hashComplaint: Bytes -> Residue): CipherSuite<Residue>
  {
    CipherSuite(
      ResidueField(), compress, compressShare, hash0, hash1, hash2, hash4, hash5, hashComplaint,
      (key, nonce, s) => Unary(s),
      (key, nonce, m) => if |m| < Q then Some(|m|) else None)
  }

  lemma SuiteIsValid(
    compress: Point<Residue> -> Bytes, compressShare: EncryptedShare -> Bytes,
    hash0: Bytes -> Residue, hash1: Bytes -> Residue, hash2: Bytes -> Residue,
    hash4: Bytes -> Bytes, hash5: Bytes -> Bytes, hashComplaint: Bytes -> Residue)
    ensures Suite(compress, compressShare, hash0, hash1, hash2, hash4, hash5, hashComplaint).Valid()
  {
    ResidueFieldIsValid();
    var C := Suite(compress, compressShare, hash0, hash1, hash2, hash4, hash5, hashComplaint);
    forall key, nonce, s
      ensures C.CipherLaw(key, nonce, s)
    {
      assert C.Unseal(key, nonce, C.Seal(key, nonce, s)) == Some(|Unary(s)|);
    }
  }

  // ---------- A suite whose cipher checks its key ----------

  ghost predicate AllZero(m: Bytes)
  {
    forall i :: 0 <= i < |m| ==> m[i] == 0
  }

  /** The key, a one, and the scalar in unary. */
  ghost function SealUnder(key: Bytes, s: Residue): Bytes
  {
    key + [1] + Unary(s)
  }

  ghost function UnsealUnder(key: Bytes, m: Bytes): Option<Residue>
  {
    var k := |key|;
    if k < |m| && |m| - k - 1 < Q && m[..k] == key && m[k] == 1 && AllZero(m[k + 1..]) then Some(|m| - k - 1) else None
  }

  lemma UnsealExactly(key: Bytes, other: Bytes, s: Residue)
    ensures UnsealUnder(other, SealUnder(key, s)) == if other == key then Some(s) else None
  {
    var m := SealUnder(key, s);
    if other == key {
      assert m[..|key|] == key && m[|key| + 1..] == Unary(s);
    } else if |other| < |key| {
      assert m[|other| + 1..][|key| - |other| - 1] == 1;
    } else {
      assert m[..|key|] == key;
      assert |key| < |other| < |m| ==> m[|other|] == 0;
    }
  }

  ghost function CheckingSuite(
    compressShare: EncryptedShare -> Bytes,
    hash0: Bytes -> Residue, hash1: Bytes -> Residue, hash2: Bytes -> Residue,
    hash4: Bytes -> Bytes, hash5: Bytes -> Bytes, hashComplaint: Bytes -> Residue): CipherSuite<Residue>
  {
    CipherSuite(
      ResidueField(), (p: Point<Residue>) => Unary(p.dlog), compressShare, hash0, hash1, hash2, hash4, hash5,
      hashComplaint,
      (key, nonce, s) => SealUnder(key, s),
      (key, nonce, m) => UnsealUnder(key, m))
  }

  lemma CheckingSuiteChecks(
    compressShare: EncryptedShare -> Bytes,
    hash0: Bytes -> Residue, hash1: Bytes -> Residue, hash2: Bytes -> Residue,
    hash4: Bytes -> Bytes, hash5: Bytes -> Bytes, hashComplaint: Bytes -> Residue)
    ensures var C := CheckingSuite(compressShare, hash0, hash1, hash2, hash4, hash5, hashComplaint);
            C.Valid() && C.ChecksKeys()
  {
    ResidueFieldIsValid();
    var C := CheckingSuite(compressShare, hash0, hash1, hash2, hash4, hash5, hashComplaint);
    forall key, nonce, s
      ensures C.CipherLaw(key, nonce, s)
    {
      UnsealExactly(key, key, s);
    }
    forall key, other, nonce, s
      ensures C.KeyLaw(key, other, nonce, s)
    {
      UnsealExactly(key, other, s);
    }
    forall p, q
      ensures C.CompressLaw(p, q)
    {
      if C.Compress(p) == C.Compress(q) {
        assert |Unary(p.dlog)| == |Unary(q.dlog)|;
      }
    }
  }
}
