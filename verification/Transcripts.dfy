/**
 What the hash functions of signing are given, byte by byte: the message, every commitment of every
 signer in order, and the index. Different lists of signers are encoded differently.
 */
module Transcripts {
  import opened Wrappers
  import opened Fields
  import opened Sums
  import opened Orderings
  import opened Lagrange
  import opened CipherSuites
  import opened Keys
  import opened Precomputation
  import opened Signing

  // ---------- The list of commitments ----------

  /** Points are encoded in L bytes each. */
  ghost predicate FixedLength<S(!new)>(C: CipherSuite<S>, L: nat)
  {
    forall p: Point<S> :: |C.compress(p)| == L
  }

  ghost predicate Injective<S(!new)>(C: CipherSuite<S>)
  {
    forall p: Point<S>, q: Point<S> :: C.CompressLaw(p, q)
  }

  /** Lists are encoded one after the other, and an entry as its index and both of its points. */
  lemma {:induction false} EncodedConcat<S(!new)>(C: CipherSuite<S>, xs: seq<Signer<S>>, ys: seq<Signer<S>>)
    ensures EncodedList(C, xs + ys) == EncodedList(C, xs) + EncodedList(C, ys)
    decreases |ys|
  {
    if ys == [] {
      assert xs + ys == xs;
    } else {
      var k := |ys| - 1;
      EncodedConcat(C, xs, ys[..k]);
      assert (xs + ys)[..|xs + ys| - 1] == xs + ys[..k];
    }
  }

  lemma EncodedOne<S(!new)>(C: CipherSuite<S>, s: Signer<S>)
    ensures EncodedList(C, [s]) == LeBytes(s.index) + C.compress(s.hiding) + C.compress(s.binding)
  {
    assert [s][..0] == [];
  }

  lemma {:induction false} EncodedLength<S(!new)>(C: CipherSuite<S>, L: nat, signers: seq<Signer<S>>)
    requires FixedLength(C, L)
    ensures |EncodedList(C, signers)| == |signers| * (4 + 2 * L)
  {
    if signers != [] {
      var k := |signers| - 1;
      EncodedLength(C, L, signers[..k]);
      assert |signers| * (4 + 2 * L) == k * (4 + 2 * L) + (4 + 2 * L);
    }
  }

  lemma EntryTells<S(!new)>(C: CipherSuite<S>, L: nat, x: Signer<S>, y: Signer<S>)
    requires FixedLength(C, L) && Injective(C)
    requires EncodedList(C, [x]) == EncodedList(C, [y])
    ensures x == y
  {
    EncodedOne(C, x);
    EncodedOne(C, y);
    var ex, ey := EncodedList(C, [x]), EncodedList(C, [y]);
    assert ex[..4] == LeBytes(x.index) && ey[..4] == LeBytes(y.index);
    assert ex[4..4 + L] == C.compress(x.hiding) && ey[4..4 + L] == C.compress(y.hiding);
    assert ex[4 + L..] == C.compress(x.binding) && ey[4 + L..] == C.compress(y.binding);
    LeBytesDigits(x.index);
    LeBytesDigits(y.index);
    assert C.CompressLaw(x.hiding, y.hiding) && C.CompressLaw(x.binding, y.binding);
  }

  /** With an injective encoding of points of fixed length, equal encodings are of equal lists. */
  lemma {:induction false} EncodedTells<S(!new)>(C: CipherSuite<S>, L: nat, xs: seq<Signer<S>>, ys: seq<Signer<S>>)
    requires FixedLength(C, L) && Injective(C)
    requires EncodedList(C, xs) == EncodedList(C, ys)
    ensures xs == ys
  {
    EncodedLength(C, L, xs);
    EncodedLength(C, L, ys);
    SameFactor(|xs|, |ys|, 4 + 2 * L);
    if xs != [] {
      var k := |xs| - 1;
      EncodedLength(C, L, xs[..k]);
      EncodedLength(C, L, ys[..k]);
      SplitLast(C, xs);
      SplitLast(C, ys);
      var n := k * (4 + 2 * L);
      assert EncodedList(C, xs)[..n] == EncodedList(C, xs[..k]);
      assert EncodedList(C, ys)[..n] == EncodedList(C, ys[..k]);
      assert EncodedList(C, xs)[n..] == EncodedList(C, [xs[k]]);
      assert EncodedList(C, ys)[n..] == EncodedList(C, [ys[k]]);
      EncodedTells(C, L, xs[..k], ys[..k]);
      EntryTells(C, L, xs[k], ys[k]);
    }
  }

  lemma SplitLast<S(!new)>(C: CipherSuite<S>, xs: seq<Signer<S>>)
    requires xs != []
    ensures EncodedList(C, xs) == EncodedList(C, xs[..|xs| - 1]) + EncodedList(C, [xs[|xs| - 1]])
  {
    EncodedConcat(C, xs[..|xs| - 1], [xs[|xs| - 1]]);
    assert xs[..|xs| - 1] + [xs[|xs| - 1]] == xs;
  }

  lemma SameFactor(a: nat, b: nat, c: nat)
    requires c > 0
    ensures a * c == b * c ==> a == b
  {
    if a < b {
      Larger(a, b, c);
    } else if b < a {
      Larger(b, a, c);
    }
  }

  lemma Larger(a: nat, b: nat, c: nat)
    requires c > 0 && a < b
    ensures a * c < b * c
  {
    calc {
      b * c;
      == (a + (b - a)) * c;
      == a * c + (b - a) * c;
    }
  }

  // ---------- The binding factors ----------

  /** What h1 is given for an index: the hashed message, the hashed list of all commitments, and the index. */
  ghost function FactorInput<S(!new)>(C: CipherSuite<S>, message: Bytes, signers: seq<Signer<S>>, index: u32): Bytes
  {
    C.hash4(message) + C.hash5(EncodedList(C, signers)) + LeBytes(index)
  }

  /** The factor of each signer hashes exactly that, wherever it is computed. */
  lemma FactorsWritten<S(!new)>(C: CipherSuite<S>, message: Bytes, signers: seq<Signer<S>>, index: u32)
    requires index in IndicesOf(signers)
    ensures var factors := BindingFactors(C, message, signers);
            index in factors && factors[index] == C.hash1(FactorInput(C, message, signers, index))
    ensures var entry := LastEntry(C, signers, index);
            ParticipantCommitment(C, message, signers, index)
            == C.GAdd(entry.hiding, C.GMul(entry.binding, C.hash1(FactorInput(C, message, signers, index))))
  {
  }

  /**
   For hashes of fixed length, two inputs of h1 are equal only for one index and for messages and lists
   of commitments that h4 and h5 do not tell apart.
   */
  lemma FactorInputTells<S(!new)>(C: CipherSuite<S>, m: Bytes, m': Bytes, xs: seq<Signer<S>>, ys: seq<Signer<S>>,
                                  i: u32, j: u32, h: nat)
    requires forall b: Bytes :: |C.hash4(b)| == h
    ensures FactorInput(C, m, xs, i) == FactorInput(C, m', ys, j)
       <==> i == j && C.hash4(m) == C.hash4(m') && C.hash5(EncodedList(C, xs)) == C.hash5(EncodedList(C, ys))
  {
    var a, b := FactorInput(C, m, xs, i), FactorInput(C, m', ys, j);
    assert |C.hash4(m)| == h && |C.hash4(m')| == h;
    LeBytesDigits(i);
    LeBytesDigits(j);
    assert a[..h] == C.hash4(m) && b[..h] == C.hash4(m');
    assert a[h..|a| - 4] == C.hash5(EncodedList(C, xs)) && b[h..|b| - 4] == C.hash5(EncodedList(C, ys));
    assert a[|a| - 4..] == LeBytes(i) && b[|b| - 4..] == LeBytes(j);
  }

  /** With distinct signers, the group commitment sums D_i + rho_i E_i over these factors. */
  lemma GroupCommitmentWritten<S(!new)>(C: CipherSuite<S>, message: Bytes, signers: seq<Signer<S>>, logs: seq<S>)
    requires |logs| == |signers|
    requires forall i :: 0 <= i < |signers| ==>
               logs[i] == C.F.Add(signers[i].hiding.dlog,
                                  C.F.Mul(signers[i].binding.dlog,
                                          C.hash1(FactorInput(C, message, signers, signers[i].index))))
    ensures GroupCommitment(C, signers, BindingFactors(C, message, signers)) == C.Base(SumSeq(C.F, logs))
  {
    var factors := BindingFactors(C, message, signers);
    forall i | 0 <= i < |signers|
      ensures CommitmentLogs(C, signers, factors)[i] == logs[i]
    {
      assert IndicesOf(signers)[i] == signers[i].index;
      FactorsWritten(C, message, signers, signers[i].index);
    }
    assert CommitmentLogs(C, signers, factors) == logs;
    GroupCommitmentIsSum(C, signers, factors);
  }

  /** The challenge of signers and aggregator hashes the group commitment, the group key and the message hash. */
  lemma ChallengeWritten<S(!new)>(C: CipherSuite<S>, messageHash: Bytes, groupKey: Point<S>, signers: seq<Signer<S>>)
    ensures var R := GroupCommitment(C, signers, BindingFactors(C, messageHash, signers));
            GroupChallenge(C, messageHash, groupKey, signers)
            == C.hash2(C.compress(R) + C.compress(groupKey) + messageHash)
  {
  }

  // ---------- The partial signature ----------

  /**
   `sign` returns z = d + e rho + lambda s c for its nonces d and e, or the first of its errors: a nonce
   index out of range, no signers, a signer that is not listed, or a list that cannot be interpolated.
   */
  lemma SignedExactly<S(!new)>(C: CipherSuite<S>, key: IndividualSigningKey<S>, messageHash: Bytes, groupKey: Point<S>,
                               shares: seq<CommitmentShare<S>>, k: nat, signers: seq<Signer<S>>)
    ensures var r := Signed(C, key, messageHash, groupKey, shares, k, signers);
            && (r == Err(MissingCommitmentShares) <==> k >= |shares|)
            && (r == Err(Panicked) <==> k < |shares| && signers == [])
            && (r == Err(InvalidBindingFactor) <==> k < |shares| && signers != [] && key.index !in IndicesOf(signers))
            && (r == Err(Interpolation(DuplicateIndices))
                <==> k < |shares| && key.index in IndicesOf(signers) && !Distinct(IndicesOf(signers)))
            && (r == Err(Interpolation(LagrangeError.IndexIsZero))
                <==> && k < |shares| && key.index in IndicesOf(signers)
                     && Distinct(IndicesOf(signers)) && 0 in IndicesOf(signers))
            && (r.Ok? ==>
                  && r.value.index == key.index
                  && var R := GroupCommitment(C, signers, BindingFactors(C, messageHash, signers));
                     var rho := C.hash1(FactorInput(C, messageHash, signers, key.index));
                     var c := C.hash2(C.compress(R) + C.compress(groupKey) + messageHash);
                     var lambda := Lambda(C.F, key.index, ToSet(IndicesOf(signers)));
                     r.value.z == C.F.Add(C.F.Add(shares[k].hiding.secret, C.F.Mul(shares[k].binding.secret, rho)),
                                          C.F.Mul(C.F.Mul(lambda, key.key), c)))
  {
    ChallengeWritten(C, messageHash, groupKey, signers);
    if key.index in IndicesOf(signers) {
      FactorsWritten(C, messageHash, signers, key.index);
    }
  }
}
