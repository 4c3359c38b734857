/** Anyone can recompute a participant's public key share from what the dealers published. */
module PublicRecomputation {
  import opened Wrappers
  import opened Fields
  import opened Sums
  import opened Polynomials
  import opened Orderings
  import opened Lagrange
  import opened CipherSuites
  import opened SecretShares
  import opened Participants
  import opened Keys
  import opened KeyGeneration
  import opened RobustKeyGeneration

  /** The list holds each of the dealers' commitments once, in any order, under the index it states. */
  ghost predicate Lists<S>(cs: seq<VssCommitment<S>>, commitments: map<u32, VssCommitment<S>>)
  {
    && Distinct(IndexVector(cs))
    && ToSet(IndexVector(cs)) == commitments.Keys
    && forall i :: 0 <= i < |cs| ==> cs[i].index in commitments && commitments[cs[i].index].points == cs[i].points
  }

  /** The recomputed share is the value of the group's polynomial at the index, for every index. */
  lemma PublicShareIsPolynomial<S(!new)>(C: CipherSuite<S>, cs: seq<VssCommitment<S>>,
                                         commitments: map<u32, VssCommitment<S>>, index: u32)
    requires C.F.Valid() && Lists(cs, commitments) && 0 !in commitments
    ensures PublicShare(C, index, cs)
         == Ok(C.Base(Eval(C.F, GroupPolynomial(C.F, commitments), C.F.From(index))))
  {
    var x, X := C.F.From(index), commitments.Keys;
    var y, polys := HidingValues(C, cs, x), CommittedPolynomials(commitments);
    HidingKeys(C, cs, x);
    assert 0 !in IndexVector(cs) by {
      assert forall l :: l in IndexVector(cs) ==> l in ToSet(IndexVector(cs));
    }
    forall l | l in X
      ensures y[l] == Eval(C.F, polys[l], x)
    {
      var i :| 0 <= i < |cs| && cs[i].index == l;
      HidingEntry(C, cs, x, i);
      HidingEvalIsEval(C, cs[i].points, x);
    }
    CombineEval(C.F, polys, X, X, x, y);
  }

  /**
   The public half of the key that comes out of `finish` is what anyone recomputes from the
   remaining commitments in any order; so `IndividualVerifyingKey::verify`, which accepts exactly
   the recomputed share, accepts exactly this one.
   */
  lemma RecomputationAgrees<S(!new)>(C: CipherSuite<S>, st: State<S>, cs: seq<VssCommitment<S>>)
    requires C.F.Valid() && Consistent(C, st) && Lists(cs, st.theirCommitments.value)
    requires 0 !in st.theirCommitments.value && AllHavePoints(st.theirCommitments.value)
    ensures Finish(C, st).Ok?
    ensures PublicShare(C, st.index, cs) == Ok(ToPublic(C, Finish(C, st).value.1).share)
  {
    FinishConsistent(C, st);
    PublicShareIsPolynomial(C, cs, st.theirCommitments.value, st.index);
  }

  /** The group key is the share recomputed for index zero. */
  lemma GroupKeyRecomputed<S(!new)>(C: CipherSuite<S>, st: State<S>, cs: seq<VssCommitment<S>>)
    requires C.F.Valid() && st.theirCommitments.Some? && Lists(cs, st.theirCommitments.value)
    requires 0 !in st.theirCommitments.value && AllHavePoints(st.theirCommitments.value)
    ensures GroupKeyOf(C, st).Ok? && PublicShare(C, 0, cs) == Ok(GroupKeyOf(C, st).value)
  {
    GroupKeyIsConstantTerm(C, st);
    PublicShareIsPolynomial(C, cs, st.theirCommitments.value, 0);
  }
}
