/** The key types, and the public recomputation of a verifying key from the dealers' commitments. */
module Keys {
  import opened Wrappers
  import opened Fields
  import opened Sums
  import opened Orderings
  import opened Lagrange
  import opened CipherSuites
  import opened SecretShares
  import opened Participants

  datatype IndividualSigningKey<S> = IndividualSigningKey(index: u32, key: S)

  datatype IndividualVerifyingKey<S> = IndividualVerifyingKey(index: u32, share: Point<S>)

  function ToPublic<S(!new)>(C: CipherSuite<S>, key: IndividualSigningKey<S>): IndividualVerifyingKey<S>
  {
    IndividualVerifyingKey(key.index, C.Base(key.key))
  }

  ghost function IndexVector<S>(commitments: seq<VssCommitment<S>>): (indices: seq<u32>)
    ensures |indices| == |commitments|
    ensures forall i :: 0 <= i < |indices| ==> indices[i] == commitments[i].index
  {
    seq(|commitments|, i requires 0 <= i < |commitments| => commitments[i].index)
  }

  /** The values at x of the committed polynomials, in the exponent and keyed by dealer. */
  ghost function HidingValues<S(!new)>(C: CipherSuite<S>, commitments: seq<VssCommitment<S>>, x: S): map<nat, S>
  {
    if commitments == [] then map[]
    else
      var k := |commitments| - 1;
      HidingValues(C, commitments[..k], x)[commitments[k].index := HidingEval(C, commitments[k].points, x).dlog]
  }

  lemma {:induction false} HidingKeys<S(!new)>(C: CipherSuite<S>, commitments: seq<VssCommitment<S>>, x: S)
    ensures HidingValues(C, commitments, x).Keys == ToSet(IndexVector(commitments))
  {
    if commitments != [] {
      var k := |commitments| - 1;
      HidingKeys(C, commitments[..k], x);
      assert IndexVector(commitments)[..k] == IndexVector(commitments[..k]);
      ToSetPrefix(IndexVector(commitments), k);
      assert IndexVector(commitments)[..k + 1] == IndexVector(commitments);
    }
  }

  lemma {:induction false} HidingEntry<S(!new)>(C: CipherSuite<S>, commitments: seq<VssCommitment<S>>, x: S, i: nat)
    requires i < |commitments| && Distinct(IndexVector(commitments))
    ensures commitments[i].index in HidingValues(C, commitments, x)
    ensures HidingValues(C, commitments, x)[commitments[i].index] == HidingEval(C, commitments[i].points, x).dlog
  {
    var k := |commitments| - 1;
    if i < k {
      assert IndexVector(commitments)[..k] == IndexVector(commitments[..k]);
      HidingEntry(C, commitments[..k], x, i);
      assert IndexVector(commitments)[i] != IndexVector(commitments)[k];
    }
  }

  /** The public share of a participant: those values, interpolated over the dealers. */
  ghost function PublicShare<S(!new)>(C: CipherSuite<S>, index: u32, commitments: seq<VssCommitment<S>>)
    : Result<Point<S>, LagrangeError>
  {
    var indices := IndexVector(commitments);
    if !Distinct(indices) then Err(DuplicateIndices)
    else if 0 in indices then Err(LagrangeError.IndexIsZero)
    else Ok(Point(Interpolate(C.F, HidingValues(C, commitments, C.F.From(index)))))
  }

  method CollectIndices<S>(commitments: seq<VssCommitment<S>>) returns (indexVector: seq<u32>)
    ensures indexVector == IndexVector(commitments)
  {
    indexVector := [];
    for i := 0 to |commitments|
      invariant indexVector == IndexVector(commitments)[..i]
    {
      indexVector := indexVector + [commitments[i].index];
    }
  }

  /** The loop that `verify` and `generate_from_commitments` share. */
  method RecomputeShare<S(==, !new)>(C: CipherSuite<S>, index: u32, commitments: seq<VssCommitment<S>>)
    returns (r: Result<Point<S>, LagrangeError>)
    requires C.F.Valid()
    ensures r == PublicShare(C, index, commitments)
    ensures r == Err(DuplicateIndices) <==> !Distinct(IndexVector(commitments))
    ensures r == Err(LagrangeError.IndexIsZero)
       <==> Distinct(IndexVector(commitments)) && 0 in IndexVector(commitments)
  {
    var share := C.Identity();
    var term := C.F.From(index);
    var indexVector := CollectIndices(commitments);
    ghost var y := HidingValues(C, commitments, term);
    ghost var X: set<nat> := ToSet(indexVector);
    HidingKeys(C, commitments, term);
    for i := 0 to |commitments|
      invariant ToSet(indexVector[..i]) <= y.Keys
      invariant share.dlog == WeightedSum(C.F, y, X, ToSet(indexVector[..i]))
      invariant i > 0 ==> Distinct(indexVector) && 0 !in indexVector
    {
      var tmp := EvaluateHiding(C, commitments[i].points, term);
      var coeff := CalculateLagrangeCoefficients(C.F, commitments[i].index, indexVector);
      if coeff.Err? {
        return Err(coeff.error);
      }
      HidingEntry(C, commitments, term, i);
      ToSetPrefix(indexVector, i);
      WeightedSumExtend(C.F, y, X, ToSet(indexVector[..i]), commitments[i].index);
      share := C.GAdd(share, C.GMul(tmp, coeff.value));
    }
    assert indexVector[..|commitments|] == indexVector;
    r := Ok(share);
  }

  method GenerateFromCommitments<S(==, !new)>(C: CipherSuite<S>, index: u32, commitments: seq<VssCommitment<S>>)
    returns (r: Result<IndividualVerifyingKey<S>, Error<S>>)
    requires C.F.Valid()
    ensures r == match PublicShare(C, index, commitments)
                 case Err(error) => Err(Interpolation(error))
                 case Ok(share) => Ok(IndividualVerifyingKey(index, share))
  {
    var share := RecomputeShare(C, index, commitments);
    r := match share
      case Err(error) => Err(Interpolation(error))
      case Ok(value) => Ok(IndividualVerifyingKey(index, value));
  }

  method VerifyKey<S(==, !new)>(C: CipherSuite<S>, key: IndividualVerifyingKey<S>, commitments: seq<VssCommitment<S>>)
    returns (r: Result<(), Error<S>>)
    requires C.F.Valid()
    ensures r.Ok? <==> PublicShare(C, key.index, commitments) == Ok(key.share)
    ensures r.Err? ==> r.error == match PublicShare(C, key.index, commitments)
                                  case Err(error) => Interpolation(error)
                                  case Ok(_) => ShareVerificationError
  {
    var share := RecomputeShare(C, key.index, commitments);
    match share
    case Err(error) => r := Err(Interpolation(error));
    case Ok(value) => r := if key.share == value then Ok(()) else Err(ShareVerificationError);
  }
}
