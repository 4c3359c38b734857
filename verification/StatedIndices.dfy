/**
 The index inside a commitment is the dealer's own word. Round one does not check it and `finish`
 does not use it, but the public recomputation of keys does: when that is refused, when it agrees,
 and how it can be wrong without an error.
 */
module StatedIndices {
  import opened Wrappers
  import opened Fields
  import opened Sums
  import opened Polynomials
  import opened Orderings
  import opened Lagrange
  import opened CipherSuites
  import opened SecretShares
  import opened Complaints
  import opened Participants
  import opened Keys
  import opened KeyGeneration
  import opened RobustKeyGeneration
  import opened SmallSessions

  // ---------- Round one does not look at stated indices ----------

  /** The same packet, with a commitment that states the index s gives for its dealer. */
  function Restated<S>(p: Participant<S>, s: u32 -> u32): Participant<S>
  {
    if p.commitments.Some? then p.(commitments := Some(p.commitments.value.(index := s(p.index)))) else p
  }

  ghost function RestatedAll<S>(ps: seq<Participant<S>>, s: u32 -> u32): (qs: seq<Participant<S>>)
    ensures |qs| == |ps|
  {
    if ps == [] then [] else RestatedAll(ps[..|ps| - 1], s) + [Restated(ps[|ps| - 1], s)]
  }

  lemma RestatedAppend<S>(ps: seq<Participant<S>>, p: Participant<S>, s: u32 -> u32)
    ensures RestatedAll(ps + [p], s) == RestatedAll(ps, s) + [Restated(p, s)]
  {
    assert (ps + [p])[..|ps|] == ps;
  }

  lemma RestatedLast<S>(ps: seq<Participant<S>>, s: u32 -> u32)
    requires ps != []
    ensures var k := |ps| - 1;
            RestatedAll(ps, s)[..k] == RestatedAll(ps[..k], s) && RestatedAll(ps, s)[k] == Restated(ps[k], s)
  {
  }

  ghost function RestatedMap<S>(commitments: map<u32, VssCommitment<S>>, s: u32 -> u32): map<u32, VssCommitment<S>>
  {
    map l | l in commitments :: commitments[l].(index := s(l))
  }

  lemma CheckRestated<S(!new)>(C: CipherSuite<S>, parameters: Parameters, p: Participant<S>, fromDealer: bool,
                               fromSigner: bool, s: u32 -> u32)
    ensures CheckParticipant(C, parameters, Restated(p, s), fromDealer, fromSigner)
         == CheckParticipant(C, parameters, p, fromDealer, fromSigner)
    ensures Restated(p, s).index == p.index && Restated(p, s).dhPublicKey == p.dhPublicKey
  {
  }

  lemma {:induction false} ValidRestated<S(!new)>(C: CipherSuite<S>, parameters: Parameters, ps: seq<Participant<S>>,
                                                  fromDealer: bool, fromSigner: bool, s: u32 -> u32)
    ensures Valid(C, parameters, RestatedAll(ps, s), fromDealer, fromSigner)
         == RestatedAll(Valid(C, parameters, ps, fromDealer, fromSigner), s)
    decreases |ps|
  {
    if ps != [] {
      var k := |ps| - 1;
      ValidRestated(C, parameters, ps[..k], fromDealer, fromSigner, s);
      RestatedLast(ps, s);
      CheckRestated(C, parameters, ps[k], fromDealer, fromSigner, s);
      RestatedAppend(Valid(C, parameters, ps[..k], fromDealer, fromSigner), ps[k], s);
    }
  }

  lemma {:induction false} FaultsRestated<S(!new)>(C: CipherSuite<S>, parameters: Parameters, ps: seq<Participant<S>>,
                                                   fromDealer: bool, fromSigner: bool, s: u32 -> u32)
    ensures Misbehaving(C, parameters, RestatedAll(ps, s), fromDealer, fromSigner)
         == Misbehaving(C, parameters, ps, fromDealer, fromSigner)
    ensures SomePanics(C, parameters, RestatedAll(ps, s), fromDealer, fromSigner)
       <==> SomePanics(C, parameters, ps, fromDealer, fromSigner)
    decreases |ps|
  {
    if ps != [] {
      var k := |ps| - 1;
      FaultsRestated(C, parameters, ps[..k], fromDealer, fromSigner, s);
      RestatedLast(ps, s);
      CheckRestated(C, parameters, ps[k], fromDealer, fromSigner, s);
    }
  }

  lemma KeptRestated<S(!new)>(C: CipherSuite<S>, parameters: Parameters, ps: seq<Participant<S>>,
                                fromDealer: bool, fromSigner: bool, s: u32 -> u32)
    ensures |Valid(C, parameters, RestatedAll(ps, s), fromDealer, fromSigner)|
         == |Valid(C, parameters, ps, fromDealer, fromSigner)|
    ensures CommitmentsOf(Valid(C, parameters, RestatedAll(ps, s), fromDealer, fromSigner))
         == RestatedMap(CommitmentsOf(Valid(C, parameters, ps, fromDealer, fromSigner)), s)
    ensures DhKeysOf(Valid(C, parameters, RestatedAll(ps, s), fromDealer, fromSigner))
         == DhKeysOf(Valid(C, parameters, ps, fromDealer, fromSigner))
  {
    ValidRestated(C, parameters, ps, fromDealer, fromSigner, s);
    MapsRestated(Valid(C, parameters, ps, fromDealer, fromSigner), s);
  }

  lemma {:induction false} MapsRestated<S>(ps: seq<Participant<S>>, s: u32 -> u32)
    ensures CommitmentsOf(RestatedAll(ps, s)) == RestatedMap(CommitmentsOf(ps), s)
    ensures DhKeysOf(RestatedAll(ps, s)) == DhKeysOf(ps)
  {
    if ps != [] {
      MapsRestated(ps[..|ps| - 1], s);
      RestatedLast(ps, s);
    }
  }

  lemma {:induction false} SharesRestated<S(!new)>(C: CipherSuite<S>, myIndex: u32, a: seq<S>, sk: S,
                                                   ps: seq<Participant<S>>, nonces: u32 -> Bytes, s: u32 -> u32)
    ensures EncryptedFor(C, myIndex, a, sk, RestatedAll(ps, s), nonces) == EncryptedFor(C, myIndex, a, sk, ps, nonces)
  {
    if ps != [] {
      SharesRestated(C, myIndex, a, sk, ps[..|ps| - 1], nonces, s);
      RestatedLast(ps, s);
    }
  }

  /** The state with commitments that state other indices. */
  ghost function RestatedState<S>(st: State<S>, s: u32 -> u32): State<S>
  {
    if st.theirCommitments.Some? then st.(theirCommitments := Some(RestatedMap(st.theirCommitments.value, s))) else st
  }

  lemma FailsAlike<S(!new)>(
    C: CipherSuite<S>, parameters: Parameters, sk: S, myIndex: u32, a: seq<S>,
    ps: seq<Participant<S>>, fromDealer: bool, fromSigner: bool, nonces: u32 -> Bytes, s: u32 -> u32)
    ensures var r := RoundOne(C, parameters, sk, myIndex, a, ps, fromDealer, fromSigner, nonces);
            var r' := RoundOne(C, parameters, sk, myIndex, a, RestatedAll(ps, s), fromDealer, fromSigner, nonces);
            if r.Ok? then r'.Ok? else r'.Err? && r'.error == r.error
  {
    FaultsRestated(C, parameters, ps, fromDealer, fromSigner, s);
    KeptRestated(C, parameters, ps, fromDealer, fromSigner, s);
  }

  lemma ListRestated<S(!new)>(
    C: CipherSuite<S>, parameters: Parameters, sk: S, myIndex: u32, a: seq<S>,
    ps: seq<Participant<S>>, fromDealer: bool, fromSigner: bool, nonces: u32 -> Bytes, s: u32 -> u32)
    requires RoundOne(C, parameters, sk, myIndex, a, ps, fromDealer, fromSigner, nonces).Ok?
    requires RoundOne(C, parameters, sk, myIndex, a, RestatedAll(ps, s), fromDealer, fromSigner, nonces).Ok?
    ensures var list := RoundOne(C, parameters, sk, myIndex, a, ps, fromDealer, fromSigner, nonces).value.1;
            RoundOne(C, parameters, sk, myIndex, a, RestatedAll(ps, s), fromDealer, fromSigner, nonces).value.1
            == ParticipantList(RestatedAll(list.valid, s), list.misbehaving)
  {
    FaultsRestated(C, parameters, ps, fromDealer, fromSigner, s);
    ValidRestated(C, parameters, ps, fromDealer, fromSigner, s);
  }

  lemma StateRestated<S(!new)>(
    C: CipherSuite<S>, parameters: Parameters, sk: S, myIndex: u32, a: seq<S>,
    ps: seq<Participant<S>>, fromDealer: bool, fromSigner: bool, nonces: u32 -> Bytes, s: u32 -> u32)
    requires RoundOne(C, parameters, sk, myIndex, a, ps, fromDealer, fromSigner, nonces).Ok?
    requires RoundOne(C, parameters, sk, myIndex, a, RestatedAll(ps, s), fromDealer, fromSigner, nonces).Ok?
    ensures RoundOne(C, parameters, sk, myIndex, a, RestatedAll(ps, s), fromDealer, fromSigner, nonces).value.0
         == RestatedState(RoundOne(C, parameters, sk, myIndex, a, ps, fromDealer, fromSigner, nonces).value.0, s)
  {
    KeptRestated(C, parameters, ps, fromDealer, fromSigner, s);
    SharesRestated(C, myIndex, a, sk, ps, nonces, s);
  }

  /**
   Whatever indices the commitments of the packets state, round one turns away the same dealers, deals
   the same shares and fails alike; its state keeps the stated indices, which round two and `finish` ignore.
   */
  lemma RestatedRoundOne<S(!new)>(
    C: CipherSuite<S>, parameters: Parameters, sk: S, myIndex: u32, a: seq<S>,
    ps: seq<Participant<S>>, fromDealer: bool, fromSigner: bool, nonces: u32 -> Bytes, s: u32 -> u32)
    ensures var r := RoundOne(C, parameters, sk, myIndex, a, RestatedAll(ps, s), fromDealer, fromSigner, nonces);
            match RoundOne(C, parameters, sk, myIndex, a, ps, fromDealer, fromSigner, nonces)
            case Err(error) => r == Err(error)
            case Ok((st, list)) =>
              r == Ok((RestatedState(st, s), ParticipantList(RestatedAll(list.valid, s), list.misbehaving)))
  {
    FailsAlike(C, parameters, sk, myIndex, a, ps, fromDealer, fromSigner, nonces, s);
    if RoundOne(C, parameters, sk, myIndex, a, ps, fromDealer, fromSigner, nonces).Ok? {
      StateRestated(C, parameters, sk, myIndex, a, ps, fromDealer, fromSigner, nonces, s);
      ListRestated(C, parameters, sk, myIndex, a, ps, fromDealer, fromSigner, nonces, s);
    }
  }

  lemma {:induction false} RestatedCollect<S(!new)>(C: CipherSuite<S>, st: State<S>, es: seq<EncryptedShare>,
                                                    draws: seq<S>, s: u32 -> u32)
    requires |es| <= |draws|
    ensures Collect(C, RestatedState(st, s), es, draws) == Collect(C, st, es, draws)
    decreases |es|
  {
    if es != [] {
      RestatedCollect(C, st, es[..|es| - 1], draws, s);
    }
  }

  lemma RestatedRoundTwo<S(!new)>(C: CipherSuite<S>, st: State<S>, es: seq<EncryptedShare>, draws: seq<S>,
                                  s: u32 -> u32)
    requires |es| <= |draws|
    ensures match ToRoundTwo(C, st, es, draws)
            case Err(error) => ToRoundTwo(C, RestatedState(st, s), es, draws) == Err(error)
            case Ok((mid, own)) => ToRoundTwo(C, RestatedState(st, s), es, draws) == Ok((RestatedState(mid, s), own))
  {
    RestatedCollect(C, st, es, draws, s);
  }

  lemma RestatedFinish<S(!new)>(C: CipherSuite<S>, st: State<S>, s: u32 -> u32)
    ensures Finish(C, RestatedState(st, s)) == Finish(C, st)
  {
    if st.theirCommitments.Some? && AllHavePoints(st.theirCommitments.value) {
      assert ConstantTerms(RestatedMap(st.theirCommitments.value, s)) == ConstantTerms(st.theirCommitments.value);
    } else if st.theirCommitments.Some? {
      var l :| l in st.theirCommitments.value && st.theirCommitments.value[l].points == [];
      assert RestatedMap(st.theirCommitments.value, s)[l].points == [];
    }
  }

  /** What the three steps of a participant give: its complaints and its keys, or the first error. */
  ghost function Steps<S(!new)>(
    C: CipherSuite<S>, parameters: Parameters, sk: S, myIndex: u32, a: seq<S>,
    ps: seq<Participant<S>>, fromDealer: bool, nonces: u32 -> Bytes, es: seq<EncryptedShare>, draws: seq<S>)
    : Result<(seq<Complaint<S>>, Result<(Point<S>, IndividualSigningKey<S>), Error<S>>), Error<S>>
    requires |es| <= |draws|
  {
    match RoundOne(C, parameters, sk, myIndex, a, ps, fromDealer, true, nonces)
    case Err(error) => Err(error)
    case Ok((st, _)) =>
      match ToRoundTwo(C, st, es, draws)
      case Err(error) => Err(error)
      case Ok((mid, own)) => Ok((own, Finish(C, mid)))
  }

  /** Whatever indices the commitments state, a participant makes the same complaints and gets the same keys. */
  lemma StatedIndexUnchecked<S(!new)>(
    C: CipherSuite<S>, parameters: Parameters, sk: S, myIndex: u32, a: seq<S>, ps: seq<Participant<S>>,
    fromDealer: bool, nonces: u32 -> Bytes, es: seq<EncryptedShare>, draws: seq<S>, s: u32 -> u32)
    requires |es| <= |draws|
    ensures Steps(C, parameters, sk, myIndex, a, RestatedAll(ps, s), fromDealer, nonces, es, draws)
         == Steps(C, parameters, sk, myIndex, a, ps, fromDealer, nonces, es, draws)
  {
    RestatedRoundOne(C, parameters, sk, myIndex, a, ps, fromDealer, true, nonces, s);
    if RoundOne(C, parameters, sk, myIndex, a, ps, fromDealer, true, nonces).Ok? {
      var st := RoundOne(C, parameters, sk, myIndex, a, ps, fromDealer, true, nonces).value.0;
      RestatedRoundTwo(C, st, es, draws, s);
      if ToRoundTwo(C, st, es, draws).Ok? {
        RestatedFinish(C, ToRoundTwo(C, st, es, draws).value.0, s);
      }
    }
  }

  // ---------- Dealers and what they state ----------

  /** Commitments that state the listed indices. */
  ghost function Stating<S>(stated: seq<u32>, points: seq<seq<Point<S>>>): (cs: seq<VssCommitment<S>>)
    requires |stated| == |points|
    ensures |cs| == |stated|
    ensures forall i :: 0 <= i < |cs| ==> cs[i] == VssCommitment(stated[i], points[i])
    ensures IndexVector(cs) == stated
  {
    seq(|stated|, i requires 0 <= i < |stated| => VssCommitment(stated[i], points[i]))
  }

  /** The commitments as a participant keeps them, by the true indices of their dealers. */
  ghost function KeptBy<S>(dealers: seq<u32>, cs: seq<VssCommitment<S>>): map<u32, VssCommitment<S>>
    requires |dealers| == |cs|
  {
    if dealers == [] then map[]
    else
      var k := |dealers| - 1;
      KeptBy(dealers[..k], cs[..k])[dealers[k] := cs[k]]
  }

  lemma {:induction false} KeptKeys<S>(dealers: seq<u32>, cs: seq<VssCommitment<S>>)
    requires |dealers| == |cs|
    ensures KeptBy(dealers, cs).Keys == ToSet(dealers)
  {
    if dealers != [] {
      var k := |dealers| - 1;
      KeptKeys(dealers[..k], cs[..k]);
      ToSetPrefix(dealers, k);
      assert dealers[..k + 1] == dealers;
    }
  }

  lemma {:induction false} KeptEntry<S>(dealers: seq<u32>, cs: seq<VssCommitment<S>>, i: nat)
    requires |dealers| == |cs| && Distinct(dealers) && i < |dealers|
    ensures dealers[i] in KeptBy(dealers, cs) && KeptBy(dealers, cs)[dealers[i]] == cs[i]
  {
    var k := |dealers| - 1;
    if i < k {
      KeptEntry(dealers[..k], cs[..k], i);
    }
  }

  /** The values at x of the committed polynomials, in the order of the list. */
  ghost function HiddenList<S(!new)>(C: CipherSuite<S>, cs: seq<VssCommitment<S>>, x: S): (ys: seq<S>)
    ensures |ys| == |cs|
    ensures forall i :: 0 <= i < |ys| ==> ys[i] == HidingEval(C, cs[i].points, x).dlog
  {
    seq(|cs|, i requires 0 <= i < |cs| => HidingEval(C, cs[i].points, x).dlog)
  }

  lemma RecomputedSum<S(!new)>(C: CipherSuite<S>, index: u32, cs: seq<VssCommitment<S>>)
    requires C.F.Valid() && Distinct(IndexVector(cs)) && 0 !in IndexVector(cs)
    ensures PublicShare(C, index, cs)
         == Ok(C.Base(SumSeq(C.F, WeightedList(C.F, IndexVector(cs), HiddenList(C, cs, C.F.From(index))))))
  {
    var x := C.F.From(index);
    HidingKeys(C, cs, x);
    forall i | 0 <= i < |cs|
      ensures HidingValues(C, cs, x)[IndexVector(cs)[i]] == HiddenList(C, cs, x)[i]
    {
      HidingEntry(C, cs, x, i);
    }
    WeightedListSum(C.F, IndexVector(cs), HiddenList(C, cs, x), HidingValues(C, cs, x));
  }

  lemma GroupSum<S(!new)>(C: CipherSuite<S>, dealers: seq<u32>, cs: seq<VssCommitment<S>>, x: S)
    requires C.F.Valid() && |dealers| == |cs| && Distinct(dealers)
    ensures Eval(C.F, GroupPolynomial(C.F, KeptBy(dealers, cs)), x)
         == SumSeq(C.F, WeightedList(C.F, dealers, HiddenList(C, cs, x)))
  {
    var kept := KeptBy(dealers, cs);
    var polys := CommittedPolynomials(kept);
    var y: map<nat, S> := map l: nat | l in kept :: Eval(C.F, polys[l], x);
    KeptKeys(dealers, cs);
    forall i | 0 <= i < |dealers|
      ensures y[dealers[i]] == HiddenList(C, cs, x)[i]
    {
      KeptEntry(dealers, cs, i);
      HidingEvalIsEval(C, cs[i].points, x);
    }
    assert y.Keys == ToSet(dealers);
    WeightedListSum(C.F, dealers, HiddenList(C, cs, x), y);
    CombineEval(C.F, polys, kept.Keys, kept.Keys, x, y);
  }

  // ---------- When the recomputation agrees ----------

  /** Each dealer weighs as much among the stated indices as among the dealers. */
  ghost predicate SameWeights<S(!new)>(F: Field<S>, dealers: seq<u32>, stated: seq<u32>)
    requires |dealers| == |stated|
  {
    forall i :: 0 <= i < |dealers| ==> Lambda(F, stated[i], ToSet(stated)) == Lambda(F, dealers[i], ToSet(dealers))
  }

  /** For these points, the recomputation gives everybody's share of the group's polynomial. */
  ghost predicate Recomputes<S(!new)>(C: CipherSuite<S>, dealers: seq<u32>, stated: seq<u32>,
                                      points: seq<seq<Point<S>>>)
    requires |dealers| == |stated| == |points|
  {
    var cs := Stating(stated, points);
    forall index: u32 ::
      PublicShare(C, index, cs) == Ok(C.Base(Eval(C.F, GroupPolynomial(C.F, KeptBy(dealers, cs)), C.F.From(index))))
  }

  lemma WeightsSuffice<S(!new)>(C: CipherSuite<S>, dealers: seq<u32>, stated: seq<u32>, points: seq<seq<Point<S>>>)
    requires C.F.Valid() && |dealers| == |stated| == |points| && Distinct(dealers)
    requires Distinct(stated) && 0 !in stated && SameWeights(C.F, dealers, stated)
    ensures Recomputes(C, dealers, stated, points)
  {
    var cs := Stating(stated, points);
    forall index: u32
      ensures PublicShare(C, index, cs) == Ok(C.Base(Eval(C.F, GroupPolynomial(C.F, KeptBy(dealers, cs)),
                                                          C.F.From(index))))
    {
      var x := C.F.From(index);
      RecomputedSum(C, index, cs);
      GroupSum(C, dealers, cs, x);
      assert WeightedList(C.F, stated, HiddenList(C, cs, x)) == WeightedList(C.F, dealers, HiddenList(C, cs, x));
    }
  }

  /** Dealer i commits to the constant one, and the others to nothing. */
  ghost function UnitPoints<S(!new)>(C: CipherSuite<S>, n: nat, i: nat): (points: seq<seq<Point<S>>>)
    ensures |points| == n
    ensures forall j :: 0 <= j < n ==> points[j] == if j == i then [C.Base(C.F.one)] else []
  {
    seq(n, j => if j == i then [C.Base(C.F.one)] else [])
  }

  lemma {:induction false} SumOfOne<S(!new)>(F: Field<S>, terms: seq<S>, i: nat)
    requires F.Valid() && i < |terms|
    requires forall j :: 0 <= j < |terms| && j != i ==> terms[j] == F.zero
    ensures SumSeq(F, terms) == terms[i]
  {
    var n := |terms| - 1;
    if i < n {
      SumOfOne(F, terms[..n], i);
      F.AddZero(terms[i]);
    } else {
      SumOfNone(F, terms[..n]);
      F.AddZero(terms[n]);
    }
  }

  lemma {:induction false} SumOfNone<S(!new)>(F: Field<S>, terms: seq<S>)
    requires F.Valid() && forall j :: 0 <= j < |terms| ==> terms[j] == F.zero
    ensures SumSeq(F, terms) == F.zero
  {
    if terms != [] {
      SumOfNone(F, terms[..|terms| - 1]);
      F.AddZero(F.zero);
    }
  }

  /** Over unit points, a weighted sum is the weight of dealer i. */
  lemma UnitSum<S(!new)>(C: CipherSuite<S>, indices: seq<u32>, cs: seq<VssCommitment<S>>, i: nat, x: S)
    requires C.F.Valid() && |indices| == |cs| && i < |cs|
    requires forall j :: 0 <= j < |cs| ==> cs[j].points == UnitPoints(C, |cs|, i)[j]
    ensures SumSeq(C.F, WeightedList(C.F, indices, HiddenList(C, cs, x))) == Lambda(C.F, indices[i], ToSet(indices))
  {
    var F := C.F;
    var terms := WeightedList(F, indices, HiddenList(C, cs, x));
    forall j | 0 <= j < |cs|
      ensures terms[j] == if j == i then Lambda(F, indices[i], ToSet(indices)) else F.zero
    {
      F.MulZero(x);
      F.AddZero(F.one);
      F.MulOne(Lambda(F, indices[j], ToSet(indices)));
      F.MulZero(Lambda(F, indices[j], ToSet(indices)));
      if j == i {
        assert cs[j].points == [C.Base(F.one)] && cs[j].points[1..] == [];
        assert HidingEval(C, cs[j].points, x).dlog == F.one;
      }
    }
    SumOfOne(F, terms, i);
  }

  /**
   Whatever the dealers commit to, the recomputation agrees with the keys if and only if the stated
   indices are distinct and not zero and every dealer weighs as much among them as among the dealers.
   */
  lemma RecomputesExactly<S(!new)>(C: CipherSuite<S>, dealers: seq<u32>, stated: seq<u32>)
    requires C.F.Valid() && |dealers| == |stated| && Distinct(dealers)
    ensures (forall points: seq<seq<Point<S>>> :: |points| == |dealers| ==> Recomputes(C, dealers, stated, points))
       <==> Distinct(stated) && 0 !in stated && SameWeights(C.F, dealers, stated)
  {
    if Distinct(stated) && 0 !in stated && SameWeights(C.F, dealers, stated) {
      forall points: seq<seq<Point<S>>> | |points| == |dealers|
        ensures Recomputes(C, dealers, stated, points)
      {
        WeightsSuffice(C, dealers, stated, points);
      }
    }
    if forall points: seq<seq<Point<S>>> :: |points| == |dealers| ==> Recomputes(C, dealers, stated, points) {
      assert Recomputes(C, dealers, stated, UnitPoints(C, |dealers|, 0));
      assert PublicShare(C, 1, Stating(stated, UnitPoints(C, |dealers|, 0))).Ok?;
      forall i | 0 <= i < |dealers|
        ensures Lambda(C.F, stated[i], ToSet(stated)) == Lambda(C.F, dealers[i], ToSet(dealers))
      {
        assert Recomputes(C, dealers, stated, UnitPoints(C, |dealers|, i));
        UnitRecomputed(C, dealers, stated, i);
      }
    }
  }

  lemma UnitRecomputed<S(!new)>(C: CipherSuite<S>, dealers: seq<u32>, stated: seq<u32>, i: nat)
    requires C.F.Valid() && |dealers| == |stated| && Distinct(dealers) && i < |dealers|
    requires Distinct(stated) && 0 !in stated
    requires Recomputes(C, dealers, stated, UnitPoints(C, |dealers|, i))
    ensures Lambda(C.F, stated[i], ToSet(stated)) == Lambda(C.F, dealers[i], ToSet(dealers))
  {
    var cs, x := Stating(stated, UnitPoints(C, |dealers|, i)), C.F.From(1);
    assert PublicShare(C, 1, cs) == Ok(C.Base(Eval(C.F, GroupPolynomial(C.F, KeptBy(dealers, cs)), x)));
    RecomputedSum(C, 1, cs);
    GroupSum(C, dealers, cs, x);
    UnitSum(C, stated, cs, i, x);
    UnitSum(C, dealers, cs, i, x);
  }

  // ---------- Two sessions with misstated indices ----------

  /** Participant 1 bootstraps with dealer 2, gets its share and finishes with the group key of value. */
  ghost predicate Finishes<S(!new)>(C: CipherSuite<S>, w: Pair<S>, d: Draws<S>, nonce: Bytes, nonces: u32 -> Bytes,
                                    r: seq<S>, value: S)
    requires |r| == 2
  {
    var one := RoundOne(C, Parameters(2, 1), d.dhPrivateKey, 1, [w.a], TwoPackets(C, w, d), true, true, nonces);
    && one.Ok?
    && var two := ToRoundTwo(C, one.value.0, PairShares(C, w, w.b, d, nonce), r);
       && two.Ok? && two.value.1 == []
       && two.value.0.theirCommitments == Some(PairCommitments(C, w))
       && Finish(C, two.value.0) == Ok((C.Base(value), IndividualSigningKey(1, value)))
  }

  lemma PairFinishes<S(!new)>(C: CipherSuite<S>, w: Pair<S>, d: Draws<S>, nonce: Bytes, nonces: u32 -> Bytes, r: seq<S>)
    requires C.Valid() && w.other == 2 && |r| == 2
    ensures Finishes(C, w, d, nonce, nonces, r, C.F.Sub(w.a, C.F.Sub(w.b, w.a)))
  {
    TwoRoundOne(C, w, d, nonces);
    var st := RoundOne(C, Parameters(2, 1), d.dhPrivateKey, 1, [w.a], TwoPackets(C, w, d), true, true, nonces).value.0;
    PairRoundTwo(C, w, w.b, d, nonce, st, r);
    MiddleFinishes(C, w, PairMiddle(C, w, w.b, d));
  }

  lemma MiddleFinishes<S(!new)>(C: CipherSuite<S>, w: Pair<S>, mid: State<S>)
    requires C.F.Valid() && w.other == 2 && mid.index == 1
    requires mid.theirCommitments == Some(PairCommitments(C, w)) && mid.mySecretShares == Some(PairStored(w, w.b))
    ensures var value := C.F.Sub(w.a, C.F.Sub(w.b, w.a));
            Finish(C, mid) == Ok((C.Base(value), IndividualSigningKey(1, value)))
  {
    var y: map<nat, S> := map[1 := w.a, 2 := w.b];
    assert Evaluations(mid.mySecretShares.value) == y;
    assert ConstantTerms(mid.theirCommitments.value) == y;
    TwoValues(C.F, w.a, w.b, y);
  }

  /** Both dealers of a pair, in the order in which their commitments are listed. */
  function PairList<S(!new)>(C: CipherSuite<S>, w: Pair<S>): seq<VssCommitment<S>>
  {
    [ConstantCommitment(C, w.statedA, w.a), ConstantCommitment(C, w.statedB, w.b)]
  }

  /** If dealer 2 states the index of dealer 1, `finish` works and every recomputation is refused. */
  lemma RepeatedIndexRefused<S(!new)>(C: CipherSuite<S>, a: S, b: S, d: Draws<S>, nonce: Bytes, nonces: u32 -> Bytes,
                                      r: seq<S>)
    requires C.Valid() && |r| == 2
    ensures var w := Pair(2, a, b, 1, 1);
            && Finishes(C, w, d, nonce, nonces, r, C.F.Sub(a, C.F.Sub(b, a)))
            && forall index: u32 :: PublicShare(C, index, PairList(C, w)) == Err(DuplicateIndices)
  {
    var w := Pair(2, a, b, 1, 1);
    PairFinishes(C, w, d, nonce, nonces, r);
    var indices := IndexVector(PairList(C, w));
    assert indices[0] == indices[1];
  }

  /**
   If the two dealers state each other's index, `finish` works and nothing is refused, but unless
   their constants are equal every recomputed share is wrong: participant 1's, and the group key.
   */
  lemma SwappedIndicesMislead<S(!new)>(C: CipherSuite<S>, a: S, b: S, d: Draws<S>, nonce: Bytes, nonces: u32 -> Bytes,
                                       r: seq<S>)
    requires C.Valid() && |r| == 2 && a != b
    ensures var w := Pair(2, a, b, 2, 1);
            var value := C.F.Sub(a, C.F.Sub(b, a));
            && Finishes(C, w, d, nonce, nonces, r, value)
            && forall index: u32 ::
                 PublicShare(C, index, PairList(C, w)).Ok?
                 && PublicShare(C, index, PairList(C, w)).value != C.Base(value)
  {
    var w := Pair(2, a, b, 2, 1);
    PairFinishes(C, w, d, nonce, nonces, r);
    forall index: u32
      ensures PublicShare(C, index, PairList(C, w)) == Ok(C.Base(C.F.Sub(b, C.F.Sub(a, b))))
    {
      SwappedShare(C, a, b, index);
    }
    if C.F.Sub(a, C.F.Sub(b, a)) == C.F.Sub(b, C.F.Sub(a, b)) {
      SwappedValues(C.F, a, b);
    }
  }

  lemma SwappedShare<S(!new)>(C: CipherSuite<S>, a: S, b: S, index: u32)
    requires C.F.Valid()
    ensures PublicShare(C, index, PairList(C, Pair(2, a, b, 2, 1))) == Ok(C.Base(C.F.Sub(b, C.F.Sub(a, b))))
  {
    var cs, x := PairList(C, Pair(2, a, b, 2, 1)), C.F.From(index);
    var y: map<nat, S> := map[1 := b, 2 := a];
    assert IndexVector(cs) == [2, 1];
    HidingKeys(C, cs, x);
    HidingEntry(C, cs, x, 0);
    HidingEntry(C, cs, x, 1);
    HidingEvalIsEval(C, cs[0].points, x);
    HidingEvalIsEval(C, cs[1].points, x);
    ConstantEval(C.F, a, x);
    ConstantEval(C.F, b, x);
    assert HidingValues(C, cs, x) == y;
    TwoValues(C.F, b, a, y);
  }
}
