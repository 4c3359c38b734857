/**
 The signature aggregator: it collects signers and their partial signatures, is finalized once, and
 then combines the partial signatures or names those that do not hold.
 */
module Aggregation {
  import opened Wrappers
  import opened Fields
  import opened Sums
  import opened Orderings
  import opened Lagrange
  import opened CipherSuites
  import opened Keys
  import opened Participants
  import opened Signing

  // ---------- Signer lists ----------

  /** Strictly increasing by index. */
  ghost predicate Ascending<S>(signers: seq<Signer<S>>)
  {
    forall i, j :: 0 <= i < j < |signers| ==> signers[i].index < signers[j].index
  }

  /** Inserts a signer behind all those whose index is not larger. */
  function InsertStable<S>(s: Signer<S>, xs: seq<Signer<S>>): (r: seq<Signer<S>>)
    ensures r != []
  {
    if xs == [] || xs[|xs| - 1].index <= s.index then xs + [s]
    else InsertStable(s, xs[..|xs| - 1]) + [xs[|xs| - 1]]
  }

  /** The library sort, which is stable and compares signers by their index. */
  function SortSigners<S>(xs: seq<Signer<S>>): seq<Signer<S>>
  {
    if xs == [] then [] else InsertStable(xs[|xs| - 1], SortSigners(xs[..|xs| - 1]))
  }

  /** The library dedup: of consecutive signers with equal indices only the first stays. */
  function DedupSigners<S>(xs: seq<Signer<S>>): (r: seq<Signer<S>>)
    ensures xs != [] ==> r != []
  {
    if |xs| <= 1 then xs
    else
      var rest := DedupSigners(xs[..|xs| - 1]);
      if xs[|xs| - 1].index == rest[|rest| - 1].index then rest else rest + [xs[|xs| - 1]]
  }

  lemma {:induction false} AscendingIsSorted<S>(xs: seq<Signer<S>>)
    requires Ascending(xs)
    ensures SortSigners(xs) == xs && DedupSigners(xs) == xs
  {
    if xs != [] {
      var n := |xs| - 1;
      assert xs[..n] + [xs[n]] == xs;
      AscendingIsSorted(xs[..n]);
      assert InsertStable(xs[n], xs[..n]) == xs;
    }
  }

  // ---------- Including a signer ----------

  /** What including a signer amounts to on an ascending list: it takes its place unless its index is there. */
  ghost function Place<S>(s: Signer<S>, xs: seq<Signer<S>>): (r: seq<Signer<S>>)
    ensures r != []
    ensures r[|r| - 1].index == if xs == [] || xs[|xs| - 1].index < s.index then s.index else xs[|xs| - 1].index
  {
    if xs == [] || xs[|xs| - 1].index < s.index then xs + [s]
    else if xs[|xs| - 1].index == s.index then xs
    else Place(s, xs[..|xs| - 1]) + [xs[|xs| - 1]]
  }

  lemma DedupAppend<S>(xs: seq<Signer<S>>, x: Signer<S>)
    requires xs != []
    ensures DedupSigners(xs + [x])
         == var rest := DedupSigners(xs); if x.index == rest[|rest| - 1].index then rest else rest + [x]
  {
    assert (xs + [x])[..|xs|] == xs;
  }

  /** Push, sort and dedup do exactly that. */
  lemma {:induction false} IncludePlaces<S>(s: Signer<S>, xs: seq<Signer<S>>)
    requires Ascending(xs)
    ensures DedupSigners(InsertStable(s, xs)) == Place(s, xs)
  {
    if xs != [] {
      var n := |xs| - 1;
      if xs[n].index <= s.index {
        AscendingIsSorted(xs);
        DedupAppend(xs, s);
      } else {
        IncludePlaces(s, xs[..n]);
        DedupAppend(InsertStable(s, xs[..n]), xs[n]);
      }
    }
  }

  lemma {:induction false} PlaceAscending<S>(s: Signer<S>, xs: seq<Signer<S>>)
    requires Ascending(xs)
    ensures Ascending(Place(s, xs))
  {
    if xs != [] && xs[|xs| - 1].index > s.index {
      PlaceAscending(s, xs[..|xs| - 1]);
      AscendingAppend(Place(s, xs[..|xs| - 1]), xs[|xs| - 1]);
    } else if xs == [] || xs[|xs| - 1].index < s.index {
      AscendingAppend(xs, s);
    }
  }

  lemma AscendingAppend<S>(xs: seq<Signer<S>>, x: Signer<S>)
    requires Ascending(xs) && (xs == [] || xs[|xs| - 1].index < x.index)
    ensures Ascending(xs + [x])
  {
  }

  /** The entry of the list with this index. */
  ghost function Entry<S>(xs: seq<Signer<S>>, index: u32): Option<Signer<S>>
  {
    if xs == [] then None
    else if xs[|xs| - 1].index == index then Some(xs[|xs| - 1])
    else Entry(xs[..|xs| - 1], index)
  }

  lemma {:induction false} EntryBelow<S>(xs: seq<Signer<S>>, index: u32)
    requires Ascending(xs) && (xs == [] || xs[|xs| - 1].index < index)
    ensures Entry(xs, index).None?
  {
    if xs != [] {
      EntryBelow(xs[..|xs| - 1], index);
    }
  }

  /** The first entry of an index stays, and other entries are not touched. */
  lemma {:induction false} PlaceEntry<S>(s: Signer<S>, xs: seq<Signer<S>>, index: u32)
    requires Ascending(xs)
    ensures Entry(Place(s, xs), index)
         == if index == s.index && Entry(xs, index).None? then Some(s) else Entry(xs, index)
  {
    if xs == [] || xs[|xs| - 1].index < s.index {
      EntryBelow(xs, s.index);
      assert (xs + [s])[..|xs|] == xs;
    } else if xs[|xs| - 1].index > s.index {
      var n := |xs| - 1;
      var rest := Place(s, xs[..n]);
      PlaceEntry(s, xs[..n], index);
      assert (rest + [xs[n]])[..|rest|] == rest;
    }
  }

  /** The indices of an ascending list, without repetition and as many as its entries. */
  lemma AscendingIndices<S>(xs: seq<Signer<S>>)
    requires Ascending(xs)
    ensures Increasing(IndicesOf(xs)) && Distinct(IndicesOf(xs)) && |ToSet(IndicesOf(xs))| == |xs|
  {
    IncreasingDistinct(IndicesOf(xs));
    MemberCount(IndicesOf(xs));
  }

  lemma {:induction false} EntryMember<S>(xs: seq<Signer<S>>, index: u32)
    ensures Entry(xs, index).Some? <==> index in ToSet(IndicesOf(xs))
    ensures Entry(xs, index).Some? ==> Entry(xs, index).value in xs && Entry(xs, index).value.index == index
  {
    if xs != [] {
      var n := |xs| - 1;
      EntryMember(xs[..n], index);
      assert IndicesOf(xs) == IndicesOf(xs[..n]) + [xs[n].index];
    }
  }

  // ---------- The aggregator's state ----------

  datatype AggregatorState<S> = AggregatorState(
    parameters: Parameters,
    signers: seq<Signer<S>>,
    publicKeys: map<u32, Point<S>>,
    partialSignatures: map<u32, S>,
    groupKey: Point<S>,
    message: Bytes)

  /** The state after including a signer; a failing call may leave it changed too. */
  ghost function Included<S(!new)>(st: AggregatorState<S>, s: Signer<S>, key: IndividualVerifyingKey<S>)
    : (AggregatorState<S>, Result<(), SigningError>)
  {
    if s.index != key.index then (st, Err(IndexMismatch(s.index, key.index)))
    else
      var signers := DedupSigners(SortSigners(st.signers + [s]));
      if |signers| > st.parameters.n then (st.(signers := signers), Err(TooManySigners(|signers|, st.parameters.n)))
      else (st.(signers := signers, publicKeys := st.publicKeys[key.index := key.share]), Ok(()))
  }

  lemma {:induction false} PlaceLength<S>(s: Signer<S>, xs: seq<Signer<S>>)
    requires Ascending(xs)
    ensures |Place(s, xs)| == |xs| + if s.index in IndicesOf(xs) then 0 else 1
  {
    if xs != [] {
      var n := |xs| - 1;
      assert IndicesOf(xs) == IndicesOf(xs[..n]) + [xs[n].index];
      if xs[n].index > s.index {
        PlaceLength(s, xs[..n]);
      } else if xs[n].index < s.index {
        assert forall i :: 0 <= i < n ==> xs[i].index < xs[n].index;
      }
    }
  }

  lemma IncludeIsPlace<S>(st: AggregatorState<S>, s: Signer<S>)
    requires Ascending(st.signers)
    ensures DedupSigners(SortSigners(st.signers + [s])) == Place(s, st.signers)
  {
    assert (st.signers + [s])[..|st.signers|] == st.signers;
    AscendingIsSorted(st.signers);
    IncludePlaces(s, st.signers);
  }

  /**
   What `include_signer` does to an aggregator whose signers ascend, whether it succeeds or not: with
   one signer too many the signer stays in the list and its key is not taken.
   */
  lemma IncludesExactly<S(!new)>(st: AggregatorState<S>, s: Signer<S>, key: IndividualVerifyingKey<S>)
    requires Ascending(st.signers)
    ensures var count := |st.signers| + if s.index in IndicesOf(st.signers) then 0 else 1;
            Included(st, s, key)
            == if s.index != key.index then (st, Err(IndexMismatch(s.index, key.index)))
               else if count > st.parameters.n
               then (st.(signers := Place(s, st.signers)), Err(TooManySigners(count, st.parameters.n)))
               else (st.(signers := Place(s, st.signers), publicKeys := st.publicKeys[s.index := key.share]), Ok(()))
  {
    IncludeIsPlace(st, s);
    PlaceLength(s, st.signers);
  }

  ghost function IncludedPartial<S>(st: AggregatorState<S>, p: PartialThresholdSignature<S>): AggregatorState<S>
  {
    st.(partialSignatures := st.partialSignatures[p.index := p.z])
  }

  /** The signers without an entry in the map, in order. */
  ghost function Lacking<S, V>(signers: seq<Signer<S>>, m: map<u32, V>): (r: seq<Signer<S>>)
    ensures r == [] <==> forall i :: 0 <= i < |signers| ==> signers[i].index in m
  {
    if signers == [] then []
    else
      var n := |signers| - 1;
      assert forall i :: 0 <= i < n ==> signers[..n][i] == signers[i];
      if signers[n].index in m then Lacking(signers[..n], m) else Lacking(signers[..n], m) + [signers[n]]
  }

  ghost function Remaining<S>(st: AggregatorState<S>): seq<Signer<S>>
  {
    DedupSigners(SortSigners(Lacking(st.signers, st.partialSignatures)))
  }

  lemma {:induction false} LackingAscending<S, V>(signers: seq<Signer<S>>, m: map<u32, V>)
    requires Ascending(signers)
    ensures Ascending(Lacking(signers, m))
    ensures var r := Lacking(signers, m);
            r == [] || (signers != [] && r[|r| - 1].index <= signers[|signers| - 1].index)
  {
    if signers != [] {
      var n := |signers| - 1;
      LackingAscending(signers[..n], m);
      if signers[n].index !in m {
        AscendingAppend(Lacking(signers[..n], m), signers[n]);
      }
    }
  }

  /** For ascending signers the final sort and dedup change nothing. */
  lemma RemainingIsLacking<S>(st: AggregatorState<S>)
    requires Ascending(st.signers)
    ensures Remaining(st) == Lacking(st.signers, st.partialSignatures)
  {
    LackingAscending(st.signers, st.partialSignatures);
    AscendingIsSorted(Lacking(st.signers, st.partialSignatures));
  }

  /** Whom `finalize` names: index 0 and the signers yet to sign, then those without a key. */
  ghost function Misbehaving<S>(st: AggregatorState<S>): seq<u32>
  {
    (if Remaining(st) == [] then [] else [0] + IndicesOf(Remaining(st))) + IndicesOf(Lacking(st.signers, st.publicKeys))
  }

  ghost predicate Complete<S>(st: AggregatorState<S>)
  {
    forall i :: 0 <= i < |st.signers| ==>
      st.signers[i].index in st.partialSignatures && st.signers[i].index in st.publicKeys
  }

  /** `finalize` succeeds exactly when every signer has a partial signature and a key. */
  lemma FinalizesExactly<S>(st: AggregatorState<S>)
    requires Ascending(st.signers)
    ensures Misbehaving(st) == [] <==> Complete(st)
  {
  }

  lemma {:induction false} LackingExactly<S(!new), V>(signers: seq<Signer<S>>, m: map<u32, V>, x: u32)
    ensures x in IndicesOf(Lacking(signers, m)) <==> x !in m && x in IndicesOf(signers)
  {
    if signers != [] {
      var n := |signers| - 1;
      var rest := Lacking(signers[..n], m);
      LackingExactly(signers[..n], m, x);
      assert IndicesOf(signers) == IndicesOf(signers[..n]) + [signers[n].index];
      assert IndicesOf(rest + [signers[n]]) == IndicesOf(rest) + [signers[n].index];
    }
  }

  /** It names the signers short of a partial signature or a key, and index 0 if some partial signature is missing. */
  lemma FinalizeNamesExactly<S(!new)>(st: AggregatorState<S>, x: u32)
    requires Ascending(st.signers)
    ensures x in Misbehaving(st)
       <==> || (x in IndicesOf(st.signers) && (x !in st.partialSignatures || x !in st.publicKeys))
            || (x == 0 && exists i :: 0 <= i < |st.signers| && st.signers[i].index !in st.partialSignatures)
  {
    RemainingIsLacking(st);
    LackingExactly(st.signers, st.partialSignatures, x);
    LackingExactly(st.signers, st.publicKeys, x);
    var late := Lacking(st.signers, st.partialSignatures);
    assert late == [] <==> forall i :: 0 <= i < |st.signers| ==> st.signers[i].index in st.partialSignatures;
  }

  /** The order: index 0 first, then those without a partial signature, then those without a key, both ascending. */
  lemma FinalizeNamesInOrder<S(!new)>(st: AggregatorState<S>) returns (late: seq<u32>, keyless: seq<u32>)
    requires Ascending(st.signers)
    ensures Increasing(late) && forall x :: x in late <==> x in IndicesOf(st.signers) && x !in st.partialSignatures
    ensures Increasing(keyless) && forall x :: x in keyless <==> x in IndicesOf(st.signers) && x !in st.publicKeys
    ensures Misbehaving(st) == (if late == [] then [] else [0] + late) + keyless
  {
    late := IndicesOf(Lacking(st.signers, st.partialSignatures));
    keyless := IndicesOf(Lacking(st.signers, st.publicKeys));
    RemainingIsLacking(st);
    LackingAscending(st.signers, st.partialSignatures);
    LackingAscending(st.signers, st.publicKeys);
    forall x
      ensures x in late <==> x in IndicesOf(st.signers) && x !in st.partialSignatures
      ensures x in keyless <==> x in IndicesOf(st.signers) && x !in st.publicKeys
    {
      LackingExactly(st.signers, st.partialSignatures, x);
      LackingExactly(st.signers, st.publicKeys, x);
    }
  }

  /** A finalized aggregator. */
  datatype Finalized<S> = Finalized(state: AggregatorState<S>, messageHash: Bytes)

  // ---------- Aggregation ----------

  ghost function Challenge<S(!new)>(C: CipherSuite<S>, f: Finalized<S>): S
  {
    GroupChallenge(C, f.messageHash, f.state.groupKey, f.state.signers)
  }

  ghost function PartialLogs<S>(st: AggregatorState<S>): (zs: seq<S>)
    requires Complete(st)
    ensures |zs| == |st.signers|
    ensures forall i :: 0 <= i < |zs| ==> zs[i] == st.partialSignatures[st.signers[i].index]
  {
    seq(|st.signers|, i requires 0 <= i < |st.signers| => st.partialSignatures[st.signers[i].index])
  }

  ghost function Combined<S(!new)>(C: CipherSuite<S>, f: Finalized<S>): ThresholdSignature<S>
    requires Complete(f.state)
  {
    ThresholdSignature(GroupCommitment(C, f.state.signers, BindingFactors(C, f.messageHash, f.state.signers)),
                       SumSeq(C.F, PartialLogs(f.state)))
  }

  /** The check on the partial signature of one signer: z G = R_i + pk_i (c lambda_i). */
  ghost predicate PartialHolds<S(!new)>(C: CipherSuite<S>, f: Finalized<S>, s: Signer<S>)
    requires s.index in f.state.partialSignatures && s.index in f.state.publicKeys
  {
    var lambda := Lambda(C.F, s.index, ToSet(IndicesOf(f.state.signers)));
    C.Base(f.state.partialSignatures[s.index])
    == C.GAdd(ParticipantCommitment(C, f.messageHash, f.state.signers, s.index),
              C.GMul(f.state.publicKeys[s.index], C.F.Mul(Challenge(C, f), lambda)))
  }

  /** Whose partial signature holds, in the order of the signers. */
  ghost function Holding<S(!new)>(C: CipherSuite<S>, f: Finalized<S>): (holds: seq<bool>)
    requires Complete(f.state)
    ensures |holds| == |f.state.signers|
    ensures forall i {:trigger holds[i]} :: 0 <= i < |holds| ==> (holds[i] <==> PartialHolds(C, f, f.state.signers[i]))
  {
    seq(|f.state.signers|, i requires 0 <= i < |f.state.signers| => PartialHolds(C, f, f.state.signers[i]))
  }

  /** Among the first k signers, the indices of those whose partial signature fails. */
  ghost function Failing<S>(signers: seq<Signer<S>>, holds: seq<bool>, k: nat): seq<u32>
    requires |holds| == |signers| && k <= |signers|
  {
    if k == 0 then []
    else if holds[k - 1] then Failing(signers, holds, k - 1)
    else Failing(signers, holds, k - 1) + [signers[k - 1].index]
  }

  ghost function Cheaters<S(!new)>(C: CipherSuite<S>, f: Finalized<S>): seq<u32>
    requires Complete(f.state)
  {
    Failing(f.state.signers, Holding(C, f), |f.state.signers|)
  }

  /** The error when the combined signature fails: the cheaters, unless the interpolation fails. */
  ghost function Identified<S(!new)>(C: CipherSuite<S>, f: Finalized<S>): SigningError
    requires Complete(f.state)
  {
    match IndexError(IndicesOf(f.state.signers))
    case Some(error) => SigningError.Interpolation(error)
    case None => MisbehavingParticipants(Cheaters(C, f))
  }

  /** What the interpolation over these indices fails with, if it does; they repeat if they are fewer as a set. */
  ghost function IndexError(indices: seq<u32>): Option<LagrangeError>
  {
    if |ToSet(indices)| != |indices| then Some(DuplicateIndices)
    else if 0 in indices then Some(LagrangeError.IndexIsZero)
    else None
  }

  lemma IndexErrorExactly(indices: seq<u32>)
    ensures IndexError(indices) == Some(DuplicateIndices) <==> !Distinct(indices)
    ensures IndexError(indices) == Some(LagrangeError.IndexIsZero) <==> Distinct(indices) && 0 in indices
  {
    MemberCount(indices);
  }

  /** What `aggregate` returns. */
  ghost function Aggregated<S(!new)>(C: CipherSuite<S>, f: Finalized<S>): Result<ThresholdSignature<S>, SigningError>
    requires Complete(f.state)
  {
    if f.state.signers == [] then Err(SigningError.Panicked)
    else if SignatureVerifies(C, Combined(C, f), f.state.groupKey, f.messageHash) then Ok(Combined(C, f))
    else Err(Identified(C, f))
  }
}
