/**
 The aggregator over whole histories: any sequence of included signers and partial signatures,
 failing calls included, from a new aggregator. What it holds is told by the history alone.
 */
module AggregatorHistory {
  import opened Wrappers
  import opened Fields
  import opened Orderings
  import opened CipherSuites
  import opened Keys
  import opened Participants
  import opened Signing
  import opened Aggregation

  datatype Event<S> =
    | SignerEvent(signer: Signer<S>, key: IndividualVerifyingKey<S>)
    | PartialEvent(partial: PartialThresholdSignature<S>)
  {
    /** A call of `include_signer` for this index whose key is of the same index. */
    predicate Includes(index: u32)
    {
      SignerEvent? && signer.index == key.index == index
    }
  }

  ghost function Start<S>(parameters: Parameters, groupKey: Point<S>, message: Bytes): AggregatorState<S>
  {
    AggregatorState(parameters, [], map[], map[], groupKey, message)
  }

  ghost function Step<S(!new)>(st: AggregatorState<S>, e: Event<S>): AggregatorState<S>
  {
    match e
    case SignerEvent(s, key) => Included(st, s, key).0
    case PartialEvent(p) => IncludedPartial(st, p)
  }

  ghost function Run<S(!new)>(start: AggregatorState<S>, events: seq<Event<S>>): AggregatorState<S>
  {
    if events == [] then start else Step(Run(start, events[..|events| - 1]), events[|events| - 1])
  }

  // ---------- What the history says ----------

  ghost function Seen<S>(events: seq<Event<S>>): set<u32>
  {
    if events == [] then {}
    else
      var e := events[|events| - 1];
      Seen(events[..|events| - 1]) + if e.SignerEvent? && e.Includes(e.signer.index) then {e.signer.index} else {}
  }

  /** The commitments of the first call that includes the index. */
  ghost function FirstSigner<S>(events: seq<Event<S>>, index: u32): Option<Signer<S>>
  {
    if events == [] then None
    else
      var e, earlier := events[|events| - 1], FirstSigner(events[..|events| - 1], index);
      if earlier.None? && e.Includes(index) then Some(e.signer) else earlier
  }

  /** The key of the last call that includes the index while no more than n indices have been seen. */
  ghost function LastKey<S>(n: nat, events: seq<Event<S>>, index: u32): Option<Point<S>>
  {
    if events == [] then None
    else
      var e := events[|events| - 1];
      if e.Includes(index) && |Seen(events)| <= n then Some(e.key.share)
      else LastKey(n, events[..|events| - 1], index)
  }

  ghost function LastPartial<S>(events: seq<Event<S>>, index: u32): Option<S>
  {
    if events == [] then None
    else
      var e := events[|events| - 1];
      if e.PartialEvent? && e.partial.index == index then Some(e.partial.z)
      else LastPartial(events[..|events| - 1], index)
  }

  ghost function Lookup<V>(m: map<u32, V>, index: u32): Option<V>
  {
    if index in m then Some(m[index]) else None
  }

  // ---------- What the aggregator holds ----------

  lemma {:induction false} SeenFirst<S>(events: seq<Event<S>>, index: u32)
    ensures FirstSigner(events, index).Some? <==> index in Seen(events)
  {
    if events != [] {
      SeenFirst(events[..|events| - 1], index);
    }
  }

  /** The signers are the indices seen, ascending, each with its first commitments. */
  ghost predicate SignersTold<S(!new)>(st: AggregatorState<S>, events: seq<Event<S>>)
  {
    Ascending(st.signers) && forall i: u32 :: Entry(st.signers, i) == FirstSigner(events, i)
  }

  lemma SignerCount<S(!new)>(st: AggregatorState<S>, events: seq<Event<S>>)
    requires SignersTold(st, events)
    ensures ToSet(IndicesOf(st.signers)) == Seen(events) && |st.signers| == |Seen(events)|
  {
    forall i: u32
      ensures i in ToSet(IndicesOf(st.signers)) <==> i in Seen(events)
    {
      EntryMember(st.signers, i);
      SeenFirst(events, i);
    }
    AscendingIndices(st.signers);
  }

  lemma SignersStep<S(!new)>(st: AggregatorState<S>, events: seq<Event<S>>)
    requires events != [] && SignersTold(st, events[..|events| - 1])
    ensures SignersTold(Step(st, events[|events| - 1]), events)
  {
    var n := |events| - 1;
    var e := events[n];
    if e.SignerEvent? && e.Includes(e.signer.index) {
      IncludeIsPlace(st, e.signer);
      PlaceAscending(e.signer, st.signers);
      forall i: u32
        ensures Entry(Place(e.signer, st.signers), i) == FirstSigner(events, i)
      {
        PlaceEntry(e.signer, st.signers, i);
      }
      assert Step(st, e).signers == Place(e.signer, st.signers);
    } else {
      assert Step(st, e).signers == st.signers;
    }
  }

  /** Over every history: ascending signers, first commitments, last accepted keys, last partial signatures. */
  lemma {:induction false} HistoryTold<S(!new)>(parameters: Parameters, groupKey: Point<S>, message: Bytes,
                                                events: seq<Event<S>>)
    ensures var st := Run(Start(parameters, groupKey, message), events);
            && SignersTold(st, events)
            && (forall i: u32 :: Lookup(st.publicKeys, i) == LastKey(parameters.n, events, i))
            && (forall i: u32 :: Lookup(st.partialSignatures, i) == LastPartial(events, i))
            && st.parameters == parameters && st.groupKey == groupKey && st.message == message
  {
    if events != [] {
      var n := |events| - 1;
      var e := events[n];
      var before := Run(Start(parameters, groupKey, message), events[..n]);
      HistoryTold(parameters, groupKey, message, events[..n]);
      SignersStep(before, events);
      SignerCount(Step(before, e), events);
    }
  }

  /** Keys are only taken in while the signers are within the limit, so they never exceed it. */
  lemma {:induction false} KeysWithinLimit<S(!new)>(parameters: Parameters, groupKey: Point<S>, message: Bytes,
                                                    events: seq<Event<S>>)
    ensures var keys := Run(Start(parameters, groupKey, message), events).publicKeys.Keys;
            keys <= Seen(events) && |keys| <= parameters.n && (|Seen(events)| <= parameters.n ==> keys == Seen(events))
  {
    if events != [] {
      var n := |events| - 1;
      var e := events[n];
      var before := Run(Start(parameters, groupKey, message), events[..n]);
      KeysWithinLimit(parameters, groupKey, message, events[..n]);
      HistoryTold(parameters, groupKey, message, events[..n]);
      SignersStep(before, events);
      SignerCount(Step(before, e), events);
      SubsetSize(Seen(events[..n]), Seen(events));
      SubsetSize(Step(before, e).publicKeys.Keys, Seen(events));
    }
  }

  /**
   Finalizing succeeds exactly when no more than n indices were included and each of them sent a
   partial signature; then there are at most n signers, all with a key and a partial signature.
   The signer left in the list by `TooManySigners` can therefore never be finalized.
   */
  lemma FinalizesAfter<S(!new)>(parameters: Parameters, groupKey: Point<S>, message: Bytes, events: seq<Event<S>>)
    ensures var st := Run(Start(parameters, groupKey, message), events);
            && (Misbehaving(st) == []
                <==> |Seen(events)| <= parameters.n && forall i :: i in Seen(events) ==> LastPartial(events, i).Some?)
            && (Misbehaving(st) == [] ==> |st.signers| <= parameters.n && Complete(st))
  {
    var st := Run(Start(parameters, groupKey, message), events);
    HistoryTold(parameters, groupKey, message, events);
    KeysWithinLimit(parameters, groupKey, message, events);
    SignerCount(st, events);
    FinalizesExactly(st);
    if Complete(st) {
      forall i | i in Seen(events)
        ensures i in st.publicKeys && i in st.partialSignatures && LastPartial(events, i).Some?
      {
        CompleteAt(st, i);
        assert Lookup(st.partialSignatures, i) == LastPartial(events, i);
      }
      SubsetSize(Seen(events), st.publicKeys.Keys);
    }
    if |Seen(events)| <= parameters.n && forall i :: i in Seen(events) ==> LastPartial(events, i).Some? {
      forall k | 0 <= k < |st.signers|
        ensures st.signers[k].index in st.partialSignatures && st.signers[k].index in st.publicKeys
      {
        var i := IndicesOf(st.signers)[k];
        assert i in ToSet(IndicesOf(st.signers));
        assert Lookup(st.partialSignatures, i) == LastPartial(events, i);
      }
    }
  }

  lemma CompleteAt<S>(st: AggregatorState<S>, i: u32)
    requires Complete(st) && i in ToSet(IndicesOf(st.signers))
    ensures i in st.publicKeys && i in st.partialSignatures
  {
  }
}
