/** Nonces over whole runs: any sequence of signing attempts, failing ones included, on one list. */
module NonceUse {
  import opened Wrappers
  import opened Sums
  import opened Orderings
  import opened CipherSuites
  import opened Keys
  import opened Precomputation
  import opened Signing

  datatype Call<S> = Call(
    key: IndividualSigningKey<S>,
    messageHash: Bytes,
    groupKey: Point<S>,
    k: nat,
    signers: seq<Signer<S>>)

  ghost predicate Succeeds<S(!new)>(C: CipherSuite<S>, list: seq<CommitmentShare<S>>, c: Call<S>)
    ensures Succeeds(C, list, c) ==> c.k < |list|
  {
    Signed(C, c.key, c.messageHash, c.groupKey, list, c.k, c.signers).Ok?
  }

  /** The list after the calls, each leaving what `sign` leaves. */
  ghost function After<S(!new)>(C: CipherSuite<S>, shares: seq<CommitmentShare<S>>,
                                calls: seq<Call<S>>): seq<CommitmentShare<S>>
  {
    if calls == [] then shares
    else
      var n := |calls| - 1;
      var list := After(C, shares, calls[..n]);
      if Succeeds(C, list, calls[n]) then DropLast(list, list[calls[n].k]) else list
  }

  /** The nonces that went into signatures, in order. */
  ghost function Consumed<S(!new)>(C: CipherSuite<S>, shares: seq<CommitmentShare<S>>,
                                   calls: seq<Call<S>>): seq<CommitmentShare<S>>
  {
    if calls == [] then []
    else
      var n := |calls| - 1;
      var list := After(C, shares, calls[..n]);
      var used := Consumed(C, shares, calls[..n]);
      if Succeeds(C, list, calls[n]) then used + [list[calls[n].k]] else used
  }

  /** Whatever the list, what is left and what was used make up the original. */
  lemma {:induction false} NoncesConserved<S(!new)>(C: CipherSuite<S>, shares: seq<CommitmentShare<S>>,
                                                    calls: seq<Call<S>>)
    ensures multiset(After(C, shares, calls)) + multiset(Consumed(C, shares, calls)) == multiset(shares)
    ensures |After(C, shares, calls)| + |Consumed(C, shares, calls)| == |shares|
  {
    if calls != [] {
      var n := |calls| - 1;
      var list := After(C, shares, calls[..n]);
      NoncesConserved(C, shares, calls[..n]);
      if Succeeds(C, list, calls[n]) {
        DropLastConserves(list, list[calls[n].k]);
      }
    }
  }

  /** The list without the members of a set, order kept. */
  ghost function Excluding<T(!new)>(xs: seq<T>, used: set<T>): (r: seq<T>)
    ensures forall x :: x in r <==> x in xs && x !in used
  {
    if xs == [] then []
    else
      var n := |xs| - 1;
      if xs[n] in used then Excluding(xs[..n], used) else Excluding(xs[..n], used) + [xs[n]]
  }

  lemma {:induction false} ExcludingNone<T(!new)>(xs: seq<T>)
    ensures Excluding(xs, {}) == xs
  {
    if xs != [] {
      ExcludingNone(xs[..|xs| - 1]);
    }
  }

  lemma {:induction false} ExcludingAbsent<T(!new)>(xs: seq<T>, used: set<T>, x: T)
    requires x !in xs
    ensures Excluding(xs, used + {x}) == Excluding(xs, used)
  {
    if xs != [] {
      ExcludingAbsent(xs[..|xs| - 1], used, x);
    }
  }

  lemma {:induction false} DropExcludes<T(!new)>(xs: seq<T>, used: set<T>, x: T)
    requires Distinct(xs) && x in Excluding(xs, used)
    ensures DropLast(Excluding(xs, used), x) == Excluding(xs, used + {x})
  {
    var n := |xs| - 1;
    var rest := Excluding(xs[..n], used);
    if xs[n] == x {
      assert x !in xs[..n];
      ExcludingAbsent(xs[..n], used, x);
      assert (rest + [x])[..|rest|] == rest;
    } else {
      DropExcludes(xs[..n], used, x);
      if xs[n] !in used {
        assert (rest + [xs[n]])[..|rest|] == rest;
      }
    }
  }

  lemma UsedNext<T(!new)>(xs: seq<T>, used: seq<T>, x: T)
    requires Distinct(xs) && Distinct(used) && x in Excluding(xs, ToSet(used))
    ensures Distinct(used + [x])
    ensures DropLast(Excluding(xs, ToSet(used)), x) == Excluding(xs, ToSet(used + [x]))
  {
    DropExcludes(xs, ToSet(used), x);
    assert ToSet(used + [x]) == ToSet(used) + {x};
    DistinctAppend(used, x);
  }

  lemma DistinctAppend<T>(xs: seq<T>, x: T)
    requires Distinct(xs) && x !in xs
    ensures Distinct(xs + [x])
  {
  }

  /**
   From a list without repetition, no nonce is used twice over any run, and the list is always the
   original, in order, without the nonces used so far.
   */
  lemma {:induction false} NoncesUsedOnce<S(!new)>(C: CipherSuite<S>, shares: seq<CommitmentShare<S>>,
                                                   calls: seq<Call<S>>)
    requires Distinct(shares)
    ensures Distinct(Consumed(C, shares, calls))
    ensures After(C, shares, calls) == Excluding(shares, ToSet(Consumed(C, shares, calls)))
  {
    if calls == [] {
      ExcludingNone(shares);
      assert ToSet(Consumed(C, shares, calls)) == {};
    } else {
      var n := |calls| - 1;
      var list, used := After(C, shares, calls[..n]), Consumed(C, shares, calls[..n]);
      NoncesUsedOnce(C, shares, calls[..n]);
      if Succeeds(C, list, calls[n]) {
        UsedNext(shares, used, list[calls[n].k]);
      }
    }
  }

  /** A call that succeeds whenever its index is in the list. */
  function PlainCall<S(!new)>(C: CipherSuite<S>, k: nat): Call<S>
  {
    Call(IndividualSigningKey(1, C.F.zero), [], C.Identity(), k, [Signer(1, C.Identity(), C.Identity())])
  }

  lemma PlainCallSucceeds<S(!new)>(C: CipherSuite<S>, list: seq<CommitmentShare<S>>, k: nat)
    ensures Succeeds(C, list, PlainCall(C, k)) <==> k < |list|
  {
    var indices := IndicesOf(PlainCall(C, k).signers);
    assert indices == [1] && 1 in indices;
  }

  lemma {:induction false} DropKeepsFront<T(!new)>(xs: seq<T>, i: nat, j: nat)
    requires i < j < |xs| && xs[i] == xs[j]
    ensures i < |DropLast(xs, xs[i])| && DropLast(xs, xs[i])[i] == xs[i]
  {
    var n := |xs| - 1;
    if xs[n] != xs[i] {
      DropKeepsFront(xs[..n], i, j);
    }
  }

  lemma RepeatedNonceReused<S(!new)>(C: CipherSuite<S>, shares: seq<CommitmentShare<S>>, i: nat, j: nat)
    requires i < j < |shares| && shares[i] == shares[j]
    ensures Consumed(C, shares, [PlainCall(C, i), PlainCall(C, i)]) == [shares[i], shares[i]]
  {
    var call := PlainCall(C, i);
    var calls := [call, call];
    assert calls[..1] == [call] && [call][..0] == [];
    PlainCallSucceeds(C, shares, i);
    assert After(C, shares, [call][..0]) == shares;
    DropKeepsFront(shares, i, j);
    PlainCallSucceeds(C, DropLast(shares, shares[i]), i);
    assert Consumed(C, shares, [call]) == [shares[i]];
  }

  /** No run uses a nonce twice exactly when the list starts without repetition. */
  lemma NoncesUsedOnceExactly<S(!new)>(C: CipherSuite<S>, shares: seq<CommitmentShare<S>>)
    ensures Distinct(shares) <==> forall calls :: Distinct(Consumed(C, shares, calls))
  {
    if Distinct(shares) {
      forall calls
        ensures Distinct(Consumed(C, shares, calls))
      {
        NoncesUsedOnce(C, shares, calls);
      }
    } else {
      var i, j :| 0 <= i < j < |shares| && shares[i] == shares[j];
      RepeatedNonceReused(C, shares, i, j);
      assert !Distinct([shares[i], shares[i]]) by {
        assert [shares[i], shares[i]][0] == [shares[i], shares[i]][1];
      }
    }
  }
}
