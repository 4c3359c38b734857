/** The nonces a signer prepares ahead of time, and the list they are taken from. */
module Precomputation {
  import opened Fields
  import opened CipherSuites
  import opened Keys

  datatype Commitment<S> = Commitment(secret: S, commit: Point<S>)

  datatype CommitmentShare<S> = CommitmentShare(hiding: Commitment<S>, binding: Commitment<S>)
  {
    function Publish(): (Point<S>, Point<S>)
    {
      (hiding.commit, binding.commit)
    }
  }

  datatype PublicCommitmentShareList<S> = PublicCommitmentShareList(
    participantIndex: u32,
    commitments: seq<(Point<S>, Point<S>)>)

  function ShareFromNonces<S(!new)>(C: CipherSuite<S>, nonces: (S, S)): CommitmentShare<S>
  {
    CommitmentShare(Commitment(nonces.0, C.Base(nonces.0)), Commitment(nonces.1, C.Base(nonces.1)))
  }

  function Without<T>(xs: seq<T>, i: nat): (r: seq<T>)
    requires i < |xs|
    ensures |r| == |xs| - 1
  {
    xs[..i] + xs[i + 1..]
  }

  /** The list without its last copy of x. */
  function DropLast<T(==)>(xs: seq<T>, x: T): seq<T>
  {
    if xs == [] then []
    else
      var n := |xs| - 1;
      if xs[n] == x then xs[..n] else DropLast(xs[..n], x) + [xs[n]]
  }

  /** One copy goes, and nothing else, whichever copies there are. */
  lemma {:induction false} DropLastConserves<T(!new)>(xs: seq<T>, x: T)
    requires x in xs
    ensures multiset(DropLast(xs, x)) + multiset{x} == multiset(xs)
    ensures |DropLast(xs, x)| == |xs| - 1
  {
    var n := |xs| - 1;
    assert xs == xs[..n] + [xs[n]];
    if xs[n] != x {
      DropLastConserves(xs[..n], x);
    }
  }

  lemma {:induction false} DropLastAbsent<T(!new)>(xs: seq<T>, x: T)
    requires x !in xs
    ensures DropLast(xs, x) == xs
  {
    if xs != [] {
      DropLastAbsent(xs[..|xs| - 1], x);
    }
  }

  /** It is the copy after which no other follows. */
  lemma {:induction false} DropLastAt<T(!new)>(xs: seq<T>, i: nat)
    requires i < |xs|
    requires forall j :: i < j < |xs| ==> xs[j] != xs[i]
    ensures DropLast(xs, xs[i]) == Without(xs, i)
  {
    var n := |xs| - 1;
    if i < n {
      DropLastAt(xs[..n], i);
    }
  }

  class SecretCommitmentShareList<S(==, !new)> {
    var commitments: seq<CommitmentShare<S>>

    constructor (commitments: seq<CommitmentShare<S>>)
      ensures this.commitments == commitments
    {
      this.commitments := commitments;
    }

    method DropShare(share: CommitmentShare<S>)
      modifies this
      ensures commitments == DropLast(old(commitments), share)
    {
      var index := -1;
      for i := 0 to |commitments|
        invariant -1 <= index < i
        invariant index >= 0 ==> commitments[index] == share
        invariant forall j :: index < j < i ==> commitments[j] != share
      {
        if commitments[i] == share {
          index := i;
        }
      }
      if index >= 0 {
        DropLastAt(commitments, index);
        commitments := Without(commitments, index);
      } else {
        DropLastAbsent(commitments, share);
      }
    }
  }

  /** The nonce pairs are drawn at random. */
  method GenerateCommitmentShareLists<S(==, !new)>(C: CipherSuite<S>, key: IndividualSigningKey<S>, nonces: seq<(S, S)>)
    returns (public: PublicCommitmentShareList<S>, secret: SecretCommitmentShareList<S>)
    ensures fresh(secret) && |secret.commitments| == |public.commitments| == |nonces|
    ensures public.participantIndex == key.index
    ensures forall i :: 0 <= i < |nonces| ==>
              && secret.commitments[i] == ShareFromNonces(C, nonces[i])
              && public.commitments[i] == secret.commitments[i].Publish()
              && secret.commitments[i].hiding == Commitment(nonces[i].0, C.Base(nonces[i].0))
              && secret.commitments[i].binding == Commitment(nonces[i].1, C.Base(nonces[i].1))
              && public.commitments[i] == (C.Base(nonces[i].0), C.Base(nonces[i].1))
  {
    var commitments: seq<CommitmentShare<S>> := [];
    for i := 0 to |nonces|
      invariant |commitments| == i
      invariant forall j :: 0 <= j < i ==> commitments[j] == ShareFromNonces(C, nonces[j])
    {
      commitments := commitments + [ShareFromNonces(C, nonces[i])];
    }
    var published: seq<(Point<S>, Point<S>)> := [];
    for i := 0 to |commitments|
      invariant |published| == i
      invariant forall j :: 0 <= j < i ==> published[j] == commitments[j].Publish()
    {
      published := published + [commitments[i].Publish()];
    }
    public := PublicCommitmentShareList(key.index, published);
    secret := new SecretCommitmentShareList(commitments);
  }
}
