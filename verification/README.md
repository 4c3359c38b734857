# ICE-FROST: a verified model

This project models the ICE-FROST library of the repository and the actor that drives its key
generation over gossip, and proves what they promise. The library generates and reshares the key of
a group of n participants, of whom t can sign, and makes threshold Schnorr signatures. The model
follows the code branch by branch; the theorems are about the model, for all inputs.

## Main results

- **Robust key generation.** Whatever shares the dealers send, the participants whose `bootstrap` and
  `to_round_two` succeed, and who then run one `blame` and `finish`, end with one group key and with
  values of one polynomial of at most t coefficients (`BootstrappedKeys`, `RobustKeys`). They see the
  same packets, with distinct non-zero indices, hold one share from each valid dealer, settle the same
  complaints, their own among them, and these accuse indices up to the n that round one leaves. The
  last condition is exact (`ConsistentExactly`, `ConsistentBatchExactly`) and holds by itself when
  nobody is turned away (`FullSessionKeys`). Both rounds succeed exactly on n packets, none lacking the
  proof of its secret key, t of them valid, and t good shares (`ProceedsExactly`); so t honest dealers
  are enough (`HonestDealersSuffice`).
- **Threshold.** Any t of these keys give the secret (`ThresholdRecovers`), and t - 1 only if the last
  coefficient happens to be zero (`OneKeyShortExactly`).
- **Round one and complaints.** Round one keeps exactly the dealers whose proofs satisfy their equations
  and lists the others (`KeptExactly`), and every complaint counts against the accused exactly if its
  proof holds and the share is bad (`VerdictExactly`).
- **Resharing.** `reshare` deals the old key with fresh coefficients (`ReshareDeals`). Resharing to any
  (n', t') keeps the group key (`StaticGroupKey`), and with one deviating resharer it does exactly if
  that one still deals its old value (`DeviatingResharer`). Dishonest resharers cannot make the new
  members disagree (`ResharedKeys`), but one of them can raise the degree (`LengtheningResharer`).
- **Signing.** Enough honest signers always obtain a signature that verifies (`SessionSucceeds`), also
  with the keys of a generation that had dishonest dealers (`GeneratedKeysSign`). A signature is bound to
  its message (`SignatureBoundExactly`), and each partial one to all commitments (`SignedExactly`,
  `EncodedTells`).
- **Cheaters.** A failing aggregation names exactly the signers whose check fails
  (`AggregationOutcome`), and an honest one only if the key collected for it is wrong
  (`HonestNamedExactly`).
- **Aggregator histories.** What an aggregator holds, and whether it can be finalized, is told by the
  sequence of its calls alone (`HistoryTold`, `FinalizesAfter`).
- **Nonces.** No run of signing calls uses a nonce twice exactly if none repeats at the start
  (`NoncesUsedOnceExactly`).
- **Gossip.** In every interleaving no handler panics, finished nodes agree, and a node finishes
  exactly if the last message it waited for is a share map (`NoHandlerPanics`, `FinishedNodesAgree`,
  `FinishesExactly`). A run can be completed exactly if nothing was dropped and no node has used up its
  share maps, so every set-up has a complete run (`CompletesExactly`, `CompleteRun`).

## How it is modelled

- Scalars belong to an arbitrary field in which the 32-bit indices stay distinct (`Fields`). Module
  `Residues` proves that the integers modulo a prime above 2^32 are one, inverse included. The laws
  are predicates that a proof names where it uses them.
- A group point is its discrete logarithm to the generator (`CipherSuites`).
- Hash functions and encodings of points and encrypted shares are arbitrary functions; an index is
  encoded as four little-endian bytes. Of the cipher only "decrypting gives back what was encrypted"
  is assumed. `ResidueSuites` shows that these assumptions can be met.
- Random draws are parameters: the polynomials, nonces and proof scalars are arbitrary.
- `Err(Panicked)` and `Err(Panic)` stand for a failing `unwrap`, `expect`, assertion, index or
  subtraction, as in a build with overflow checks.
- Objects that change in place are classes (`DkgSession`, `SecretCommitmentShareList`,
  `SignatureAggregator`, `DkgEngineState`). Each method is proved equal to a function on the value its
  fields spell, and the theorems are lemmas about these functions.
- In the distributed model a step starts a node or delivers one gossiped message to one other node, at
  most once; undelivered messages are lost, and messages to a node not yet started are dropped.

| files | content |
|---|---|
| Fields, Residues, Sums, Polynomials, Orderings, Lagrange | arithmetic, polynomials and interpolation |
| CipherSuites, ResidueSuites, SecretShares, KnowledgeProofs, Complaints | shares, proofs and complaints |
| Participants, KeyGeneration, DkgSessions | participants and key generation, as functions and in place |
| RoundOneFacts, RobustKeyGeneration, BootstrappedSessions, SmallSessions, SettlementLimits | key generation with dishonest dealers |
| HonestSessions, Keys, PublicRecomputation, StatedIndices | resharing, and the public recomputation of keys |
| Precomputation, Signing, Transcripts, NonceUse | nonces, hashed transcripts and partial signatures |
| Aggregation, SignatureAggregators, AggregatorHistory, ThresholdSigning, AggregationLimits | the aggregator, its histories, and what its answer means |
| DkgEngines, EngineFailures, EngineSteps, GossipNetwork, HonestNodes, GossipRuns, GossipCompletion | the actor and the protocol of n nodes |

## Where code and documentation disagree

- `calculate_lagrange_coefficients` is documented to refuse an absent `my_index` and does not
  (`DocumentedErrorsExactly`, `AbsentIndexIsAccepted`).
- Dealers whose proofs do not hold are documented to be flagged in round one. A packet without the proof
  of its secret key instead makes it panic for everybody (`PanicsExactly`, `MissingProofPanics`).
- `blame` compares the accused index with n after round one has reduced it. A bad dealer with a larger
  index stays and its victim is removed (`ConsistentExactly`, `ReducedCountKeepsBadDealer`).
- A first session is documented to be robust against dishonest dealers. One that withholds a share cannot
  be complained about, and unless it is settled against for another reason the state stays inconsistent
  (`ConsistentAfterBatch`, `WithheldShareMisleads`).
- Settling a further complaint against a removed dealer is documented not to change the state. Within
  one call it does not. In a later call it removes its maker, unless the maker is not held any more
  (`LaterBatchExactly`, `SettledTwiceExactly`, `SecondCallRemovesMaker`).
- `blame` takes every complaint to be about a share that was sent. One about a made-up share counts
  against any dealer, also under the registered key of its maker (`MadeUpShareAccepted`).
- `blame` does not compare the key in a complaint with the registered key of its maker. A share that
  was sent counts against its honest dealer exactly if it does not open under the key of the
  complaint (`SentShareExactly`, `ForeignKeyExactly`, `ForeignKeyRemovesHonest`).
- `finalize` is documented to report that fewer than t signers took part. It does not count them; with
  no signers `aggregate` panics (`EmptyAggregatorPanics`), and with t - 1 honest ones it fails and names
  nobody, unless a coefficient or the challenge is zero (`OneSignerShort`, `ShortSession`).
- A failing `aggregate` is documented to name only the guilty. If the collected keys do not make the
  group key it may name no one (`NobodyNamedExactly`, `NobodyNamed`); if the key collected for an honest
  signer is wrong it names that signer (`HonestNamedExactly`, `HonestSignerNamed`); and with a signer of
  index zero it returns `IndexIsZero` instead (`AggregationErrors`, `IndexZeroNamesNobody`).
- Round one does not compare the index inside a commitment with its dealer's. If it is misstated,
  `finish` works while the public recomputation is refused or silently wrong (`RecomputeShare`,
  `RecomputesExactly`, `RepeatedIndexRefused`, `SwappedIndicesMislead`); `RecomputationAgrees` therefore
  lists commitments that state the index of their dealer.
- `new` does not compare what a resharer deals with its old public share (`GroupKeyKeptExactly`), nor
  the number of its coefficients with t' (`DegreeKeptExactly`).
- Key generation is documented to survive bad shares. The actor that drives it files no complaint and
  panics on a single bad share (`StoringPanicsExactly`).
- The parameters are documented to require n > t; the code accepts n = t (`NewParameters`).

## Model

| member | source | states |
|---|---|---|
| `Lagrange.CalculateLagrangeCoefficients` | crates/ice-frost/src/utils.rs:42-77 | the in-place loop returns the coefficient over the set of indices: an error exactly for a repeated index or a zero, and never the one for a vanishing denominator |
| `Lagrange.DenominatorNonZero` | crates/ice-frost/src/utils.rs:56-76 | distinct 32-bit indices never make the denominator zero, so the inverse always exists |
| `Lagrange.CoefficientsInterpolate` | crates/ice-frost/src/utils.rs:36-77 | for every list of distinct non-zero indices and every polynomial with at most that many coefficients, the values weighted by the computed coefficients sum to the value at zero |
| `Lagrange.LagrangeAtZero` | crates/ice-frost/src/utils.rs:36-77 | the same over sets of indices, by induction on the nodes; every theorem on keys and signatures rests on it |
| `Lagrange.OneValueShort` | crates/ice-frost/src/utils.rs:36-77 | one value too few interpolates to the value at zero if and only if the last coefficient is zero |
| `Lagrange.LambdaNonZero` | crates/ice-frost/src/utils.rs:56-76 | no coefficient among distinct non-zero indices vanishes |
| `Lagrange.CoefficientIgnoresOrder` | crates/ice-frost/src/utils.rs:46-54 | the coefficient does not depend on the order of the list |
| `Lagrange.DocumentedErrorsExactly` | crates/ice-frost/src/utils.rs:36-41 | the documented error conditions are the actual ones exactly when the list repeats, holds zero, or does contain `my_index` |
| `Lagrange.AbsentIndexIsAccepted` | crates/ice-frost/src/utils.rs:40-54 | a concrete call, index 2 against [1], that the documentation refuses and the code accepts |
| `Lagrange.CombineEval` | crates/ice-frost/src/dkg/key_generation.rs:1032-1043 | combining polynomials by their coefficients commutes with evaluating them at any point |
| `Lagrange.CombineDegreeExactly` | crates/ice-frost/src/dkg/key_generation.rs:1032-1043 | if all but one polynomial have at most t coefficients, the combination has no power from x^t on if and only if that one has none |
| `Residues.ResidueFieldIsValid` | crates/ice-frost/src/ciphersuite.rs:1-118 | the integers modulo a prime above 2^32, with a computed inverse, satisfy every law the theorems assume of the scalar field |
| `ResidueSuites.SuiteIsValid` | crates/ice-frost/src/ciphersuite.rs:1-118 | the assumptions on a cipher suite can be met for all choices of hash functions and encodings |
| `ResidueSuites.CheckingSuiteChecks` | crates/ice-frost/src/dkg/secret_share.rs:294-366 | so can the assumption that the cipher refuses every other key |
| `CipherSuites.LeBytesDigits` | crates/ice-frost/src/sign/signature.rs:157-166 | an index is encoded as four bytes, its digits to the base 256, lowest first |
| `Orderings.DedupDetects` | crates/ice-frost/src/utils.rs:46-51 | sorting and deduplicating keeps the length exactly when nothing repeats |
| `SecretShares.EvaluatePolynomial` | crates/ice-frost/src/dkg/secret_share.rs:66-88 | the Horner loop computes the sum of a_k x^k at the receiver, for every length including none |
| `SecretShares.EvaluateHiding` | crates/ice-frost/src/dkg/secret_share.rs:261-275 | the Horner loop in the exponent computes the same sum of the committed coefficients |
| `SecretShares.VerifyShare` | crates/ice-frost/src/dkg/secret_share.rs:92-106 | the check decides whether the two points are equal |
| `SecretShares.ShareVerifiesExactly` | crates/ice-frost/src/dkg/secret_share.rs:92-106 | a share passes if and only if it is the value at its receiver of the committed polynomial |
| `SecretShares.DecryptEncrypt` | crates/ice-frost/src/dkg/secret_share.rs:294-366 | decrypting with the key it was encrypted under gives the share back, indices included |
| `KnowledgeProofs.ProofComplete` | crates/ice-frost/src/dkg/nizkpok.rs:42-90 | a proof by whoever knows the secret verifies, for every nonce and every hash function |
| `KnowledgeProofs.VerifiesExactly` | crates/ice-frost/src/dkg/nizkpok.rs:65-90 | a proof (s, r) verifies if and only if there is an m with r G = m + s P and s the hash of index, P and m |
| `KnowledgeProofs.ForgedProofExactly` | crates/ice-frost/src/dkg/nizkpok.rs:42-90 | with the right equation on r, it verifies if and only if s is the right hash |
| `Complaints.ComplaintVerifiesExactly` | crates/ice-frost/src/dkg/complaint.rs:40-139 | a complaint made with the maker's secret key verifies exactly when the disclosed key is the shared one, but for a challenge of zero |
| `Complaints.ComplaintDiscloses` | crates/ice-frost/src/dkg/complaint.rs:40-90 | a complaint discloses the maker's public key and the shared key, commits to its random scalar, and satisfies both equations |
| `Participants.NewParameters` | crates/ice-frost/src/parameters.rs:24-43 | n and t are accepted exactly when 0 < t <= n, so n = t is, against the documentation, and then kept as given; otherwise the error is that of invalid parameters |
| `Participants.NewInternal` | crates/ice-frost/src/dkg/participant.rs:128-220 | t coefficients, the first a given secret key or drawn and all others drawn; the packet commits to each of them, and each of its two proofs commits to a draw of its own; signers get neither |
| `Participants.NewDealer` | crates/ice-frost/src/dkg/participant.rs:81-93 | a dealer with random coefficients, or the error for index zero |
| `Participants.NewSigner` | crates/ice-frost/src/dkg/participant.rs:118-126 | a signer without commitments, or the error for index zero |
| `DkgSessions.DkgSession.NewState` | crates/ice-frost/src/dkg/key_generation.rs:704-882 | round one in place equals the function on its inputs, in all modes, errors in the order the code meets them |
| `DkgSessions.DkgSession.Bootstrap` | crates/ice-frost/src/dkg/key_generation.rs:640-660 | round one of a first session, with every participant dealer and signer |
| `DkgSessions.DkgSession.New` | crates/ice-frost/src/dkg/key_generation.rs:684-702 | round one of a resharing for a signer |
| `DkgSessions.CheckAll` | crates/ice-frost/src/dkg/key_generation.rs:731-774 | the loop of checks accepts, rejects or panics on each participant in turn and keys both maps by the accepted ones |
| `DkgSessions.CheckOne` | crates/ice-frost/src/dkg/key_generation.rs:733-771 | one participant is accepted if and only if the equations of its proofs hold and, in a bootstrap, it has t points |
| `DkgSessions.EncryptAll` | crates/ice-frost/src/dkg/key_generation.rs:823-848 | one encrypted share for every participant of the list, misbehaving or not |
| `DkgSessions.DkgSession.ToRoundTwo` | crates/ice-frost/src/dkg/key_generation.rs:903-1000 | round two in place equals the function that stores every share that opens and complains about every bad one, the panic of a state without commitments included; when it succeeds there are commitments and shares, which is all that `blame` and `finish` unwrap |
| `DkgSessions.DkgSession.Receive` | crates/ice-frost/src/dkg/key_generation.rs:928-984 | one turn of its loop: the unknown sender, the panic, the complaint and the stored share |
| `DkgSessions.DkgSession.Settle` | crates/ice-frost/src/dkg/key_generation.rs:1119-1167 | one complaint counts against the accused if and only if that one is within n and held, both equations of the complaint hold, and the share does not open to the committed value; otherwise against its maker |
| `DkgSessions.DkgSession.Blame` | crates/ice-frost/src/dkg/key_generation.rs:1097-1184 | removes the settled indices from both maps, nothing else, and returns their known keys in ascending order |
| `DkgSessions.DkgSession.CalculateSigningKey` | crates/ice-frost/src/dkg/key_generation.rs:1022-1048 | the loop interpolates the stored shares at zero over the senders; without shares it panics |
| `DkgSessions.DkgSession.CalculateGroupKey` | crates/ice-frost/src/dkg/key_generation.rs:1055-1083 | the loop interpolates the first committed points at zero over the dealers; without commitments it fails |
| `DkgSessions.DkgSession.Finish` | crates/ice-frost/src/dkg/key_generation.rs:1012-1017 | both keys, or the first error, whose conditions are given for every state |
| `DkgSessions.Reshare` | crates/ice-frost/src/dkg/participant.rs:244-281 | a new dealer and its encrypted shares for the new signers, in place |
| `HonestSessions.ReshareDeals` | crates/ice-frost/src/dkg/participant.rs:175-281 | the polynomial dealt has the old key as constant term and the drawn coefficients above it; the packet commits to them, and each new signer's share, sealed with its own nonce, opens to its power sum |
| `HonestSessions.ReshareSucceedsExactly` | crates/ice-frost/src/dkg/participant.rs:244-281 | `reshare` succeeds exactly for a non-zero index and n' signers of whom t' are valid |
| `RoundOneFacts.RoundOnePartition` | crates/ice-frost/src/dkg/key_generation.rs:731-774 | valid and misbehaving entries partition the input, repetitions included |
| `RoundOneFacts.RoundOneConservation` | crates/ice-frost/src/dkg/key_generation.rs:776-793 | the new n is the valid count and at least t, neither the subtraction nor the parameters can fail, and the maps have exactly the valid indices as keys |
| `RoundOneFacts.ValidMembers` | crates/ice-frost/src/dkg/key_generation.rs:731-774 | a participant is valid exactly when it is in the list and passes its own checks, whatever the rest is |
| `RoundOneFacts.KeptExactly` | crates/ice-frost/src/dkg/key_generation.rs:731-774 | a successful round one keeps a participant if and only if the equation of its DH proof holds and, for signers, it has a first point whose proof holds and, in a bootstrap, t points; all others are listed as misbehaving |
| `RoundOneFacts.ForgedPacketExactly` | crates/ice-frost/src/dkg/key_generation.rs:745-768 | a dealer's packet with another hash in its proof is kept if that is the right hash, and its index listed if not |
| `RoundOneFacts.RoundOneErrorsExactly` | crates/ice-frost/src/dkg/key_generation.rs:720-781 | which error round one returns, for every list |
| `RoundOneFacts.RoundOneDeals` | crates/ice-frost/src/dkg/key_generation.rs:823-848 | every participant of the list is dealt the power sum at its index, sealed under the common key with its own nonce |
| `RoundOneFacts.LastPacketCounts` | crates/ice-frost/src/dkg/key_generation.rs:757-762 | of packets with one index, the last one counts |
| `RoundOneFacts.RoundOneStarts` | crates/ice-frost/src/dkg/key_generation.rs:731-870 | a round one of a signer over distinct non-zero indices establishes what round two relies on, and in a bootstrap commitments of length at most t |
| `RoundOneFacts.RoundOnesAgree` | crates/ice-frost/src/dkg/key_generation.rs:640-882 | signers who run round one on the same packets in any order hold the same commitments, keys and parameters |
| `RoundOneFacts.PanicsExactly` | crates/ice-frost/src/dkg/key_generation.rs:745-750 | round one panics if and only if a signer runs it on a packet whose DH proof verifies and which has a public key but no proof of the secret key |
| `RoundOneFacts.RoundOneSucceedsExactly` | crates/ice-frost/src/dkg/key_generation.rs:704-793 | a signer's round one succeeds if and only if there are n packets, none is such a packet, and at least t are valid |
| `RoundOneFacts.MissingProofPanics` | crates/ice-frost/src/lib.rs:974-980 | a concrete packet, an honest dealer's without the proof of its secret key, that makes round one panic among any n - 1 others |
| `RoundOneFacts.HonestDealerAccepted` | crates/ice-frost/src/dkg/key_generation.rs:733-765 | a dealer made for the session's parameters passes every check of every mode |
| `RoundOneFacts.HonestSignerAccepted` | crates/ice-frost/src/dkg/key_generation.rs:766-773 | a new signer passes the checks of a resharing dealer |
| `RoundOneFacts.HonestDealerNeverExcluded` | crates/ice-frost/src/dkg/key_generation.rs:731-781 | whatever the rest of the list, if each packet has its proof and t are valid the bootstrap succeeds and counts an honest dealer as valid |
| `RobustKeyGeneration.RoundTwoOutcome` | crates/ice-frost/src/dkg/key_generation.rs:928-1000 | with one share per valid dealer, round two meets no unknown index and never subtracts below zero |
| `RobustKeyGeneration.RoundTwoSucceedsExactly` | crates/ice-frost/src/dkg/key_generation.rs:903-1000 | on one share from each of the n dealers kept, round two succeeds if and only if t of them are good |
| `RobustKeyGeneration.RoundTwoErrorsExactly` | crates/ice-frost/src/dkg/key_generation.rs:923-984 | for every list of shares: too few, an unknown sender, or a state without commitments |
| `RobustKeyGeneration.TooManyComplaintsExactly` | crates/ice-frost/src/dkg/key_generation.rs:987-990 | round two gives up exactly if fewer than t of the n dealers remain, with all complaints, and panics if complaints exceed n |
| `RobustKeyGeneration.VerdictExactly` | crates/ice-frost/src/dkg/key_generation.rs:1118-1168 | the verdict on every complaint, whoever made it: against the accused if and only if it is within n and held, z G = a1 + h P and z A = a2 + h K hold for the hash h of the five points and the share, and the share does not open to the committed value |
| `RobustKeyGeneration.FailedProofBlamesMaker` | crates/ice-frost/src/dkg/key_generation.rs:1145-1148 | a complaint whose proof fails counts against its maker, whatever the share |
| `RobustKeyGeneration.FalseComplaintRemovesMaker` | crates/ice-frost/src/dkg/key_generation.rs:1097-1168 | a concrete complaint whose proof holds for no hash function removes its maker and keeps the dealer |
| `RobustKeyGeneration.CorrectVerdict` | crates/ice-frost/src/dkg/key_generation.rs:1118-1168 | a complaint of `Complaint::new`, whatever its key, counts against the accused exactly when its index is at most the stored n and the share is bad under that key, and otherwise against the maker |
| `RobustKeyGeneration.BlamedExactly` | crates/ice-frost/src/dkg/key_generation.rs:1116-1175 | when all complaints are made that way, a settlement removes exactly the indices so found |
| `RobustKeyGeneration.ConsistentAfterBlame` | crates/ice-frost/src/dkg/key_generation.rs:928-984 | round two and one settlement containing one's own complaints leave equal key sets and only valid shares, although bad shares are stored at first |
| `RobustKeyGeneration.ConsistentAfterBatch` | crates/ice-frost/src/dkg/key_generation.rs:928-1184 | whatever the batch and whoever withholds a share, the state is consistent after it if and only if it settles against every dealer complained about and every dealer that sent no share |
| `RobustKeyGeneration.ConsistentBatchExactly` | crates/ice-frost/src/dkg/key_generation.rs:1116-1175 | a batch of complaints made by `Complaint::new`, one's own among them, leaves a consistent state if and only if every dealer above the stored n that one complains about is the maker of a complaint that counts against it |
| `RobustKeyGeneration.ConsistentExactly` | crates/ice-frost/src/dkg/key_generation.rs:1122-1125 | settling one's own complaints leaves a consistent state if and only if every accused index is at most the stored n |
| `RobustKeyGeneration.BlamedAgree` | crates/ice-frost/src/dkg/key_generation.rs:1116-1175 | the settled indices depend only on the set of complaints |
| `RobustKeyGeneration.SettlementAgrees` | crates/ice-frost/src/dkg/key_generation.rs:1097-1184 | participants with one view who settle the same set of complaints keep the same commitments, report the same keys and reach the same group key |
| `RobustKeyGeneration.BlamedKeys` | crates/ice-frost/src/dkg/key_generation.rs:1178-1183 | the keys returned are exactly the known keys of the settled indices |
| `RobustKeyGeneration.BlamedKeysInOrder` | crates/ice-frost/src/dkg/key_generation.rs:1170-1183 | they are reported in ascending order of the indices, each once |
| `RobustKeyGeneration.GroupKeyIsConstantTerm` | crates/ice-frost/src/dkg/key_generation.rs:1055-1083 | the group key is the value at zero of the dealers' combined polynomial, in the exponent |
| `RobustKeyGeneration.DegreeKeptExactly` | crates/ice-frost/src/dkg/key_generation.rs:757-763 | with all but one commitment of at most t points, the combined polynomial has no power from x^t on if and only if that one commits to none |
| `RobustKeyGeneration.FinishConsistent` | crates/ice-frost/src/dkg/key_generation.rs:1012-1083 | from a consistent state, `finish` gives that group key and the participant's value of the polynomial |
| `RobustKeyGeneration.RobustKeys` | crates/ice-frost/src/dkg/key_generation.rs:903-1184 | for dealers of any kind, all honest participants finish with one group key and with values of one polynomial, no longer than the longest commitment and so of at most t coefficients after a bootstrap |
| `RobustKeyGeneration.ThresholdRecovers` | crates/ice-frost/src/dkg/key_generation.rs:1022-1083 | any t of the honest keys interpolate to the secret of the group key, if no commitment is longer than t |
| `RobustKeyGeneration.OneKeyShortExactly` | crates/ice-frost/src/dkg/key_generation.rs:1022-1083 | t - 1 of them do so if and only if the polynomial has no coefficient t - 1 |
| `BootstrappedSessions.NobodyExcluded` | crates/ice-frost/src/dkg/key_generation.rs:790-793 | with nobody excluded in round one and indices up to n, no dealer exceeds the stored n |
| `BootstrappedSessions.ProceedsExactly` | crates/ice-frost/src/dkg/key_generation.rs:640-1000 | when a participant gets through both rounds: n packets, each with its proof and t of them valid, and then t good shares |
| `BootstrappedSessions.HonestDealersSuffice` | crates/ice-frost/src/lib.rs:974-976 | with t honest dealers it does get through, whatever the others publish, if it has the proof of its secret key, and whatever they send |
| `BootstrappedSessions.BootstrappedKeys` | crates/ice-frost/src/dkg/key_generation.rs:640-1184 | the robust theorem from the packets on, whoever round one turns away: bootstrap, round two, one settlement and finish, for any shares the dealers send, if the complaints accuse indices up to the n left by round one |
| `BootstrappedSessions.ResharedKeys` | crates/ice-frost/src/dkg/key_generation.rs:684-1184 | the same for the new participants of a resharing with dishonest resharers, on a polynomial no longer than the longest commitment |
| `BootstrappedSessions.FullSessionKeys` | crates/ice-frost/src/dkg/key_generation.rs:640-1184 | with nobody turned away and indices up to n, the same without a condition on the complaints |
| `SettlementLimits.LaterSettlement` | crates/ice-frost/src/lib.rs:1153-1154 | after a settlement, a complaint against a removed index counts against its maker; every other verdict is unchanged |
| `SettlementLimits.LaterBatchExactly` | crates/ice-frost/src/lib.rs:1153-1154 | a later batch of complaints against removed dealers leaves the state as it is if and only if none of their makers is held any more |
| `SettlementLimits.SettledTwiceExactly` | crates/ice-frost/src/lib.rs:1153-1154 | settling one batch twice is settling it once if and only if the makers of its complaints against removed dealers are removed too or were never held |
| `SettlementLimits.SecondCallRemovesMaker` | crates/ice-frost/src/lib.rs:1153-1154 | a concrete session, from packets to keys, in which the second call removes the honest maker and the group key with it |
| `SettlementLimits.ReducedCountKeepsBadDealer` | crates/ice-frost/src/dkg/key_generation.rs:1122-1125 | a concrete session where the reduced n makes `blame` keep the bad dealer 3 and remove its victim |
| `SettlementLimits.WithheldShareMisleads` | crates/ice-frost/src/lib.rs:974-976 | a concrete session in which a dealer withholds one share: no complaint, and `finish` gives a key that does not belong to the group key |
| `SettlementLimits.MadeUpShareAccepted` | crates/ice-frost/src/dkg/key_generation.rs:1118-1168 | with any key pair, the registered one of the receiver included, a complaint about a made-up share counts against any dealer up to n |
| `SettlementLimits.RegisteredVerdictExactly` | crates/ice-frost/src/dkg/key_generation.rs:1118-1168 | a verdict is the one the registered key gives if and only if the share is bad under both keys or neither, and always when the complaint states the registered key |
| `SettlementLimits.SentShareExactly` | crates/ice-frost/src/dkg/key_generation.rs:1118-1168 | a complaint about a share that an honest dealer sent, under any key, counts against the dealer if and only if the share does not open under that key to what was sent |
| `SettlementLimits.HonestDealerSafe` | crates/ice-frost/src/dkg/key_generation.rs:1118-1168 | a complaint about a share an honest dealer sent, filed with the registered key, counts against its maker |
| `SettlementLimits.ForeignKeyExactly` | crates/ice-frost/src/dkg/key_generation.rs:1133-1168 | if the cipher checks its key, that is if and only if the key is not the registered one |
| `SettlementLimits.ForeignKeyRemovesHonest` | crates/ice-frost/src/dkg/key_generation.rs:1133-1168 | a concrete session of honest dealers, in which a complaint under a foreign key removes one of them |
| `HonestSessions.HonestRoundOne` | crates/ice-frost/src/dkg/key_generation.rs:704-882 | round one over honest packets, in any order, excludes nobody and reaches one known state |
| `HonestSessions.HonestShareOpens` | crates/ice-frost/src/dkg/key_generation.rs:942-975 | dealer and receiver derive the same key, so an honest share opens and verifies |
| `HonestSessions.HonestRoundTwo` | crates/ice-frost/src/dkg/key_generation.rs:903-1000 | round two over honest shares, in any order, stores all of them and complains about none |
| `HonestSessions.HonestFinish` | crates/ice-frost/src/dkg/key_generation.rs:1012-1083 | `finish` then gives the values of the dealers' joint polynomial |
| `HonestSessions.JointKeepsSecret` | crates/ice-frost/src/dkg/participant.rs:244-281 | the joint polynomial of a resharing has the old secret at zero when enough members reshare their values |
| `HonestSessions.StaticGroupKey` | crates/ice-frost/src/dkg/key_generation.rs:684-1083 | resharing to any (n', t') keeps the group key: every new member who runs `new`, `to_round_two` and `finish`, on packets and shares in any order, gets the old key and a value of one polynomial of at most t' coefficients |
| `HonestSessions.GroupKeyKeptExactly` | crates/ice-frost/src/dkg/key_generation.rs:684-701 | with all but one first point an old public share, the group key is kept if and only if that one is its old public share too |
| `HonestSessions.DeviatingResharer` | crates/ice-frost/src/dkg/key_generation.rs:684-1083 | resharers with any polynomials are accepted and all new members finish; with one deviating, the old group key comes out if and only if that one deals its old value |
| `HonestSessions.LengtheningResharer` | crates/ice-frost/src/dkg/key_generation.rs:684-1083 | with all but one resharer dealing at most t' coefficients, all new members finish on a polynomial that has none beyond if and only if that one deals none; with one more, t' new keys give the secret only if it is zero |
| `Keys.RecomputeShare` | crates/ice-frost/src/keys.rs:152-182 | the nested loops interpolate the committed values at the index; they are refused exactly when a stated index repeats, or is zero |
| `Keys.GenerateFromCommitments` | crates/ice-frost/src/keys.rs:152-182 | the verifying key recomputed for a participant, or the error of the interpolation |
| `Keys.VerifyKey` | crates/ice-frost/src/keys.rs:95-130 | a verifying key is accepted exactly when it is the recomputed one, with the two errors told apart |
| `PublicRecomputation.PublicShareIsPolynomial` | crates/ice-frost/src/keys.rs:152-182 | for every index the recomputed share is the value of the group's polynomial, in any order of the commitments |
| `PublicRecomputation.RecomputationAgrees` | crates/ice-frost/src/keys.rs:212-219 | the public half of the key from `finish` is the recomputed one, and so the only one `verify` accepts |
| `PublicRecomputation.GroupKeyRecomputed` | crates/ice-frost/src/keys.rs:152-182 | the group key is the share recomputed for index zero |
| `StatedIndices.RestatedRoundOne` | crates/ice-frost/src/dkg/key_generation.rs:704-882 | whatever indices the commitments state, round one fails alike, turns away the same dealers and deals the same shares |
| `StatedIndices.StatedIndexUnchecked` | crates/ice-frost/src/dkg/key_generation.rs:704-1083 | over round one, round two and `finish`, the complaints, the errors and the keys do not depend on the stated indices |
| `StatedIndices.RecomputesExactly` | crates/ice-frost/src/keys.rs:152-182 | it gives the right share for all committed points and all participants if and only if the stated indices are distinct and not zero and each dealer weighs as much among them as among the dealers |
| `StatedIndices.RepeatedIndexRefused` | crates/ice-frost/src/keys.rs:160-177 | a concrete session through `finish` whose recomputation is refused for everybody |
| `StatedIndices.SwappedIndicesMislead` | crates/ice-frost/src/keys.rs:152-182 | a concrete session through `finish` with two indices swapped, where every recomputed share is wrong and no error is returned |
| `Precomputation.SecretCommitmentShareList.DropShare` | crates/ice-frost/src/sign/precomputation.rs:211-227 | removes the last copy of the share, or nothing |
| `Precomputation.DropLastConserves` | crates/ice-frost/src/sign/precomputation.rs:211-227 | exactly one copy goes, whatever the list |
| `Precomputation.GenerateCommitmentShareLists` | crates/ice-frost/src/sign/precomputation.rs:55-206 | each share hides the first nonce of its pair and binds the second, with their points, in order; the public list holds these points |
| `NonceUse.NoncesConserved` | crates/ice-frost/src/sign/signature.rs:311-335 | over any run of signing calls, what is left and what was used make up the original list |
| `NonceUse.NoncesUsedOnce` | crates/ice-frost/src/sign/signature.rs:324-335 | from a list without repetition no nonce is ever used twice, and the list is the original without those used, in order |
| `NonceUse.NoncesUsedOnceExactly` | crates/ice-frost/src/sign/precomputation.rs:211-227 | no run uses a nonce twice if and only if the list starts without repetition |
| `Signing.EncodeGroupCommitmentList` | crates/ice-frost/src/sign/signature.rs:150-167 | the encoding of the list, and a panic for an empty one |
| `Signing.ComputeBindingFactors` | crates/ice-frost/src/sign/signature.rs:169-198 | a factor for exactly the listed indices, h1 of h4 of the message, h5 of the encoded commitments and the four bytes of the index |
| `Signing.ComputeGroupCommitment` | crates/ice-frost/src/sign/signature.rs:242-259 | the sum over the signers, or an error if some signer has no factor |
| `Signing.CommitmentForParticipant` | crates/ice-frost/src/sign/signature.rs:210-240 | the commitment D + rho E of the last entry with the index, with the same factor rho |
| `Signing.CommitmentsAgree` | crates/ice-frost/src/sign/signature.rs:169-259 | over distinct signers the commitments per participant sum to the group commitment, both from one transcript |
| `Signing.SignatureVerifiesExactly` | crates/ice-frost/src/sign/signature.rs:261-278 | `verify` decides z G = R + c P for c the h2 hash of R, P and the message hash |
| `Signing.SignatureBoundExactly` | crates/ice-frost/src/sign/signature.rs:693-711 | a valid signature is valid for another message if and only if both hash to the same challenge |
| `Transcripts.EncodedTells` | crates/ice-frost/src/sign/signature.rs:150-167 | with points encoded injectively in a fixed length, different lists of signers are encoded differently |
| `Transcripts.EncodedConcat` | crates/ice-frost/src/sign/signature.rs:150-167 | lists are encoded entry after entry, each as index, hiding and binding point |
| `Transcripts.FactorInputTells` | crates/ice-frost/src/sign/signature.rs:169-198 | what h1 is given is equal only for one index and for messages and lists that h4 and h5 do not tell apart |
| `Transcripts.GroupCommitmentWritten` | crates/ice-frost/src/sign/signature.rs:242-259 | the group commitment is the sum of D_i + rho_i E_i over these factors |
| `Transcripts.SignedExactly` | crates/ice-frost/src/sign/signature.rs:303-341 | `sign` returns d + e rho + lambda s c with all hashes written out, or one of its errors under its exact condition |
| `Signing.Sign` | crates/ice-frost/src/sign/signature.rs:303-341 | the partial signature, or the first error; the nonce leaves the list exactly when signing succeeds |
| `SignatureAggregators.SignatureAggregator.IncludeSigner` | crates/ice-frost/src/sign/signature.rs:473-503 | push, sort, dedup and the limit, in place; too many signers leave the signer and take no key |
| `SignatureAggregators.SignatureAggregator.IncludePartialSignature` | crates/ice-frost/src/sign/signature.rs:537-541 | the last partial signature of an index replaces earlier ones |
| `SignatureAggregators.SignatureAggregator.RemainingSigners` | crates/ice-frost/src/sign/signature.rs:518-534 | the signers without a partial signature, sorted and deduplicated |
| `SignatureAggregators.SignatureAggregator.Finalize` | crates/ice-frost/src/sign/signature.rs:554-591 | a finalized state with the message hashed, or the list of index 0, late signers and signers without a key |
| `SignatureAggregators.CombinePartials` | crates/ice-frost/src/sign/signature.rs:619-631 | the loop sums the partial signatures in the order of the signers |
| `SignatureAggregators.CheckPartial` | crates/ice-frost/src/sign/signature.rs:647-679 | the check on one signer decides z_i G = R_i + c lambda_i pk_i, or fails as the interpolation does |
| `SignatureAggregators.IdentifyCheaters` | crates/ice-frost/src/sign/signature.rs:645-682 | the loop lists the signers that fail the check, in order, or returns the error of the interpolation |
| `SignatureAggregators.Aggregate` | crates/ice-frost/src/sign/signature.rs:602-683 | the combined signature if it verifies, and otherwise the outcome of the identification |
| `Aggregation.IncludePlaces` | crates/ice-frost/src/sign/signature.rs:483-491 | on an ascending list, push, sort and dedup put the signer in its place unless its index is there |
| `Aggregation.PlaceEntry` | crates/ice-frost/src/sign/signature.rs:483-491 | the first entry of an index stays and no other entry is touched |
| `Aggregation.IncludesExactly` | crates/ice-frost/src/sign/signature.rs:473-503 | the state and the result of including a signer, failing calls included |
| `Aggregation.RemainingIsLacking` | crates/ice-frost/src/sign/signature.rs:518-534 | the final sort and dedup of the remaining signers change nothing |
| `Aggregation.FinalizesExactly` | crates/ice-frost/src/sign/signature.rs:554-591 | finalizing succeeds exactly when every signer has a partial signature and a key |
| `Aggregation.FinalizeNamesExactly` | crates/ice-frost/src/sign/signature.rs:554-584 | a failing `finalize` names exactly the signers short of a partial signature or a key, and index 0 if some partial signature is missing |
| `Aggregation.FinalizeNamesInOrder` | crates/ice-frost/src/sign/signature.rs:554-584 | index 0 first, then the late signers, then those without a key, both ascending |
| `AggregatorHistory.HistoryTold` | crates/ice-frost/src/sign/signature.rs:473-541 | over every sequence of calls: signers ascend strictly, the first commitments, the last accepted key and the last partial signature of each index win |
| `AggregatorHistory.KeysWithinLimit` | crates/ice-frost/src/sign/signature.rs:491-501 | keys are taken only while at most n indices were seen, so there are never more than n |
| `AggregatorHistory.FinalizesAfter` | crates/ice-frost/src/sign/signature.rs:554-591 | finalizing succeeds if and only if at most n indices were included and each has a partial signature; then there are at most n signers, all complete |
| `ThresholdSigning.HonestSignersSucceed` | crates/ice-frost/src/sign/signature.rs:602-683 | honest signers holding values of one polynomial, enough for its length, aggregate to a signature that verifies under its value at zero, for all nonces and hashes |
| `ThresholdSigning.SessionSucceeds` | crates/ice-frost/src/sign/signature.rs:473-683 | the same from any history of calls on a new aggregator |
| `ThresholdSigning.GeneratedKeysSign` | crates/ice-frost/src/sign/signature.rs:303-683 | any t keys that a key generation with dishonest dealers gave to honest participants sign under the group key it ended with, if no commitment is longer than t |
| `ThresholdSigning.AllHoldVerifiesExactly` | crates/ice-frost/src/sign/signature.rs:633-641 | if no partial signature fails, the whole verifies exactly when the collected keys make the group key or the challenge is zero |
| `ThresholdSigning.CheckWritten` | crates/ice-frost/src/sign/signature.rs:647-679 | the check on a signer, with its factor and challenge written out as hashes |
| `ThresholdSigning.NamedInOrder` | crates/ice-frost/src/sign/signature.rs:645-682 | cheaters are named in ascending order |
| `ThresholdSigning.AggregationOutcome` | crates/ice-frost/src/sign/signature.rs:639-682 | a failing aggregation names exactly the signers whose check fails, so nobody if none fails, and somebody whenever the collected keys make the group key |
| `ThresholdSigning.NobodyNamedExactly` | crates/ice-frost/src/lib.rs:1574-1578 | aggregation fails without naming anyone if and only if every check holds, the challenge is not zero and the collected keys do not make the group key |
| `ThresholdSigning.HonestNamedExactly` | crates/ice-frost/src/lib.rs:1574-1578 | when aggregation fails, an honest signer is named if and only if the key collected for it is not its own and the challenge times its coefficient is not zero |
| `ThresholdSigning.HonestNeverNamed` | crates/ice-frost/src/lib.rs:1574-1578 | a signer who ran `sign` on the same inputs and whose own key was collected is never named, whatever the others sent |
| `ThresholdSigning.OneSignerShort` | crates/ice-frost/src/sign/signature.rs:602-683 | honest signers whose own keys were collected, one fewer than the polynomial has coefficients: aggregation fails and names nobody, unless the last coefficient or the challenge is zero |
| `ThresholdSigning.ShortSession` | crates/ice-frost/src/sign/signature.rs:543-591 | the same from any history of calls: `finalize` does not notice that a signer is missing |
| `ThresholdSigning.AggregationErrors` | crates/ice-frost/src/sign/signature.rs:602-658 | the other failures: a panic exactly for no signers, and `IndexIsZero` exactly for a failing signature with a signer of index zero |
| `ThresholdSigning.EmptyAggregatorPanics` | crates/ice-frost/src/sign/signature.rs:153-154 | `finalize` does not ask for t signers: a new aggregator finalizes and then panics |
| `AggregationLimits.NobodyNamed` | crates/ice-frost/src/lib.rs:1574-1578 | a history of calls with one honest signer and a foreign group key, after which aggregating fails and names nobody, unless its challenge is zero |
| `AggregationLimits.HonestSignerNamed` | crates/ice-frost/src/lib.rs:1574-1578 | a history of calls with a wrong key for an honest signer and a wrong partial signature of another, after which the honest signer is named, unless the challenge is zero |
| `AggregationLimits.IndexZeroNamesNobody` | crates/ice-frost/src/sign/signature.rs:647-658 | a history of calls with a signer of index zero, after which aggregating returns `IndexIsZero` |
| `DkgEngines.DkgEngineState.DkgInit` | crates/actors/src/dkg_engine_actor.rs:80-105 | the engine with its own packet; counts and index are taken modulo 2^32, and bad parameters or index zero panic |
| `DkgEngines.DkgEngineState.HandleInitRoundOutput` | crates/actors/src/dkg_engine_actor.rs:171-222 | one more packet; when the packets are complete, the bootstrap, its stored state, its own share and the shares to gossip |
| `DkgEngines.DkgEngineState.StoreShares` | crates/actors/src/dkg_engine_actor.rs:224-268 | one more share; when the shares are complete, round two without complaints, the keys, and the messages announcing them; every unwrap that fails is a panic |
| `DkgEngines.AnnounceKeys` | crates/actors/src/dkg_engine_actor.rs:239-265 | what is announced: the group key, the verifying key of the signing key, one pair of nonces and their points |
| `EngineFailures.HearPanicsExactly` | crates/actors/src/dkg_engine_actor.rs:171-222 | handling a packet panics if and only if it completes the count and the bootstrap fails or lacks the node's own index |
| `EngineFailures.HearsExactly` | crates/actors/src/dkg_engine_actor.rs:171-222 | otherwise, what the engine keeps and gossips |
| `EngineFailures.StoringPanicsExactly` | crates/actors/src/dkg_engine_actor.rs:224-240 | with a share of every dealer, the last share map panics if and only if some share is bad: one dealer can stop a node |
| `EngineFailures.ClosesExactly` | crates/actors/src/dkg_engine_actor.rs:234-240 | round two and `finish` go through without complaint if and only if no share is bad |
| `EngineFailures.StoringEnds` | crates/actors/src/dkg_engine_actor.rs:224-240 | when they do, the state is used up and the keys are those of `finish` |
| `EngineSteps.NodeHears` | crates/actors/src/dkg_engine_actor.rs:171-222 | hearing a further node never panics and keeps the engine's invariant |
| `EngineSteps.NodeReceives` | crates/actors/src/dkg_engine_actor.rs:224-268 | receiving a further share never panics, keeps the invariant, and finishes exactly with the last share |
| `GossipNetwork.StepSafe` | crates/actors/src/dkg_engine_actor.rs:112-268 | every step of the network that may happen runs its handler without panic and keeps the invariant of all nodes |
| `GossipRuns.NoHandlerPanics` | crates/actors/src/dkg_engine_actor.rs:171-268 | over every interleaving with at-most-once delivery, losses and early messages included, no unwrap or assertion fails |
| `GossipRuns.FinishedNodesAgree` | crates/actors/src/dkg_engine_actor.rs:224-268 | a finished node has finished once, holds exactly one share of each of the n nodes, and has the group key and its value of the one joint polynomial |
| `GossipRuns.FinishesExactly` | crates/actors/src/dkg_engine_actor.rs:185-235 | a node finishes if and only if every other node's packet and share map reached it after its start and the last of these messages was a share map |
| `GossipRuns.AnnouncementFits` | crates/actors/src/dkg_engine_actor.rs:239-265 | the verifying key and the group key that a finished node of a run announces are what anyone recomputes from the commitments |
| `GossipCompletion.CompletesExactly` | crates/actors/src/dkg_engine_actor.rs:112-268 | a run can be continued until all nodes have finished if and only if no message was dropped and no unfinished node has got all its share maps |
| `GossipCompletion.CompleteRun` | crates/actors/src/dkg_engine_actor.rs:80-268 | every set-up has a run in which all nodes finish, each with the keys of the joint polynomial |

## Left out

- Gossip, swarm, RPC, terminal interface, key files and node start-up: input and output around the protocol.
- `app_state_actor.rs` and `election_actor.rs`: wiring with a fixed 3-of-2 set-up and a floating-point threshold.
- The guest ledger in `crates/methods/guest` and account hashing: they move balances between two addresses and hash accounts, apart from the protocols here.
- Curve arithmetic, hash functions, key derivation, authenticated encryption and serialization: abstract functions, so their own error returns do not occur.
- Secrecy, unforgeability and soundness of the proofs: computational claims that this code does not decide.
- Zeroization, constant-time comparison, formatting and derived byte encodings.
- Debug assertions: of the receiver index of a share, of the mode of round one, and of the parameters.
- Nonce derivation through h3: the two nonces of a pair are parameters.
- The dealer's `None` for an empty list of misbehaving participants: an empty list here.
- Complaints during a resharing: a blamed maker is a signer index that may coincide with a dealer's. The settlement lemmas hold for the maps as they are, and do not claim that such a dealer deserved it.
- A second start of a node that is already running, and nodes that do not follow the protocol of the actor.
- `from_single_key`, which gives a lone key the index 1, and the orderings and equalities of participants, which compare their indices.
- `RobustKeyGeneration.RobustKeys`: requires one share from each valid dealer, distinct non-zero indices and accused indices up to the stored n; `ConsistentAfterBatch` and `ConsistentExactly` show that the first and the last condition are exact.
- `BootstrappedSessions.BootstrappedKeys`: requires that both rounds succeed for every participant, the same as `RobustKeys`, and that all settle the same complaints; `ProceedsExactly` says when the rounds succeed, and `ConsistentAfterBatch` what a withheld share does.
- `HonestSessions.StaticGroupKey`: for resharers that send honest shares of t' coefficients, because `new` does not check the degree of their commitments; `DeviatingResharer` and `LengtheningResharer` say what one with another constant term or with more coefficients does.
- `ThresholdSigning.HonestNeverNamed`: requires that the key collected for the signer is its own; `HonestNamedExactly` shows that this is needed.
