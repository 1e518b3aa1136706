# A verified model of the EigenX KMS key protocol

A set of operators holds a BLS12-381 master secret as Shamir shares. They create it in one
distributed key generation, refresh their shares every interval while operators join and leave,
and answer clients with partial signatures from which an application key is recovered. This
project models that protocol in Dafny and proves what it is for: the secret survives every run,
wrong answers from some operators do not change a recovered key, the nodes of a round that expect
the same dealers agree on the submitted ones and on the source version although they see different
reads and different messages, and a node that restarts decides as if it had not.

`dafny verify dfyconfig.toml` checks everything.

## Layout

Algebra, from the ground up:

- `NumberTheory.dfy`, `PrimeField.dfy`: Bezout, Euclid's lemma, and the field of a left-open prime
  `R`; scalars are residues, inverses come from Bezout.
- `Curve.dfy`: G1, G2 and GT by their exponents. A point is `k` times a generator, addition adds
  exponents and the pairing multiplies them.
- `Lists.dfy`: filtering a list in order, sizes of finite sets.
- `Addresses.dfy`, `Interpolation.dfy`, `Combination.dfy`: operator addresses and their field
  points, Lagrange interpolation at zero, linear combinations of polynomials.

The program, file by file:

- `Polynomials.dfy` (pkg/bls/polynomial.go), `Dkg.dfy` (pkg/dkg/dkg.go), `Reshare.dfy` and
  `SourceVersions.dfy` (pkg/reshare/reshare.go).
- `Binomial.dfy`, `Combinations.dfy`, `Sorting.dfy`, `AppKeyRecovery.dfy`, `MasterPublicKey.dfy`,
  `Ibe.dfy` (pkg/crypto/bls.go), `Merkle.dfy` (pkg/merkle/merkle.go).
- `KeyStore.dfy` (pkg/keystore/keystore.go), `Node.dfy` (pkg/node/autoheal.go and the persistence
  parts of pkg/node/node.go), `OperatorSets.dfy` and `DealerAgreement.dfy` (pkg/node/node.go,
  pkg/contractCaller/caller/blockLookup.go).

State machines and whole-run results:

- `Cluster.dfy`, `ClusterConsequences.dfy`: one key generation and any sequence of reshare rounds.
- `NodeRounds.dfy`: the same runs seen from nodes that each have only their own messages, as a
  refinement of `Cluster.dfy`. `HonestRuns.dfy`: such runs exist, and honest rounds never abort.
- `Divergence.dfy`, `UnevenVectors.dfy`: what happens when nodes use different dealer lists, or
  vectors do not have threshold length.
- `ByzantineRecovery.dfy`: what retry recovery returns when some signatures are wrong.
- `AutoHeal.dfy`: aborts, rollbacks, successes and restarts of one node. `Node.dfy` proves the
  imperative code, on shared objects and persisted records, to be these transitions.

Loops and updates of the source are methods proved against a specification function; the results
about runs are lemmas over those functions. A collision-free hash (`Injective`), distinct nonzero
operator points (`DistinctPoints`, `NonzeroPoints`) and correct primitives (`PrimitivesLaw`) appear
as hypotheses where a result needs them, never as facts.

## Where code and comments part

- pkg/node/node.go:2463-2468 says that all honest nodes select the identical kept dealer list. The
  version they select is the same (`SourceVersionAgreement`), but `VerifyDealerSourceVersions` drops
  dealers whose commitments this node has not received (pkg/reshare/reshare.go:243), so the lists can
  differ: `KeptDealersMayDiffer` has four honest dealers and two nodes that each missed one.
  `SameDealersKeptIff` says exactly when the lists are equal.
- pkg/node/node.go:2818-2824 says that a node finalizing on a dealer list different from its peers'
  fails master-public-key validation. It need not: whatever the old sharing is, for any two lists
  that do not name the same dealers there is an honest dealing, every dealer from its own share, that
  both pass, and after it a threshold of shares with one from the other list gives another secret.
  `SamePolynomialIffSameDealers` and `MixedRecoveryIffSameDealers` make "one dealer list per round"
  the exact condition, and `DivergentDealersGoUnnoticed` is the smallest case.
- pkg/node/node.go:1167-1170 calls the expected dealers identical on every honest node. They are
  computed from the holders that a node's active version names, so nodes on different active versions
  can expect different dealers. `SameDealersExpectedIff` says when they do not, and `TwoNodesAgreeIff`
  when the submitted dealers read at the cutoff are the same; `TwoNodesAgree` takes one expected list.
- pkg/reshare/reshare.go:137-138 and pkg/node/node.go:1964-1966 say that adding up what all operators
  publish gives the master public key. That is true of the dealers only: an operator that joined, or
  was left out of the dealer list, publishes too, and the client adds it
  (pkg/clients/kmsClient/client.go:249-309). `AggregateAfterReshareIff` and `AggregateAfterDkgIff` give
  the exact condition; one joiner whose share is not zero breaks it (`ExtraOperatorIff`,
  `JoinerBreaksTheAggregate`). The client uses this sum only when too few operators name a key.
- The joining path stores its share without that check (pkg/node/node.go:2881-2924);
  `JoinerShareIsRightIff` says exactly when the share is right anyway.
- The agreed list is sized against the new threshold (pkg/node/node.go:2436, 2458, 2469), so a
  shrinking committee can fall below the number of coefficients of the old polynomial;
  `ShortDealerListIsRejected` shows that the check then does its work, for every dealer list.
- `rollbackTarget` takes the last known good version without asking whether it is stored
  (pkg/node/autoheal.go:58); `RollsBackIff` states when a demotion finds a way back and
  `UnstoredLkgBlocksTheWalkBack` is a run that stays on a poisoned version with an older good one
  in store.
- `FinalizeKeyShare` skips commitment vectors of the wrong length but sums those dealers' shares
  (pkg/dkg/dkg.go:107-122). `UnevenKeyGeneration` says what the shares then lie on and exactly when
  the cached key still fits; one such dealer breaks it (`WrongLengthSplitsTheKey`).
- `VerifyNewShare` accepts a vector of any length and the key check reads first entries only
  (pkg/reshare/reshare.go:86-112, 173-219). The secret stays (`UnevenReshare`), but a vector with an
  extra entry raises the number of holders needed unless that entry is zero
  (`LongVectorKeepsThresholdIff`).
- A key generation compares neither the nodes' dealer lists nor the vectors a dealer sent to
  different nodes (pkg/node/node.go:1931-1951, 3404-3477); `SameGenerationIffSameDealers` and
  `EquivocationSplitsIff` say exactly what differs then. In a reshare the on-chain hash forces one
  vector per dealer (`BoundDealersDealOneVector`).

- `ActivatePendingVersion` unflags the former active object last (pkg/keystore/keystore.go:164-168),
  so promoting an object that `SetActiveVersion` had already made active leaves it unflagged; the
  contract says that this is the only such case.

## Model

| member | source | states |
|---|---|---|
| Interpolation.InterpolatesAtZero | pkg/bls/polynomial.go:65-92 | For every polynomial with at most as many coefficients as there are distinct points, the Lagrange sum of its values at zero is its constant term |
| Interpolation.LagrangeAnyOrder | pkg/bls/polynomial.go:96-114 | The Lagrange sum does not depend on the order in which a map is read, neither the outer loop's nor the coefficients' |
| Polynomials.ComputeLagrangeCoefficient | pkg/bls/polynomial.go:67-92 | The loop over reduced field elements computes numerator over denominator of the integer specification |
| Polynomials.RecoverSecret | pkg/bls/polynomial.go:96-114 | For every enumeration of the map, the result is the Lagrange sum at zero; a zero secret is the one error |
| Polynomials.GenerateShares | pkg/bls/polynomial.go:118-126 | Exactly the participants get a share, each the polynomial's value at its own point |
| Polynomials.SharesRecoverSecret | pkg/bls/polynomial.go:94-126 | Any set of at least as many shares as coefficients interpolates to the constant term |
| Polynomials.ShareAndRecover | pkg/bls/polynomial.go:94-126 | Recovery inverts sharing: the constant term comes back, or the zero error exactly when it is zero |
| Polynomials.CreateCommitments | pkg/bls/polynomial.go:35-47 | The exponents of the commitments are the coefficients, in order |
| Polynomials.VerifyWithRunningPower | pkg/dkg/dkg.go:74-101 | The running-power check accepts exactly the value of the committed polynomial at the node's point |
| Polynomials.MultiExpEvaluates | pkg/bls/polynomial.go:130-171 | A multi-exponentiation by a table of powers evaluates the committed polynomial |
| Polynomials.VerifyShare | pkg/bls/polynomial.go:130-171 | The power-table form accepts exactly the same shares as the running-power form, and errs exactly on empty commitments, a nil share or a nil commitment |
| Dkg.CalculateThreshold | pkg/dkg/dkg.go:165-168 | The least whole number that is at least two thirds of n |
| Dkg.DKG.GenerateShares | pkg/dkg/dkg.go:43-71 | The stored polynomial, the shares and the commitments belong together, and every share passes verification at its operator |
| Dkg.DKG.VerifyShare | pkg/dkg/dkg.go:74-101 | Accepts a share if and only if it opens nonempty commitments at this node's point |
| Dkg.DKG.FinalizeKeyShare | pkg/dkg/dkg.go:104-140 | The private share is the sum over the map in any order; each published coefficient is the sum over the vectors of the right length |
| Dkg.CombinedCommitmentsAreTheSum | pkg/dkg/dkg.go:104-140 | With full-length vectors the combined commitments commit to the sum of the dealt polynomials |
| Dkg.SummedShareOnSummedPolynomial | pkg/dkg/dkg.go:104-140 | A sum of verified shares lies on the sum of the dealt polynomials, at the holder's point |
| UnevenVectors.UnevenKeyGeneration | pkg/dkg/dkg.go:104-140 | For nonempty vectors of any lengths, a sum of verified shares lies on the sum of all dealt polynomials, whose constant term adds up every first entry; entry 0 of the combined vector belongs to that constant exactly when the constants of the skipped vectors cancel |
| UnevenVectors.WrongLengthSplitsTheKey | pkg/dkg/dkg.go:107-122 | Among any number of dealers from the threshold up, one vector of another length with a nonzero constant term gives a cached key that does not belong to the shared secret |
| UnevenVectors.UnevenReshare | pkg/reshare/reshare.go:86-136 | For nonempty vectors of any lengths, refreshed shares lie on one polynomial as long as the longest vector, whose constant term is the exponent of the implied key |
| UnevenVectors.TopCoefficientDecides | pkg/bls/polynomial.go:94-114 | One holder fewer than there are coefficients recovers the constant term exactly when the top coefficient is zero |
| UnevenVectors.LongVectorKeepsThresholdIff | pkg/reshare/reshare.go:86-219 | If one dealer's vector has an extra entry, every share passes verification and the key check accepts, t holders recover the secret from the shares they computed exactly when that entry is the zero point |
| Resharing.Reshare.GenerateNewShares | pkg/reshare/reshare.go:40-74 | The dealt polynomial is anchored at the current share, its commitments belong to it and every share passes verification; errs exactly without a current share |
| Resharing.Reshare.VerifyNewShare | pkg/reshare/reshare.go:86-115 | Accepts a share if and only if it opens nonempty commitments at this node's point |
| Resharing.Reshare.ComputeNewKeyShare | pkg/reshare/reshare.go:118-158 | The refreshed share is the Lagrange sum over the dealer list and the published commitment is that share scaled by the node's own coefficient; errs exactly on an empty list |
| Resharing.MissingSharesAreSkipped | pkg/reshare/reshare.go:126-135 | A dealer whose share is missing adds nothing, while the coefficients still range over every dealer |
| Resharing.RefreshedShare | pkg/reshare/reshare.go:118-136 | Combining verified shares of every dealer gives a point of the refreshed polynomial |
| Resharing.RefreshedConstant | pkg/reshare/reshare.go:118-219 | The refreshed polynomial's constant term is the exponent of the group key that the dealers' first commitments imply |
| Resharing.ValidateReshareMasterPublicKey | pkg/reshare/reshare.go:173-219 | Accepts if and only if there are dealers, a key and a commitment from each dealer, and the Lagrange sum of the first commitments is the key |
| Resharing.AcceptsOneSourcePolynomial | pkg/reshare/reshare.go:160-219 | Accepts whenever the dealers dealt from shares of one polynomial with at most as many coefficients as dealers |
| Resharing.LambdaNonzero | pkg/bls/polynomial.go:67-92 | A Lagrange coefficient at zero over distinct nonzero points is never zero |
| Resharing.SingleDeviationDecides | pkg/reshare/reshare.go:160-219 | If all dealers but one dealt from accepted values, the check accepts exactly when that one did too |
| Resharing.PublishedCommitmentsAddUp | pkg/reshare/reshare.go:137-149 | What the dealers publish after a round adds up to the secret's public key when they are at least as many as the new coefficients |
| Cluster.GenerationConserves | pkg/node/node.go:1931-1962 | After a key generation on one dealer list with one vector per dealer, every share lies on one polynomial of threshold length and the cached key is its constant term times G2 |
| Cluster.RoundKeepsSecret | pkg/node/node.go:2522-2588 | A round that one existing operator accepted has the old secret as constant term, whoever dealt and whatever they dealt from |
| Cluster.RoundConserves | pkg/node/node.go:2522-2608 | Storing a round on one dealer list with one vector per dealer keeps the invariant at finalizers, joiners and bystanders |
| Cluster.ReactivateConserves | pkg/node/autoheal.go:89-144 | Re-pointing a node to a stored version keeps the invariant |
| Cluster.RunConservesSecret | pkg/node/node.go:2001-2618 | After one key generation and any rounds with changing operators, thresholds and dealers, each on one dealer list with one vector per dealer, the holders of every version hold points of one polynomial with the original secret as constant term, and every stored master public key is that secret times G2 |
| Cluster.StepEffect | pkg/keystore/keystore.go:29-40 | A finalizer gains the round's version, becomes active on it and keeps every other version; re-pointing changes a pointer only; all other nodes stay as they are |
| Cluster.RunKeeps | pkg/node/node.go:2590-2608 | Whatever a node held at any point of a run it holds, unchanged, at its end |
| Cluster.FinalizersStillHold | pkg/node/node.go:2522-2608 | At the end of a run every finalizer of every round still holds its point of that round's polynomial |
| HonestRuns.HonestRoundIsAllowed | pkg/node/node.go:2388-2588 | A threshold of holders of one version dealing from their stored shares can always be finalized by every operator of the new set |
| HonestRuns.RunsThroughCommittees | pkg/node/node.go:2001-2618 | For every secret and every sequence of committees in which enough members stay from each to the next, a run generates the secret and hands it over through all of them, joiners included, and every member of every committee still holds that committee's version |
| HonestRuns.RunsOfEveryLength | pkg/node/node.go:2001-2618 | For every secret and operator set with distinct points there are runs with any number of rounds, so the conservation results are not empty |
| ClusterConsequences.ThresholdOfHoldersRecovers | pkg/bls/polynomial.go:96-114 | After any run, any threshold of holders of any version reconstructs the original secret |
| ClusterConsequences.HonestDealersAreAccepted | pkg/node/node.go:2555-2588 | A round dealt from stored shares of one version by at least its threshold is never aborted by the key check |
| ClusterConsequences.JoinerShareIsRightIff | pkg/node/node.go:2881-2924 | A joiner, which runs no check, gets a share of the secret exactly when the check would have accepted |
| ClusterConsequences.ShortDealerListIsRejected | pkg/node/node.go:2436-2588 | For every dealer list there is a source polynomial with one coefficient more than dealers whose honest shares are rejected: the bound is tight |
| Divergence.SamePolynomialIffSameDealers | pkg/node/node.go:2413-2421 | For thresholds from 2 up and every source polynomial, two dealer lists give the same refreshed polynomial on every dealing that the key check accepts for both, or on every such dealing from shares of the source, exactly when they list the same dealers |
| Divergence.MixedRecoveryIffSameDealers | pkg/node/node.go:2413-2421 | A threshold of holders, one of whom finalized on the other list, recovers the secret on every such dealing, or on every one from shares of the source, exactly when the lists name the same dealers |
| Divergence.DivergentDealersGoUnnoticed | pkg/node/node.go:2818-2825 | The smallest case: three dealers dealing from shares of any polynomial with at most two coefficients, two lists of two that both pass the key check, and a threshold of shares that gives another secret |
| SourceVersions.PreimageFixesVersion | pkg/crypto/bls.go:182-203 | Equal hash preimages have equal source versions, whatever the commitments are |
| SourceVersions.PreimageLayout | pkg/crypto/bls.go:194-203 | The hashed bytes are the commitments followed by the version as eight bytes in two's complement, most significant first |
| SourceVersions.ConcatLayout | pkg/crypto/bls.go:194-203 | Each commitment stands where the ones before it end |
| SourceVersions.VerifyDealerSourceVersions | pkg/reshare/reshare.go:231-253 | Keeps, in order, exactly the agreed dealers whose received commitments and version hash to their on-chain value, with those versions |
| SourceVersions.SelectMajoritySourceVersion | pkg/reshare/reshare.go:279-323 | For a positive threshold, succeeds exactly when some known version has threshold support; returns the most supported one, ties to the higher, with exactly its dealers in order, never version 0 |
| SourceVersions.QuorumsIntersect | pkg/dkg/dkg.go:165-168 | Two lists of at least two thirds of n operators share an operator |
| SourceVersions.ThresholdVersionUnique | pkg/reshare/reshare.go:255-323 | At most one version reaches the threshold, so the tally's map order is irrelevant |
| SourceVersions.SelectSource | pkg/node/node.go:2441-2477 | Succeeds exactly when some nonzero version has a threshold of agreed dealers that the node can bind to it; selects the version with the most, the higher on a tie, and keeps exactly those dealers in order |
| SourceVersions.SourceVersionAgreement | pkg/reshare/reshare.go:231-323 | Two nodes that both succeed over the same on-chain hashes pick the same source version although they received different messages |
| SourceVersions.SameDealersKeptIff | pkg/reshare/reshare.go:231-323 | If what reached two nodes is what the dealers committed on chain, they keep the same dealers for a version exactly when they have heard from the same ones among the agreed dealers that committed to that version |
| SourceVersions.BoundDealersDealOneVector | pkg/reshare/reshare.go:220-253 | A dealer that two nodes bind to its on-chain hash has sent both the same commitments and version |
| SourceVersions.KeptDealersMayDiffer | pkg/reshare/reshare.go:243-250 | Two nodes that each missed one of four honest dealers both succeed, on different dealer lists |
| OperatorSets.ExpectedReshareDealers | pkg/node/node.go:1178-1200 | The previous holders that are still operators, in on-chain order; all operators without an active version or with an empty holder list |
| OperatorSets.SameDealersExpectedIff | pkg/node/node.go:1161-1200 | Two nodes expect the same dealers exactly when the holders they know agree on the current operators |
| OperatorSets.HoldersDoNotShrink | pkg/node/node.go:1127-1143 | Whatever dealer list a finished round's key came with, the next round over the same operators expects all of them to deal; with the dealer list kept, it would only if every operator had dealt |
| OperatorSets.ValidateReshareOperatorOverlap | pkg/node/node.go:1098-1125 | Passes exactly when nobody held a share before or the remaining holders reach the old threshold |
| OperatorSets.OverlapCountsExpectedDealers | pkg/node/node.go:1095-1200 | The overlap that is checked is the number of dealers that the round will expect |
| DealerAgreement.CutoffIff | pkg/node/node.go:1202-1241 | The cutoff is the first block after genesis whose timestamp is not below the deadline block's |
| DealerAgreement.AgreementFromRegistry | pkg/node/node.go:1327-1366 | The agreed dealers are the expected ones with a nonzero hash in the registry at the cutoff, and the hashes are the registered ones |
| DealerAgreement.AgreementNeverChanges | pkg/node/node.go:1202-1241 | The L2 cutoff, once defined, and with it the agreed set, stays the same as the append-only chains grow |
| DealerAgreement.ChainReader.L2TimestampAt | pkg/contractCaller/caller/blockLookup.go:9-21 | Reads a visible block, the head for number 0, and fails otherwise |
| DealerAgreement.ChainReader.FirstBlockAtOrAfterTimestamp | pkg/contractCaller/caller/blockLookup.go:23-83 | A returned height is the first block after genesis that reaches the target, however the view changed during the search; errors come only from failed or early reads |
| DealerAgreement.ChainReader.ResolveCutoffL2 | pkg/node/node.go:1208-1241 | A resolved cutoff is the one fixed by the chains and the deadline block |
| DealerAgreement.ChainReader.ReadCommitments | pkg/node/node.go:1327-1366 | A dealer is in the result exactly when the registry at the cutoff holds a nonzero hash for it, in expected order and with that hash; no dealer is skipped for a failed read |
| DealerAgreement.ChainReader.DeriveAgreedDealerSet | pkg/node/node.go:1270-1367 | A returned set is a function of the chains, the trigger block and the expected list, and holds the registered hashes; no failure aborts a round if the network settles before the deadline |
| DealerAgreement.TwoNodesAgree | pkg/node/node.go:1243-1367 | Two nodes with one expected list, reading at different times with different failures, return the same dealers and hashes if both return |
| DealerAgreement.TwoNodesAgreeIff | pkg/node/node.go:1178-1367 | With each node's own expected list, two returned results are the same exactly when the holder lists agree on the operators that had submitted |
| DealerAgreement.AgreeOnSource | pkg/node/node.go:2430-2477 | If the network settles before the deadline, a node gets through exactly when some version has a threshold of agreed dealers that it can bind to it |
| DealerAgreement.TwoNodesAgreeOnSource | pkg/node/node.go:2430-2477 | From chain reads to source version: two nodes that both get through finalize on the same version, and, if what reached them is what was committed, on one dealer list exactly when they have heard from the same agreed dealers of that version |
| NodeRounds.OneListIff | pkg/node/node.go:2450-2477 | In a round, any two finalizing nodes have the same source version, and one dealer list under the same condition |
| NodeRounds.NodesFormOneDealing | pkg/node/node.go:2479-2521 | Nodes that keep the same dealers, each with its own messages, form one verified dealing with one vector per dealer |
| NodeRounds.FinalizeIsRound | pkg/node/node.go:2522-2608 | A round in which every node computes from its own list, messages and key is a round of the cluster with the same outcome |
| NodeRounds.NodeRunIsRun | pkg/node/node.go:2001-2618 | Every run of the nodes is a run of the cluster, ending in the same state |
| NodeRounds.RunIsNodeRun | pkg/node/node.go:2001-2618 | Every run of the cluster is a run of the nodes, ending in the same state |
| NodeRounds.NodeRunsConserveSecret | pkg/node/node.go:2001-2618 | Secret conservation for runs in which every node works with what it was sent |
| NodeRounds.EquivocationSplitsIff | pkg/node/node.go:1931-1962 | If a dealer of a key generation sends two nodes different vectors, their polynomials agree exactly in the coefficients in which the vectors do; the cached keys are equal as soon as the first entries are |
| NodeRounds.SameGenerationIffSameDealers | pkg/node/node.go:1931-1951 | Two dealer lists of a key generation give the same polynomial on every dealing exactly when they list the same dealers |
| Binomials.ChooseStep | pkg/crypto/bls.go:381-403 | Neighbouring binomial coefficients of a row, by Pascal's rule |
| Binomials.ExactStep | pkg/crypto/bls.go:393-401 | After dividing out the gcd the remaining division is exact and gives the next coefficient |
| Binomials.ProductFitsInt64 | pkg/crypto/bls.go:393-401 | Every product the loop forms fits a signed 64-bit integer |
| Binomials.Binomial | pkg/crypto/bls.go:381-403 | Computes the smaller of C(n, k) and the cap, and 0 outside 0..n; overflow of the cap half way implies it at the end |
| Binomials.ComputeGcd | pkg/crypto/bls.go:405-410 | The loop computes a common divisor that every common divisor divides and does not exceed |
| NumberTheory.GcdIsGreatest | pkg/crypto/bls.go:405-410 | Every common divisor divides the result of the gcd recursion, by Bezout |
| Combinations.ComboCount | pkg/crypto/bls.go:322-361 | There are C(n, t) subsets in the list |
| Combinations.EveryListedIsCombo | pkg/crypto/bls.go:322-361 | Every entry is strictly increasing and in range |
| Combinations.EveryComboIsListed | pkg/crypto/bls.go:322-361 | No subset is skipped |
| Combinations.ListIsLexicographic | pkg/crypto/bls.go:322-361 | The list is in strict lexicographic order, so no subset is repeated |
| Combinations.ListFollowsSuccessors | pkg/crypto/bls.go:348-361 | The list starts with the first t positions, each entry is followed by its successor, and only the last has none |
| Combinations.Advance | pkg/crypto/bls.go:348-361 | The in-place advance turns the indices into the successor, or reports that there is none and leaves them alone |
| Sorting.SortedIsUnique | pkg/crypto/bls.go:240-242 | With distinct addresses there is one sorted arrangement |
| Addresses.LessIff | pkg/merkle/merkle.go:143-152 | The order on addresses is ascending: the first byte that differs is the smaller one |
| AppKeyRecovery.RecoverAppPrivateKey | pkg/crypto/bls.go:229-272 | Combines exactly the first t signers in ascending byte order; errs exactly on too few signatures or a zero key |
| AppKeyRecovery.RecoverAppPrivateKeyWithRetry | pkg/crypto/bls.go:288-373 | With the signers in ascending byte order, returns the key of the first subset in lexicographic order that recovers within the cap, else reports exhaustion after all subsets or the cap after exactly that many |
| ByzantineRecovery.PairingAcceptsOnlyTheAppKey | pkg/crypto/bls.go:416-458 | The pairing check accepts exactly secret times H(appID) |
| ByzantineRecovery.RecoveredKeyIsTheAppKey | pkg/crypto/bls.go:288-373 | Whatever the signatures are, a key that retry recovery returns is the application key |
| ByzantineRecovery.CorrectSubsetCombines | pkg/crypto/bls.go:229-272 | Correct partial signatures of enough operators combine to the application key |
| ByzantineRecovery.ToleratesWrongSignatures | pkg/crypto/bls.go:274-379 | If t of the signatures are correct and C(n, t) fits under the cap, the application key is returned whatever the others are |
| ByzantineRecovery.AttemptsWhenNothingValidates | pkg/crypto/bls.go:324-372 | When no t-subset recovers a key that the validator accepts, exactly the smaller of C(n, t) and the cap subsets are tried; "exhausted" comes only after all C(n, t) |
| ByzantineRecovery.NothingValidatesIff | pkg/crypto/bls.go:288-458 | With the pairing check as validator, that is the case exactly when no t-subset of the signatures combines to the application key |
| ByzantineRecovery.ClusterServesTheAppKey | pkg/crypto/bls.go:274-458 | After any cluster run, a client with a threshold of correct answers under any stored version recovers secret times H(appID) |
| MasterPublicKeys.ComputeMasterPublicKey | pkg/crypto/bls.go:461-484 | Adds the first entries of the nonempty vectors and errs exactly when the sum is zero |
| MasterPublicKeys.AggregateAfterReshareIff | pkg/reshare/reshare.go:137-149 | The client's sum over the answering operators is the group public key exactly when the answers of non-dealers add up to what the silent dealers publish |
| MasterPublicKeys.AggregateAfterReshare | pkg/clients/kmsClient/client.go:249-309 | If exactly the dealers answer, in any order, the sum is the group public key |
| MasterPublicKeys.ExtraOperatorIff | pkg/clients/kmsClient/client.go:249-309 | With one operator besides the dealers, such as a joiner, the sum is the key exactly when that operator's share is zero |
| MasterPublicKeys.MissingDealerIff | pkg/clients/kmsClient/client.go:249-309 | With one dealer silent, the sum is the key exactly when that dealer's share is zero |
| MasterPublicKeys.JoinerBreaksTheAggregate | pkg/node/node.go:2881-2894 | After a round of constants with one joiner, the sum over everybody is never the key of a nonzero secret |
| MasterPublicKeys.FirstTermsFitIff | pkg/dkg/dkg.go:107-122 | Over one list of vectors, the first entries add up to entry 0 of the combined vector exactly when the constants of the vectors skipped for their length cancel |
| MasterPublicKeys.AggregateAfterDkgIff | pkg/node/node.go:1931-1966 | The client's sum over the answering operators is the key a node cached over its trusted dealers exactly when the skipped vectors and the extra answers add up to what the silent dealers dealt |
| MasterPublicKeys.AggregateAfterDkg | pkg/node/node.go:1951-1966 | If exactly the trusted dealers answer and all vectors have threshold length, the sum is the cached key |
| MasterPublicKeys.UntrustedOperatorIff | pkg/node/node.go:1931-1966 | With one answer from an operator outside the node's list, the sum is the cached key exactly when that operator dealt zero |
| Ibe.FormatIsExact | pkg/crypto/bls.go:664-676 | A byte string passes the format check exactly when it is an assembly of fields of the right sizes, and splits back into them |
| Ibe.Bilinear | pkg/crypto/bls.go:736-745 | Decryption's pairing of secret·Q with r·G2 is encryption's pairing raised to r |
| Ibe.EncryptSucceedsIff | pkg/crypto/bls.go:527-659 | Encryption fails exactly for a short app ID, a zero key, zero randomness or an app ID hashing to infinity |
| Ibe.DecryptIff | pkg/crypto/bls.go:691-792 | Decryption gives p exactly for an app ID of at least five bytes, a nonzero key, and a ciphertext of magic, version, a nonzero C1, nonce and sealed data that opens to p under the derived key and additional data; every failure is an error |
| Ibe.EncryptedForm | pkg/crypto/bls.go:571-658 | A ciphertext is magic, version, r·G2, nonce, and the plaintext sealed under the key for e(H(appID), key)^r with app ID, version and C1 as additional data |
| Ibe.AADLayout | pkg/crypto/bls.go:797-804 | The additional data is the app ID, the version byte and C1, in this order |
| Ibe.KeyInfoInjective | pkg/crypto/bls.go:808-821 | Different versions or applications never share a key-derivation info string |
| Ibe.DecryptInvertsEncrypt | pkg/crypto/bls.go:678-792 | Decryption with secret·H(appID) inverts encryption under secret·G2; the ciphertext passes the format check and splits back into C1 and nonce |
| Ibe.VerifiedKeyDecrypts | pkg/crypto/bls.go:416-792 | Any key that the pairing check accepts decrypts every ciphertext made for the application |
| KeyStores.ResolutionIsGreatest | pkg/keystore/keystore.go:210-232 | The loop's answer is exactly the greatest version not above the timestamp that is not poisoned |
| KeyStores.ResolutionIsMonotone | pkg/keystore/keystore.go:210-232 | A later timestamp never resolves to an earlier version |
| KeyStores.PoisoningMovesOnlyItsAnswers | pkg/keystore/keystore.go:100-117 | Poisoning a version changes only the answers that were that version, to the next lower good one |
| KeyStores.KeyStore.AddVersion | pkg/keystore/keystore.go:29-40 | Appends the object; a flagged one becomes the only active object |
| KeyStores.KeyStore.SetActiveVersion | pkg/keystore/keystore.go:43-52 | Moves flag and pointer together, for any object; the former active object loses its flag |
| KeyStores.KeyStore.SetActiveVersionByTimestamp | pkg/keystore/keystore.go:54-79 | Activates the store's own object for the version; refuses exactly a poisoned or unknown one and then changes nothing |
| KeyStores.KeyStore.ActivatePendingVersion | pkg/keystore/keystore.go:147-173 | Promotes the pending object unless it is missing or poisoned, and leaves it flagged exactly if it was not active already; a refusal changes nothing, its flag included |
| KeyStores.KeyStore.GetPrivateShareForVersion | pkg/keystore/keystore.go:183-208 | The exact version's share or an error, never a neighbour's |
| KeyStores.KeyStore.GetKeyVersionAtTime | pkg/keystore/keystore.go:210-232 | Returns a stored object whose number is the resolution |
| AutoHeal.StepConsistent | pkg/node/autoheal.go:71-183 | Every event keeps memory and persistence in agreement on all a restart needs |
| AutoHeal.RestartIsAlike | pkg/node/node.go:885-988 | A restored node has the same versions, pointer, poisoned set and count of aborts against the active version |
| AutoHeal.RestoredExactly | pkg/node/node.go:885-988 | All persisted versions, the persisted pointer or else the greatest version, the poisoned set, and the abort count if it is about the active version |
| AutoHeal.AlikeStep | pkg/node/autoheal.go:36-183 | Nodes that agree on these take the same demotion decision and keep agreeing, although their trackers may differ |
| AutoHeal.RestartsAreInvisible | pkg/node/node.go:885-988 | A run with restarts anywhere ends alike to the run without them |
| AutoHeal.RestartsDoNotChangeDecisions | pkg/node/autoheal.go:74-84 | Every later demotion decision is as if the node had never been restarted |
| AutoHeal.DemotionNeedsThreeCountedAborts | pkg/node/autoheal.go:9-46 | A demotion takes three aborts counted against one active version, with no success and no change of the active version between |
| AutoHeal.DemotesIff | pkg/node/autoheal.go:36-46 | An abort demotes exactly if the cluster agreed on the active version and it is at least the third that counts since the last success, creation or change of the active version |
| AutoHeal.LastKnownGoodIsLastAgreed | pkg/node/autoheal.go:146-183 | The last known good version is the one agreed on in the last successful round, through aborts, rollbacks, boundary writes and restarts |
| AutoHeal.DemotionMovesDownOrStays | pkg/node/autoheal.go:86-144 | A demotion poisons exactly the active version and moves strictly down to a stored good version, or stays |
| AutoHeal.DemotionTarget | pkg/node/autoheal.go:53-144 | A demotion moves to the last known good version if it is usable and stored, else (if none is usable) to the greatest stored good version below; otherwise it stays |
| AutoHeal.EventEffect | pkg/node/node.go:2590-2612 | Every other event leaves the poisoned set alone; only a new version changes what is stored and active |
| AutoHeal.RollsBackIff | pkg/node/autoheal.go:53-69 | Exactly when a demotion finds a way back |
| AutoHeal.UnstoredLkgBlocksTheWalkBack | pkg/node/autoheal.go:58-60 | A run that stays on a poisoned version although an older good one is stored |
| AutoHeal.RollbacksAreBounded | pkg/node/autoheal.go:86-144 | Between two successes the active version rolls back at most once per stored version below it |
| Nodes.FindRollbackTarget | pkg/node/autoheal.go:57-69 | A usable last known good version; otherwise the greatest version below that is not poisoned, and none exactly when there is none |
| Nodes.Node.RecordMPKAbort | pkg/node/autoheal.go:36-46 | The tracker update and decision of the state machine |
| Nodes.Node.PerformRollback | pkg/node/autoheal.go:89-144 | On shared objects and persisted records, exactly the state machine's rollback; no stored object is lost |
| Nodes.Node.OnMPKValidationAbort | pkg/node/autoheal.go:74-84 | Exactly the abort transition |
| Nodes.Node.CommitVersion | pkg/node/node.go:2590-2608 | Saves, points and adds, with the new object active and its share the persisted one |
| Nodes.Node.RecordSuccessfulReshare | pkg/node/autoheal.go:162-183 | Exactly the success transition on tracker and record |
| Nodes.Node.PersistBoundary | pkg/node/node.go:813-833 | A boundary write keeps the auto-heal fields |
| Nodes.Node.RestoreState | pkg/node/node.go:885-988 | From a fresh keystore, exactly the restored state, including a floor on a poisoned version, with every persisted share |
| Nodes.Restart | pkg/node/node.go:885-988 | A new node over the same persistence is alike to the old one and every version has the share it had |
| Nodes.Handle | pkg/node/autoheal.go:74-183 | Handling any event is one step of the state machine, so the run results above hold of the code |
| Merkle.LeafPreimageInjective | pkg/crypto/bls.go:823-843 | Different acknowledgements have different leaf preimages |
| Merkle.LeafPreimageLayout | pkg/crypto/bls.go:823-843 | Player, dealer, eight timestamp bytes with the most significant first, share hash, commitment hash |
| Merkle.SortAcknowledgements | pkg/merkle/merkle.go:137-155 | Returns a fresh permutation in ascending player order and leaves its input alone |
| Merkle.BuildMerkleTree | pkg/merkle/merkle.go:46-78 | The leaves are the hashes of the packed acknowledgements in ascending player order; errs exactly on an empty list |
| Merkle.OrderDoesNotMatter | pkg/merkle/merkle.go:41-78 | With distinct players every reordering of the input gives the same canonical list, hence the same leaves and root |
| Merkle.RecipientIndexIsLeafIndex | pkg/transport/client.go:373-400 | A recipient's index in an independently sorted list is the index of its leaf, and of no other |
| Merkle.LeafIndexFor | pkg/transport/client.go:373-404 | The lookup finds the operator's own leaf, and errs exactly when it has no acknowledgement |

## Left out

- Curve arithmetic and subgroup checks: points are exponents, so a point that is not in its group
  cannot be written down. Compressed encodings are 96-byte constants with a decoding law; decoding
  errors appear only for C1 in `Ibe.dfy`.
- SHA-256, Keccak, HKDF, AES-GCM and hash-to-curve are constants without a definition.
- Random sampling: the drawn coefficients, randomness and nonces are parameters.
- HTTP, authentication, attestation, and the acknowledgement phase: a delivered message is an
  authenticated input. Proof generation and verification live inside go-merkletree.
- Mutexes and goroutines: one protocol session and one call at a time, as pkg/node/autoheal.go:16-21
  assumes. Wall-clock waits are ticks, one per chain read; context cancellation is not represented.
- A client's sum takes answers that all come from one key version; operators that answer from
  another active version are not represented.
- Chain reorganisations: the chains are append-only and L2 timestamps do not decrease, which is the
  precondition stated at pkg/contractCaller/caller/blockLookup.go:38-41.
- Failing writes: persistence is an ideal store whose writes succeed. Retention of old versions is
  not represented.
- Cluster runs take one dealer list per round, commitment vectors of threshold length, and at least
  one existing operator among those who finalize. A key generation also takes one commitment vector
  per dealer for all nodes; for a reshare `NodeRounds.dfy` derives that. The section on code and
  comments names the results about rounds in which one of these fails. A dealer may deal from any
  share.
- Cluster.ReactivateConserves: any stored version may become active; which ones auto-heal chooses is
  the subject of `AutoHeal.dfy`, and the two state machines are not composed.
- RecoverAppPrivateKeyWithRetry: takes at most 9223372036 signatures, so that the combination count
  in its error message fits int64; a negative threshold, on which the source would fail to allocate,
  is not represented.
- Binomial: states nothing for n above 9223372036, where the product could leave int64.
- SortSlice: the order of equal keys in sort.Slice is unspecified, and only its contract is used; its
  own algorithm is an insertion sort on a copy.
- Persistence.SaveKeyShareVersion: is only given versions that are not stored yet, as session
  timestamps are; overwriting is not represented.
- EncryptForApp and DecryptForApp: are functions of their random draws; secrecy and the rejection of
  forged ciphertexts are not stated.
- Operator socket addresses, participant lists inside persisted versions and log output.
