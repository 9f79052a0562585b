# Distributed key generation: a verified model

This project models the distributed key generation of the mpc-node repository and proves what it
guarantees: Shamir sharing, Feldman verification and Lagrange reconstruction over a prime field,
driven as a message-passing protocol by `ADKGNode` (`src/adkg_layer.bkp.rs`, an older copy of which
is `src/adkg_layer_bkp.rs`) and by the live `DKGNode` (`src/dkg/mod.rs`).

## How it is built

- `PrimeField`, `Polynomials`, `Interpolation`: integers modulo a prime above every u64. The prime is
  a parameter, and the type `Modulus` is inhabited by Euclid's theorem. Inverses come from Bezout. Sums
  and polynomials are exact integers compared modulo the prime; the nodes' loops reduce at every step.
- `CyclicGroup`, `Feldman`: any cyclic group of that order, given by its operations on point encodings.
  The laws assumed (associativity, unit, the generator's order) are met by the additive group of the
  field, so they are consistent; inverses, commutativity and the discrete logarithm are derived.
- `MapSums`: sums over hash maps, defined by arbitrary choices and shown not to depend on them.
- `AdkgNode`, `DkgNode`: the two nodes as classes, with the source's loops over buffers and maps, each
  method proved against a function of the node's state.
- `AdkgRuns`, `DkgRuns`: the transition systems. Nodes start with any coefficients; messages are
  delivered to any node, the sender included, in any order, repeatedly or never. In `AdkgRuns`
  outsiders publish any well-formed message under identities that are not the nodes' own, and in its
  open runs under any identity, as the source never checks one; in `DkgRuns` anyone publishes any
  validation, and share distributions are the nodes' own.
- `AdkgOpenRuns`: the invariant of open runs, which depends only on what the handlers check.
- `AdkgTheorems`, `DkgTheorems`: what every run guarantees.
- `AdkgHistory`, `DkgHistory`: what a node holds, publishes and reports, as a function of the messages
  delivered to it.
- `AdkgCompletion`, `DkgCompletion`: what can be reached from every run. Schedules are built with and
  without loopback; without it no message is delivered to its own sender.
- `AdkgFailures`: runs that reach each way the first protocol fails its caller.
- `DkgOutcomes`: when the live protocol's keys are joint public keys, and when they interpolate to one.

Random coefficients are arguments. A failing publish or broadcast is a Boolean argument; a run goes on
after one, which only adds behaviours, since the programs stop there. Scalars and points on the wire
are canonical scalars and points of the group, as their decoders ensure (`src/types/bls.rs`).

## What the proofs found

- Starting stores a node's own commitments but not its own share (`src/adkg_layer.bkp.rs:109-112`), and
  nothing in `src/network_layer.rs:113-156` hands a node its own publication. The secret share and the
  public key then belong to one joint polynomial exactly when the node's own dealing is zero at its
  index (`KeysMatch`, `LocalKeyConsistency`); every node can reach keys that differ
  (`MismatchReachable`, `KeysDifferReachable`).
- Agreement inherits this. All public keys are that of the sum of the dealers' secrets, while the secret
  shares reconstruct that sum less what the missing own dealings reconstruct, so keys and shares fit
  exactly when the latter is zero (`KeyAgreementIff`). Wherever at least two nodes, more than any threshold,
  deal for each other's distinct indices, a run of starts and deliveries alone, none to its own sender,
  completes all nodes with no key that fits (`DisagreementReachable`). With every own dealing delivered back the nodes agree (`KeyAgreement`).
- Acks are counted by message, not by sender (line 196). Over all runs, completion comes with as many
  distinct senders as the threshold exactly for thresholds up to one (`DistinctAckersIff`); one valid ack
  delivered again completes a node in an extension of any run (`ReplayCompletes`). Senders may be
  outsiders: as many nodes among them are guaranteed only at threshold zero, and enough share holders to
  recover the node's dealing never (`NodeAckersIff`).
- The number of commitments is not checked (lines 173-192): an empty vector passes exactly for the zero
  share (`EmptyCommitments`). A handler panics exactly when its check fires over an empty vector
  (`PanicIff`), which with authentic identities is an outsider's (`VoidFromOutsiderIff`), and from any
  run an outsider can make any started node with an index panic (`PanicReachable`).
- `generate_group_key` (`src/dkg/mod.rs:225-234`) is a node's verification share. It is the joint public
  key exactly when the joint polynomial takes the same value at the node's index as at zero
  (`GroupKeyIsJointKeyIff`). All keys of all runs of a system are joint exactly when every node is
  covered by fewer dealers than its threshold, or by dealers of degree zero alone (`AlwaysJointIff`);
  three of five nodes named by their indices are not such a system (`WholeMisleads`).
- Nothing in `src/network/mod.rs:421-431` delivers a node's own broadcast back. Where all nodes deal, the
  keys together with the missing own points interpolate to the joint key, so that the keys alone do
  exactly when the own points interpolate to the identity (`GroupKeysUpToOwn`). Ordinary runs reach this
  for every threshold below the number of nodes (`AllDealInterpolate`), and can fail it for all nodes
  together (`InterpolationFails`). Threshold + 1 keys interpolate to the joint key outright where
  no own dealing is missing: with loopback, or where dealers and key holders are different nodes
  (`GroupKeysInterpolate`, `ApartInterpolate`).
- The live node looks for its share under its id parsed as an index. With the peer ids that
  `src/main.rs:65-70` passes, it stores nothing and never computes a key (`PeerIdNodesAreIdle`).
- Where the source does not compile as written, its intent is followed. Line 112 uses commitments
  already moved into the message, which `src/adkg_layer_bkp.rs:102` clones. Line 64 reads the constant
  coefficient after moving the coefficients: both are returned, as the test at lines 240-243 expects.
  Lines 71 and 187 give `pow` one limb of the exponent: the power j is taken, as
  `src/dkg/mod.rs:108` does with four limbs.
- `handle_share_validation` holds the write guard of `validations` while `check_completion` waits to
  read it (`src/dkg/mod.rs:204-215`); the model has the guard released first.

## Model

| member | source | states |
|---|---|---|
| `PrimeField.Invert` | src/adkg_layer.bkp.rs:222-223 | an inverse exists exactly for the nonzero scalars |
| `PrimeField.EuclidsLemma` | src/adkg_layer.bkp.rs:216-228 | the scalars have no zero divisors |
| `AdkgNode.Node.constructor` | src/adkg_layer.bkp.rs:44-57 | a new node has the given id, n, t and idx each in its own field, no keys and empty maps |
| `AdkgRuns.InitialSystem` | src/adkg_layer.bkp.rs:44-57 | nodes with any ids and any n, t and idx for each can start |
| `AdkgRuns.InitialIff` | src/adkg_layer.bkp.rs:44-57 | a start is a system in which no node has a key, a share, a commitment or an ack |
| `AdkgNode.Node.GeneratePolynomial` | src/adkg_layer.bkp.rs:59-65 | degree + 1 drawn coefficients, the secret being the constant term |
| `AdkgNode.Node.EvaluatePolynomial` | src/adkg_layer.bkp.rs:67-75 | the power-sum loop gives the value of Horner's rule |
| `Feldman.CommittedCommit` | src/adkg_layer.bkp.rs:77-82 | the commitments to a dealing are group points and determine every one of its coefficients |
| `AdkgNode.Node.StartAdkg` | src/adkg_layer.bkp.rs:84-115 | publishes, under its id, exactly n shares, the values at 1 to n of a degree-t polynomial, and the commitments of its t + 1 coefficients; keeps these, and nothing else, only if publishing succeeded |
| `AdkgHistory.NodeProposal` | src/adkg_layer.bkp.rs:84-98 | in every run a proposal under a node's identity carries exactly that, and is taken at an index exactly when it is in 1 to n |
| `AdkgHistory.StartedProposal` | src/adkg_layer.bkp.rs:94-107 | every started node has published one proposal and no other |
| `AdkgNode.Node.HandleMessage` | src/adkg_layer.bkp.rs:117-171 | the new state, the message published and the outcome, for proposals and acks, publishing errors and panics included |
| `AdkgHistory.PublishFailedIff` | src/adkg_layer.bkp.rs:140-152 | a handler reports a publishing error exactly for a proposal it takes whose ack cannot be published |
| `AdkgHistory.FinishedIff` | src/adkg_layer.bkp.rs:117-171 | it finishes exactly otherwise, unless its check panics |
| `AdkgHistory.PublishedIff` | src/adkg_layer.bkp.rs:140-152 | it publishes exactly its valid ack of a proposal it takes |
| `AdkgHistory.AckToOtherIgnored` | src/adkg_layer.bkp.rs:154-170 | an ack to another node changes nothing anywhere and finishes |
| `AdkgHistory.AcksRecorded` | src/adkg_layer.bkp.rs:159-165 | in every run the acks recorded under a sender are exactly those delivered, valid or not, in order |
| `AdkgHistory.LatestProposalStored` | src/adkg_layer.bkp.rs:128-138 | in every run a node stores under each identity the share and commitments of the proposal it took last, and besides only its own commitments |
| `AdkgNode.Node.VerifyCommitments` | src/adkg_layer.bkp.rs:173-192 | accepts exactly an index in range whose share satisfies the Feldman equation, stated by Horner's rule among points |
| `AdkgNode.Node.CountValidAcks` | src/adkg_layer.bkp.rs:195-196 | the number of valid entries over all senders, in any iteration order |
| `AdkgNode.Node.CheckCompletion` | src/adkg_layer.bkp.rs:194-214 | below t valid acks nothing changes; from t on the share sum is stored, then the key sum unless a stored vector is empty |
| `AdkgNode.Node.SumShares` | src/adkg_layer.bkp.rs:197-202 | the share sum, in any iteration order |
| `AdkgNode.Node.SumKeys` | src/adkg_layer.bkp.rs:204-209 | the sum of first commitments, in any iteration order, or a panic exactly on an empty vector |
| `AdkgNode.Node.ReconstructSecret` | src/adkg_layer.bkp.rs:216-228 | on every list, the Lagrange sum at zero |
| `AdkgNode.DenominatorInvertible` | src/adkg_layer.bkp.rs:220-224 | no two unequal u64 indices give a denominator without inverse |
| `Polynomials.RootBound` | src/adkg_layer.bkp.rs:216-228 | a polynomial with as many distinct roots as coefficients is zero |
| `Polynomials.CoefficientsUnique` | src/adkg_layer.bkp.rs:216-228 | as many values as coefficients determine every coefficient |
| `Interpolation.InterpolantThrough` | src/adkg_layer.bkp.rs:216-228 | the Lagrange polynomial takes the given values at distinct indices |
| `Interpolation.ReconstructionTheorem` | src/adkg_layer.bkp.rs:216-228 | at least as many shares of a polynomial as it has coefficients, at distinct indices in any order, reconstruct its constant term |
| `Interpolation.ExtraSharesIrrelevant` | src/adkg_layer.bkp.rs:216-228 | more shares, or other ones, give the same secret |
| `Interpolation.TightThreshold` | src/adkg_layer.bkp.rs:59-65 | any t share values at distinct nonzero indices fit exactly one degree-t dealing of each secret |
| `Interpolation.OrderBlind` | src/adkg_layer.bkp.rs:216-228 | permuting any list of shares, repeated or wrong ones included, does not change the result |
| `Interpolation.ReconstructionAdds` | src/adkg_layer.bkp.rs:216-228 | adding two lists of shares index by index, whatever their values, adds what they reconstruct |
| `CyclicGroup.ExpInjective` | src/adkg_layer.bkp.rs:77-82 | a commitment determines its scalar |
| `CyclicGroup.AdditiveGroup` | src/adkg_layer.bkp.rs:184-191 | the group laws can be met for every modulus |
| `Feldman.CommitEvalIsExp` | src/adkg_layer.bkp.rs:184-191 | evaluating commitments commits to the evaluation |
| `Feldman.AcceptsIff` | src/adkg_layer.bkp.rs:173-192 | the check passes for exactly the value of the committed polynomial |
| `Feldman.FeldmanBinding` | src/adkg_layer.bkp.rs:173-192 | accepted shares, from any dealer, reconstruct the secret committed by the first commitment |
| `Feldman.BindingUnique` | src/adkg_layer.bkp.rs:173-192 | any two large enough sets of accepted shares give the same secret |
| `Feldman.CommitmentsDetermined` | src/adkg_layer.bkp.rs:173-192 | enough accepted shares determine the commitment vector |
| `MapSums.IntSumRemove` | src/adkg_layer.bkp.rs:198-201 | a sum over a map can start at any entry |
| `MapSums.PointSumRemove` | src/adkg_layer.bkp.rs:205-208 | so can a sum of points |
| `MapSums.JointEval` | src/adkg_layer.bkp.rs:198-201 | the sum of evaluations is the evaluation of the coefficientwise sum, for any number of dealers and any lengths |
| `MapSums.JointCommitEval` | src/adkg_layer.bkp.rs:184-209 | the same among commitments |
| `AdkgTheorems.DealingAccepted` | src/adkg_layer.bkp.rs:84-92 | a dealing is accepted at exactly the indices 1 to n |
| `AdkgTheorems.EmptyCommitments` | src/adkg_layer.bkp.rs:173-192 | an empty vector is accepted exactly for the zero share |
| `AdkgTheorems.PanicIff` | src/adkg_layer.bkp.rs:194-208 | in every state a handler panics exactly when its check fires over an empty vector |
| `AdkgTheorems.VoidFromOutsiderIff` | src/adkg_layer.bkp.rs:122-138 | in every run with authentic identities a stored empty vector is an outsider's |
| `AdkgOpenRuns.OpenInvariant` | src/network_layer.rs:149-155 | what nodes store and when they check keeps its invariant in every state of every run, forged identities included |
| `AdkgFailures.PanicReachable` | src/adkg_layer.bkp.rs:173-208 | any run extends to one in which a given started node with an index panics on the next message |
| `AdkgRuns.RunInvariant` | src/network_layer.rs:113-156 | with authentic identities, the invariant of nodes, messages and checks holds in every state of every run |
| `AdkgTheorems.StoredSharesVerified` | src/adkg_layer.bkp.rs:128-138 | in every state of every open run stored shares satisfy the stored commitments, whose keys are the shares' and the node's own |
| `AdkgTheorems.AckBacking` | src/adkg_layer.bkp.rs:122-168 | in every state each ack recorded from a node is valid and backed by the exact share that node stores |
| `AdkgTheorems.AckedSecretRecoverable` | src/adkg_layer.bkp.rs:140-168 | t + 1 ackers at distinct indices hold what reconstructs the dealer's secret |
| `AdkgTheorems.LocalKeyConsistency` | src/adkg_layer.bkp.rs:194-214 | in every state of every open run a completed node's keys are those of one joint polynomial, up to exactly its own dealing where that was not delivered back |
| `AdkgTheorems.SecretShareCommitted` | src/adkg_layer.bkp.rs:198-202 | the generator times a secret share is the sum of the stored commitments evaluated at the index |
| `AdkgFailures.MismatchReachable` | src/adkg_layer.bkp.rs:109-112 | any run extends to one in which a given started node without its own share completes, with a share off its public key's polynomial unless its own dealing is zero there |
| `AdkgFailures.KeysDifferReachable` | src/adkg_layer.bkp.rs:84-214 | from any start, any node can complete with secret share 0 under the public key of 1 |
| `AdkgTheorems.AgreementOnCommitments` | src/adkg_layer.bkp.rs:194-228 | in every open run nodes completed over the same commitments hold one public key, and shares that reconstruct its secret less what their missing own dealings reconstruct; keys and shares fit exactly when that is zero |
| `AdkgTheorems.KeyAgreementIff` | src/adkg_layer.bkp.rs:84-228 | in every run the same of t + 1 nodes completed over the same node dealers, the secret being the sum of the dealers' secrets |
| `AdkgTheorems.KeyAgreement` | src/adkg_layer.bkp.rs:84-228 | where their own dealings were delivered back, they reconstruct the sum of the dealers' secrets and hold its public key |
| `AdkgTheorems.RunCheck` | src/adkg_layer.bkp.rs:159-209 | a step sets the secret share to the share sum, and the public key to the key sum unless it panics, when the node's check fires, and leaves both alone otherwise |
| `AdkgTheorems.NoKeysBefore` | src/adkg_layer.bkp.rs:194-209 | a node whose check has never fired has neither key |
| `AdkgTheorems.LatestCheck` | src/adkg_layer.bkp.rs:194-202 | a secret share is the share sum at the latest firing check |
| `AdkgTheorems.CompletionPersists` | src/adkg_layer.bkp.rs:154-202 | completion is permanent and its dealer set only grows |
| `AdkgFailures.CompletedHasAcks` | src/adkg_layer.bkp.rs:154-202 | in every run a completed node has recorded t valid acks |
| `AdkgFailures.DistinctAckersIff` | src/adkg_layer.bkp.rs:160-196 | over all runs from a start, a node completes only with t distinct valid ackers exactly when t is at most one |
| `AdkgFailures.NodeAckersIff` | src/adkg_layer.bkp.rs:154-196 | as many node ackers as the threshold are guaranteed exactly at threshold zero, and t + 1 holders of the node's shares never |
| `AdkgCompletion.DeliverAcks` | src/adkg_layer.bkp.rs:154-168 | delivering valid acks in sequence counts each of them and changes nothing else |
| `AdkgCompletion.ReplayCompletes` | src/adkg_layer.bkp.rs:154-202 | one valid ack delivered as often as acks are left completes its receiver in an extension of any run, its sender being the only acker added |
| `AdkgCompletion.CompletionReachable` | src/adkg_layer.bkp.rs:117-214 | once all nodes have started, deliveries can complete every node over all dealings that reach it, with or without loopback, from any state |
| `AdkgCompletion.AgreementReachable` | src/adkg_layer.bkp.rs:117-228 | with loopback, key agreement of all nodes can be reached from any such state |
| `AdkgCompletion.CompletionWithoutLoopback` | src/adkg_layer.bkp.rs:84-228 | without it, all nodes can complete over everyone else's dealings, their shares giving the sum of all secrets less exactly what the own dealings at the own indices reconstruct |
| `AdkgFailures.DisagreementReachable` | src/adkg_layer.bkp.rs:84-228 | from the start of every system of at least two nodes, more than any threshold and dealing for each other's distinct indices, starts and deliveries to others lead all nodes to complete with keys that do not fit their shares |
| `DkgNode.Node.constructor` | src/dkg/mod.rs:50-66 | a new node has its parameters each in its own field, status new and empty maps |
| `DkgRuns.InitialSystem` | src/dkg/mod.rs:50-66 | nodes with any ids, thresholds and totals can start |
| `DkgRuns.InitialIff` | src/dkg/mod.rs:50-66 | a start is a system of new nodes that hold nothing |
| `DkgNode.Node.GeneratePolynomial` | src/dkg/mod.rs:89-98 | threshold + 1 drawn coefficients |
| `DkgNode.Node.GenerateShares` | src/dkg/mod.rs:100-118 | the nested loop deals the polynomial's value at each index from 1 to n |
| `DkgNode.Node.StartDkg` | src/dkg/mod.rs:80-87 | the status changes even if the broadcast fails, and nothing else does; a successful one carries exactly the shares 1 to n and the commitments of its coefficients |
| `DkgHistory.StatusIff` | src/dkg/mod.rs:80-87 | in every run a node is new until told to start and started ever after |
| `DkgHistory.NodeDistribution` | src/dkg/mod.rs:100-146 | in every run a distribution carries exactly one of its sender's dealings |
| `DkgNode.Node.HandleMessage` | src/dkg/mod.rs:148-158 | the new state, the message sent, the outcome and the key computed |
| `DkgHistory.OutcomeIff` | src/dkg/mod.rs:148-186 | a handler fails exactly for a distribution with the node's share whose validation cannot be sent |
| `DkgHistory.SentIff` | src/dkg/mod.rs:169-183 | it sends exactly the positive validation of such a distribution |
| `DkgNode.Node.HandleShareDistribution` | src/dkg/mod.rs:160-186 | stores the first share with the node's index and validates it, or does nothing |
| `DkgNode.Node.HandleShareValidation` | src/dkg/mod.rs:198-212 | appends the validation as given to the dealer's list and to no other, then checks completion |
| `DkgHistory.ValidationsRecorded` | src/dkg/mod.rs:198-208 | in every run the list under a dealer is exactly the validations for it that were delivered, in order |
| `DkgHistory.RecordedPositive` | src/dkg/mod.rs:175-208 | without outsiders every validation recorded is positive |
| `DkgNode.Node.CheckCompletion` | src/dkg/mod.rs:214-223 | computes the key exactly when every list and the shares reach the threshold |
| `DkgNode.Node.GenerateGroupKey` | src/dkg/mod.rs:225-234 | the sum of the generator times each share, in any iteration order |
| `DkgNode.DecimalIdParses` | src/dkg/mod.rs:167 | the decimal form of an index parses to it |
| `DkgNode.DecimalFormParses` | src/dkg/mod.rs:167 | so does any decimal form, with leading zeros and a plus sign, exactly where it fits a usize |
| `DkgNode.EmptyIdDoesNotParse` | src/dkg/mod.rs:167 | an id without digits does not parse |
| `DkgNode.OtherIdsDoNotParse` | src/dkg/mod.rs:167 | an id with another character gives the largest usize |
| `DkgNode.Find` | src/dkg/mod.rs:170 | the first share with the index, or none has it |
| `DkgRuns.FindInDealing` | src/dkg/mod.rs:100-118 | a dealing has exactly one share for each index from 1 to n |
| `DkgRuns.RunInvariant` | src/dkg/mod.rs:148-223 | the invariant of nodes, messages and keys holds in every state of every run |
| `DkgTheorems.DealingVerifies` | src/dkg/mod.rs:100-127 | every dealt share satisfies the Feldman equation of the dealt commitments |
| `DkgTheorems.LatestDistributionStored` | src/dkg/mod.rs:160-186 | in every run a node stores the latest distribution delivered to it of exactly those dealers that deal for its index |
| `DkgTheorems.StoredSharesExact` | src/dkg/mod.rs:160-186 | in every run what is stored under a dealer is one of its dealings at the node's index |
| `DkgTheorems.UnindexedNodeIsIdle` | src/dkg/mod.rs:160-223 | a node with no index in range stores nothing, validates nothing and, for thresholds above zero, never computes a key |
| `DkgTheorems.PeerIdNodesAreIdle` | src/main.rs:65-70 | ids that are not decimal make such nodes |
| `DkgTheorems.ValidationsConserved` | src/dkg/mod.rs:198-208 | the lists hold one entry for each validation handled |
| `DkgTheorems.HandledIsDelivered` | src/dkg/mod.rs:198-208 | the number handled is the number delivered in the run |
| `DkgTheorems.GroupKeyGated` | src/dkg/mod.rs:214-223 | in every run a key stems from a state that met the gate, and from its shares |
| `DkgTheorems.GroupKeyIff` | src/dkg/mod.rs:214-234 | a handled validation computes the key exactly when the gate is met |
| `DkgTheorems.GroupKeysUpToOwn` | src/dkg/mod.rs:225-234 | in every run the keys of enough nodes over the same commitments, each with or without its own, add up with the missing own points to the joint key under interpolation; alone they do exactly when the own points give the identity |
| `DkgTheorems.GroupKeysInterpolate` | src/dkg/mod.rs:225-234 | where nothing is missing, threshold + 1 keys over one dealer set interpolate to the sum of the constant-term commitments |
| `DkgTheorems.GroupKeyIsJointKeyIff` | src/dkg/mod.rs:225-234 | in every run a computed key is the joint public key exactly when the joint polynomial of the stored dealings takes the same value at the node's index as at zero |
| `DkgTheorems.JointForAllDealingsIff` | src/dkg/mod.rs:225-234 | over any dealers and at any index, the key is the joint public key for all dealings exactly when every degree is zero |
| `DkgCompletion.KeysReachable` | src/dkg/mod.rs:148-234 | from any state of any run, deliveries lead nodes holding nothing else to keys over exactly those of any given dealings that reach and cover them, where these reach the thresholds and one validation reaches each; with or without loopback |
| `DkgOutcomes.KeyIsCovered` | src/dkg/mod.rs:160-223 | in every run a key is over dealers that cover the node, at least as many as its threshold |
| `DkgOutcomes.WrongKeyReachable` | src/dkg/mod.rs:214-234 | starts and deliveries lead a node so supplied, by a dealer of positive degree among others, to a key that is not joint |
| `DkgOutcomes.AlwaysJointIff` | src/dkg/mod.rs:214-234 | in every system all keys of all runs are joint exactly when each node is covered by fewer dealers than its threshold or by constants alone |
| `DkgOutcomes.AlwaysJointUniformIff` | src/dkg/mod.rs:214-234 | with one threshold for all, exactly when it is zero or no node is covered by that many dealers |
| `DkgOutcomes.WholeMisleads` | src/main.rs:60-70 | in a system of nodes dealing for each other, more than the threshold above zero, every node can be so led |
| `DkgOutcomes.DecimalWhole` | src/dkg/mod.rs:100-118 | nodes named 1 to n by their indices are such a system, for every threshold and n |
| `DkgOutcomes.AllDealInterpolate` | src/dkg/mod.rs:80-234 | all n nodes of such a system can deal anything and be led to keys that interpolate up to their own dealings, and with loopback to the joint key |
| `DkgOutcomes.InterpolationFails` | src/dkg/mod.rs:80-234 | without loopback, such a run has all nodes hold keys that do not interpolate to the joint key |
| `DkgOutcomes.ApartInterpolate` | src/dkg/mod.rs:80-234 | without loopback, nodes that do not deal can be led to keys that interpolate to the joint key of those that do |

## Left out

- Transport, discovery, RPC, logging, command line and generated protobuf code: only the fact that messages are handled one at a time is kept.
- Locks and asynchronous scheduling: each handler is one atomic step.
- BLS12-381 arithmetic and encodings: any prime field above u64 and any cyclic group of that order stand for them.
- Termination of a node's program on a publishing error or a panic: runs go on afterwards, which covers every behaviour up to it.
- Share distributions by outsiders in the live protocol: its verification is a placeholder, so such a distribution is stored as it comes.
- Forged node identities, where a result is about what nodes dealt or acked: those results take the identities of nodes as authentic, the others hold in open runs.
- The single-share `verify_share` placeholder, status queries and the unused `Completed` and `Error` statuses: no behaviour.
- Signing, consensus, commands, chain access and wallet scripts: placeholders or network clients.
- Hiding, hardness of discrete logarithms and quality of randomness: not functional properties.
