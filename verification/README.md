# torus-node: a verified model of its sharing protocols and its chain

torus-node keeps user keys as shares spread over a set of nodes. Nodes create keys together (key
generation, `keygennofsm`), hand them from one epoch's nodes to the next (re-sharing, `pss`), and run a
replicated rule set that decides, publishes and assigns keys (`dkgnode`) and moves the assignments to the
next epoch's chain (`mapping`). This project models those four parts in Dafny and proves what they are for.

## Layout

| files | part |
|---|---|
| `Modular`, `Sets`, `Curve`, `Polynomials`, `Lagrange`, `Interpolant` | scalars modulo a prime, curve points as a module over them, polynomials, interpolation |
| `Pvss`, `Avss`, `Reconstruction`, `Nizk` | the `pvss` package: loops over coefficients, commitment matrices, the checks, what points that passed them reconstruct to, the proof of equal scalars |
| `Machine`, `SharingNode` | one sharing at one node: transitions on values, and the object with counters and maps that refines them |
| `Instance`, `History`, `Endings` | what holds at one node over all message orders, the node's state told by the messages it received, and how a sharing can end badly or not at all |
| `Agreement`, `Conduct`, `Splitting`, `Disagreement` | all runs with bad nodes: when honest nodes agree, what their counts, points and messages are made of, how many nodes a split takes, and a run that splits them whenever there are that many |
| `Completion`, `Constants`, `Quiescence` | all runs with stopped nodes, a sharing any dealer can make, and that every run can go on to its end |
| `Recovery`, `Announcing`, `Refresh`, `EndToEnd` | agreeing on the old commitment, the record told by the messages that arrived, what `decide` makes of the shares, and the same starting from runs |
| `Ids` | identifiers printed into strings and parsed back |
| `Ledger`, `Chain`, `Application` | the replicated state, its transition function, and the application object that refines it |
| `Growth`, `PreCheck`, `Conservation`, `KeyIndexes`, `Freezing` | properties of every run of the chain |
| `Decisions`, `Voting`, `Assigning` | decisions, published keys, votes, assignments and the count of failures, told by the transactions that were delivered |
| `Publishing` | key generation from the dealers' message runs to the key on the chain |
| `Migration`, `Mapping` | the new chain during a migration, the nodes on both sides, and the whole system |
| `Thawing`, `Relaying`, `Migrating`, `MigratedIndexes` | exactly when a migration ends, what new nodes pass on and that it then ends, a run that does, and the key indexes through it |

## How it is modelled

- Scalars are integers; results are compared modulo q, where q is any prime. `big.Int.Mod` is Euclidean, as is
  Dafny's `%`. Curve points are any type P with a zero, addition and scalar multiplication that obey the module
  laws and have no torsion below q, and an X coordinate shared exactly by a point and its negative (`Curve.Laws`).
  Every theorem is for all such groups. There are such groups (`Curve.FifthIsLawful`), and networks of four nodes over
  them that meet every hypothesis of completion (`Quiescence.SmallWorldIsValid`).
- The checks multiply points by `big.Int.Bytes`, which drops the sign: `Group.Checked` commits to absolute values
  where the code does, and `Group.Commit` to the numbers themselves.
- An index out of range ends the handler: the checks then answer `OutOfRange` and the handlers `Crash`.
- The counters EC and RC are, in the transition functions, the sets of senders they count; `SharingNode.Sharing`
  keeps the integers and the four maps of the code and is proved to make the same steps. Likewise
  `Mapping.MappingNode` for the counts of the mapping nodes.
- A node is named by its index. Senders are authenticated members, indexes are distinct and lie strictly between
  0 and q, and hashes and JSON texts used as map keys are one-to-one: the value itself is the key here.
- Ranging over a Go map takes keys in any order: loops choose an arbitrary remaining key, so each result is proved
  for every order.
- Most rules are functions of a state and a message. Each is pinned from outside by what its runs hold: who is counted, which
  proposal decided, which vote was the K-th, told by the messages or transactions alone and in both directions.
- A transaction of the rule set is first judged, which gives an effect, and the effect is then applied
  (`Ledger.Judge`, `Ledger.Apply`). Signature checks, node lists, thresholds and the epoch are in `Ledger.Env`.

## Findings

Where the code does not do what a reader would expect, the model follows the code:

- A DKGID can raise `LastCreatedIndex` more than once: exactly when the proofs that raised it interpolate at zero to
  the zero point (`Conservation.RaisedTwiceIff`). A proposal that names keygens without any proof is accepted, and then
  honest proofs of the scalar 0 are, so this happens in a run of three transactions (`Conservation.ZeroKeyCountedTwice`).
- A public key is stored before its identifier is parsed. An accepted nonzero key is held without being counted
  exactly when the identifier does not parse (`Conservation.HeldUncountedIff`), and a run of two transactions gets there
  (`Conservation.UnreadableKeyHeld`). `Conservation.CreatedKeysBalance` accounts for both.
- Two users can meet under one verifier key exactly if a verifier name contains the separator
  (`Ids.VerifierKeyCollidesIff`).
- With t = 0 a node that reaches the ready threshold before the echo threshold sends its ready and does not end
  (`Instance.EndsExactlyWhen`), and no later message makes it end with that matrix (`Endings.MissedForGood`). One ready
  is enough in a network of two (`Endings.OneReadyTooEarly`).
- `AVSSVerifyPoint` does not read beta (`Endings.BetaUnread`). All of Abar opens the matrix exactly if all betas are
  right (`Reconstruction.BetasIff`); with one beta in doubt the share opens exactly if that beta is right
  (`Reconstruction.ShareIffBeta`). After one accepted echo with a wrong beta, arriving last, a sharing
  that ends has a share that does not open its matrix (`Endings.WrongBetaSpoilsShare`), and a run of four messages in a
  network of two ends so (`Endings.SpoiledRun`).
- The checks test absolute values and the interpolation uses the signed numbers. Bbar opens the matrix exactly if every
  accepted pair commits as its absolute values do (`Reconstruction.ReconstructionIff`), so non-negative numbers are
  enough, and one negative alpha is accepted and spoils a coefficient (`Reconstruction.NegativeAlphaSpoils`, at its smallest
  `Reconstruction.NegativeOne`).
- Key generation accepts a second `send`, so agreement fails in some networks. With n nodes, b of them bad, b <= t < k,
  honest nodes can be made to end with different matrices if and only if the second `send` is not refused, n >= k + t
  and n - b >= 2 (k - b) (`Disagreement.SplitIff`; two small networks in `Disagreement.KeygenCanDisagree`). Run by run,
  honest nodes agree whenever none of them takes up `send`s of two matrices (`Agreement.OneMatrixAgrees`), which a dealer
  can see to (`Agreement.SteadyDealer`) and re-sharing enforces (`Agreement.AgreementInEveryRun`). The converse is false
  of a single run: all honest nodes may take up two matrices and none end (`Disagreement.TwoTakenNoneEnded`).
- Completed sharings are counted by PSSID. A PSSID that parses has another spelling, the plain one, exactly if it is not
  plain itself (`Ids.OtherSpellingIff`; "1" and "+1" in `Recovery.OneDealerTwoNames`). If all counted PSSIDs are plain
  they name as many dealers as there are PSSIDs (`Recovery.PlainCountsDealers`); otherwise K = 2 can be met by one dealer
  (`Recovery.ProposedByOneDealer`), and the refreshed constant term is then twice its value (`Recovery.RepeatedDealer`).
- `VerifyShareCommitment` compares X only, so it accepts a point up to sign (`Recovery.FlippedSignCounts`). With one C00 in
  doubt among the counted ones the refreshed constant term is the old one if and only if that C00 is not the negative of
  a nonzero value (`Recovery.SignIff`); a run with K = 1 ends with another key (`Recovery.NegatedKey`).
- A missing key at the next index costs the whole buffer. Requests that find it missing are counted, over every run
  (`Assigning.FailuresCounted`); the one after a hundred of them is accepted without a key and moves the chain past every
  created index (`Assigning.BufferGivenUp`), and this happens exactly then (`Assigning.GivenUpIff`).
- The number of signed texts a re-sharing needs is a sum of two numbers of its identifier. Of positive numbers it is positive
  exactly if it stays within 64 bits (`Decisions.TextsNeededIff`; `Decisions.WrappedThreshold`), and then a decided
  re-sharing has kNew good signers for each PSSID (`Decisions.DecidedHasGoodSigners`).
- A mapping of no keys never thaws: the thaw needs K votes for the summary and for every key below it, and at least one
  such key (`Thawing.ThawedIff`).

## Model

| member | source | states |
|---|---|---|
| `Pvss.PolyEval` | pvss/pvss.go:36-55 | the loop returns the value of the first Threshold coefficients modulo q, or the bare first coefficient when the threshold is at most 1 |
| `Pvss.Denominator` | pvss/pvss.go:371-383 | the product of the differences to all other points, modulo q |
| `Pvss.InterpolationPoly` | pvss/pvss.go:384-411 | the basis polynomial of one point, scaled by the inverse of its denominator; nothing when the denominator has no inverse |
| `Pvss.WeightedBasisSum` | pvss/pvss.go:420-431 | the weighted sum of the basis polynomials goes through every point, with reduced coefficients |
| `Pvss.LagrangeInterpolatePolynomial` | pvss/pvss.go:370-433 | for every input order: a result exactly when the X are distinct modulo q, and then one reduced coefficient per point and a polynomial through all points |
| `Lagrange.InterpolantUnique` | pvss/pvss.go:370-433 | two interpolants of the same points, in any two orders, are equal coefficient by coefficient |
| `Lagrange.InterpolantOfShortPoly` | pvss/pvss.go:370-433 | more points than needed of a short polynomial: its coefficients come back and all others are 0, so cutting at K is exact |
| `Pvss.LagrangeCoefficient` | pvss/pvss.go:448-472 | the inner loops give the Lagrange weight of one index at the target |
| `Pvss.LagrangeScalar` | pvss/pvss.go:446-480 | the loop returns the weighted sum of the share values, reduced |
| `Pvss.LagrangeScalarMeaning` | pvss/pvss.go:446-480 | that sum is the value at the target of any polynomial through the shares no longer than their number |
| `Pvss.ScalarAgreesWithPolynomial` | pvss/pvss.go:435-480 | the scalar routine agrees with evaluating the interpolated polynomial at the target |
| `Pvss.SumScalars` | pvss/pvss.go:494-501 | the reduced sum of the scalars |
| `Pvss.AddCommitments` | pvss/pvss.go:74-83 | the sum of the commitments coefficient by coefficient |
| `Pvss.LagrangePolys` | pvss/pss.go:41-81 | every coefficient is the combination of the input columns with the Lagrange weights at 0 |
| `Pvss.LagrangeCurvePts` | pvss/pvss.go:483-492 | the combination of the points with the weights at 0; no result exactly where the code indexes an empty slice |
| `Interpolant.FitUnique` | pvss/pvss.go:370-433 | a map of points has one fitting polynomial, so interpolating a map does not depend on the order of ranging over it |
| `Interpolant.FitOfShortPoly` | keygennofsm/p2p_messages.go:247-250 | if the collected points lie on a short polynomial the fit is that polynomial modulo q, followed by zeros |
| `Avss.GetCommitmentMatrix` | pvss/avss.go:40-56 | entry by entry the commitment to the absolute values of the two coefficients |
| `Avss.EvaluateBivarPolyAtX` | pvss/avss.go:59-76 | the coefficients of the row polynomial at the index, modulo q and not negative |
| `Avss.EvaluateBivarPolyAtY` | pvss/avss.go:79-96 | the coefficients of the column polynomial at the index, modulo q and not negative |
| `Avss.AVSSVerifyPoly` | pvss/avss.go:99-149 | for messages of any shape: passed, failed or out of range, as scanning columns and then rows in order decides |
| `Avss.PolyCheckPasses` | pvss/avss.go:99-149 | that scan passes on polynomials that can be evaluated exactly when the matrix has the right size, every index read is in range and both families of coefficient equations hold for the absolute values |
| `Avss.AVSSVerifyPoint` | pvss/avss.go:152-180 | for matrices of any shape: out of range exactly when a row is shorter than the first, else passed exactly when the absolute values of alpha and alphaprime open the matrix at the two indexes |
| `Avss.AVSSVerifyShare` | pvss/avss.go:183-200 | out of range exactly when a row is empty, else passed exactly when the absolute values of the share open the first column at the index |
| `Avss.VerifyShareCommitment` | pvss/gennaro2006.go:89-106 | accepts exactly when the commitment is the evaluated polynomial or its negative |
| `Avss.VerifiedPolysGiveValidPoints` | keygennofsm/p2p_messages.go:127-147 | for any matrix: non-negative polynomials that pass the polynomial check at m give, for every receiver, points that pass the point check and right betas |
| `Reconstruction.ValidPointsIff` | keygennofsm/p2p_messages.go:127-147 | of polynomials of two or more coefficients, of any signs, that passed the check: the points pass at as many distinct receivers as there are coefficients if and only if every coefficient pair commits as its absolute values do, and then they pass at every receiver |
| `Avss.HonestDealerVerifies` | pvss/avss.go:40-149 | an honest dealer's slices, reduced and so not negative, pass the polynomial check at every index |
| `Reconstruction.CoefficientsOpenIff` | pvss/pvss.go:370-433 | all coefficients of a pair of interpolants open a committed polynomial if and only if all the points do |
| `Reconstruction.InterpolatedCoefficientsOpen` | pvss/pvss.go:370-433 | if the points of a pair of interpolants open a committed polynomial, so does every coefficient, and the rest commit to zero |
| `Reconstruction.ReconstructionRespectsCommitment` | keygennofsm/p2p_messages.go:247-250 | for any matrix, from K or more accepted non-negative alphas: coefficient j of Bbar commits to the row value of the matrix, and to zero beyond K |
| `Reconstruction.ReconstructionIff` | pvss/avss.go:152-180 | from K or more accepted alphas of any sign: Bbar opens the row values if and only if every accepted pair commits as its absolute values do |
| `Reconstruction.NegativeAlphaSpoils` | pvss/avss.go:152-180 | flipping the sign of one right alpha is accepted and some coefficient of Bbar no longer opens |
| `Reconstruction.NegativeOne` | pvss/avss.go:152-180 | K = 1, the matrix of the constant 1: alpha -1 is accepted at every index and Bbar does not open |
| `Reconstruction.BetasIff` | keygennofsm/p2p_messages.go:247-250 | from K or more betas, whatever was checked: every coefficient of Abar opens the column values if and only if every beta is right |
| `Reconstruction.ShareIffBeta` | pvss/avss.go:152-180 | with all betas right but one: the share read off Abar opens the matrix if and only if that one is right |
| `Reconstruction.ReconstructedShareVerifies` | keygennofsm/p2p_messages.go:451-463 | the same for Abar when the betas are right, and then Si passes the share check |
| `Nizk.ResponseOpens` | pvss/nizkpk.go:40-60 | the response to a challenge opens the nonce point |
| `Nizk.HonestProofAccepted` | pvss/nizkpk.go:25-110 | every generated proof is accepted, for all non-negative secrets and nonces and all hash functions; points are multiplied by absolute values |
| `Nizk.ForeignChallengeRefused` | pvss/nizkpk.go:77-110 | a proof whose challenge is not the hash of the six X coordinates, recomputed from its responses, is refused |
| `Nizk.AcceptedIffMade` | pvss/nizkpk.go:25-110 | for the points s*G and s*G + r*H and non-negative numbers: a proof is accepted if and only if the prover makes it, up to multiples of q, for some nonces |
| `Nizk.AcceptedTwiceOpens` | pvss/nizkpk.go:77-110 | special soundness: two accepted non-negative proofs for the same points, with the same nonce points, under hash functions that differ modulo q there, give s and r with gs = s*G and gshr = s*G + r*H |
| `Nizk.PublicKeyTiedToCommitment` | dkgnode/bftruleset.go:274-302 | interpolated public points plus a multiple of H are the interpolated Pedersen points |
| `SharingNode.GetPointArrayFromMap` | keygennofsm/types.go:495-500 | lists every entry of the map once, in some order |
| `SharingNode.Interpolate` | keygennofsm/p2p_messages.go:247-250 | interpolating the entries of a map gives its one fitting polynomial whatever the order |
| `SharingNode.MakeEchoes` | keygennofsm/p2p_messages.go:123-164 | one echo to each node, with its own four points |
| `SharingNode.MakeReadies` | keygennofsm/p2p_messages.go:251-298 | one ready to each node, with its own four points |
| `SharingNode.Prepare` | keygennofsm/p2p_messages.go:247-298 | the four interpolations and the readies are those of the machine |
| `SharingNode.TakeEcho` | keygennofsm/p2p_messages.go:199-298 | counters and maps after an accepted echo stand for the machine's cell, and the readies are the machine's |
| `SharingNode.TakeReady` | keygennofsm/p2p_messages.go:343-450 | the same for an accepted ready |
| `SharingNode.Sharing.ProcessSend` | keygennofsm/p2p_messages.go:89-165 | for messages of any shape: a crash exactly when the check or the evaluation indexes out of range, else the object's step, output and verdict are the machine's, for key generation and for re-sharing |
| `SharingNode.Sharing.ProcessEcho` | pss/keygen_pss.go:304-446 | for matrices of any shape: a crash exactly on a short row, or where key generation reads the corner of an empty matrix, else the machine's step, output and verdict |
| `SharingNode.Sharing.ProcessReady` | pss/keygen_pss.go:447-643 | the same for readies, the corner being read for the signature or at the end |
| `SharingNode.Sharing.Complete` | keygennofsm/p2p_messages.go:451-484 | Ended with Cbar and the constant coefficients, which are there to be read |
| `Machine.OnEchoOk` | keygennofsm/p2p_messages.go:235-250 | an echo keeps the bookkeeping: one set of points per counted sender, polynomials present exactly when a threshold is met, with at least K coefficients |
| `Machine.OnReadyOk` | keygennofsm/p2p_messages.go:387-485 | a ready keeps the same bookkeeping |
| `Instance.ReadyFiresAtThreshold` | keygennofsm/p2p_messages.go:235-237 | a ready for C goes out at a message exactly if that message completes the first of the two thresholds |
| `Instance.ReadySentExactlyOnce` | keygennofsm/p2p_messages.go:387-389 | over every interleaving, once if a threshold has been met and never otherwise |
| `Instance.NeverReadsMissingBars` | keygennofsm/p2p_messages.go:451-463 | the constant coefficients are never read before they exist, and an ended sharing has at least K coefficients; reading the corner of an empty matrix is in `SharingNode.Sharing.ProcessReady` |
| `Instance.EndsExactlyWhen` | keygennofsm/p2p_messages.go:387-485 | a counted ready ends the sharing exactly when it is number K + T and, if T = 0, the echo threshold was already met; on an empty matrix the code crashes instead, which `SharingNode.Sharing.ProcessReady` states |
| `Endings.MissedForGood` | keygennofsm/p2p_messages.go:387-485 | with T = 0, once K readies for C are counted and the sharing is not over, no continuation ends it with C |
| `Endings.OneReadyTooEarly` | keygennofsm/p2p_messages.go:387-485 | two nodes, K = 1, T = 0: one accepted ready reaches that state, and every continuation stays in it |
| `Endings.BetaUnread` | pvss/avss.go:152-180 | changing the betas of an echo or ready does not change whether it is verified |
| `Endings.CellShareIff` | keygennofsm/p2p_messages.go:247-250 | of the points a node collected, with all betas right but one: the share it would read off opens the matrix if and only if that one is right |
| `Endings.BarsGiveShare` | keygennofsm/p2p_messages.go:451-463 | polynomials once interpolated never change, and a sharing that ends has the constant coefficients of its matrix as its share |
| `Endings.WrongBetaSpoilsShare` | keygennofsm/p2p_messages.go:199-298 | over every continuation: a verified echo with a wrong beta, the one that completes the echo threshold, is accepted, and if the sharing ends with its matrix the share does not open it |
| `Endings.SpoiledRun` | keygennofsm/p2p_messages.go:199-485 | such a run, for every group with q > 2 and G not zero: two echoes, one with a wrong beta, and two readies end the sharing with a share that does not open its matrix |
| `Instance.EndIsFinal` | keygennofsm/p2p_messages.go:302-311 | after the end no message changes the matrix, the share or the store |
| `History.MarkedIff` | keygennofsm/keygen_nofsm.go:92-135 | over every history: a sender is marked for echoes, or readies, exactly if one came from it, sound or not |
| `History.CountedIff` | keygennofsm/p2p_messages.go:167-386 | over every history: a sender is counted for C exactly if its first echo, or ready, was for C, passed the point check, was signed if a ready, and came before the end |
| `History.PointsAre` | keygennofsm/p2p_messages.go:199-234 | over every history: the points held for a sender and a matrix are those of the last message that counted it |
| `History.StoredPointsPass` | keygennofsm/p2p_messages.go:184-198 | so every point held has passed the check against its matrix |
| `History.SendMarkedIff` | keygennofsm/p2p_messages.go:89-122 | over every history: a `send` is marked exactly if one came from the dealer before the end, sound or not |
| `History.FineIff` | keygennofsm/p2p_messages.go:89-122 | the verdict is Fine exactly if the message took effect: a counted echo or ready, or a `send` of the dealer in time that passes and is not a refused second one; and Ignored exactly after the end |
| `History.BarsAre` | keygennofsm/p2p_messages.go:247-250 | over every history: the polynomials of a matrix are interpolated from the points held when the first threshold was met |
| `History.BbarIff` | keygennofsm/p2p_messages.go:247-250 | over every history: Bbar of a matrix of at most K rows opens it if and only if each point it was interpolated from commits as its absolute values do |
| `History.BbarRespectsCommitment` | keygennofsm/p2p_messages.go:247-250 | so Bbar opens the matrix if no received number for it is negative, whatever was sent and in whatever order |
| `Agreement.QuorumsMeet` | pss/keygen_pss.go:24-30 | two echo quorums share an honest node |
| `Agreement.ReadiesAgree` | pss/keygen_pss.go:386-388 | honest readies in one state are for one matrix, if no honest node has echoed two |
| `Agreement.RunKeepsInv` | pss/keygen_pss.go:207-643 | in every state of every run honest nodes count only what was sent, and every honest ready goes back to an echo quorum; for key generation as well |
| `Conduct.NodeIsHistory` | pss/keygen_pss.go:207-643 | in every run with bad nodes the state of an honest node is that of the messages delivered to it |
| `Conduct.HonestCountIff` | pss/keygen_pss.go:304-446 | in every run an honest node counts a sender for C exactly if its first echo, or ready, from it was for C, passed, was signed if a ready, and came in time |
| `Conduct.HonestPointsPass` | pss/keygen_pss.go:335-350 | in every run every point an honest node holds has passed the check against its matrix |
| `Conduct.BarsMeanChecked` | pss/keygen_pss.go:386-401 | in every run a matrix whose polynomials an honest node has interpolated is K by K: an honest node checked it |
| `Conduct.HonestBbarIff` | pss/keygen_pss.go:386-401 | in every run Bbar of an honest node opens the matrix if and only if each point it was interpolated from commits as its absolute values do |
| `Conduct.HonestBbarOpens` | pss/keygen_pss.go:386-401 | so it opens if no number received for the matrix is negative, whatever the dealer and the bad nodes do |
| `Conduct.EchoesAreMade` | pss/keygen_pss.go:262-303 | in every run each echo of an honest node goes back to a `send` it took up, and carries the values of its four polynomials at the receiver |
| `Conduct.HonestEchoPasses` | pss/keygen_pss.go:262-350 | so with non-negative `send`s every honest echo passes at its receiver and has the right beta, whatever matrix the dealer gave |
| `Conduct.ReadiesAreMade` | pss/keygen_pss.go:386-446 | in every run each ready of an honest node is signed and carries the values of the polynomials it holds for the matrix |
| `Agreement.EchoedIsTaken` | keygennofsm/p2p_messages.go:89-165 | over every run an honest node has echoed exactly the matrices of the `send`s it has taken up: from the dealer, checked, in time, not refused |
| `Agreement.OneEchoIff` | keygennofsm/p2p_messages.go:89-165 | no honest node has echoed two matrices if and only if none has taken up two |
| `Agreement.OneMatrixAgrees` | keygennofsm/p2p_messages.go:451-484 | key generation and re-sharing, at most t bad nodes, t < k: in every run in which no honest node takes up two matrices, any two honest nodes that end, at any two moments, end with the same matrix |
| `Agreement.SteadyDealer` | keygennofsm/p2p_messages.go:89-165 | that holds if any two of the dealer's delivered and accepted `send`s to one node carry one matrix, different nodes being free to get different ones |
| `Agreement.RefusalTakesOne` | pss/keygen_pss.go:230-246 | and in every run in which a second `send` is refused |
| `Agreement.AgreementInEveryRun` | pss/keygen_pss.go:608-641 | with at most t bad nodes and t < k, any two honest nodes that end a PSSID, at any two moments of any run and under any dealer, end with the same matrix |
| `Splitting.CampsApart` | keygennofsm/p2p_messages.go:199-235 | no node meets the echo threshold for two matrices, so the camps of two matrices are disjoint sets of honest nodes |
| `Splitting.SplitTakesTwoCamps` | keygennofsm/p2p_messages.go:89-487 | over every run, whatever the dealer and the bad nodes do: two honest nodes with different matrices mean no guard, n >= k + t and n - b >= 2 (k - b) |
| `Disagreement.SplitIff` | keygennofsm/p2p_messages.go:91-107 | for every network with b <= t < k and G not zero: some run ends with two honest nodes holding different matrices if and only if that condition holds |
| `Disagreement.KeygenCanDisagree` | keygennofsm/p2p_messages.go:91-107 | three nodes, K = 2, T = 1 can be split, four nodes, K = 3, T = 1 cannot |
| `Disagreement.TwoTakenNoneEnded` | keygennofsm/p2p_messages.go:89-165 | a run in which honest nodes take up two matrices and none has ended, so the condition of `Agreement.OneMatrixAgrees` is not necessary for one run |
| `Constants.ConstantWorldIsValid` | keygennofsm/p2p_messages.go:89-165 | in every network the sharing of a constant is one an honest dealer can make |
| `Completion.InterpolatedRight` | keygennofsm/p2p_messages.go:247-250 | from points of an honest dealer's polynomial the four interpolants are the node's own slices |
| `Completion.RunKeepsInv` | keygennofsm/p2p_messages.go:89-487 | in every state of every run all messages and cells carry the dealer's values and whoever counted a ready was told by its sender |
| `Completion.LiveNodesComplete` | keygennofsm/p2p_messages.go:387-485 | honest dealer, at most t silent nodes, 1 <= t < k, n - t >= k + t: in every state where the live nodes' messages have arrived, every live node has ended with the dealer's matrix and its share f(i, 0) |
| `Quiescence.RunsGetQuiet` | keygennofsm/p2p_messages.go:89-487 | every run extends to a state where everything sent has arrived |
| `Quiescence.EveryRunCanComplete` | keygennofsm/p2p_messages.go:387-485 | so every run extends to one in which every node has ended with its share |
| `Quiescence.SmallWorldIsValid` | keygennofsm/p2p_messages.go:89-487 | for every group with q > 4 four nodes, K = 2, T = 1 and an honest dealer meet all hypotheses of completion |
| `Recovery.Recoverer.ProcessRecover` | pss/keygen_pss.go:168-206 | the object's new record: the sender counted for its polynomial, which is agreed at the K-th sender |
| `Recovery.Recoverer.ProcessComplete` | pss/keygen_pss.go:644-702 | a completed sharing waits for the agreement of the record that its PSSID names, whenever it comes; a PSSID that does not parse is refused |
| `Recovery.Recoverer.Resume` | pss/keygen_pss.go:644-702 | once agreed, a waiting PSSID is counted exactly if its C00 matches the agreed polynomial up to sign; a proposal exactly when K PSSIDs are then counted |
| `Announcing.AnnouncersCounted` | pss/keygen_pss.go:177-205 | over every run the senders counted for a polynomial are exactly those that announced it, and none for the empty one |
| `Announcing.AgreedIff` | pss/keygen_pss.go:196-205 | over every run, for every K: the agreed polynomial is that of the last announcement that left exactly K senders of its polynomial |
| `Announcing.SomeAgreedIff` | pss/keygen_pss.go:196-205 | a polynomial is agreed if and only if some polynomial has K announcers, and the agreed one has |
| `Announcing.WaitingIff` | pss/keygen_pss.go:644-689 | over every run a completed sharing waits exactly if it arrived under a PSSID of the sharing and its wait has not ended since |
| `Announcing.CountedIff` | pss/keygen_pss.go:690-702 | over every run a PSSID is counted with a C00 exactly if that is the C00 of the last sharing under it that fit the polynomial agreed by then |
| `Announcing.ProposedWithK` | pss/keygen_pss.go:698-702 | a proposal is made with exactly K PSSIDs counted |
| `Announcing.ProposedIff` | pss/keygen_pss.go:698-702 | over every run, K at least 1: a proposal has been made if and only if at least K PSSIDs are counted |
| `Recovery.OneDealerTwoNames` | pss/types.go:405-419 | two different PSSIDs that parse to one dealer |
| `Recovery.PlainCountsDealers` | pss/keygen_pss.go:690-702 | over every run: if all counted PSSIDs are spelled as the code spells them, they name as many dealers as there are PSSIDs |
| `Recovery.PlainDealersDistinct` | pss/keygen_pss.go:690-702 | so different plain PSSIDs of nodes with indexes between 0 and q have dealers distinct modulo q |
| `Recovery.ProposedByOneDealer` | pss/keygen_pss.go:644-702 | two names of dealer 1 and K = 2: a run in which both are counted and the proposal is due |
| `Recovery.RepeatedDealer` | pss/keygen_pss.go:822-858 | then the refreshed constant term is twice the dealer's value |
| `Recovery.OnlyTheOldCommitment` | pss/keygen_pss.go:168-206 | with fewer than K bad old nodes, in every run: the agreed polynomial is the true one and every counted sharing carries its value at the dealer's index up to sign |
| `Recovery.CountedSharingsKeepCommitment` | pss/keygen_pss.go:690-698 | so the refreshed Vbar keeps the old constant commitment for different plain counted PSSIDs with the sign right |
| `Recovery.RefreshedIff` | pss/keygen_pss.go:822-858 | distinct nonzero dealers, all C00 right but one: the refreshed constant term is the old one if and only if that one is right |
| `Recovery.SignIff` | pvss/gennaro2006.go:89-106 | over every run with fewer than K bad old nodes: it is not the old one if and only if that C00 is the negative of a value that differs from its negative |
| `Recovery.FlippedSignCounts` | pvss/gennaro2006.go:89-106 | a C00 and its negative fit alike, and they differ unless zero |
| `Recovery.NegatedKey` | pss/keygen_pss.go:690-702 | K = 1: a run that counts a negated C00 and refreshes to another key |
| `Refresh.Recover.Decide` | pss/keygen_pss.go:822-880 | Si, Siprime and Vbar are the weighted combinations at 0; accepted exactly up to sign of the committed point; always accepted if each share matches its own matrix |
| `Refresh.RefreshedShareMatchesVbar` | pss/keygen_pss.go:822-858 | shares that match their matrices refresh to a share that opens Vbar, whoever the dealers are |
| `Refresh.VbarKeepsPublicCommitment` | pss/keygen_pss.go:690-698 | Vbar[0] is the old D[0] when every dealer's C00 is D at its index |
| `Refresh.ResharingKeepsSecret` | pss/keygen_pss.go:822-858 | any K refreshed shares interpolate at 0 to the old secret |
| `Refresh.Line` | pss/keygen_pss.go:822-858 | shares, first columns and dealers of the decided sharings, in order |
| `Refresh.Collect` | keygennofsm/keygen_nofsm.go:232-244 | shares and first columns of the decided keygens, in order |
| `Refresh.Dkg.Decide` | keygennofsm/keygen_nofsm.go:198-309 | accepted if and only if the summed shares match the summed commitments up to sign; then the sums are stored, else nothing changes; always accepted if each share matches its matrix |
| `Refresh.SummedShareMatchesDbar` | keygennofsm/keygen_nofsm.go:232-255 | the summed share opens the summed column commitments |
| `Refresh.GeneratedKeyIsSumOfSecrets` | keygennofsm/p2p_messages.go:637-648 | any K summed shares interpolate to the sum of the secrets, and the points made from them to that sum times G |
| `EndToEnd.LiveShareIsPoint` | keygennofsm/p2p_messages.go:451-463 | a live node ends a sharing with its point of the polynomial whose constant term is the secret |
| `EndToEnd.ResharedRunsKeepSecret` | pss/keygen_pss.go:789-912 | from message runs with stopped nodes to `decide`: the shares of any K live nodes interpolate to the old secret |
| `EndToEnd.LiveShareOpens` | keygennofsm/p2p_messages.go:451-463 | the share a live node ends with opens the dealer's matrix, which is the one it ends with |
| `EndToEnd.LiveNodesDecide` | pss/keygen_pss.go:822-880 | at every live node the refreshed share opens Vbar, so `decide` accepts, and Vbar is the same at all of them |
| `EndToEnd.GeneratedRunsGiveKey` | keygennofsm/keygen_nofsm.go:198-309 | from message runs to `decide`: the shares and public points of any K live nodes interpolate to the sum of the dealers' secrets and its multiple of G |
| `Publishing.PedersenSum` | keygennofsm/p2p_messages.go:637-648 | the Pedersen points of K live nodes' summed shares and blinds interpolate to the commitment to the sums of the dealers' secrets and blinds |
| `Publishing.ProposalSum` | dkgnode/bftruleset.go:178-225 | a proposal with K or more proofs of each dealer's own commitment decides that same commitment |
| `Publishing.LiveProofsPublish` | dkgnode/bftruleset.go:249-313 | against it the proofs of any K live nodes are accepted, and what is published is the sum of the secrets times G |
| `Publishing.KeyGenerationPublishes` | dkgnode/bftruleset.go:151-313 | from the dealers' message runs to the chain, in every run of it: if the first good proposal carries the commitments of sharings that live nodes completed, the proofs of any K of them store the sum of the dealers' secrets times G |
| `Ids.Split` | pss/types.go:217-232 | the parts hold no separator and join back to the string |
| `Ids.SplitJoin` | pss/types.go:211-272 | splitting undoes joining when no part holds the separator |
| `Ids.TextRoundTrip` | pss/types.go:211-227 | printing an integer and parsing it gives it back, in every base used |
| `Ids.ParseDigitsIff` | pss/types.go:241-258 | in base 10 a text reads as n if and only if it is n as printed after any number of zeros |
| `Ids.AtoiIff` | pss/types.go:241-258 | a text is a number if and only if it is a sign or none, zeros, and a printed number, within 64 bits |
| `Ids.EpochParamsIff` | pss/types.go:241-258 | an identifier carries the eight numbers if and only if it is nine separator-free fields of which the first eight read as them |
| `Ids.GetEpochParams` | pss/types.go:241-258 | the loop gives all eight numbers or fails if there are not nine fields or one of the eight is no number |
| `Ids.PSSIDDetails.FromPSSID` | pss/types.go:405-419 | the new fields, and what a failed parse leaves behind |
| `Ids.KeygenIDRoundTrip` | pss/types.go:211-228 | the index comes back, and the identifier holds neither outer separator |
| `Ids.SharingIDRoundTrip` | pss/types.go:230-272 | epoch parameters and keygen id come back |
| `Ids.PSSIDRoundTrip` | pss/types.go:402-419 | sharing id and dealer index come back |
| `Ids.ParsePairIff` | pss/types.go:405-419 | an identifier parses to a name and an index if and only if it is the separator-free name, the separator and a numeral that reads as the index |
| `Ids.OtherSpellingIff` | pss/types.go:402-419 | a PSSID that parses has another, plain, spelling if and only if it is not the one the code prints |
| `Ids.NestedRoundTrip` | pss/types.go:211-272 | every field comes back out of the nested identifier |
| `Ids.NestedInjective` | pss/types.go:402-419 | different sharings or dealers never share an identifier |
| `Ids.KeygenIDDetailsRoundTrip` | keygennofsm/types.go:87-105 | DKGID and dealer index come back |
| `Ids.DKGIDRoundTrip` | keygennofsm/types.go:69-85 | the key index comes back, of any size |
| `Ids.DKGIndexIff` | keygennofsm/types.go:69-85 | an identifier names key i if and only if it is two separator-free fields of which the second reads as i in base 16 |
| `Ids.VerifierKeyInjective` | dkgnode/abci_app.go:139-142 | a verifier key names one user if verifier names hold no separator |
| `Ids.VerifierKeyCollides` | dkgnode/abci_app.go:139-142 | a pair of users that share a key |
| `Ids.VerifierKeyCollidesIff` | dkgnode/abci_app.go:139-142 | a verifier name can meet another, separator-free one under one key if and only if it contains the separator |
| `Chain.SumSetAdd` | dkgnode/bftruleset.go:178-225 | the sum of a set of points does not depend on the order |
| `Chain.CountProofs` | dkgnode/bftruleset.go:192-225 | in any order of the proofs: accepted exactly if all are valid, and the sum grows by each distinct C00 that K proofs carry |
| `Chain.CheckProposal` | dkgnode/bftruleset.go:178-225 | the nested loop gives the sum, over all keygens, of the distinct C00 with at least K proofs, whatever the iteration order; what that sum is, is in `Decisions.WinnersSumConcat` and below |
| `Chain.AtMostOneWinner` | dkgnode/bftruleset.go:178-225 | fewer than 2K proofs leave at most one such C00 per keygen |
| `Decisions.WinnersSumConcat` | dkgnode/bftruleset.go:178-225 | the sum of a proposal is the sum over its parts, however it is cut |
| `Decisions.UnanimousWinner` | dkgnode/bftruleset.go:216-219 | K or more proofs of one C00 leave it as the only one counted |
| `Decisions.OneWinnerEach` | dkgnode/bftruleset.go:178-225 | one counted C00 for each keygen: the decided commitment is their sum |
| `Decisions.WinnersCommitToSums` | dkgnode/bftruleset.go:178-225 | and if they commit to secrets and blinds it commits to the two sums |
| `Decisions.KeygenDecidedIff` | dkgnode/bftruleset.go:161-248 | over every run: a DKGID is decided if and only if a proposal with K or more keygens of it, and valid proofs only, was delivered |
| `Decisions.DecidedCommitment` | dkgnode/bftruleset.go:178-246 | over every run: the commitment held for a DKGID is the sum over the keygens of the first such proposal |
| `Decisions.HeldKeyWasProved` | dkgnode/bftruleset.go:262-302 | over every run: a key that is held was delivered with exactly K valid proofs whose Pedersen points interpolate to the decided commitment and whose public points interpolate to it |
| `Chain.CheckPubKey` | dkgnode/bftruleset.go:274-302 | a key exactly when the Pedersen points interpolate to the decided commitment and every proof verifies; it is the interpolated public point |
| `Chain.CheckPss` | dkgnode/bftruleset.go:341-407 | accepts exactly the well-formed, sufficiently signed and not yet decided proposals; the thresholds over runs are in `Decisions.ReshareDecidedIff` |
| `Decisions.ReshareDecidedIff` | dkgnode/bftruleset.go:341-407 | over every run, for the identifier made from the epoch parameters: a re-sharing is decided if and only if kOld and kNew are not 0 and a proposal was delivered with at least kOld PSSIDs of it, each with at least kNew + tNew signed texts, all valid |
| `Decisions.UnreadableNeverDecided` | dkgnode/bftruleset.go:348-351 | an identifier without parameters is never decided |
| `Decisions.DecidedHasGoodSigners` | dkgnode/bftruleset.go:389-407 | with at most tNew bad signers each PSSID of a decided re-sharing has at least kNew good ones, if kNew + tNew fits 64 bits |
| `Decisions.TextsNeededIff` | dkgnode/bftruleset.go:390-392 | of positive kNew and tNew, texts are asked for if and only if the sum fits 64 bits |
| `Decisions.WrappedThreshold` | dkgnode/bftruleset.go:390-392 | the largest kNew and tNew = 1: the threshold is the smallest 64-bit number |
| `Chain.AnyFrozen` | dkgnode/bftruleset.go:46-50 | true exactly if some freeze set has K + T senders |
| `Chain.AnySummary` | dkgnode/bftruleset.go:53-62 | true exactly if some summary has K votes |
| `Voting.TallyIs` | dkgnode/bftruleset.go:463-604 | over every run: the chain holds for each freeze, summary and key exactly the senders of delivered votes whose mapping was not thawed then; votes for the keys of a thawed mapping are cleared |
| `Voting.FrozenIff` | dkgnode/bftruleset.go:46-50 | over every run: frozen if and only if K + T nodes have voted to freeze one mapping |
| `Voting.SummaryConfirmedIff` | dkgnode/bftruleset.go:53-62 | over every run: confirmed if and only if K nodes have voted for one number of one mapping |
| `Voting.MayAssignIff` | dkgnode/bftruleset.go:45-65 | so when keys may be assigned, in terms of the delivered votes alone |
| `Voting.KeyStoredIff` | dkgnode/bftruleset.go:555-599 | over every run: a vote for a key stores it if and only if it is that of the K-th node, and otherwise leaves both indexes alone |
| `Voting.SummarySetsIff` | dkgnode/bftruleset.go:505-517 | over every run: a vote for a summary moves the indexes to it if and only if it is that of the K-th node |
| `Chain.StoreUsers` | dkgnode/bftruleset.go:570-598 | in any order of the verifiers: the index is added to the list of exactly the listed users, each list sorted and free of a second copy |
| `Application.ABCIApp.DeliverTx` | dkgnode/bftruleset.go:29-653 | the object's new state and verdict are those of the transition function |
| `Application.ABCIApp.DeliverAssign` | dkgnode/bftruleset.go:42-135 | the assignment branch: refusals, the dropped buffer, the missing key and the assignment; over runs in `Assigning.FailuresCounted` and below |
| `Assigning.FailuresCounted` | dkgnode/bftruleset.go:95-105 | over every run: the count of failures is the number of requests refused for a missing key since the last one accepted, and at most 100 |
| `Assigning.BufferGivenUp` | dkgnode/bftruleset.go:95-103 | on a chain that may assign, stuck on a missing key: the requests that make 101 with the failures counted are refused but for the last, which is accepted and moves LastUnassignedIndex to LastCreatedIndex, changing nothing else |
| `Assigning.GivenUpIff` | dkgnode/bftruleset.go:95-99 | over every run the buffer is given up at a request if and only if a hundred were refused before it |
| `Assigning.AssignedIff` | dkgnode/bftruleset.go:76-105 | over every run a request is granted a key if and only if the chain may assign, an index is left, fewer than a hundred were refused and a key with nonzero coordinates is published for that index |
| `Assigning.AssignedStores` | dkgnode/bftruleset.go:106-130 | what it stores: that key under the next index with threshold 1 for the one user, whose list then holds the index; the published entry is gone and the log has the mapping |
| `Assigning.LogIsOfBlock` | dkgnode/bftruleset.go:127-128 | over every run the log of new assignments is that of the running block |
| `Assigning.IndexCountsGrants` | dkgnode/bftruleset.go:125-126 | in runs that neither give up the buffer nor confirm a summary LastUnassignedIndex counts the granted keys |
| `Application.ABCIApp.DeliverPropose` | dkgnode/bftruleset.go:151-248 | the proposal branch |
| `Application.ABCIApp.DeliverPubKey` | dkgnode/bftruleset.go:249-313 | the public key branch |
| `Application.ABCIApp.DeliverSummary` | dkgnode/bftruleset.go:488-535 | the summary branch |
| `Application.ABCIApp.DeliverKey` | dkgnode/bftruleset.go:536-604 | the migrated key branch |
| `Application.ABCIApp.IsThawed` | dkgnode/abci_app.go:302-320 | true exactly when a non-zero required count equals the key count, and then counters and key votes of the mapping are gone |
| `Application.ABCIApp.CheckTx` | dkgnode/bftruleset.go:664-1040 | decides as the pre-check on the lagging state, changing nothing |
| `Application.ABCIApp.Commit` | dkgnode/abci_app.go:389-409 | the lagging state becomes the running state |
| `Ledger.Sorted` | dkgnode/bftruleset.go:90-92 | ascending, with the same elements |
| `Ledger.JudgeLegal` | dkgnode/bftruleset.go:29-653 | what an accepted transaction implies about the state it met |
| `Growth.VotesAccumulate` | dkgnode/bftruleset.go:463-604 | no transaction takes back a vote or a thaw; key votes go only with the thaw |
| `Growth.DecisionsAccumulate` | dkgnode/bftruleset.go:161-164 | no transaction takes back a decision, reopens a key generation or changes a known key |
| `PreCheck.PreCheckRefined` | dkgnode/bftruleset.go:664-1040 | on one state delivery accepts exactly what the pre-check accepts, less a missing key at assignment and an unreadable key identifier |
| `PreCheck.LateStaysRefused` | dkgnode/abci_app.go:364-409 | already decided, voted or thawed: refused by delivery and by the pre-check in every later state |
| `PreCheck.LaggingRefusalIsFinal` | dkgnode/abci_app.go:364-409 | the same from the lagging state of any run |
| `PreCheck.PoolReads` | dkgnode/bftruleset.go:664-1040 | which state the pool reads: a vote or decision is accepted exactly if delivery on the committed state would, less an unreadable identifier; a dealer update exactly if delivery on the running state would; an assignment exactly if the running chain may assign and the committed one has an index left |
| `PreCheck.FrozenPoolRefuses` | dkgnode/bftruleset.go:676-686 | after a freeze in the running state the pool refuses every assignment, in every later state and whatever was committed |
| `PreCheck.LateIsRefusedTwice` | dkgnode/abci_app.go:364-409 | a vote or decision the committed state has seen is refused by the pool whatever the running state, and by delivery ever after |
| `Conservation.CreatedKeysBalance` | dkgnode/bftruleset.go:95-130 | over every run: created = assigned + held + drift, where each step's drift is spelled out |
| `Conservation.CreatedKeysConserved` | dkgnode/bftruleset.go:262-312 | without confirmed summary, zero key or unreadable identifier: created = assigned + held |
| `Conservation.RaisedTwiceIff` | dkgnode/bftruleset.go:262-312 | after a DKGID has raised the count, some continuation raises it again for that DKGID if and only if the proofs of the raising transaction interpolate at zero to the zero point |
| `Conservation.ZeroKeyCountedTwice` | dkgnode/bftruleset.go:161-312 | a run of three transactions that counts one DKGID twice, for every group and threshold |
| `Conservation.HeldUncountedIff` | dkgnode/bftruleset.go:294-312 | a nonzero key that passes the checks is held afterwards, and the counter stays if and only if the DKGID does not parse |
| `Conservation.UnreadableKeyHeld` | dkgnode/bftruleset.go:161-312 | a run of two transactions, for every group with G not zero and K = 1, that leaves a key held and uncounted |
| `Conservation.PublishedKeyIsCommitted` | dkgnode/bftruleset.go:274-302 | the stored key plus some multiple of H is the decided commitment, if the proofs show points of that form |
| `Conservation.AnsweredKeyIsCommitted` | dkgnode/bftruleset.go:274-302 | the same with the hypothesis discharged by special soundness: each proof answers a second challenge for its nonce points |
| `KeyIndexes.InitAgrees` | dkgnode/bftruleset.go:76-130 | in every reachable state: LastUnassignedIndex <= LastCreatedIndex, mapping i stores index i, each user it lists has i in its list, lists ascend |
| `KeyIndexes.IndexesExact` | dkgnode/bftruleset.go:76-130 | without migration messages: a list holds i if and only if mapping i lists the user, and lists ascend strictly |
| `KeyIndexes.NoIndexTwice` | dkgnode/bftruleset.go:76-130 | without migration messages no index is assigned twice |
| `KeyIndexes.MigrationAgrees` | dkgnode/bftruleset.go:555-599 | storing a migrated key keeps the agreement |
| `KeyIndexes.UpdateAgrees` | dkgnode/bftruleset.go:633-639 | a dealer's update keeps the agreement and the users |
| `KeyIndexes.UpdateIsSigned` | dkgnode/bftruleset.go:607-649 | over every run: a dealer update is accepted if and only if it is signed under the key stored for its index, and then replaces that key and nothing else |
| `KeyIndexes.KeysChangeBySignature` | dkgnode/bftruleset.go:607-649 | without migration messages an assigned index keeps its users for good and its key changes along a chain of updates, each signed under the key before |
| `Freezing.FreezeIsStable` | dkgnode/bftruleset.go:471-487 | from a freeze until a summary is confirmed LastUnassignedIndex does not move, in every run |
| `Freezing.FrozenRefusesAssignment` | dkgnode/bftruleset.go:46-50 | after a freeze every assignment is refused without a trace, in every later state |
| `Freezing.FrozenMappingFixed` | dkgnode/bftruleset.go:46-50 | after a freeze, without dealer updates and confirmed migration messages, the key mapping and LastUnassignedIndex stay as they are, in every run |
| `Freezing.TriggerFiresOnce` | dkgnode/bftruleset.go:480-486 | over every run the trigger of a mapping fires once if its votes reach K + T and never otherwise |
| `Migration.DueIsExact` | dkgnode/abci_app.go:302-320 | when the counters meet, every index below the summary holds the old mapping |
| `Migration.AssignsAbove` | dkgnode/bftruleset.go:53-62 | while migrating only indexes the old chain left free are assigned |
| `Migration.StepSound` | dkgnode/bftruleset.go:488-604 | every transaction keeps: key count = number of K-confirmed keys, confirmed data is the old chain's, nothing due is left unthawed |
| `Mapping.SummaryFrozen` | mapping/mapping.go:171-242 | an old node sends the summary and every index below it to every new node, and nothing else |
| `Mapping.MappingNode.ProcessSummary` | mapping/mapping.go:58-109 | one summary counted per old node, broadcast at the K-th |
| `Mapping.MappingNode.ProcessKey` | mapping/mapping.go:110-162 | each key counted once per old node, broadcast at the K-th |
| `Mapping.OnMsgOk` | mapping/mapping.go:58-162 | with fewer than K bad old nodes a new node broadcasts only the old chain's data |
| `Relaying.HeldIs` | mapping/mapping.go:58-162 | over every history: a new node holds for a number the old nodes whose first summary carried it, and for a key the old nodes that sent it |
| `Relaying.PassedIff` | mapping/mapping.go:58-162 | over every history: a message is passed on to the chain if and only if K old nodes are held for it |
| `Relaying.RelayedIff` | mapping/mapping.go:58-162 | the same in every run of the whole system |
| `Relaying.GoodDataRelayed` | mapping/mapping.go:58-162 | in every run: what K good old nodes have sent to a good new node is passed on |
| `Relaying.MigrationCompletes` | mapping/mapping.go:58-242 | in every run: once K good old nodes have told K new nodes all the old chain's data, and what these passed on is on the chain, the mapping is thawed if and only if the old chain had assigned a key |
| `Mapping.ThawedIsExact` | dkgnode/abci_app.go:302-320 | with fewer than K bad nodes on either side, in every run: a thawed mapping is the announced one and every index below the frozen one holds exactly the old key mapping |
| `Mapping.MigratedFromRun` | mapping/mapping.go:171-242 | the old chain may go on after its freeze: its nodes send the same messages at every later moment, and a thawed mapping holds what that chain then holds |
| `Thawing.StepThaws` | dkgnode/bftruleset.go:488-604 | a transaction thaws the mapping exactly when its vote completes the summary and as many keys as it announces, which are more than none |
| `Thawing.ThawedIff` | dkgnode/abci_app.go:302-320 | in every run, whichever vote came last: the mapping is thawed if and only if K new nodes have put the announced summary and every key below it on the chain, and there is such a key |
| `Migrating.MigrationCanThaw` | mapping/mapping.go:58-242 | with K old and K new nodes that follow the protocol and at least one assigned key, some run thaws the mapping |
| `MigratedIndexes.MigrationKeepsExact` | dkgnode/bftruleset.go:555-599 | in every run of a migration, at every moment: a list holds i if and only if mapping i lists the user, lists ascend strictly, and a stored mapping below the summary is the old chain's |

## Left out

- The HTTP and JSON-RPC handlers, libp2p, Tendermint and Ethereum clients, OAuth verifiers, telemetry, configuration, logging, the event bus and the storage layer: plumbing; storage is maps that do not fail.
- ECDSA, Keccak and JSON encoding: results of signature checks are parameters, and texts used as map keys stand for their value.
- Secrecy and binding of the commitments: not properties of this code.
- The `complete` and `nizkp` handlers of key generation, which collect what they hand on to the rule set, and the texts of proposals.
- Store maps with tombstones for finished sharings, and the waiting loops of `decide`: a `decide` here meets sharings that have ended.
- The share step's random coefficients: a dealer's polynomials are parameters.
- Node checks on the player flag in re-sharing: the modelled nodes are players.
- The marking of started key generations when a summary is confirmed, tags, and the messages the rule set sends to the local node: they do not feed back into the replicated state.
- `KeyBuffer` and the start of key generations at the end of a block.
- pvss/verenc.go, signcryption, pkcs7: not used by the protocols modelled here; the padding inside the proof's hash is part of the hash.
- Ledger.Sorted: key indexes and counters are unbounded integers, and the 64-bit widths of LastUnassignedIndex, LastCreatedIndex and the counts are not modelled.
- Chain.AtMostOneWinner: bounds the entries of a proof map; that n nodes give at most n entries is the hypothesis that node identifiers are spelled in one way.
- Instance.EndsExactlyWhen: the machine ends on an empty matrix too, where the code reads its corner and crashes; the object in `SharingNode` has the crash.
- Instance.NeverReadsMissingBars: the same.
- Refresh.ResharingKeepsSecret: the dealers of a decided set are distinct by hypothesis, which the rule set does not check; `Recovery.PlainDealersDistinct` derives it for plain PSSIDs, and `Recovery.RepeatedDealer` is what happens without it.
- Mapping.ThawedIsExact: assumes epoch other than 1, the override off, no dealer updates and one mapping in progress, as described in `Mapping.Enabled`.
