# A model of the Theta ledger core

A Dafny model of the parts of the Theta protocol ledger that its safety rests on, with proofs over
every input, every run and every reachable state.

* **Consensus.** Honest nodes, faulty validators holding at most a third of the stake, the network
  and crashes take steps over a growing block tree and a set of signed votes. A handler is the list
  of writes it saves; a crash keeps a prefix of the list. `NodeInvariant`, `HandlerSafety` and
  `Protocol` carry one invariant through every write of every handler. `Rules` says what each handler
  does to the fields of a node, without the lists. `Agreement`, `Progress`,
  `StatusMachine`, `Gaps`, `Tops`, `Diagram`, `Deliveries` and `Proposal` draw the conclusions, with
  `Passes` to lift facts from the parts of handlers to all of them; `Witness` holds concrete runs
  that show they are not empty. `TxIndex` and `TxCrashes` are the transaction index. `Engine` and
  `Chain` are the imperative code as classes; their methods are proved to make exactly the writes of
  the state machine, so what is proved about runs holds for them.
* **RLP.** `RlpSpec` is the recursive code of Appendix B of the Ethereum Yellow Paper on items. The
  encoder with its deferred list headers (`RlpEncode`), the stateful stream (`RlpDecode`) and the
  slice readers (`RlpRaw`) all refine it. `Header` is the block header with its three fork layouts,
  `HeaderLayout` says where each field stands, and `HeaderBytes` is the decoder on bytes.
* **Hash state.** `SpongeSpec` is the sponge of sections 4 and 5.1 of FIPS 202 with the permutation
  left open; `Sponge` is the buffered state.
* **Stakes.** `Stakes`, `PoolSpec` and `PoolRuns` specify holders, pools and runs of operations;
  `PoolBooks` says who has
  staked what with whom. `Pools` holds the pools and the ledger's payout as classes. `Proposer` is the stake-weighted draw.
* **Aggregated votes.** `Bls` treats keys and signatures as commutative monoids and verification as a
  homomorphism; `GuardianVotes` and `EdgeVotes` are the vote sets and their gossip engines.

Hashes, addresses and transactions are numbers; a hash stands for one block. Signatures cannot be
forged: a vote by an honest node is authentic only if that node sent it. What depends on the order
of a Go map is left open. A branch in which the original panics is either an error result or ends
the handler with nothing more written.

Where the code does not do what one would expect of it, the model follows the code and states the
exact condition:

* A node that leaves epoch 2^64-1 enters epoch 0 (`UpdateRaisesEpoch`, `EpochCanWrap`), which takes
  a majority that signed there (`EpochNeverFalls`, `FallIsHonest`).
* The return height of a stake wraps at 2^64 (`LockHoldsUnlessItWraps`, `LockCanBeLost`).
* A crash in the middle of finalizing a branch, and nothing else, leaves a finalized block with an
  unfinalized parent, and no later finalization closes the gap (`ClosedExactly`, `GapStays`,
  `GapHappens`).
* A crash between saving a block as final and indexing its transactions can leave a final
  transaction indexed at a fork, where it stays until a block that holds it is finalized
  (`CutIndexing`, `FoundExactly`, `StaleStays`, `IndexCanGoStale`).
* A crash while a block is being stored leaves its parent with a missing child, on which the tip
  search is fatal until the block arrives again, or leaves the block out of the height index for good
  (`SearchFailsExactly`, `TreeExactly`, `UnindexedExactly`, `FatalSearchHappens`).
* A crash around the save of the highest committed block leaves it unmarked, until it is finalized or
  another is committed, or leaves the old one level with the last finalized block, until another is
  committed (`MarkedExactly`, `BelowExactly`).
* Header bytes are accepted whatever stands in the place of the aggregates, so they need not be an
  encoding and need not be written again as they were read (`WrittenBackExactly`,
  `AcceptedUnparsed`).
* Votes of one voter in a certificate are written in no fixed order, so a header has one hash exactly
  when no voter has two votes in it (`HashIsDetermined`).
* A hash state that is being read from can be copied faithfully only at the full rate of 168 bytes;
  below that the copy lags behind or fails (`Clone`).
* A proposer draw can fall behind the last validator's stretch, where the code panics
  (`AllDrawsPick`, `SomeDrawsFail`).
* Edge-node aggregates may list an address with multiplicity zero, so a merge that counts as new
  need not have more signers (`MergedCount`, `MergeCanAddNobody`).
* The status diagram at core/block.go:390-399 leaves out Valid to IndirectlyFinalized, which
  finalization performs (`StatusesFollowDiagram`). After a crash between two saves a block can go
  from Valid to DirectlyFinalized (`DepartsExactly`, `CheckDeparts`, `DepartureHappens`).

## Model

| member | source | states |
|---|---|---|
| Validators.TotalStake | core/validator.go:130-136 | the result is the sum of all stakes |
| Validators.GetValidator | core/validator.go:114-121 | finds a member with that address, and fails only if there is none |
| Validators.HasMajorityVotes | core/validator.go:139-155 | true exactly when three times the voted stake exceeds twice the total; with one vote per voter this depends only on the set of voters, not on the order of the list |
| Validators.QuorumIntersection | core/validator.go:139-155 | any two majorities share an honest validator when the dishonest ones hold at most a third |
| Validators.HonestThird | core/validator.go:139-155 | the honest part of a majority holds more than a third of the stake |
| Votes.UniqueVoter | core/vote.go:273-287 | keeps, for each voter, exactly one vote, of the highest epoch that voter has; which of two votes of that epoch stays is left open |
| Votes.FilterByValidators | core/vote.go:290-298 | keeps exactly the votes of validators |
| Votes.Merge | core/vote.go:243-252 | the union of both sets; its voters are those of both |
| Votes.CertificateIsValid | core/vote.go:50-70 | accepts exactly the well-formed certificates: votes for the block only, no more of them than validators, and a majority |
| Votes.VotersFitValidators | core/vote.go:50-70 | with one vote per voter and validators only, the size limit of a certificate is never exceeded |
| Votes.VotesAccumulate | core/vote.go:156-159 | adding votes never loses a vote or a voter |
| Votes.ProposedCertificateAccepted | core/vote.go:50-70 | a vote set that once had a majority, after any number of further votes, reduced to one vote per voter and filtered by validators, is a certificate that every receiver accepts |
| BlockTree.AncLinear | blockchain/chain.go:359-372 | two ancestors of one block lie on one chain |
| ChainTree.UvarintInjective | blockchain/chain.go:154-160 | the varint code of a height determines it |
| ChainTree.HeightKeyInjective | blockchain/chain.go:154-160 | different heights never share a database key |
| ChainTree.AddBlockKeeps | blockchain/chain.go:66-120 | adding a block, orphan or not, keeps the store well formed: children lists without repetition that hold exactly stored children, height entries that hold exactly the stored hashes of the height |
| ChainTree.AddAllKeeps | blockchain/chain.go:66-120 | after any list of additions the store holds the old blocks and the new ones, nothing else, and stays well formed |
| ChainTree.OrderDoesNotMatter | blockchain/chain.go:66-120 | the same blocks added in any two orders, orphans and repeats included, give the same tree: the same blocks, children sets and height entries, each child once |
| ChainSpec.WalkNext | blockchain/chain.go:297-324 | one step of the finalizing walk leaves the rest of the walk as it is and fewer blocks to finalize, which is why the loop ends |
| ChainSpec.WalkExactly | blockchain/chain.go:297-324 | what finalizing marks is the walk of parents from the block, none finalized and none twice, that ends where no stored block is left that is not final |
| ChainSpec.DescendantExactly | blockchain/chain.go:359-372 | the bounded search answers whether one of the first hashes on the walk of parents is the block |
| ChainTree.HeightKeyExactly | blockchain/chain.go:154-160 | the key of a height is its prefix and the height in groups of seven bits, lowest first, with the top bit set in all bytes but the last |
| Chain.Chain.constructor | blockchain/chain.go:31-48 | a new chain holds exactly its root, as a trusted block |
| Chain.Chain.AddBlock | blockchain/chain.go:66-120 | refuses exactly the stored blocks and those of another chain; otherwise links the parent, collects waiting children one height up, enters the height index and indexes the transactions |
| Chain.Chain.AddBlockByHeightIndex | blockchain/chain.go:166-187 | the entry of the height gains the hash once; other entries stay |
| Chain.Chain.FindBlocksByHeight | blockchain/chain.go:197-213 | the stored blocks of the entry in its order, missing ones skipped |
| Chain.Chain.FindChildren | blockchain/chain.go:101-109 | exactly the stored blocks one height up that name the block as parent |
| Chain.Chain.IsDescendant | blockchain/chain.go:359-372 | true exactly when the first block is met on the parent walk from the second among the first 2000 hashes |
| Chain.Chain.MarkBlock | blockchain/chain.go:234-264 | the status of one block changes and nothing else; a missing block is reported |
| Chain.Chain.MarkBlockHasValidatorUpdate | blockchain/chain.go:266-280 | the flag of one block is set and nothing else changes |
| Chain.Chain.FinalizePreviousBlocks | blockchain/chain.go:297-324 | marks exactly the walk down from the block to the nearest finalized or missing one, the block itself directly and the others indirectly finalized, and points the index into the marked blocks for exactly their transactions |
| Chain.Chain.AddVoteToIndex | blockchain/vote.go:14-26 | one vote joins the entry of its block; other entries stay |
| Chain.Chain.FindVotesByHash | blockchain/vote.go:29-33 | the entry of the block, empty if there is none |
| Chain.Chain.AddTxsToIndex | blockchain/tx.go:27-52 | every transaction is indexed; an entry that is there already is replaced only when forced |
| Chain.Chain.FindTxByHash | blockchain/tx.go:71-88 | answers what the entry points to, and nothing without an entry or without its block; with a true index that is the transaction in a block that holds it, a final one if any final block holds it |
| TxIndex.IndexedMeans | blockchain/tx.go:27-52 | after indexing, each entry is the old one or points into the block at a position that holds the transaction; forced entries point into the block |
| TxIndex.FinalizeExactly | blockchain/chain.go:297-324 | finalizing makes the blocks on the walk final, the first directly and the others indirectly, and nothing else, and points the index into them for exactly their transactions |
| TxIndex.FinalizeKeeps | blockchain/chain.go:297-324 | finalizing a branch keeps the index true for every finalized block |
| TxIndex.FinalizedTxsAreFound | blockchain/tx.go:27-88 | after any run of completed chain operations every transaction of a finalized block other than the root is indexed at a finalized block that holds it at the stored position, whatever forks hold it too |
| TxIndex.CutIndexing | blockchain/chain.go:297-324 | a crash between saving a block as final and its k-th index entry leaves every transaction of final blocks findable exactly when no later transaction of the block is indexed at a block that is not final |
| TxCrashes.SavesDo | blockchain/chain.go:297-324 | the saves of an operation on store and index, one after the other, are the operation |
| TxCrashes.EntriesStayTrue | blockchain/tx.go:27-88 | over every run with crashes between any two saves, an entry points to a stored block that holds the transaction at that position |
| TxCrashes.FoundExactly | blockchain/tx.go:27-88 | over every run with crashes, a transaction is found in a final block if and only if it was at the start or some finalization got as far as writing its entry or as marking the block where it was indexed |
| TxCrashes.StaleStays | blockchain/chain.go:297-324 | a transaction of a final block that is left indexed at a fork stays so through every run with crashes, until a block that holds it is finalized or indexed anew |
| TxCrashes.TouchRestores | blockchain/chain.go:297-324 | a finalization of a block that holds it, or a new indexing, taken to its end brings the transaction back |
| TxCrashes.IndexCanGoStale | blockchain/chain.go:297-324 | a run of two additions and a finalization cut after its first save that leaves the entry at the block that is not final |
| NodeInvariant.SafePrefix | consensus/state.go:89-119 | a crash after any number of saved writes leaves a node that satisfies the invariant |
| HandlerSafety.HandleVoteSafe | consensus/engine.go:976-1028 | handling any genuine vote keeps the node invariant at every saved write |
| HandlerSafety.EpochIsFollowed | consensus/engine.go:991-1025 | votes of a majority at an epoch or later justify the epoch after it |
| HandlerSafety.CheckCCSafe | consensus/engine.go:1073-1110 | the check keeps the invariant at every write, and afterwards the highest committed block is at least as high as any processed block with a known majority |
| HandlerSafety.ParentIsFinal | consensus/engine.go:1224-1246 | the parent that a committed block finalizes is certified or the root, sits at the height of the local highest committed block, and is confirmed by its child |
| HandlerSafety.ProcessCCSafe | consensus/engine.go:1224-1246 | committing a certified block, with or without finalizing its parent, keeps the invariant at every write |
| HandlerSafety.FinalizeSafe | consensus/engine.go:1248-1288 | finalizing keeps the invariant at every write, makes the block the last finalized one and changes no other status than those of its ancestors |
| HandlerSafety.MarkOne | blockchain/chain.go:297-324 | one mark of the finalizing walk keeps the invariant, obeys the status rules and leaves fewer blocks to mark |
| HandlerSafety.NewVoteOk | consensus/engine.go:888-937 | a vote cast under the height and highest-committed-block rules keeps the ballots free of double votes and locked, also the first vote, which is exempt from both rules |
| HandlerSafety.CastVoteSafe | consensus/engine.go:888-937 | casting or repeating a vote keeps the invariant at every write |
| HandlerSafety.AcceptedIsLinked | consensus/engine.go:449-699 | an accepted block has a processed parent of an earlier epoch and a highest committed block among its ancestors that is final or carries a valid certificate |
| HandlerSafety.PrepareSafe | consensus/engine.go:800-809 | before a block is marked valid its highest committed block is no higher than the local one: the step that makes the first-vote exemption sound |
| HandlerSafety.AcceptBlockSafe | consensus/engine.go:800-866 | processing an accepted block keeps the invariant at every write |
| Protocol.HandleBlockSafe | consensus/engine.go:767-876 | the whole block handler keeps the invariant wherever it is cut off |
| Protocol.ActionSafe | consensus/engine.go:395-422 | every handler, whatever it is given, keeps the node invariant at every single saved write |
| Protocol.StepOk | consensus/engine.go:395-422 | one step of the network, by a node, a faulty validator, the network or a crash, keeps the system invariant |
| Protocol.ReachedOk | consensus/engine.go:395-422 | every reachable state of every run satisfies the system invariant |
| Rules.VerdictExactly | consensus/engine.go:449-699 | a stored block under a stored parent is accepted exactly if it is above the last finalized block, one above its parent and of a later epoch, the parent is processed, the block it names as highest committed is among the first 2000 on the way down and final or certified, is the parent where parent or grandparent carry a validator update, and the other checks pass; it is fatal exactly if it fits a parent that is still pending |
| Rules.CertificateExactly | core/vote.go:50-70 | a certificate is accepted exactly if it holds one authentic vote for the block per voter, no more than there are validators, from voters with more than two thirds of the stake |
| Rules.VoteExactly | consensus/engine.go:888-937 | one ballot in the current epoch for the tip, which becomes the last vote, if there is no last vote above height zero or the tip is higher and names the local highest committed block, and for the stored block of the last vote otherwise; none without a stored tip or outside the validator set |
| Rules.OneBallotIsCast | consensus/engine.go:888-937 | in every reachable state a validator with a stored tip casts exactly one ballot, under its own id and in its epoch, for the tip or for the block of its last vote, and which of the two |
| Rules.VoteCounted | consensus/engine.go:976-1028 | an authentic vote joins the votes of its block and, unless the voter has a later one, becomes the vote of its voter; the epoch moves to the one after it exactly if it is not behind and more than two thirds of the stake have voted in it or since; any other vote changes nothing |
| Rules.CommitExactly | consensus/engine.go:1073-1110 | the check commits a block exactly if it is above the highest committed one, trusted or else valid with votes of more than two thirds of the stake, and its parent is stored if it is named; what then changes is the block, the highest committed block and, if the parent is named, the last finalized block and the statuses on the walk down from it |
| Rules.ReceivedExactly | consensus/engine.go:395-422 | a received vote is counted and its block then checked |
| Rules.PreparedExactly | consensus/engine.go:800-809 | an accepted block has the votes of its certificate counted and then the block it names checked, unless that is the local highest committed block |
| Rules.ConcludedExactly | consensus/engine.go:840-866 | with the consent of the ledger a block becomes valid and keeps the word on a validator update, a vote is cast if its epoch is the current one or the one before and the timer allows it, and its certificate is checked unless the tip search failed |
| Rules.BlockExactly | consensus/engine.go:767-876 | the whole block handler on the fields of the node: only a pending block under a stored parent is looked at, a block that may not be accepted becomes invalid, and an accepted one is prepared and then concluded or made invalid as the ledger says |
| Rules.BlockOutcome | consensus/engine.go:767-876 | a pending block that was handled is invalid unless it may be accepted and the ledger consents, and then valid or committed with the word on a validator update; at most one ballot is cast, and none unless the block was good and recent |
| Rules.FreshExactly | consensus/state.go:43-57 | a new node stores the root alone, trusted, and starts from it |
| Rules.EpochsRise | consensus/engine.go:470-478 | in every reachable state, along every parent chain of processed blocks epochs strictly rise |
| Agreement.SignatureMeans | consensus/engine.go:888-937 | an honest signature means a processed block that hangs from the root and names an ancestor as highest committed block |
| Agreement.NoDoubleVote | consensus/engine.go:888-937 | in every reachable state, crashes included, no honest node has signed two blocks of one height |
| Agreement.SignerIsLocked | consensus/engine.go:888-937 | an honest signer of two heights named, at the higher one, a certified block at least as high as the one named at the lower one |
| Agreement.OneCertifiedPerHeight | core/validator.go:139-155 | at most one block per height ever gets a majority |
| Agreement.FinalIsAncestor | consensus/engine.go:1224-1246 | every certified block at or above a directly finalized one descends from it |
| Agreement.FinalizedOnOneChain | consensus/engine.go:1224-1288 | agreement: whatever two honest nodes have finalized, each at its own moment of any run, lies on one chain |
| Agreement.CommitsExtendFinal | consensus/engine.go:1224-1288 | once any honest node directly finalizes a block, every block any honest node commits at that height or above, before or after, is that block or a descendant |
| Agreement.LastFinalizedBelowCommitted | consensus/engine.go:1224-1288 | at every honest node the last finalized block is an ancestor of the highest committed one |
| Agreement.OneCommitPerHeight | consensus/engine.go:1073-1110 | honest nodes never commit two blocks of one height |
| Agreement.EpochIsBacked | consensus/engine.go:976-1028 | an honest node above the initial epoch implies that honest validators with more than a third of the stake signed at the epoch before or later |
| Progress.RunAdvances | consensus/state.go:128-202 | over any stretch of any run with crashes: statuses only move forward, the highest committed block only rises, the last finalized block never sinks, a new last vote is higher, ballots stay |
| Progress.LastFinalizedRises | consensus/engine.go:1248-1288 | the last finalized block changes only to a strictly higher one |
| Progress.EveryWriteGuarded | consensus/engine.go:767-937 | every write of every handler in every reachable state obeys its rule: one arrow of the status machine, a higher committed block, a vote above the last one under the lock |
| Progress.UpdateRaisesEpoch | consensus/engine.go:1003-1022 | leaving an epoch raises it exactly when the vote is not of epoch 2^64-1 |
| Progress.EpochNeverFalls | consensus/engine.go:976-1028 | no epoch of an honest node falls over any stretch of any run, whoever has signed what, unless a majority has signed in epoch 2^64-1 |
| Progress.FallIsHonest | consensus/engine.go:976-1028 | with at most a third faulty, an honest epoch falls only after honest validators with more than a third of the stake have signed in epoch 2^64-1 |
| Progress.ProcessedDownToRoot | consensus/engine.go:767-876 | every processed block hangs from the root and all its ancestors are processed |
| Progress.SearchableTree | consensus/engine.go:1121-1157 | in every reachable state, crashes included, a stored child names its lister as parent and a processed one is one higher, which is what the tip search needs to end |
| Deliveries.CutExactly | blockchain/chain.go:66-120 | from a true tree, the first k saves of an insertion leave a true tree exactly unless the crash falls after the link to a stored parent or after the block, and before the height entry |
| Deliveries.TreeExactly | blockchain/chain.go:66-120 | in every run the children lists and height entries of a node are those of its stored blocks, each once, if and only if the node never crashed inside an insertion |
| Deliveries.MissingExactly | blockchain/chain.go:66-120 | in every run a block lists a missing child if and only if the node once crashed between linking that child and storing it, and has not stored it since |
| Deliveries.UnindexedExactly | blockchain/chain.go:66-120 | in every run a stored block is missing from its height entry if and only if the node crashed between storing and indexing it |
| Deliveries.SearchFailsExactly | consensus/engine.go:1121-1157 | in every state of every run the tip search is fatal if and only if it comes to the parent of a block that the node linked, lost in a crash, and has not stored since |
| Passes.ActionPasses | consensus/engine.go:395-422 | a rule on single writes that vote handling, the commit check and the plain writes obey is obeyed by every handler at every write |
| StatusMachine.CrashesUpset | consensus/engine.go:1224-1288 | for every handler and every crash point: finality stays closed under parents exactly unless the first lost write is a later mark of a walk, the highest committed block stays marked exactly unless it is its mark, and the last finalized block stays below it exactly unless it is a final mark or the save that follows |
| StatusMachine.RunSettled | consensus/engine.go:1248-1288 | at every honest node in every run, whatever crashes elsewhere, each of the three holds as long as no crash of the node itself fell on its crash points |
| Gaps.WalkStops | blockchain/chain.go:297-324 | the finalizing walk from a block above a finalized one never gets below that |
| Gaps.GapStays | blockchain/chain.go:297-324 | a block left unfinalized below a finalized one stays so for the rest of every run with at most a third faulty |
| Gaps.ClosedExactly | blockchain/chain.go:297-324 | in every run the finalized blocks of a node are closed under parents if and only if the node never crashed inside a finalizing walk |
| Diagram.StatusesFollowDiagram | core/block.go:388-410 | at a node that never crashed between saving its highest committed block and marking it, each status change is an arrow of the diagram or Valid to IndirectlyFinalized, whatever crashes elsewhere |
| Diagram.DepartsExactly | core/block.go:388-410 | in every reachable state with at most a third faulty, crashes included, a handler leaves the diagram exactly when it directly finalizes the highest committed block the node had saved and that block is merely Valid |
| Diagram.CheckDeparts | consensus/engine.go:1073-1110 | the same as a condition on the state before the commit check: a block with a majority confirms the saved highest committed block, which is Valid and not the last finalized one |
| Diagram.FinalizedOnce | consensus/engine.go:1248-1288 | in every reachable state with at most a third faulty, a handler that makes a block the last finalized one has not finalized it before |
| Tops.MarkedExactly | consensus/engine.go:1224-1246 | in every run the highest committed block is unmarked if and only if the node crashed between saving this very block and marking it, and it has not been finalized since |
| Tops.BelowExactly | consensus/engine.go:1224-1288 | in every run the last finalized block is level with the highest committed one, above the root, if and only if the node crashed between saving the one and its child as the other, and has committed nothing since |
| Witness.SomethingIsFinalized | consensus/engine.go:1224-1288 | a reachable state in which blocks have been committed, directly and indirectly finalized |
| Witness.GapHappens | blockchain/chain.go:297-324 | a reachable state with a finalized block above an unfinalized one |
| Witness.DepartureHappens | consensus/engine.go:1224-1246 | a reachable state and a handler call that leaves the diagram |
| Witness.LevelHappens | consensus/engine.go:1224-1288 | a reachable state in which the last finalized block is level with the highest committed one |
| Witness.UnmarkedHappens | consensus/engine.go:1224-1246 | a reachable state in which the highest committed block is unmarked |
| Witness.FatalSearchHappens | blockchain/chain.go:79-111 | a reachable state in which the tip search is fatal |
| Witness.EpochCanWrap | consensus/engine.go:1003-1022 | a reachable state without faults or crashes and a step that takes an honest node from epoch 2^64-1 to epoch 0 |
| Proposal.RunBacked | consensus/engine.go:1073-1110 | in every reachable state an honest node holds votes of a majority for its highest committed block |
| Proposal.AttachedCertificateAccepted | consensus/engine.go:1353-1422 | the certificate an honest proposer attaches for a highest committed block above the root is accepted by every receiver |
| Tip.GetTip | consensus/engine.go:1121-1157 | the search ends, though a child may be listed twice; it fails exactly when it comes to a listed child that is not stored, and otherwise returns a highest block among those reachable from the highest committed block through valid blocks, and without the flag through none with a validator update |
| Engine.AddEpochVoteByVoter | consensus/state.go:219-229 | adding a vote and keeping one latest vote per voter replaces exactly the entry of that voter |
| Engine.Recent | consensus/engine.go:992-1001 | exactly the votes of the given epoch or later |
| Engine.HasMajority | core/validator.go:158-160 | the two-thirds test on a vote set |
| Engine.Engine.constructor | consensus/state.go:43-57 | a start takes over the saved summary exactly when it is of the same root |
| Engine.Engine.Commit | consensus/state.go:89-94 | what is saved is the current summary |
| Engine.Engine.SetEpoch | consensus/state.go:128-134 | the epoch changes, is saved at once, and nothing else changes |
| Engine.Engine.SetLastVote | consensus/state.go:158-164 | the same for the last vote |
| Engine.Engine.SetHighestCCBlock | consensus/state.go:177-183 | the same for the highest committed block |
| Engine.Engine.SetLastFinalizedBlock | consensus/state.go:196-202 | the same for the last finalized block |
| Engine.Engine.Restart | consensus/state.go:96-119 | after a crash the engine is exactly what it was after its last saved write |
| Engine.Engine.AddEpochVote | consensus/state.go:219-229 | one latest vote per voter is kept |
| Engine.Engine.AddVote | consensus/state.go:204-210 | the vote joins the epoch votes and the index |
| Engine.Engine.UpdateEpoch | consensus/engine.go:988-1025 | the epoch moves to the one after the vote exactly when a majority has voted at that epoch or later and the tip search on the way does not fail |
| Engine.Engine.HandleVote | consensus/engine.go:976-1028 | the vote is counted as `VoteCounted` says, unless a tip search fails; the new state is the list of writes of the state machine applied to the old one |
| Engine.Engine.HandleVotes | consensus/engine.go:800-802 | the same for all votes of a certificate, in any order |
| Engine.Engine.FinalizeBlock | consensus/engine.go:1248-1288 | the new state is the specified list of writes applied to the old one |
| Engine.Engine.ProcessCCBlock | consensus/engine.go:1224-1246 | the new state is the specified list of writes applied to the old one |
| Engine.Engine.CommitBlock | consensus/engine.go:1236-1246 | saves the block as highest committed one and then marks it |
| Engine.Engine.CheckCC | consensus/engine.go:1073-1110 | the block is committed exactly if it qualifies, with the effects of `CommitExactly`, by the list of writes of the state machine |
| Engine.Engine.OnVote | consensus/engine.go:395-422 | a received vote is counted and its block checked: one step of the protocol, taken to its end or to a failed tip search |
| Engine.Engine.CastVote | consensus/engine.go:888-937 | for a tip that is a true tip: exactly one ballot, for the tip or repeated for the block of the last vote, and which of the two, with the last vote it leaves; nothing if the tip search fails |
| Engine.Engine.ValidateBlock | consensus/engine.go:449-699 | accepted exactly if the parent, height, epoch, certificate and validator-update rules all hold, each named, and fatal exactly if the block fits a pending parent |
| Engine.Engine.PrepareBlock | consensus/engine.go:800-809 | the certificate is taken in, in some order, and checked, up to a failed tip search if there is one |
| Engine.Engine.MarkBlockValid | consensus/engine.go:840-847 | the block becomes valid and its update flag is set if there is an update; nothing else changes |
| Engine.Engine.ConcludeBlock | consensus/engine.go:840-866 | mark, vote and check, for a tip that is a true tip; a failed tip search ends it before the check |
| Engine.Engine.AcceptBlock | consensus/engine.go:800-866 | processing an accepted block is a possible step and has exactly its writes, up to a failed tip search |
| Engine.Engine.JudgeBlock | consensus/engine.go:767-800 | the verdict on a pending block with a stored parent; every other block is passed over |
| Engine.Engine.HandleBlock | consensus/engine.go:767-876 | the block handler is one possible step of the protocol, taken to its end or to a failed tip search, and does to the fields what `BlockExactly` says: the state machine above covers the imperative code |
| Engine.Engine.Certificate | consensus/engine.go:1373-1375 | the certificate attached for a highest committed block above the root is valid |
| Engine.Engine.CreateProposal | consensus/engine.go:1353-1375 | fails exactly with the tip search; otherwise extends a true tip without pending validator update, one height up, in the current epoch, with the highest committed block and its certificate |
| Engine.Engine.OnTimer | consensus/engine.go:327-335 | the vote timer is one step of the protocol taken to its end, with the one ballot of the voting rule |
| RlpSpec.ParseEncode | rlp/decode.go:511-533 | for every nested item, whatever follows its encoding, parsing gives the item and its exact length |
| RlpSpec.EncodeParse | rlp/decode.go:511-533 | whatever is parsed is the encoding of the item it is parsed as: only canonical input is accepted |
| RlpSpec.EncodedExactly | rlp/encode.go:121-246 | a byte below 128 is its own encoding; any other string is tagged from 0x80 on and a list of encodings from 0xC0 on, with up to 55 bytes counted in the tag and more in one to eight bytes behind it, as few as possible |
| RlpSpec.KnownEncodings | rlp/encode_test.go:130-165 | the encodings of nothing, of an empty list, of a short string and of a list of two |
| RlpSpec.EncodingIsPrefixFree | rlp/encode.go:121-246 | distinct items have distinct encodings and none is the start of another |
| RlpEncode.IntSize | rlp/encode.go:643-649 | the number of bytes that putint writes |
| RlpEncode.HeadSize | rlp/encode.go:141-146 | the number of bytes that puthead writes |
| RlpEncode.PutInt | rlp/encode.go:585-640 | writes the shortest big-endian form and leaves the rest of the buffer alone |
| RlpEncode.PutHead | rlp/encode.go:150-158 | writes exactly the header and leaves the rest of the buffer alone |
| RlpEncode.SizeOfParts | rlp/encode.go:226-228 | string data and header bytes together have the size of the encoding |
| RlpEncode.WovenIsEncoding | rlp/encode.go:230-246 | putting the deferred headers in at their offsets gives the recursive encoding |
| RlpEncode.Weave | rlp/encode.go:230-246 | fills the buffer with exactly that |
| RlpEncode.EncBuf.EncodeStringHeader | rlp/encode.go:190-199 | appends the header of a string |
| RlpEncode.EncBuf.EncodeString | rlp/encode.go:201-209 | the finished items gain the string |
| RlpEncode.EncBuf.OpenList | rlp/encode.go:211-215 | opens a list, remembering where its header belongs |
| RlpEncode.EncBuf.CloseList | rlp/encode.go:217-224 | the innermost list becomes a finished item; its header gets its size |
| RlpEncode.EncBuf.ToBytes | rlp/encode.go:230-246 | with no list open, the bytes are the encoding of the finished items and their number is size() |
| RlpEncode.EncBuf.EncodeItem | rlp/encode.go:507-525 | any properly nested writing of an item adds exactly that item |
| RlpEncode.EncodeToBytes | rlp/encode.go:97-105 | the encoder computes the recursive encoding |
| RlpDecode.Stream.constructor | rlp/decode.go:824-856 | a fresh stream stands at the start of its input, in no list |
| RlpDecode.Stream.WillRead | rlp/decode.go:1016-1034 | fails exactly when the innermost list or the input has too few bytes left |
| RlpDecode.Stream.ReadFull | rlp/decode.go:990-1003 | exactly the next bytes, or an error if there are not as many |
| RlpDecode.Stream.ReadUint | rlp/decode.go:964-988 | the big-endian number, zero for no bytes, refusing leading zeros |
| RlpDecode.Stream.ReadKind | rlp/decode.go:902-962 | accepts exactly the canonical tags and moves behind them |
| RlpDecode.Stream.PeekKind | rlp/decode.go:869-900 | kind and size of the value ahead, the same again until it is read; end of list exactly at the end of the innermost list |
| RlpDecode.Stream.Bytes | rlp/decode.go:648-669 | accepts exactly canonical strings and moves behind them |
| RlpDecode.Stream.Raw | rlp/decode.go:672-694 | returns exactly the bytes it consumed |
| RlpDecode.Stream.Uint | rlp/decode.go:703-734 | accepts exactly canonical integers of the size |
| RlpDecode.Stream.OpenList | rlp/decode.go:757-769 | accepts exactly lists; what is ahead is then their content |
| RlpDecode.Stream.ListEnd | rlp/decode.go:773-788 | leaves a list exactly when it is read to its end, also with a tag read ahead; otherwise nothing changes |
| RlpDecode.Stream.DecodeInterface | rlp/decode.go:511-533 | the item that the recursive parser finds, or an error exactly when it finds none |
| RlpDecode.Stream.DecodeListSlice | rlp/decode.go:323-336 | the items of the list ahead, or an error exactly when they do not parse |
| RlpDecode.Stream.DecodeSliceElems | rlp/decode.go:338-365 | the items up to the end of the innermost list, or an error exactly when they do not parse |
| RlpDecode.DecodeBytes | rlp/decode.go:136-146 | whatever is accepted re-encodes to the same bytes, and every encoding is accepted and gives back its item |
| RlpDecode.IntsRoundTrip | rlp/decode.go:703-734 | integers are read back from what they are written as and from nothing else |
| RlpRaw.ReadSize | rlp/raw.go:127-156 | agrees with the recursive specification of sizes, errors included |
| RlpRaw.ReadKind | rlp/raw.go:86-125 | agrees with the recursive specification of heads, errors included |
| RlpRaw.SplitEncoded | rlp/raw.go:39-71 | splitting an encoding followed by anything gives the content and exactly the rest; the wrong kind is refused |
| RlpRaw.CountValues | rlp/raw.go:74-84 | the loop, on a shrinking slice, computes the recursive count |
| RlpRaw.CountEncoded | rlp/raw.go:74-84 | n concatenated encodings count as n |
| RlpRaw.RawAndSplit | rlp/raw.go:39-45 | where the stream reader takes a raw value the slice reader finds the same content and extent, except that it refuses exactly a byte below 128 behind tag 0x81 |
| RlpRaw.ReadersAgree | rlp/raw.go:39-45 | the recursive parser accepts a value if and only if the slice reader does and, for a list, the content parses; content and extent are the same |
| Header.HeaderBack | core/block.go:207-311 | every well-formed header, at every height, is read back from the items written for it, in whatever order votes of one voter were written |
| Header.NormalSameItem | core/block.go:145-202 | with one vote per voter in the certificate, what is read back is written as the same items |
| Header.AggregateBack | core/block.go:145-202 | a guardian aggregate is read back and is never written as "c0" |
| Header.EdgeBack | core/block.go:145-202 | the same for an edge-node aggregate |
| Header.VotesBack | core/vote.go:219-240 | the votes of a certificate, repeated voters included, come back from their list in any order |
| HeaderLayout.HeaderIsLaidOut | core/block.go:145-203 | the items of the encoding are, in order, chain id, epoch, height, parent, certificate with its votes and then its block, transaction, receipt, bloom and state hash, time, proposer and signature, and from heights 5877350 and 10968061 on the guardian and the edge node aggregate |
| HeaderLayout.VoteWritten | core/vote.go:73-79 | the items of a vote are block, height, epoch, voter and signature |
| HeaderLayout.AggregateWritten | core/guardian.go:22-27 | the items of a guardian aggregate are block, pool hash, multiplicities and signature |
| HeaderLayout.EdgeWritten | core/elite_edge_node.go:73-78 | the items of an edge node aggregate are block, multiplicities, addresses and signature |
| HeaderLayout.FieldsExactly | core/block.go:207-268 | twelve items are read as a header exactly if each is what its place calls for, and each field is then the content of the item in its place |
| HeaderLayout.VoteRead | core/vote.go:73-79 | an item is read as a vote exactly if it is laid out as that vote |
| HeaderLayout.CertificateRead | core/vote.go:29-32 | a certificate is read with its block and, for each voter, block and epoch, the last of its votes; an empty list or string is read as no votes |
| HeaderLayout.AggregateExactly | core/guardian.go:22-27 | an item is read as a guardian aggregate exactly if it is laid out as that aggregate and its signature, if any, is accepted |
| HeaderLayout.EdgeAggregateExactly | core/elite_edge_node.go:73-78 | the same for an edge node aggregate |
| HeaderLayout.HeaderBytesSurvive | core/block.go:145-311 | encoding gives the fields in their places, decoding gives the header back, and with one vote per voter encoding again gives the same bytes, for all three fork layouts |
| Header.HashIsDetermined | core/vote.go:168-225 | all encodings of a header are the same bytes, and so have one hash, if and only if no voter has two votes in its certificate |
| Header.TwoOrders | core/vote.go:168-225 | a vote set in which a voter has two votes can be written in two ways |
| HeaderBytes.DecodeHeader | core/block.go:207-311 | the decoder on the stream accepts exactly a list of the common fields, each of its type, with as many raw values behind them as the height asks for, and each field of the header is the content of the item or raw value in its place |
| HeaderBytes.BytesBack | core/block.go:145-311 | every well-formed header, at every height, is read back from its bytes |
| HeaderBytes.OrderExactly | core/vote.go:219-240 | a certificate can be written as it was read if and only if its votes are a list with the lowest voter first and no two votes of one voter for one block in one epoch |
| HeaderBytes.WrittenBackExactly | core/block.go:275-311 | accepted header bytes are an encoding of the header read from them if and only if the votes stand in order and each aggregate is "c0" or is read without an error, or its half-read rest is written like its bytes |
| HeaderBytes.AcceptedUnparsed | core/block.go:275-311 | a byte behind a tag it must not have, in place of the guardian aggregate, is accepted although the bytes are no encoding of anything |
| SpongeSpec.OneBlock | crypto/sha3/sha3.go:83-122 | for a message shorter than a block, the output is the front of the permuted state that holds the message, the domain byte and the last padding bit and is zero elsewhere |
| SpongeSpec.AbsorbMore | crypto/sha3/sha3.go:125-157 | absorbing a message in two parts is absorbing it at once |
| SpongeSpec.SqueezeMore | crypto/sha3/sha3.go:160-181 | the next bytes of output are those of the state permuted as often as blocks were used up |
| SpongeSpec.LanesBack | crypto/sha3/xor_generic.go:12-28 | lanes survive being read as bytes and back |
| Sponge.State.XorIn | crypto/sha3/xor_generic.go:12-20 | each byte of the block is xored into the byte of the state in its place; the rest stays |
| Sponge.State.CopyOut | crypto/sha3/xor_generic.go:23-28 | the storage holds the front of the state |
| Sponge.State.AbsorbBuffer | crypto/sha3/sha3.go:79-94 | the full buffer is xored in and permuted |
| Sponge.State.PadAndPermute | crypto/sha3/sha3.go:98-121 | the state is that of the sponge after the padded message |
| Sponge.State.Write | crypto/sha3/sha3.go:125-157 | however the message is split, the state is that of the whole message |
| Sponge.State.Read | crypto/sha3/sha3.go:160-181 | however the reads are split, together they give the output stream of the sponge |
| Sponge.State.Clone | crypto/sha3/sha3.go:66-75 | an absorbing copy stands for the same message and shares no storage; a squeezing copy lags behind by the part of the storage the rate leaves unused, and fails exactly when less than that of the block has been read |
| Sponge.State.Sum | crypto/sha3/sha3.go:185-192 | the sponge of everything written; the state itself is unchanged; after reading, the output from where the copy stands |
| Sponge.State.Reset | crypto/sha3/sha3.go:57-64 | back to the empty message |
| Stakes.TotalStake | core/stake.go:109-117 | the sum of the stakes that are not being withdrawn |
| Stakes.DepositStake | core/stake.go:130-150 | tops up or opens the stake of the source; refused for negative amounts and while it is being withdrawn |
| Stakes.WithdrawStake | core/stake.go:152-165 | starts the clock of the stake of the source |
| Stakes.ReturnStake | core/stake.go:167-183 | takes out the stake of the source exactly when it is withdrawn and due |
| Stakes.DepositAdds | core/stake.go:130-150 | a deposit raises the total and what counts of it by its amount and keeps sources unique |
| Stakes.WithdrawKeeps | core/stake.go:152-165 | a withdrawal moves nothing out, takes the stake out of what counts and keeps sources unique |
| Stakes.LockHoldsUnlessItWraps | core/stake.go:152-165 | the lock-up period holds exactly for withdrawal heights at least 28800 below 2^64 |
| Stakes.LockCanBeLost | core/stake.go:152-165 | at height 2^64-1 a withdrawn stake is due at once |
| PoolSpec.SortRanks | core/validator.go:290-298 | sorting puts the candidate with more active stake first, and of two with the same the one with the higher address text, and loses none |
| PoolSpec.ReturnSplits | core/validator.go:258-288 | a return hands out exactly the mature stakes, each once, and keeps exactly the others |
| PoolSpec.ReturnConserves | core/validator.go:258-288 | what stays and what is handed out add up to what was there |
| PoolRuns.StepOk | core/validator.go:205-298 | every operation keeps holders and sources unique and the pool in order, and moves exactly the amounts it reports |
| PoolRuns.StakeIsConserved | core/validator.go:205-298 | at every point of every run the pool holds exactly what was deposited less what was returned |
| PoolRuns.WithdrawalIsRecorded | core/stake.go:152-165 | every stake that is being withdrawn goes back to an accepted withdrawal by its source from its holder, which set its return height; it was not there before and has been there ever since |
| PoolRuns.LockedUntilReturned | core/stake.go:152-183 | a stake is paid out only when its return height is reached, from the holder where it has stood since the accepted withdrawal that set it, and is then gone: at least 28800 blocks later, unless that reaches past 2^64 |
| PoolRuns.Credit | ledger/ledger.go:660-687 | fails exactly if a source has no account; otherwise every account gains exactly what is due to it, all accounts together the sum of the returned stakes |
| Pools.ReturnFrom | core/validator.go:265-279 | deleting from the list while walking it backwards takes out exactly the mature stakes |
| PoolBooks.DepositRefused | core/validator.go:205-234 | in a well-formed pool a deposit is refused exactly if it is below the minimum, which the fork heights 14526120 and 8411427 lower, or the stake of the pair is being withdrawn |
| PoolBooks.DepositBooks | core/validator.go:205-234 | an accepted deposit raises what the source has with the holder by exactly its amount and changes no other pair |
| PoolBooks.WithdrawBooks | core/validator.go:236-256 | a withdrawal is refused exactly without a stake of the pair or while it is being withdrawn, changes no amount, and makes that stake alone due 28800 blocks later, in 64 bits |
| PoolBooks.ReturnBooks | core/validator.go:258-288 | a return takes out exactly the stakes that are withdrawn and due, and what is booked for every other pair stays |
| PoolBooks.PaidToSource | ledger/ledger.go:660-687 | a return pays each source what it has booked with those holders from whom its stake is due |
| PoolBooks.StakeIsDeposits | core/validator.go:205-288 | at every point of every run, what is booked for a pair is the sum of its accepted deposits since its stake was last paid out |
| PoolBooks.PayoutIsDeposits | core/validator.go:205-288 | over every run, a stake that is paid out comes from a holder and is exactly what its source has deposited for that holder since it was last paid out of there |
| Pools.ValidatorCandidates.DepositStake | core/validator.go:205-234 | refused exactly if below the minimum of its height or while the pair is withdrawing; otherwise what is booked for holder and source rises by the amount and no other pair changes |
| Pools.ValidatorCandidates.WithdrawStake | core/validator.go:236-256 | refused exactly without a stake of the pair or while it is withdrawing; otherwise no amount changes and the stake of that pair alone is due 28800 blocks later |
| Pools.ValidatorCandidates.ReturnStakes | core/validator.go:258-288 | in-place deletion in the nested reverse loops hands out exactly the stakes that are withdrawn and due and keeps exactly the others; each source gets what it had staked with the holders from whom its stake is due |
| Pools.ValidatorCandidates.GetTopStakeHolders | core/validator.go:197-203 | the leading candidates: every one taken has at least the active stake of every one left out, and with equal stake no smaller address text |
| Pools.GuardianCandidates.Add | core/guardian.go:184-202 | inserts in address order unless the guardian is there; with a stake or without |
| Pools.GuardianCandidates.Remove | core/guardian.go:205-215 | removes exactly the guardian with the address |
| Pools.GuardianCandidates.Contains | core/guardian.go:218-227 | binary search finds exactly the guardians in the pool |
| Pools.GuardianCandidates.DepositStake | core/guardian.go:300-329 | the same for guardians, with their minimum |
| Pools.GuardianCandidates.WithdrawStake | core/guardian.go:331-348 | the same for guardians |
| Pools.GuardianCandidates.ReturnStakes | core/guardian.go:350-377 | the same with removal by address while walking backwards |
| Pools.Ledger.HandleValidatorStakeReturn | ledger/ledger.go:660-687 | fails exactly if the source of a returned stake has no account, which funded pools exclude and stay to exclude; otherwise pools plus accounts stay constant and every account gains exactly what was due to it |
| Pools.Ledger.HandleGuardianStakeReturn | ledger/ledger.go:689-716 | the same for guardian stakes |
| Pools.Ledger.HandleDelayedStateUpdates | ledger/ledger.go:650-658 | both returns together: fails exactly if either does; otherwise pools plus accounts stay constant |
| Proposer.ScaledTotalInRange | consensus/validator.go:95-120 | the scaled total is at least 1 and below 2^32-1 |
| Proposer.ScaledSumFallsShort | consensus/validator.go:182-189 | scaling the stakes one by one loses at most n-1 against the scaled total |
| Proposer.HitsOnce | consensus/validator.go:95-120 | the stretches of the validators do not overlap |
| Proposer.GetProposer | consensus/validator.go:95-120 | a draw below the sum of the scaled stakes picks the one validator whose stretch holds it; any other picks nobody |
| Proposer.AllDrawsPick | consensus/validator.go:95-120 | every draw in range picks somebody exactly when scaling loses nothing |
| Proposer.SomeDrawsFail | consensus/validator.go:95-120 | two validators with 2^32+1 each and a draw in range that picks nobody |
| Proposer.SelectValidators | consensus/validator.go:138-154 | exactly the leading candidates with stake left, each once, by address; no candidate that is passed over has more active stake than a validator, and one with stake is passed over only by 31 validators |
| Bls.Multiply | crypto/bls/bls.go:269-293 | double-and-add computes the multiple |
| Bls.AggregateVec | crypto/bls/bls.go:296-332 | the sum of the multiples |
| Bls.WeightedSum | crypto/bls/bls.go:320-332 | summed multiplicities give the sum of the aggregated keys |
| Bls.SignaturesAdd | crypto/bls/bls.go:48-50 | the sum of two signatures verifies under the sum of the keys |
| GuardianVotes.Abs | core/guardian.go:96-104 | the number of signers |
| GuardianVotes.SumGrows | core/guardian.go:66-104 | adding votes loses no signer and gains one exactly when they bring a new one |
| GuardianVotes.Merge | core/guardian.go:66-93 | fails exactly on another block or pool or a 32-bit overflow, passes over exactly the votes without a new signer, otherwise adds multiplicities and signatures |
| GuardianVotes.MergedIsValid | core/guardian.go:66-134 | two votes that validate merge to one that validates, with more signers exactly when the second brings a new one |
| GuardianVotes.Pick | core/guardian.go:107-115 | the vote with more signers, the first in a tie; refused for another block or pool |
| GuardianVotes.Validate | core/guardian.go:118-134 | accepts exactly the votes of the pool whose signature verifies under the weighted key |
| GuardianVotes.NewIsValid | core/guardian.go:29-36 | the empty vote validates |
| GuardianVotes.SignedIsValid | core/guardian.go:53-62 | a valid vote signed by a guardian with their own key stays valid |
| GuardianVotes.GuardianEngine.StartNewBlock | consensus/guardian.go:54-87 | a guardian starts with its own valid vote, anybody else with none |
| GuardianVotes.GuardianEngine.StartNewRound | consensus/guardian.go:89-99 | rounds stop at 10; the vote to send is the best one |
| GuardianVotes.GuardianEngine.ValidateVote | consensus/guardian.go:224-279 | accepts exactly valid votes for the current block |
| GuardianVotes.GuardianEngine.ProcessVote | consensus/guardian.go:132-213 | the best vote stays valid and is replaced exactly by the better vote or the merge, with strictly more signers each time |
| EdgeVotes.Validate | core/elite_edge_node.go:197-228 | accepts exactly the sorted, selected, nonempty votes whose signature verifies under the weighted key |
| EdgeVotes.MergeAscends | core/elite_edge_node.go:117-172 | merging sorted lists gives a strictly sorted list |
| EdgeVotes.MergeAdds | core/elite_edge_node.go:117-172 | multiplicities are added address by address; the addresses are those of both |
| EdgeVotes.MergeFails | core/elite_edge_node.go:117-172 | the merge of sorted lists fails exactly when some common address overflows 32 bits |
| EdgeVotes.NewIsUnlisted | core/elite_edge_node.go:117-172 | the merge counts as new exactly when the second vote lists an address the first does not |
| EdgeVotes.Merge | core/elite_edge_node.go:117-172 | the two-index loop computes the merge, and says overflow and nothing-new exactly when they occur |
| EdgeVotes.MergedIsValid | core/elite_edge_node.go:117-228 | two votes that validate merge to one that validates |
| EdgeVotes.Abs | core/elite_edge_node.go:175-183 | the number of addresses with a multiplicity other than zero |
| EdgeVotes.MergedCount | core/elite_edge_node.go:117-183 | the count of signers rises in a merge exactly when the second vote has a signer the first has not; the list of addresses grows exactly when it lists a new one |
| EdgeVotes.MergeCanAddNobody | core/elite_edge_node.go:117-183 | two valid votes whose merge is accepted as new although the count of signers does not rise |
| EdgeVotes.ConvertedIsValid | consensus/elite_edge_node.go:171-180 | a converted single vote is valid exactly when its own signature verifies |
| EdgeVotes.EdgeEngine.StartNewBlock | consensus/elite_edge_node.go:57-98 | a new block starts without votes |
| EdgeVotes.EdgeEngine.StartNewRound | consensus/elite_edge_node.go:100-110 | rounds stop at 20; the vote to send is the best one |
| EdgeVotes.EdgeEngine.ProcessVote | consensus/elite_edge_node.go:147-168 | exactly the votes for the block by selected nodes with a verifying signature are queued, as valid aggregates |
| EdgeVotes.EdgeEngine.ProcessAggregatedVote | consensus/elite_edge_node.go:182-237 | the best vote stays valid and is replaced exactly by a merge that lists more addresses and counts no fewer signers |

## Left out

- Operator overrides: rewinding to an earlier block, hardcoded blocks, a forced last vote and the
  Disposed status bypass the voting rules and are not modelled.
- Changing validator sets: one set holds for a whole run; a block with a validator update only
  matters to the tip search.
- Engine.Engine.ValidateBlock: the checks of a block on its proposer, guardian votes, edge-node votes,
  chain id and signatures are one answer of the environment, `checksOk`.
- When a node proposes, and which validator update transactions it puts in: a run may publish any
  block at any time.
- Transaction execution, the virtual machine and state tries: applying a block is an arbitrary
  answer, `applyOk`.
- Stopping the engine, the last proposal kept in the state, sync status, the branch download in
  checkCCFromVote and pruning: they change nothing the theorems speak about.
- Timers, goroutines, channels, the network, mempool, snapshots and remote calls: each handler and
  each insertion of a block is one step with a list of saves, cut off only by crashes and by failed
  tip searches. The root is inserted in one piece.
- The repair functions FixMissingChildren and FixBlockIndex, which nothing calls.
- TxCrashes.FoundExactly: speaks of runs of chain operations, not of the consensus handlers; the two
  are connected by `Engine.Engine.FinalizeBlock` and `Diagram.FinalizedOnce`.
- Protocol.ReachedOk: the root's own parent lies outside the model, a block does not name itself as
  its highest committed block, and the votes in the root's own certificate count as nobody's
  signatures: they were cast before the run begins.
- Stakes.DepositStake: a holder is a value that the pool object owns, so two pools sharing one
  holder object is not captured; the pools themselves are updated in place.
- Pools.Ledger.HandleValidatorStakeReturn: only the staked coin is tracked; when the original panics
  nothing is said about the pool, which is thrown away unsaved.
- Pools.Ledger.HandleDelayedStateUpdates: the returns of edge-node stakes are not modelled, because
  their pool lives in the state trie.
- Guardian keys and the filtered pool of guardians with stake: the pool classes hold stakes only,
  and the vote engine is given the keys of the guardians with stake.
- Stakes of edge nodes: their pool lives in the state trie; the vote engine is given who is selected
  and everybody's key.
- EdgeVotes.EdgeEngine.ProcessVote: the cache of sampling results is left out; it only remembers
  what the pool answers.
- RlpDecode.Stream.constructor: streams read a byte slice, whose end is the input limit; readers
  without a limit are not modelled.
- Reflection and the type cache of the RLP package, readers over encodings and buffer pools: items
  stand for Go values.
- HeaderBytes.DecodeHeader: a typed field is read as an item and then judged by its type. What a
  failed decoding leaves of an aggregate is a parameter, because it depends on the curve library.
- PoolSpec.SortRanks: the order of checksummed address texts is a parameter; it depends on a hash.
- Ethereum transaction hashes in the transaction index.
- The bits of the Keccak permutation, and the assembly and unaligned variants of xor.
- The curves behind BLS and secp256k1 signatures, and proofs of possession.
- JSON forms, logging and string conversions.
