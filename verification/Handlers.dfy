/** One consensus engine as a value. Every handler of consensus/engine.go is given as the list
    of writes it persists, in order; a crash leaves a prefix of the list. */
module Handlers {
  import opened Common
  import opened Validators
  import opened Votes
  import opened BlockTree
  import opened ChainSpec

  const NO_VOTE: Vote := Vote(EMPTY_HASH, 0, 0, EMPTY_ADDRESS, false)

  /** `sent` is a history variable: the ballots this node has signed and broadcast. */
  datatype Node = Node(
    id: Address,
    root: Hash,
    chain: ChainData,
    votes: map<Hash, VoteSet>,
    epochVotes: map<Address, Vote>,
    hcc: Hash,
    lfb: Hash,
    lastVote: Vote,
    epoch: nat,
    sent: set<VoteKey>)

  datatype Write =
    | PutEpochVote(vote: Vote, replaceTie: bool)
    | PutVote(vote: Vote)
    | PutEpoch(epoch: nat)
    | PutLfb(h: Hash)
    | PutStatus(h: Hash, status: Status)
    | PutHcc(h: Hash)
    | PutUpdate(h: Hash)
    | PutLastVote(vote: Vote)
    | Send(vote: Vote)

  function VotesOf(n: Node, h: Hash): VoteSet {
    VotesFor(n.votes, h)
  }

  /** Per voter, the vote of the highest epoch; which of two in the same epoch stays is open. */
  function LatestVote(votes: map<Address, Vote>, v: Vote, replaceTie: bool): map<Address, Vote> {
    if v.id in votes && (votes[v.id].epoch > v.epoch || (votes[v.id].epoch == v.epoch && !replaceTie))
    then votes else votes[v.id := v]
  }

  ghost function Apply(n: Node, w: Write): Node {
    match w
    case PutEpochVote(v, tie) => n.(epochVotes := LatestVote(n.epochVotes, v, tie))
    case PutVote(v) => n.(votes := n.votes[v.block := AddVote(VotesOf(n, v.block), v)])
    case PutEpoch(e) => n.(epoch := e)
    case PutLfb(h) => n.(lfb := h)
    case PutStatus(h, s) => n.(chain := n.chain.(blocks := SetStatus(n.chain.blocks, h, s)))
    case PutHcc(h) => n.(hcc := h)
    case PutUpdate(h) => n.(chain := n.chain.(blocks := SetUpdate(n.chain.blocks, h)))
    case PutLastVote(v) => n.(lastVote := v)
    case Send(v) => n.(sent := n.sent + {Key(v)})
  }

  ghost function ApplyAll(n: Node, ws: seq<Write>): Node
    decreases ws
  {
    if ws == [] then n else ApplyAll(Apply(n, ws[0]), ws[1..])
  }

  lemma {:induction false} ApplyAllConcat(n: Node, a: seq<Write>, b: seq<Write>)
    ensures ApplyAll(n, a + b) == ApplyAll(ApplyAll(n, a), b)
    decreases a
  {
    if a == [] {
      assert a + b == b;
    } else {
      assert (a + b)[1..] == a[1..] + b;
      ApplyAllConcat(Apply(n, a[0]), a[1..], b);
    }
  }

  lemma ApplyTwo(n: Node, a: Write, b: Write)
    ensures ApplyAll(n, [a]) == Apply(n, a) && ApplyAll(n, [a, b]) == Apply(Apply(n, a), b)
  {
    assert [a][1..] == [] && [a, b][1..] == [b] && [b][1..] == [];
    assert ApplyAll(Apply(n, a), [b]) == ApplyAll(Apply(Apply(n, a), b), []);
  }

  // ---- votes and epochs --------------------------------------------------------------

  ghost function VotersSince(votes: map<Address, Vote>, epoch: nat): set<Address> {
    set a | a in votes && votes[a].epoch >= epoch
  }

  /** handleVote: an invalid vote is ignored; a majority of votes at the vote's epoch or later
      moves the node to the epoch after it. Epochs are 64 bits wide. */
  ghost function HandleVote(n: Node, vs: ValidatorSet, v: Vote, replaceTie: bool): seq<Write> {
    if !Validate(v) then [] else
      var saved := [PutEpochVote(v, replaceTie), PutVote(v)];
      var known := LatestVote(n.epochVotes, v, replaceTie);
      if v.epoch >= n.epoch && Majority(vs, VotersSince(known, v.epoch))
      then saved + [PutEpoch((v.epoch + 1) % U64)] else saved
  }

  datatype Incoming = Incoming(vote: Vote, replaceTie: bool)

  ghost function HandleVotes(n: Node, vs: ValidatorSet, votes: seq<Incoming>): seq<Write>
    decreases votes
  {
    if votes == [] then [] else
      var ws := HandleVote(n, vs, votes[0].vote, votes[0].replaceTie);
      ws + HandleVotes(ApplyAll(n, ws), vs, votes[1..])
  }

  // ---- commit certificates and finality ----------------------------------------------

  ghost function MarkAll(hs: seq<Hash>, first: Status): seq<Write> {
    if hs == [] then [] else [PutStatus(hs[0], first)] + MarkAll(hs[1..], IndirectlyFinalized)
  }

  ghost function FinalizeBlock(n: Node, p: Hash): seq<Write> {
    if p == n.lfb then [] else [PutLfb(p)] + MarkAll(Walk(n.chain.blocks, p), DirectlyFinalized)
  }

  ghost function ProcessCC(n: Node, h: Hash): seq<Write>
    requires h in n.chain.blocks && n.hcc in n.chain.blocks
  {
    var b := n.chain.blocks[h].block;
    if b.height <= n.chain.blocks[n.hcc].block.height then []
    else if b.parent == b.hcc && b.parent !in n.chain.blocks then []
    else (if b.parent == b.hcc then FinalizeBlock(n, b.parent) else []) + [PutHcc(h), PutStatus(h, Committed)]
  }

  /** checkCC. Not finding the highest committed block is fatal: nothing is written. */
  ghost function CheckCC(n: Node, vs: ValidatorSet, h: Hash): seq<Write> {
    if h == EMPTY_HASH || h !in n.chain.blocks || n.hcc !in n.chain.blocks then [] else
      var eb := n.chain.blocks[h];
      if eb.status.Invalid? || eb.status.Pending? then []
      else if eb.status.Committed? || eb.status.DirectlyFinalized? || eb.status.IndirectlyFinalized? then []
      else if eb.status.Trusted? then ProcessCC(n, h)
      else if eb.block.height < n.chain.blocks[n.hcc].block.height then []
      else if Majority(vs, Voters(VotesOf(n, h))) then ProcessCC(n, h)
      else []
  }

  // ---- voting ------------------------------------------------------------------------

  function CreateVote(n: Node, b: Block): Vote {
    Vote(b.hash, b.height, n.epoch, n.id, true)
  }

  /** vote: repeats the last vote unless the tip is higher and names the local highest
      committed block. Neither test applies before the first vote at a nonzero height. A failed
      tip search is fatal: nothing is written. */
  ghost function CastVote(n: Node, vs: ValidatorSet, tip: Option<Hash>): seq<Write> {
    if tip.None? || tip.value !in n.chain.blocks then [] else
    var b := n.chain.blocks[tip.value].block;
    if n.id !in Addresses(vs) then []
    else if n.lastVote.height != 0 && (n.lastVote.height >= b.height || b.hcc != n.hcc) then
      if n.lastVote.block in n.chain.blocks then [Send(CreateVote(n, n.chain.blocks[n.lastVote.block].block))] else []
    else [PutLastVote(CreateVote(n, b)), Send(CreateVote(n, b))]
  }

  // ---- blocks ------------------------------------------------------------------------

  datatype Verdict = Accept | Reject | Panic

  /** What the environment answers while a block is processed: the order in which the
      certificate's votes are visited, the proposer and guardian-vote checks, transaction
      execution, the vote timer and the tip that the tip search returns, if it does not fail. */
  datatype Env = Env(
    order: seq<Incoming>,
    checksOk: bool,
    applyOk: bool,
    validatorUpdate: bool,
    voteTimerReady: bool,
    tip: Option<Hash>)

  ghost function ValidateBlock(n: Node, vs: ValidatorSet, h: Hash, checksOk: bool): Verdict
    requires h in n.chain.blocks && n.chain.blocks[h].block.parent in n.chain.blocks && n.lfb in n.chain.blocks
  {
    var blocks := n.chain.blocks;
    var b := blocks[h].block;
    var parent := blocks[b.parent];
    if b.height <= blocks[n.lfb].block.height then Reject
    else if parent.block.height + 1 != b.height then Reject
    else if parent.block.epoch >= b.epoch then Reject
    else if parent.status.Pending? then Panic
    else if !IsValid(parent.status) then Reject
    else if !IsDescendant(blocks, b.hcc, h, MAX_DISTANCE) then Reject
    else if b.hcc !in blocks then Reject
    else if !IsFinalized(blocks[b.hcc].status) && !CertificateOk(b.hccVotes, b.hcc, vs) then Reject
    else if parent.hasValidatorUpdate && b.hcc != b.parent then Reject
    else if parent.block.parent != EMPTY_HASH && parent.block.parent !in blocks then Reject
    else if parent.block.parent != EMPTY_HASH && blocks[parent.block.parent].hasValidatorUpdate && b.hcc != b.parent then Reject
    else if !checksOk then Reject
    else Accept
  }

  predicate RecentEpoch(blockEpoch: nat, localEpoch: nat) {
    blockEpoch == (localEpoch + U64 - 1) % U64 || blockEpoch == localEpoch
  }

  ghost function MarkValid(h: Hash, validatorUpdate: bool): seq<Write> {
    (if validatorUpdate then [PutUpdate(h)] else []) + [PutStatus(h, Valid)]
  }

  ghost function CatchUp(n: Node, vs: ValidatorSet, hcc: Hash): seq<Write> {
    if n.hcc != hcc then CheckCC(n, vs, hcc) else []
  }

  predicate WillVote(n: Node, b: Block, env: Env) {
    RecentEpoch(b.epoch, n.epoch) && env.voteTimerReady
  }

  predicate EndsAtSearch(n: Node, b: Block, env: Env) {
    WillVote(n, b, env) && env.tip.None?
  }

  ghost function VoteOn(n: Node, vs: ValidatorSet, b: Block, env: Env): seq<Write> {
    if WillVote(n, b, env) then CastVote(n, vs, env.tip) else []
  }

  /** handleNormalBlock after a positive verdict, up to the ledger's answer. */
  ghost function Prepare(n: Node, vs: ValidatorSet, b: Block, order: seq<Incoming>): seq<Write> {
    var ws := HandleVotes(n, vs, order);
    ws + CatchUp(ApplyAll(n, ws), vs, b.hcc)
  }

  ghost function MarkAndVote(n: Node, vs: ValidatorSet, b: Block, env: Env): seq<Write> {
    var ws := MarkValid(b.hash, env.validatorUpdate);
    ws + VoteOn(ApplyAll(n, ws), vs, b, env)
  }

  /** A failed tip search ends the handler before the commit check. */
  ghost function Conclude(n: Node, vs: ValidatorSet, b: Block, env: Env): seq<Write> {
    var ws := MarkAndVote(n, vs, b, env);
    if EndsAtSearch(ApplyAll(n, MarkValid(b.hash, env.validatorUpdate)), b, env) then ws
    else ws + CheckCC(ApplyAll(n, ws), vs, b.hash)
  }

  ghost function AcceptBlock(n: Node, vs: ValidatorSet, b: Block, env: Env): seq<Write> {
    var ws := Prepare(n, vs, b, env.order);
    ws + (if env.applyOk then Conclude(ApplyAll(n, ws), vs, b, env) else [PutStatus(b.hash, Invalid)])
  }

  /** handleNormalBlock. Only a pending block is processed; a missing parent is fatal. */
  ghost function HandleBlock(n: Node, vs: ValidatorSet, h: Hash, env: Env): seq<Write> {
    var blocks := n.chain.blocks;
    if h !in blocks || !blocks[h].status.Pending? then []
    else if blocks[h].block.parent !in blocks || n.lfb !in blocks then []
    else match ValidateBlock(n, vs, h, env.checksOk)
      case Panic => []
      case Reject => [PutStatus(h, Invalid)]
      case Accept => AcceptBlock(n, vs, blocks[h].block, env)
  }

  /** A received vote is saved and then may complete a commit certificate. */
  ghost function HandleVoteMessage(n: Node, vs: ValidatorSet, v: Vote, replaceTie: bool): seq<Write> {
    var ws := HandleVote(n, vs, v, replaceTie);
    ws + CheckCC(ApplyAll(n, ws), vs, v.block)
  }
}
