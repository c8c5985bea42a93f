/** What each handler of consensus/engine.go does to a node, said on the fields of the node before
    and after. */
module Rules {
  import opened Common
  import opened Validators
  import opened Votes
  import opened BlockTree
  import opened ChainSpec
  import opened Handlers
  import opened NodeInvariant
  import opened Protocol

  // ---- which blocks are accepted -----------------------------------------------------

  ghost predicate Processed(s: Store, h: Hash) {
    h in s && s[h].status in {Valid, Committed, DirectlyFinalized, IndirectlyFinalized, Trusted}
  }

  /** One authentic vote for the block per voter, from voters with more than two thirds of the
      stake, and no more votes than validators. */
  ghost predicate Certifies(votes: VoteSet, block: Hash, vs: ValidatorSet) {
    && 0 < |votes| <= |vs| && StakeOf(vs, Voters(votes)) * 3 > SumStake(vs) * 2
    && (forall k, l :: k in votes && l in votes && k.id == l.id ==> k == l)
    && forall k :: k in votes ==> votes[k].block == block && block != 0 && votes[k].id != 0 && votes[k].authentic
  }

  /** The block is one higher and of a later epoch than its parent, and above the last finalized
      block. */
  ghost predicate FitsParent(n: Node, h: Hash)
    requires h in n.chain.blocks && n.chain.blocks[h].block.parent in n.chain.blocks && n.lfb in n.chain.blocks
  {
    var b := n.chain.blocks[h].block;
    var parent := n.chain.blocks[b.parent].block;
    b.height > n.chain.blocks[n.lfb].block.height && b.height == parent.height + 1 && b.epoch > parent.epoch
  }

  /** The highest committed block that the block names is among the first 2000 on the way down from
      it, and is final or certified by the block. */
  ghost predicate NamesCommitted(s: Store, vs: ValidatorSet, h: Hash)
    requires h in s
  {
    var b := s[h].block;
    && b.hcc in s && MetWithin(s, b.hcc, h, 2000)
    && (s[b.hcc].status in {DirectlyFinalized, IndirectlyFinalized, Trusted} || Certifies(b.hccVotes, b.hcc, vs))
  }

  /** After a validator update the next two blocks must name their parent, and the grandparent, if
      there is one, is stored. */
  ghost predicate RespectsUpdate(s: Store, b: Block)
    requires b.parent in s
  {
    var parent := s[b.parent];
    var grand := parent.block.parent;
    && (parent.hasValidatorUpdate ==> b.hcc == b.parent)
    && (grand != 0 ==> grand in s && (s[grand].hasValidatorUpdate ==> b.hcc == b.parent))
  }

  ghost predicate MayAccept(n: Node, vs: ValidatorSet, h: Hash, checksOk: bool)
    requires h in n.chain.blocks && n.chain.blocks[h].block.parent in n.chain.blocks && n.lfb in n.chain.blocks
  {
    var s, b := n.chain.blocks, n.chain.blocks[h].block;
    FitsParent(n, h) && Processed(s, b.parent) && NamesCommitted(s, vs, h) && RespectsUpdate(s, b) && checksOk
  }

  /** A stored block under a stored parent is accepted exactly if it fits a processed parent, names
      a committed block as it should and passes the checks on proposer and guardian votes; it is
      fatal exactly if it fits a parent that is still pending. */
  lemma VerdictExactly(n: Node, vs: ValidatorSet, h: Hash, checksOk: bool)
    requires h in n.chain.blocks && n.chain.blocks[h].block.parent in n.chain.blocks && n.lfb in n.chain.blocks
    ensures ValidateBlock(n, vs, h, checksOk).Accept? <==> MayAccept(n, vs, h, checksOk)
    ensures ValidateBlock(n, vs, h, checksOk).Panic? <==> FitsParent(n, h) && n.chain.blocks[n.chain.blocks[h].block.parent].status == Pending
  {
    hide IsDescendant, MetWithin, Majority, StakeOf, SumStake;
    var b := n.chain.blocks[h].block;
    DescendantExactly(n.chain.blocks, b.hcc, h, MAX_DISTANCE);
    CertificateExactly(b.hccVotes, b.hcc, vs);
  }

  lemma CertificateExactly(votes: VoteSet, block: Hash, vs: ValidatorSet)
    ensures CertificateOk(votes, block, vs) <==> Certifies(votes, block, vs)
  {
    if votes != map[] {
      var k :| k in votes;
      assert votes.Keys != {};
    }
  }

  // ---- what a vote is cast for -------------------------------------------------------

  /** The voting rule. Nothing happens without a stored tip or outside the validator set. Otherwise
      one ballot is cast in the current epoch: for the tip, which becomes the last vote, if there
      is no last vote above height zero or the tip is higher and names the local highest committed
      block; and for the block of the last vote, if that is stored, in all other cases. */
  ghost predicate CastsVote(n: Node, m: Node, vs: ValidatorSet, tip: Option<Hash>) {
    var s := n.chain.blocks;
    && m == n.(sent := m.sent, lastVote := m.lastVote)
    && if tip.None? || tip.value !in s || n.id !in Addresses(vs) then m == n else
      var b := s[tip.value].block;
      if n.lastVote.height == 0 || (b.height > n.lastVote.height && b.hcc == n.hcc)
      then m.lastVote == Vote(b.hash, b.height, n.epoch, n.id, true) && m.sent == n.sent + {VoteKey(n.id, b.hash, n.epoch)}
      else
        && m.lastVote == n.lastVote
        && m.sent == if n.lastVote.block in s then n.sent + {VoteKey(n.id, s[n.lastVote.block].block.hash, n.epoch)} else n.sent
  }

  lemma VoteExactly(n: Node, vs: ValidatorSet, tip: Option<Hash>)
    ensures CastsVote(n, ApplyAll(n, CastVote(n, vs, tip)), vs, tip)
  {
    var ws := CastVote(n, vs, tip);
    if |ws| == 1 {
      ApplyTwo(n, ws[0], ws[0]);
      assert ws == [ws[0]];
    } else if |ws| == 2 {
      ApplyTwo(n, ws[0], ws[1]);
      assert ws == [ws[0], ws[1]];
    }
  }

  // ---- what a received vote changes --------------------------------------------------

  /** The voters whose latest known vote is of the epoch or of a later one. */
  ghost function Since(votes: map<Address, Vote>, epoch: nat): set<Address> {
    set a | a in votes && votes[a].epoch >= epoch
  }

  /** Of two votes of a voter the one of the later epoch is kept. */
  ghost predicate KeepsLatest(before: map<Address, Vote>, after: map<Address, Vote>, v: Vote) {
    && after.Keys == before.Keys + {v.id}
    && (forall a :: a in before && a != v.id ==> after[a] == before[a])
    && (after[v.id] == v || (v.id in before && after[v.id] == before[v.id]))
    && v.epoch <= after[v.id].epoch && (v.id in before ==> before[v.id].epoch <= after[v.id].epoch)
  }

  /** A vote that is authentic, for a block and from a voter, is saved for its block and as its
      voter's; the node then leaves for the epoch after the vote's exactly if that is its own or a
      later one, in which voters with more than two thirds of the stake have voted, or since. Any
      other vote changes nothing. */
  ghost predicate Counts(n: Node, m: Node, vs: ValidatorSet, v: Vote) {
    if v.block == 0 || v.id == 0 || !v.authentic then m == n else
    && m == n.(votes := m.votes, epochVotes := m.epochVotes, epoch := m.epoch)
    && m.votes == n.votes[v.block := (if v.block in n.votes then n.votes[v.block] else map[])[VoteKey(v.id, v.block, v.epoch) := v]]
    && KeepsLatest(n.epochVotes, m.epochVotes, v)
    && m.epoch ==
      if v.epoch >= n.epoch && StakeOf(vs, Since(m.epochVotes, v.epoch)) * 3 > SumStake(vs) * 2
      then (v.epoch + 1) % 0x1_0000_0000_0000_0000 else n.epoch
  }

  lemma VoteCounted(n: Node, vs: ValidatorSet, v: Vote, tie: bool)
    ensures Counts(n, ApplyAll(n, HandleVote(n, vs, v, tie)), vs, v)
  {
    if Validate(v) {
      var saved := [PutEpochVote(v, tie), PutVote(v)];
      ApplyTwo(n, saved[0], saved[1]);
      var n1 := ApplyAll(n, saved);
      assert Since(n1.epochVotes, v.epoch) == VotersSince(n1.epochVotes, v.epoch);
      var rest := HandleVote(n, vs, v, tie)[2..];
      assert HandleVote(n, vs, v, tie) == saved + rest;
      ApplyAllConcat(n, saved, rest);
      if rest != [] {
        assert rest == [rest[0]];
        ApplyTwo(n1, rest[0], rest[0]);
      }
    }
  }

  // ---- what is committed and finalized -----------------------------------------------

  /** The check commits the block exactly if it is above the highest committed one, is trusted or
      else processed, not yet committed, and voted for by more than two thirds of the stake, and
      its parent, if that is to be finalized, is stored. */
  ghost predicate Commits(n: Node, vs: ValidatorSet, h: Hash) {
    var s := n.chain.blocks;
    && h != 0 && h in s && n.hcc in s && s[h].block.height > s[n.hcc].block.height
    && (s[h].status == Trusted || (s[h].status == Valid && StakeOf(vs, VotersFor(n, h)) * 3 > SumStake(vs) * 2))
    && (s[h].block.parent == s[h].block.hcc ==> s[h].block.parent in s)
  }

  ghost function VotersFor(n: Node, h: Hash): set<Address> {
    if h in n.votes then set k | k in n.votes[h] :: k.id else {}
  }

  /** The block becomes committed and the highest one. If it names its parent, the parent becomes
      the last finalized block and, unless it was that before, the walk down from it is finalized.
      Nothing else changes. */
  ghost predicate Committing(n: Node, m: Node, h: Hash, walk: seq<Hash>)
    requires h in n.chain.blocks
  {
    var s, t, b := n.chain.blocks, m.chain.blocks, n.chain.blocks[h].block;
    && m == n.(chain := n.chain.(blocks := t), hcc := h, lfb := if b.parent == b.hcc then b.parent else n.lfb)
    && (if b.parent == b.hcc && b.parent != n.lfb then IsWalk(s, b.parent, walk) else walk == [])
    && t.Keys == s.Keys && t[h] == s[h].(status := Committed)
    && forall g {:trigger t[g]} :: g in s && g != h ==>
      t[g] == s[g].(status := if g !in walk then s[g].status else if g == walk[0] then DirectlyFinalized else IndirectlyFinalized)
  }

  lemma {:induction false} MarksApplied(n: Node, hs: seq<Hash>, first: Status)
    requires NoRepeats(hs) && forall g :: g in hs ==> g in n.chain.blocks
    ensures
      var m := ApplyAll(n, MarkAll(hs, first));
      m == n.(chain := n.chain.(blocks := m.chain.blocks)) && Remarked(n.chain.blocks, m.chain.blocks, hs, first)
    decreases hs
  {
    if hs != [] {
      assert hs[0] in hs && forall g :: g in hs[1..] ==> g in hs;
      var n1 := Apply(n, PutStatus(hs[0], first));
      MarksApplied(n1, hs[1..], IndirectlyFinalized);
      assert MarkAll(hs, first)[1..] == MarkAll(hs[1..], IndirectlyFinalized);
      RemarkedNext(n.chain.blocks, ApplyAll(n, MarkAll(hs, first)).chain.blocks, hs, first);
    }
  }

  lemma FinalizeApplied(n: Node, p: Hash) returns (walk: seq<Hash>)
    ensures if p != n.lfb then IsWalk(n.chain.blocks, p, walk) else walk == []
    ensures
      var m := ApplyAll(n, FinalizeBlock(n, p));
      m == n.(chain := n.chain.(blocks := m.chain.blocks), lfb := p) && Remarked(n.chain.blocks, m.chain.blocks, walk, DirectlyFinalized)
  {
    if p == n.lfb {
      walk := [];
    } else {
      walk := Walk(n.chain.blocks, p);
      WalkExactly(n.chain.blocks, p);
      MarksApplied(Apply(n, PutLfb(p)), walk, DirectlyFinalized);
      assert FinalizeBlock(n, p)[1..] == MarkAll(walk, DirectlyFinalized);
    }
  }

  lemma ProcessApplied(n: Node, h: Hash) returns (walk: seq<Hash>)
    requires h in n.chain.blocks && n.hcc in n.chain.blocks && n.chain.blocks[h].block.height > n.chain.blocks[n.hcc].block.height
    requires n.chain.blocks[h].block.parent == n.chain.blocks[h].block.hcc ==> n.chain.blocks[h].block.parent in n.chain.blocks
    ensures Committing(n, ApplyAll(n, ProcessCC(n, h)), h, walk)
  {
    hide Apply, MarkAll, Walk, FinalizeBlock, IsWalk;
    var b := n.chain.blocks[h].block;
    var first := if b.parent == b.hcc then FinalizeBlock(n, b.parent) else [];
    if b.parent == b.hcc {
      walk := FinalizeApplied(n, b.parent);
    } else {
      walk := [];
      assert ApplyAll(n, first) == n;
    }
    var n1 := ApplyAll(n, first);
    assert Remarked(n.chain.blocks, n1.chain.blocks, walk, DirectlyFinalized);
    ApplyAllConcat(n, first, [PutHcc(h), PutStatus(h, Committed)]);
    CommitApplied(n1, h);
  }

  lemma CommitApplied(n: Node, h: Hash)
    requires h in n.chain.blocks
    ensures
      var m := ApplyAll(n, [PutHcc(h), PutStatus(h, Committed)]);
      m == n.(hcc := h, chain := n.chain.(blocks := n.chain.blocks[h := n.chain.blocks[h].(status := Committed)]))
  {
    ApplyTwo(n, PutHcc(h), PutStatus(h, Committed));
  }

  lemma CommitExactly(n: Node, vs: ValidatorSet, h: Hash) returns (walk: seq<Hash>)
    ensures
      var m := ApplyAll(n, CheckCC(n, vs, h));
      if Commits(n, vs, h) then Committing(n, m, h, walk) else m == n
  {
    hide Committing, StakeOf, SumStake;
    assert VotersFor(n, h) == Voters(VotesOf(n, h));
    walk := [];
    if Commits(n, vs, h) {
      walk := ProcessApplied(n, h);
    }
  }

  // ---- what a block sets off ---------------------------------------------------------

  /** The commit check: the block is committed if it qualifies, and nothing happens otherwise. */
  ghost predicate Checks(n: Node, m: Node, vs: ValidatorSet, h: Hash) {
    if Commits(n, vs, h) then exists walk :: Committing(n, m, h, walk) else m == n
  }

  lemma CheckedExactly(n: Node, vs: ValidatorSet, h: Hash)
    ensures Checks(n, ApplyAll(n, CheckCC(n, vs, h)), vs, h)
  {
    hide CheckCC, Commits, Committing;
    var walk := CommitExactly(n, vs, h);
  }

  /** A vote that is received is counted, and its block is then checked. */
  ghost predicate Receives(n: Node, m: Node, vs: ValidatorSet, v: Vote) {
    exists n1 :: Counts(n, n1, vs, v) && Checks(n1, m, vs, v.block)
  }

  lemma ReceivedExactly(n: Node, vs: ValidatorSet, v: Vote, tie: bool)
    ensures Receives(n, ApplyAll(n, HandleVoteMessage(n, vs, v, tie)), vs, v)
  {
    hide CheckCC, Checks, HandleVote, Counts;
    var ws := HandleVote(n, vs, v, tie);
    var n1 := ApplyAll(n, ws);
    VoteCounted(n, vs, v, tie);
    CheckedExactly(n1, vs, v.block);
    ApplyAllConcat(n, ws, CheckCC(n1, vs, v.block));
  }

  ghost predicate CountsAll(n: Node, m: Node, vs: ValidatorSet, votes: seq<Incoming>)
    decreases votes
  {
    if votes == [] then m == n else exists n1 :: Counts(n, n1, vs, votes[0].vote) && CountsAll(n1, m, vs, votes[1..])
  }

  lemma {:induction false} VotesCounted(n: Node, vs: ValidatorSet, votes: seq<Incoming>)
    ensures CountsAll(n, ApplyAll(n, HandleVotes(n, vs, votes)), vs, votes)
    decreases votes
  {
    hide Counts, HandleVote;
    if votes != [] {
      var ws := HandleVote(n, vs, votes[0].vote, votes[0].replaceTie);
      var n1 := ApplyAll(n, ws);
      VoteCounted(n, vs, votes[0].vote, votes[0].replaceTie);
      VotesCounted(n1, vs, votes[1..]);
      ApplyAllConcat(n, ws, HandleVotes(n1, vs, votes[1..]));
    }
  }

  /** The node counts the votes of the block's certificate and then, if the block names another
      highest committed block than its own, checks that one. */
  ghost predicate Prepares(n: Node, m: Node, vs: ValidatorSet, b: Block, votes: seq<Incoming>) {
    exists n1 :: CountsAll(n, n1, vs, votes) && if n1.hcc == b.hcc then m == n1 else Checks(n1, m, vs, b.hcc)
  }

  lemma PreparedExactly(n: Node, vs: ValidatorSet, b: Block, order: seq<Incoming>)
    ensures Prepares(n, ApplyAll(n, Prepare(n, vs, b, order)), vs, b, order)
  {
    hide CheckCC, HandleVotes, Checks, CountsAll;
    var ws := HandleVotes(n, vs, order);
    var n1 := ApplyAll(n, ws);
    VotesCounted(n, vs, order);
    ApplyAllConcat(n, ws, CatchUp(n1, vs, b.hcc));
    CheckedExactly(n1, vs, b.hcc);
  }

  /** The block's epoch is the node's own or the one before it, where the last one comes before
      epoch zero. */
  ghost predicate IsRecent(blockEpoch: nat, epoch: nat) {
    blockEpoch == epoch || if epoch > 0 then blockEpoch + 1 == epoch else blockEpoch == 0xFFFF_FFFF_FFFF_FFFF
  }

  ghost predicate Marks(n: Node, m: Node, h: Hash, status: Status, update: bool)
    requires h in n.chain.blocks
  {
    var eb := n.chain.blocks[h];
    m == n.(chain := n.chain.(blocks := n.chain.blocks[h := eb.(status := status, hasValidatorUpdate := eb.hasValidatorUpdate || update)]))
  }

  /** The block becomes valid and keeps the ledger's word on a validator update. The node votes if
      the block is recent and the timer allows it, and checks the block's certificate unless a
      search for the tip has failed. */
  ghost predicate Concludes(n: Node, m: Node, vs: ValidatorSet, h: Hash, env: Env)
    requires h in n.chain.blocks
  {
    var voting := IsRecent(n.chain.blocks[h].block.epoch, n.epoch) && env.voteTimerReady;
    exists n1, n2 ::
      Marks(n, n1, h, Valid, env.validatorUpdate) && MayVote(n1, n2, vs, env.tip, voting) && MayCheck(n2, m, vs, h, voting && env.tip.None?)
  }

  ghost predicate MayVote(n: Node, m: Node, vs: ValidatorSet, tip: Option<Hash>, voting: bool) {
    if voting then CastsVote(n, m, vs, tip) else m == n
  }

  ghost predicate MayCheck(n: Node, m: Node, vs: ValidatorSet, h: Hash, failed: bool) {
    if failed then m == n else Checks(n, m, vs, h)
  }

  lemma RecentExactly(blockEpoch: nat, epoch: nat)
    requires epoch < U64
    ensures RecentEpoch(blockEpoch, epoch) <==> IsRecent(blockEpoch, epoch)
  {
    if epoch > 0 {
      assert epoch + U64 - 1 == (epoch - 1) + U64;
      assert (epoch + U64 - 1) % U64 == epoch - 1;
    }
  }

  lemma MarkedExactly(n: Node, h: Hash, update: bool)
    requires h in n.chain.blocks
    ensures Marks(n, ApplyAll(n, MarkValid(h, update)), h, Valid, update)
    ensures Marks(n, ApplyAll(n, [PutStatus(h, Invalid)]), h, Invalid, false)
  {
    hide ApplyAll, Apply;
    OneMark(n, h, Valid);
    OneMark(n, h, Invalid);
    UpdateAndMark(n, h);
    assert MarkValid(h, update) == if update then [PutUpdate(h), PutStatus(h, Valid)] else [PutStatus(h, Valid)];
  }

  lemma OneMark(n: Node, h: Hash, status: Status)
    requires h in n.chain.blocks
    ensures Marks(n, ApplyAll(n, [PutStatus(h, status)]), h, status, false)
  {
    ApplyTwo(n, PutStatus(h, status), PutStatus(h, status));
  }

  lemma UpdateAndMark(n: Node, h: Hash)
    requires h in n.chain.blocks
    ensures Marks(n, ApplyAll(n, [PutUpdate(h), PutStatus(h, Valid)]), h, Valid, true)
  {
    ApplyTwo(n, PutUpdate(h), PutStatus(h, Valid));
  }

  lemma ConcludedExactly(n: Node, vs: ValidatorSet, h: Hash, env: Env)
    requires h in n.chain.blocks && n.chain.blocks[h].block.hash == h && n.epoch < U64
    ensures Concludes(n, ApplyAll(n, Conclude(n, vs, n.chain.blocks[h].block, env)), vs, h, env)
  {
    hide CheckCC, Checks, CastVote, CastsVote, MarkValid, ApplyAll, RecentEpoch, IsRecent;
    var b := n.chain.blocks[h].block;
    var ws := MarkValid(h, env.validatorUpdate);
    var n1 := ApplyAll(n, ws);
    MarkedExactly(n, h, env.validatorUpdate);
    RecentExactly(b.epoch, n.epoch);
    var voting := IsRecent(b.epoch, n.epoch) && env.voteTimerReady;
    assert WillVote(n1, b, env) == voting;
    var vote := VoteOn(n1, vs, b, env);
    var n2 := ApplyAll(n1, vote);
    VoteExactly(n1, vs, env.tip);
    ApplyNothing(n1);
    assert MayVote(n1, n2, vs, env.tip, voting);
    ApplyAllConcat(n, ws, vote);
    ApplyAllConcat(n, ws + vote, CheckCC(n2, vs, h));
    CheckedExactly(n2, vs, h);
    assert MayCheck(n2, ApplyAll(n, Conclude(n, vs, b, env)), vs, h, voting && env.tip.None?);
  }

  lemma ApplyNothing(n: Node)
    ensures ApplyAll(n, []) == n
  {
  }

  /** The whole block handler. Only a pending block under a stored parent is looked at, and one that
      fits a pending parent is fatal. A block that may not be accepted becomes invalid. For an
      accepted one the node counts the certificate; the block is then concluded if the ledger
      consents, and becomes invalid if not. */
  ghost predicate Handles(n: Node, m: Node, vs: ValidatorSet, h: Hash, env: Env) {
    var s := n.chain.blocks;
    if h !in s || s[h].status != Pending || s[h].block.parent !in s || n.lfb !in s then m == n
    else if FitsParent(n, h) && s[s[h].block.parent].status == Pending then m == n
    else if !MayAccept(n, vs, h, env.checksOk) then Marks(n, m, h, Invalid, false)
    else exists n1 ::
      && Prepares(n, n1, vs, s[h].block, env.order) && h in n1.chain.blocks
      && if env.applyOk then Concludes(n1, m, vs, h, env) else Marks(n1, m, h, Invalid, false)
  }

  lemma {:induction false} CountsAllFrame(n: Node, m: Node, vs: ValidatorSet, votes: seq<Incoming>)
    requires CountsAll(n, m, vs, votes) && n.epoch < U64
    ensures m == n.(votes := m.votes, epochVotes := m.epochVotes, epoch := m.epoch) && m.epoch < U64
    decreases votes
  {
    if votes != [] {
      var n1 :| Counts(n, n1, vs, votes[0].vote) && CountsAll(n1, m, vs, votes[1..]);
      CountsAllFrame(n1, m, vs, votes[1..]);
    }
  }

  /** A commit check touches the tops and the statuses alone. */
  ghost predicate OnlyTops(n: Node, m: Node) {
    && m == n.(chain := n.chain.(blocks := m.chain.blocks), hcc := m.hcc, lfb := m.lfb) && m.chain.blocks.Keys == n.chain.blocks.Keys
    && forall g {:trigger m.chain.blocks[g]} :: g in n.chain.blocks ==>
      m.chain.blocks[g] == n.chain.blocks[g].(status := m.chain.blocks[g].status)
  }

  lemma CheckFrame(n: Node, m: Node, vs: ValidatorSet, h: Hash)
    requires Checks(n, m, vs, h)
    ensures OnlyTops(n, m)
  {
    if Commits(n, vs, h) {
      var walk :| Committing(n, m, h, walk);
    }
  }

  lemma PrepareFrame(n: Node, m: Node, vs: ValidatorSet, b: Block, votes: seq<Incoming>)
    requires Prepares(n, m, vs, b, votes) && n.epoch < U64
    ensures m.epoch < U64 && m.sent == n.sent && m.lastVote == n.lastVote && m.id == n.id && m.chain.blocks.Keys == n.chain.blocks.Keys
    ensures forall g {:trigger m.chain.blocks[g]} :: g in n.chain.blocks ==>
      m.chain.blocks[g] == n.chain.blocks[g].(status := m.chain.blocks[g].status)
  {
    hide CountsAll, Checks;
    var n1 :| CountsAll(n, n1, vs, votes) && if n1.hcc == b.hcc then m == n1 else Checks(n1, m, vs, b.hcc);
    CountsAllFrame(n, n1, vs, votes);
    if n1.hcc != b.hcc {
      CheckFrame(n1, m, vs, b.hcc);
    }
  }

  lemma BlockExactly(n: Node, vs: ValidatorSet, h: Hash, env: Env)
    requires n.epoch < U64 && (h in n.chain.blocks ==> n.chain.blocks[h].block.hash == h)
    ensures Handles(n, ApplyAll(n, HandleBlock(n, vs, h, env)), vs, h, env)
  {
    hide AcceptBlock, ValidateBlock, MayAccept, FitsParent, Prepares, Concludes;
    var s := n.chain.blocks;
    if h in s && s[h].status == Pending && s[h].block.parent in s && n.lfb in s {
      VerdictExactly(n, vs, h, env.checksOk);
      MarkedExactly(n, h, false);
      if ValidateBlock(n, vs, h, env.checksOk).Accept? {
        AcceptedExactly(n, vs, h, env);
      }
    }
  }

  lemma AcceptedExactly(n: Node, vs: ValidatorSet, h: Hash, env: Env)
    requires h in n.chain.blocks && n.epoch < U64 && n.chain.blocks[h].block.hash == h
    ensures exists n1 ::
      && Prepares(n, n1, vs, n.chain.blocks[h].block, env.order) && h in n1.chain.blocks
      && var m := ApplyAll(n, AcceptBlock(n, vs, n.chain.blocks[h].block, env));
        if env.applyOk then Concludes(n1, m, vs, h, env) else Marks(n1, m, h, Invalid, false)
  {
    hide Prepare, Conclude, Prepares, Concludes, Marks;
    var b := n.chain.blocks[h].block;
    var ws := Prepare(n, vs, b, env.order);
    var n1 := ApplyAll(n, ws);
    PreparedExactly(n, vs, b, env.order);
    PrepareFrame(n, n1, vs, b, env.order);
    assert n1.chain.blocks[h].block == b;
    ApplyAllConcat(n, ws, if env.applyOk then Conclude(n1, vs, b, env) else [PutStatus(h, Invalid)]);
    if env.applyOk {
      ConcludedExactly(n1, vs, h, env);
    } else {
      MarkedExactly(n1, h, false);
    }
  }

  lemma ConcludeOutcome(n: Node, m: Node, vs: ValidatorSet, h: Hash, env: Env)
    requires h in n.chain.blocks && Concludes(n, m, vs, h, env)
    ensures
      var s, t := n.chain.blocks, m.chain.blocks;
      && h in t && t[h].status in {Valid, Committed} && t[h].hasValidatorUpdate == (s[h].hasValidatorUpdate || env.validatorUpdate)
      && m.epoch == n.epoch
      && if IsRecent(s[h].block.epoch, n.epoch) && env.voteTimerReady then AtMostOneBallot(n, m) else m.sent == n.sent && m.lastVote == n.lastVote
  {
    hide Checks, CastsVote;
    var voting := IsRecent(n.chain.blocks[h].block.epoch, n.epoch) && env.voteTimerReady;
    var n1, n2 :| Marks(n, n1, h, Valid, env.validatorUpdate) && MayVote(n1, n2, vs, env.tip, voting) && MayCheck(n2, m, vs, h, voting && env.tip.None?);
    if voting {
      VoteFrame(n1, n2, vs, env.tip);
    }
    if !(voting && env.tip.None?) {
      CheckFrame(n2, m, vs, h);
      CheckKeepsValid(n2, m, vs, h);
    }
  }

  lemma CheckKeepsValid(n: Node, m: Node, vs: ValidatorSet, h: Hash)
    requires Checks(n, m, vs, h) && h in n.chain.blocks && n.chain.blocks[h].status == Valid
    ensures h in m.chain.blocks && m.chain.blocks[h].status in {Valid, Committed}
  {
  }

  /** At most one ballot is new, and it is the node's own and of its current epoch. */
  ghost predicate AtMostOneBallot(n: Node, m: Node) {
    m.sent == n.sent || exists x :: m.sent == n.sent + {VoteKey(n.id, x, n.epoch)}
  }

  lemma VoteFrame(n: Node, m: Node, vs: ValidatorSet, tip: Option<Hash>)
    requires CastsVote(n, m, vs, tip)
    ensures m == n.(sent := m.sent, lastVote := m.lastVote) && AtMostOneBallot(n, m)
  {
  }

  /** What has become of a pending block that was handled: invalid unless it may be accepted and the
      ledger consents, and then valid or committed, with the ledger's word on a validator update.
      The node has voted at most once, and not at all unless the block was good and recent. */
  lemma BlockOutcome(n: Node, vs: ValidatorSet, h: Hash, env: Env)
    requires n.epoch < U64 && h in n.chain.blocks && n.chain.blocks[h].block.hash == h && n.chain.blocks[h].status == Pending
    requires n.chain.blocks[h].block.parent in n.chain.blocks && n.lfb in n.chain.blocks
    ensures
      var s, m := n.chain.blocks, ApplyAll(n, HandleBlock(n, vs, h, env));
      var t := m.chain.blocks;
      && h in t
      && (FitsParent(n, h) && s[s[h].block.parent].status == Pending ==> t[h].status == Pending && m.sent == n.sent)
      && (MayAccept(n, vs, h, env.checksOk) && env.applyOk ==>
        && t[h].status in {Valid, Committed} && t[h].hasValidatorUpdate == (s[h].hasValidatorUpdate || env.validatorUpdate)
        && if IsRecent(s[h].block.epoch, m.epoch) && env.voteTimerReady then AtMostOneBallot(n.(epoch := m.epoch), m) else m.sent == n.sent && m.lastVote == n.lastVote)
      && (!(FitsParent(n, h) && s[s[h].block.parent].status == Pending) && !(MayAccept(n, vs, h, env.checksOk) && env.applyOk) ==>
        t[h].status == Invalid && m.sent == n.sent && m.lastVote == n.lastVote)
  {
    hide HandleBlock, ApplyAll, Prepares, Concludes, NamesCommitted, RespectsUpdate, IsRecent;
    var s, m := n.chain.blocks, ApplyAll(n, HandleBlock(n, vs, h, env));
    BlockExactly(n, vs, h, env);
    if MayAccept(n, vs, h, env.checksOk) {
      var n1 :|
        && Prepares(n, n1, vs, s[h].block, env.order) && h in n1.chain.blocks
        && if env.applyOk then Concludes(n1, m, vs, h, env) else Marks(n1, m, h, Invalid, false);
      PrepareFrame(n, n1, vs, s[h].block, env.order);
      assert n1.chain.blocks[h].block == s[h].block && n1.chain.blocks[h].hasValidatorUpdate == s[h].hasValidatorUpdate;
      if env.applyOk {
        ConcludeOutcome(n1, m, vs, h, env);
      }
    }
  }

  // ---- where a node starts -----------------------------------------------------------

  /** A new node stores the root alone, trusted, without children and without an update; the root is
      its highest committed and last finalized block and gives it its epoch. It knows no votes, has
      sent none, and has no last vote. */
  lemma FreshExactly(id: Address, root: Block)
    ensures
      var n := FreshNode(id, root);
      && n.chain.blocks == map[root.hash := ExtBlock(root, [], Trusted, false)] && n.root == n.hcc == n.lfb == root.hash
      && n.id == id && n.epoch == root.epoch && n.votes == map[] && n.epochVotes == map[] && n.sent == {} && n.lastVote.height == 0
  {
  }

  // ---- in every reached state --------------------------------------------------------

  /** At every reached state a validator whose search gives a stored tip casts exactly one ballot,
      in its current epoch and under its own id: for the tip, as its new last vote, if it has no
      last vote above height zero or the tip is higher and names its highest committed block, and
      for the block of its last vote otherwise. */
  lemma OneBallotIsCast(sys: System, a: Address, tip: Hash)
    requires Reached(sys) && a in sys.nodes && a in Addresses(sys.world.validators) && tip in sys.nodes[a].chain.blocks
    ensures
      var n := sys.nodes[a];
      var m := ApplyAll(n, Writes(n, sys.world.validators, OnTimer(Some(tip))));
      var b := n.chain.blocks[tip].block;
      if n.lastVote.height == 0 || (b.height > n.lastVote.height && b.hcc == n.hcc)
      then m.sent == n.sent + {VoteKey(a, tip, n.epoch)} && m.lastVote == Vote(tip, b.height, n.epoch, a, true)
      else m.sent == n.sent + {VoteKey(a, n.lastVote.block, n.epoch)} && m.lastVote == n.lastVote
  {
    hide CastVote, ApplyAll;
    ReachedOk(sys);
    var n := sys.nodes[a];
    assert NodeIn(sys.world, a, n);
    VoteExactly(n, sys.world.validators, Some(tip));
    LastVoteIsStored(sys.world, n);
  }

  lemma LastVoteIsStored(w: World, n: Node)
    requires NodeOk(w, n)
    ensures n.lastVote.height != 0 ==> n.lastVote.block in n.chain.blocks
    ensures forall h :: h in n.chain.blocks ==> n.chain.blocks[h].block.hash == h
  {
    if n.lastVote.height != 0 {
      assert n.lastVote.block in Voted(n.sent, n.lastVote);
    }
  }

  lemma {:induction false} EpochsRiseIn(w: World, s: Store, top: nat, g: Hash, h: Hash)
    requires StoreOk(w, s) && LinksOk(w, s, top) && Processed(s, h) && g in w.blocks && Anc(w.blocks, g, h) && g != h
    ensures Processed(s, g) && s[g].block.epoch < s[h].block.epoch
    decreases s[h].block.height
  {
    assert h != w.root;
    assert Linked(w, s, top, h);
    var p := s[h].block.parent;
    if p != g {
      EpochsRiseIn(w, s, top, g, p);
    }
  }

  /** Along every parent chain of processed blocks, at every node of every reached state, epochs
      strictly rise. */
  lemma EpochsRise(sys: System, a: Address, g: Hash, h: Hash)
    requires Reached(sys) && a in sys.nodes && Processed(sys.nodes[a].chain.blocks, h)
    requires g in sys.world.blocks && Anc(sys.world.blocks, g, h) && g != h
    ensures
      var s := sys.nodes[a].chain.blocks;
      Processed(s, g) && s[g].block.epoch < s[h].block.epoch
  {
    ReachedOk(sys);
    var w, n := sys.world, sys.nodes[a];
    assert NodeIn(w, a, n);
    EpochsRiseIn(w, n.chain.blocks, HeightIn(n.chain.blocks, n.hcc), g, h);
  }
}
