/** The consensus engine as the object it is (consensus/engine.go, consensus/state.go): its
    methods change fields and save them, and what each leaves behind is the effect of the
    handler's list of writes. */
module Engine {
  import opened Common
  import opened Validators
  import opened Votes
  import opened BlockTree
  import opened ChainSpec
  import opened TxIndex
  import opened Tip
  import opened Chain
  import opened Handlers
  import opened NodeInvariant
  import opened HandlerSafety
  import opened Protocol
  import opened Rules
  import opened Progress
  import opened Proposal

  /** The summary that every setter saves. */
  datatype Stub = Stub(root: Hash, hcc: Hash, lfb: Hash, lastVote: Vote, epoch: nat)

  /** What the consensus rules put into a proposed block. */
  datatype Draft = Draft(parent: Hash, height: nat, epoch: nat, hcc: Hash, hccVotes: VoteSet)

  // ---- the epoch votes ---------------------------------------------------------------

  /** A set with one vote per voter, by voter. */
  ghost function ByVoter(s: VoteSet): map<Address, Vote> {
    map a | a in Voters(s) :: VoteOf(s, a)
  }

  ghost function VoteOf(s: VoteSet, a: Address): Vote
    requires a in Voters(s)
  {
    var k :| k in s && k.id == a;
    s[k]
  }

  lemma ByVoterAt(s: VoteSet, k: VoteKey)
    requires OneVotePerVoter(s) && k in s
    ensures k.id in ByVoter(s) && ByVoter(s)[k.id] == s[k]
  {
    assert k.id in Voters(s);
    assert VoteOf(s, k.id) == s[k];
  }

  lemma ByVoterKeys(s: VoteSet, a: Address)
    ensures a in ByVoter(s) <==> a in Voters(s)
  {
  }

  lemma OthersStay(s: VoteSet, v: Vote, u: VoteSet, a: Address)
    requires WellKeyed(s) && OneVotePerVoter(s) && IsUniqueVoter(AddVote(s, v), u) && a != v.id
    ensures a in ByVoter(u) <==> a in ByVoter(s)
    ensures a in ByVoter(u) ==> ByVoter(u)[a] == ByVoter(s)[a]
  {
    if a in ByVoter(u) {
      var l :| l in u && l.id == a;
      assert l in AddVote(s, v);
      ByVoterAt(u, l);
      ByVoterAt(s, l);
    }
    if a in ByVoter(s) {
      var k :| k in s && k.id == a;
      assert k in AddVote(s, v);
      assert a in Voters(AddVote(s, v));
    }
  }

  lemma VoterMoves(s: VoteSet, v: Vote, u: VoteSet)
    requires WellKeyed(s) && OneVotePerVoter(s) && IsUniqueVoter(AddVote(s, v), u)
    ensures v.id in ByVoter(u) && ByVoter(u)[v.id] == LatestVote(ByVoter(s), v, Key(v) in u)[v.id]
  {
    hide ByVoter;
    ByVoterKeys(s, v.id);
    assert Key(v) in AddVote(s, v) && v.id in Voters(AddVote(s, v));
    var l :| l in u && l.id == v.id;
    ByVoterAt(u, l);
    if v.id in Voters(s) {
      var k :| k in s && k.id == v.id;
      ByVoterAt(s, k);
      assert k in AddVote(s, v);
    }
    if l != Key(v) {
      ByVoterAt(s, l);
    }
  }

  /** Adding a vote and keeping one latest vote per voter. */
  lemma AddEpochVoteByVoter(s: VoteSet, v: Vote, u: VoteSet)
    requires WellKeyed(s) && OneVotePerVoter(s) && IsUniqueVoter(AddVote(s, v), u)
    ensures ByVoter(u) == LatestVote(ByVoter(s), v, Key(v) in u)
  {
    VoterMoves(s, v, u);
    forall a | a != v.id
      ensures a in ByVoter(u) <==> a in ByVoter(s)
      ensures a in ByVoter(u) ==> ByVoter(u)[a] == ByVoter(s)[a]
    {
      OthersStay(s, v, u, a);
    }
    SameVotes(ByVoter(s), ByVoter(u), v, Key(v) in u);
  }

  lemma SameVotes(s: map<Address, Vote>, u: map<Address, Vote>, v: Vote, tie: bool)
    requires v.id in u && u[v.id] == LatestVote(s, v, tie)[v.id]
    requires forall a :: a != v.id ==> (a in u <==> a in s) && (a in u ==> u[a] == s[a])
    ensures u == LatestVote(s, v, tie)
  {
  }

  /** The votes of the given epoch or later. */
  method Recent(s: VoteSet, epoch: nat) returns (r: VoteSet)
    requires WellKeyed(s) && OneVotePerVoter(s)
    ensures WellKeyed(r) && OneVotePerVoter(r) && Voters(r) == VotersSince(ByVoter(s), epoch)
  {
    r := map[];
    var todo := s.Keys;
    while todo != {}
      invariant todo <= s.Keys
      invariant r.Keys == set k | k in s.Keys - todo && k.epoch >= epoch
      invariant forall k :: k in r ==> r[k] == s[k]
      decreases todo
    {
      var k :| k in todo;
      if s[k].epoch >= epoch {
        r := AddVote(r, s[k]);
      }
      todo := todo - {k};
    }
    forall a ensures a in Voters(r) <==> a in VotersSince(ByVoter(s), epoch) {
      if a in Voters(r) {
        var k :| k in r && k.id == a;
        ByVoterAt(s, k);
      }
      if a in VotersSince(ByVoter(s), epoch) {
        var k :| k in s && k.id == a;
        ByVoterAt(s, k);
        assert k in r;
      }
    }
  }

  method HasMajority(vs: ValidatorSet, s: VoteSet) returns (r: bool)
    requires Distinct(vs) && WellKeyed(s) && OneVotePerVoter(s)
    ensures r == Majority(vs, Voters(s))
  {
    var ids := VoterList(s);
    r := HasMajorityVotes(vs, ids);
  }

  // ---- finality ----------------------------------------------------------------------

  lemma {:induction false} MarkedIsApplied(n: Node, hs: seq<Hash>, st: Status)
    ensures ApplyAll(n, MarkAll(hs, st)) == n.(chain := n.chain.(blocks := MarkedStore(n.chain.blocks, hs, st)))
    decreases hs
  {
    if hs != [] {
      var rest := MarkAll(hs[1..], IndirectlyFinalized);
      assert ([PutStatus(hs[0], st)] + rest)[1..] == rest;
      MarkedIsApplied(Apply(n, PutStatus(hs[0], st)), hs[1..], IndirectlyFinalized);
    }
  }

  ghost predicate EndsEpoch(n: Node, vs: ValidatorSet, voted: nat) {
    voted >= n.epoch && Majority(vs, VotersSince(n.epochVotes, voted))
  }

  /** The two saves of a vote and, if it ends the epoch, the tip search and the next epoch. */
  lemma HandleVoteInTwo(n: Node, vs: ValidatorSet, v: Vote, tie: bool)
    requires Validate(v)
    ensures
      var n1 := ApplyAll(n, [PutEpochVote(v, tie), PutVote(v)]);
      var fatal := EndsEpoch(n1, vs, v.epoch) && MeetsMissing(n1.chain.blocks, false, n1.hcc);
      RunsTo(n, Handlers.HandleVote(n, vs, v, tie), fatal, if EndsEpoch(n1, vs, v.epoch) && !fatal then Apply(n1, PutEpoch((v.epoch + 1) % U64)) else n1)
  {
    hide MeetsMissing;
    var saved, next := [PutEpochVote(v, tie), PutVote(v)], PutEpoch((v.epoch + 1) % U64);
    ApplyTwo(n, saved[0], saved[1]);
    RunsQuiet(n, saved);
    var n1 := ApplyAll(n, saved);
    if EndsEpoch(n1, vs, v.epoch) {
      assert Handlers.HandleVote(n, vs, v, tie) == saved + [next];
      LeavesAt(n1, next);
      RunsOn(n, saved, [next], n1, MeetsMissing(n1.chain.blocks, false, n1.hcc), if MeetsMissing(n1.chain.blocks, false, n1.hcc) then n1 else Apply(n1, next));
    } else {
      assert Handlers.HandleVote(n, vs, v, tie) == saved;
    }
  }

  lemma LeavesAt(n: Node, x: Write)
    requires x.PutEpoch?
    ensures
      var fatal := MeetsMissing(n.chain.blocks, false, n.hcc);
      RunsTo(n, [x], fatal, if fatal then n else Apply(n, x))
  {
    hide MeetsMissing;
    ApplyTwo(n, x, x);
    assert [x][..0] == [] && [x][..1] == [x];
    assert StopsAt(n, [x], 0) <==> MeetsMissing(n.chain.blocks, false, n.hcc);
    assert EndsAt(n, [x], if MeetsMissing(n.chain.blocks, false, n.hcc) then 0 else 1);
  }

  class Engine {
    const id: Address
    const root: Hash
    const chain: Chain
    var epochVotes: VoteSet
    var hcc: Hash
    var lfb: Hash
    var lastVote: Vote
    var epoch: nat
    var stub: Option<Stub>
    ghost var sent: set<VoteKey>

    /** The engine as a value. */
    ghost function View(): Node
      reads this, chain
    {
      Node(id, root, chain.Data(), chain.votes, ByVoter(epochVotes), hcc, lfb, lastVote, epoch, sent)
    }

    function Summary(): Stub
      reads this
    {
      Stub(root, hcc, lfb, lastVote, epoch)
    }

    ghost predicate Valid()
      reads this, chain
    {
      && chain.Valid() && root != EMPTY_HASH && root in chain.blocks && hcc in chain.blocks && lfb in chain.blocks
      && WellKeyed(epochVotes) && OneVotePerVoter(epochVotes)
      && (forall h :: h in chain.votes ==> WellKeyed(chain.votes[h]))
      && Saved()
    }

    /** What is in memory can be had again from what is saved. */
    ghost predicate Saved()
      reads this, chain
    {
      if stub.Some? then stub.value == Summary()
      else hcc == root && lfb == root && lastVote == NO_VOTE && root in chain.blocks && epoch == chain.blocks[root].block.epoch
    }

    /** A start, fresh or after a crash: the saved summary counts if it is of the same root. */
    constructor (id: Address, root: Hash, chain: Chain, epochVotes: VoteSet, stub: Option<Stub>, ghost sent: set<VoteKey>)
      requires root in chain.blocks
      ensures this.id == id && this.root == root && this.chain == chain && this.epochVotes == epochVotes && this.stub == stub && this.sent == sent
      ensures stub.Some? && stub.value.root == root ==> Summary() == stub.value
      ensures !(stub.Some? && stub.value.root == root) ==> Summary() == Stub(root, root, root, NO_VOTE, chain.blocks[root].block.epoch)
    {
      this.id, this.root, this.chain, this.epochVotes, this.stub, this.sent := id, root, chain, epochVotes, stub, sent;
      this.hcc, this.lfb, this.lastVote, this.epoch := root, root, NO_VOTE, chain.blocks[root].block.epoch;
      if stub.Some? && stub.value.root == root {
        this.hcc, this.lfb, this.lastVote, this.epoch := stub.value.hcc, stub.value.lfb, stub.value.lastVote, stub.value.epoch;
      }
    }

    // ---- setters ---------------------------------------------------------------------

    method Commit()
      modifies this`stub
      ensures stub == Some(Summary())
    {
      stub := Some(Summary());
    }

    method SetEpoch(e: nat)
      requires Valid()
      modifies this`epoch, this`stub
      ensures Valid() && stub.Some? && View() == Apply(old(View()), PutEpoch(e))
    {
      epoch := e;
      Commit();
    }

    method SetLastVote(v: Vote)
      requires Valid()
      modifies this`lastVote, this`stub
      ensures Valid() && stub.Some? && View() == Apply(old(View()), PutLastVote(v))
    {
      lastVote := v;
      Commit();
    }

    method SetHighestCCBlock(h: Hash)
      requires Valid() && h in chain.blocks
      modifies this`hcc, this`stub
      ensures Valid() && stub.Some? && View() == Apply(old(View()), PutHcc(h))
    {
      hcc := h;
      Commit();
    }

    method SetLastFinalizedBlock(h: Hash)
      requires Valid() && h in chain.blocks
      modifies this`lfb, this`stub
      ensures Valid() && stub.Some? && View() == Apply(old(View()), PutLfb(h))
    {
      lfb := h;
      Commit();
    }

    /** After a crash the engine starts again from what it had saved, and is what it was. */
    method Restart() returns (e: Engine)
      requires Valid()
      ensures fresh(e) && e.Valid() && e.View() == View()
    {
      e := new Engine(id, root, chain, epochVotes, stub, sent);
    }

    // ---- votes -----------------------------------------------------------------------

    /** Which of two votes of the same epoch stays depends on the order of a Go map. */
    method AddEpochVote(v: Vote) returns (ghost replaceTie: bool)
      requires Valid()
      modifies this`epochVotes
      ensures Valid() && View() == Apply(old(View()), PutEpochVote(v, replaceTie))
    {
      var unique := UniqueVoter(Votes.AddVote(epochVotes, v));
      AddEpochVoteByVoter(epochVotes, v, unique);
      replaceTie := Key(v) in unique;
      epochVotes := unique;
    }

    method AddVoteToIndex(v: Vote)
      requires Valid() && v.block != EMPTY_HASH
      modifies chain`votes
      ensures Valid() && View() == Apply(old(View()), PutVote(v))
    {
      assert WellKeyed(VotesFor(chain.votes, v.block));
      chain.AddVoteToIndex(v);
    }

    method AddVote(v: Vote) returns (ghost replaceTie: bool)
      requires Valid() && v.block != EMPTY_HASH
      modifies this`epochVotes, chain`votes
      ensures Valid() && View() == ApplyAll(old(View()), [PutEpochVote(v, replaceTie), PutVote(v)])
    {
      replaceTie := AddEpochVote(v);
      AddVoteToIndex(v);
      ApplyTwo(old(View()), PutEpochVote(v, replaceTie), PutVote(v));
    }

    /** Votes of a majority at the given epoch or later end it, unless the tip search fails. */
    method UpdateEpoch(vs: ValidatorSet, voted: nat) returns (fatal: bool)
      requires Valid() && Distinct(vs) && TreeOk(chain.blocks)
      modifies this`epoch, this`stub
      ensures Valid() && (fatal <==> EndsEpoch(old(View()), vs, voted) && MeetsMissing(chain.blocks, false, hcc))
      ensures View() == if EndsEpoch(old(View()), vs, voted) && !fatal then Apply(old(View()), PutEpoch((voted + 1) % U64)) else old(View())
    {
      if voted >= epoch {
        var current := Recent(epochVotes, voted);
        var majority := HasMajority(vs, current);
        if majority {
          var tip := GetTip(chain.blocks, hcc, false);
          if tip.None? {
            return true;
          }
          SetEpoch((voted + 1) % U64);
        }
      }
      fatal := false;
    }

    method HandleVote(vs: ValidatorSet, v: Vote) returns (fatal: bool, ghost replaceTie: bool)
      requires Valid() && Distinct(vs) && TreeOk(chain.blocks)
      modifies this`epochVotes, chain`votes, this`epoch, this`stub
      ensures Valid() && RunsTo(old(View()), Handlers.HandleVote(old(View()), vs, v, replaceTie), fatal, View())
      ensures !fatal ==> Counts(old(View()), View(), vs, v)
    {
      hide RunsTo, MeetsMissing, EndsEpoch, TreeOk, Apply, ApplyAll, Counts;
      if !Validate(v) {
        RunsQuiet(View(), []);
        ApplyNothing(View());
        VoteCounted(View(), vs, v, false);
        return false, false;
      }
      replaceTie := AddVote(v);
      HandleVoteInTwo(old(View()), vs, v, replaceTie);
      fatal := UpdateEpoch(vs, v.epoch);
      if !fatal {
        RanThrough(old(View()), Handlers.HandleVote(old(View()), vs, v, replaceTie), View());
        VoteCounted(old(View()), vs, v, replaceTie);
      }
    }

    /** The votes of a certificate, in whatever order the map hands them out. */
    method HandleVotes(vs: ValidatorSet, votes: VoteSet) returns (fatal: bool, ghost order: seq<Incoming>)
      requires Valid() && Distinct(vs) && WellKeyed(votes) && TreeOk(chain.blocks)
      modifies this`epochVotes, chain`votes, this`epoch, this`stub
      ensures Valid() && Lists(order, votes)
      ensures RunsTo(old(View()), Handlers.HandleVotes(old(View()), vs, order), fatal, View())
    {
      hide RunsTo, TreeOk;
      var todo := votes.Keys;
      order, fatal := [], false;
      RunsQuiet(View(), []);
      while todo != {}
        invariant Valid() && todo <= votes.Keys && HandedOut(votes, order, todo) && !fatal
        invariant RunsTo(old(View()), Handlers.HandleVotes(old(View()), vs, order), false, View())
        decreases todo
      {
        var k :| k in todo;
        ghost var before := View();
        ghost var tie;
        fatal, tie := HandleVote(vs, votes[k]);
        ghost var m := Incoming(votes[k], tie);
        HandleVotesAppend(old(View()), vs, order, m, before, fatal, View());
        HandedNext(votes, order, todo, k, tie);
        order, todo := order + [m], todo - {k};
        if fatal {
          ghost var rest := TheRest(votes, todo);
          RestListed(votes, order, todo, rest);
          HandleVotesConcat(old(View()), vs, order, rest);
          RunsEarly(old(View()), Handlers.HandleVotes(old(View()), vs, order),
                    Handlers.HandleVotes(ApplyAll(old(View()), Handlers.HandleVotes(old(View()), vs, order)), vs, rest), View());
          order := order + rest;
          return;
        }
      }
    }

    // ---- commit certificates and finality --------------------------------------------

    method FinalizePreviousBlocks(p: Hash)
      requires Valid() && stub.Some? && p in chain.blocks
      modifies chain`blocks, chain`txs
      ensures Valid() && chain.blocks.Keys == old(chain.blocks.Keys)
      ensures View() == ApplyAll(old(View()), MarkAll(Walk(old(chain.blocks), p), DirectlyFinalized))
    {
      ghost var hs := Walk(chain.blocks, p);
      MarkedIsApplied(View(), hs, DirectlyFinalized);
      MarkedKeepsBlocks(chain.blocks, hs, DirectlyFinalized);
      ghost var marked := chain.FinalizePreviousBlocks(p);
    }

    method FinalizeBlock(p: Hash)
      requires Valid() && p in chain.blocks
      modifies this`lfb, this`stub, chain`blocks, chain`txs
      ensures Valid() && chain.blocks.Keys == old(chain.blocks.Keys)
      ensures View() == ApplyAll(old(View()), Handlers.FinalizeBlock(old(View()), p))
    {
      if p == lfb {
        return;
      }
      SetLastFinalizedBlock(p);
      ghost var marks := MarkAll(Walk(chain.blocks, p), DirectlyFinalized);
      assert ([PutLfb(p)] + marks)[1..] == marks;
      FinalizePreviousBlocks(p);
      chain.AddTxsToIndex(chain.blocks[p].block, true);
    }

    method ProcessCCBlock(h: Hash)
      requires Valid() && h in chain.blocks
      modifies this`hcc, this`lfb, this`stub, chain`blocks, chain`txs
      ensures Valid() && View() == ApplyAll(old(View()), ProcessCC(old(View()), h))
    {
      hide Handlers.FinalizeBlock, ApplyAll, Apply;
      ApplyNothing(View());
      var b := chain.blocks[h].block;
      if b.height <= chain.blocks[hcc].block.height {
        return;
      }
      if b.parent == b.hcc {
        var parent := chain.FindBlock(b.parent);
        if parent.None? {
          return;
        }
        FinalizeBlock(b.parent);
      }
      ghost var first := if b.parent == b.hcc then Handlers.FinalizeBlock(old(View()), b.parent) else [];
      ApplyAllConcat(old(View()), first, [PutHcc(h), PutStatus(h, Committed)]);
      CommitBlock(h);
    }

    method CommitBlock(h: Hash)
      requires Valid() && h in chain.blocks
      modifies this`hcc, this`stub, chain`blocks
      ensures Valid() && View() == ApplyAll(old(View()), [PutHcc(h), PutStatus(h, Committed)])
    {
      ApplyTwo(View(), PutHcc(h), PutStatus(h, Committed));
      SetHighestCCBlock(h);
      var found := chain.MarkBlock(h, Committed);
    }

    method CheckCC(vs: ValidatorSet, h: Hash)
      requires Valid() && Distinct(vs)
      modifies this`hcc, this`lfb, this`stub, chain`blocks, chain`txs
      ensures Valid() && Checks(old(View()), View(), vs, h)
      ensures View() == ApplyAll(old(View()), Handlers.CheckCC(old(View()), vs, h))
    {
      hide Checks;
      CheckedExactly(View(), vs, h);
      if h == EMPTY_HASH {
        return;
      }
      var found := chain.FindBlock(h);
      if found.None? {
        return;
      }
      var eb := found.value;
      if eb.status.Invalid? || eb.status.Pending? || eb.status.Committed? || eb.status.DirectlyFinalized? || eb.status.IndirectlyFinalized? {
        return;
      }
      if eb.status.Trusted? {
        ProcessCCBlock(h);
        return;
      }
      if eb.block.height < chain.blocks[hcc].block.height {
        return;
      }
      var known := chain.FindVotesByHash(h);
      var votes := UniqueVoter(known);
      var majority := HasMajority(vs, votes);
      if majority {
        ProcessCCBlock(h);
      }
    }

    /** A received vote. */
    method OnVote(vs: ValidatorSet, v: Vote) returns (fatal: bool, ghost action: Action)
      requires Valid() && Distinct(vs) && TreeOk(chain.blocks)
      modifies this, chain
      ensures Valid() && action.OnVote? && action.vote == v
      ensures RunsTo(old(View()), Writes(old(View()), vs, action), fatal, View())
      ensures !fatal ==> Receives(old(View()), View(), vs, v)
    {
      hide RunsTo, Handlers.CheckCC, Handlers.HandleVote, Checks, Counts;
      ghost var tie;
      fatal, tie := HandleVote(vs, v);
      ghost var n, n1 := old(View()), View();
      action := Action.OnVote(v, tie);
      ghost var ws := Handlers.HandleVote(n, vs, v, tie);
      if fatal {
        RunsEarly(n, ws, Handlers.CheckCC(ApplyAll(n, ws), vs, v.block), n1);
        return;
      }
      RanThrough(n, ws, n1);
      CheckQuiet(n1, vs, v.block);
      RunsOn(n, ws, Handlers.CheckCC(n1, vs, v.block), n1, false, ApplyAll(n1, Handlers.CheckCC(n1, vs, v.block)));
      CheckCC(vs, v.block);
    }

    // ---- voting ----------------------------------------------------------------------

    /** Votes for the tip, or repeats the last vote. A failed tip search and a last vote for a
        missing block are fatal. */
    method CastVote(vs: ValidatorSet) returns (tip: Option<Hash>)
      requires Valid() && TreeOk(chain.blocks)
      modifies this`lastVote, this`stub, this`sent
      ensures Valid() && Searched(chain.blocks, true, hcc, tip) && CastsVote(old(View()), View(), vs, tip)
      ensures View() == ApplyAll(old(View()), Handlers.CastVote(old(View()), vs, tip))
    {
      hide CastsVote;
      tip := GetTip(chain.blocks, hcc, true);
      VoteExactly(View(), vs, tip);
      if tip.None? {
        return;
      }
      var validator := GetValidator(vs, id);
      assert validator.Some? <==> id in Addresses(vs);
      if validator.None? {
        return;
      }
      var b := chain.blocks[tip.value].block;
      if lastVote.height != 0 && (lastVote.height >= b.height || b.hcc != hcc) {
        var last := chain.FindBlock(lastVote.block);
        if last.None? {
          return;
        }
        Broadcast(CreateVote(last.value.block));
      } else {
        var vote := CreateVote(b);
        ApplyTwo(View(), PutLastVote(vote), Send(vote));
        SetLastVote(vote);
        Broadcast(vote);
      }
    }

    function CreateVote(b: Block): Vote
      reads this
    {
      Vote(b.hash, b.height, epoch, id, true)
    }

    method Broadcast(vote: Vote)
      requires Valid()
      modifies this`sent
      ensures Valid() && View() == Apply(old(View()), Send(vote)) && View() == ApplyAll(old(View()), [Send(vote)])
    {
      ApplyTwo(View(), Send(vote), Send(vote));
      sent := sent + {Key(vote)};
    }

    // ---- blocks ----------------------------------------------------------------------

    /** The checks before a block is processed; those on the proposer and on guardian votes are
        answered by `checksOk`. */
    method ValidateBlock(vs: ValidatorSet, h: Hash, checksOk: bool) returns (verdict: Verdict)
      requires Valid() && Distinct(vs) && h in chain.blocks && chain.blocks[h].block.parent in chain.blocks
      ensures verdict.Accept? <==> MayAccept(View(), vs, h, checksOk)
      ensures verdict.Panic? <==> FitsParent(View(), h) && chain.blocks[chain.blocks[h].block.parent].status == Pending
      ensures verdict == Handlers.ValidateBlock(View(), vs, h, checksOk)
    {
      hide MayAccept, FitsParent, CertificateOk, MetWithin, ChainSpec.IsDescendant, Keyed, WellKeyed;
      KeyedAt(chain.blocks, h);
      VerdictExactly(View(), vs, h, checksOk);
      var b := chain.blocks[h].block;
      var parent := chain.blocks[b.parent];
      if b.height <= chain.blocks[lfb].block.height { return Reject; }
      if parent.block.height + 1 != b.height { return Reject; }
      if parent.block.epoch >= b.epoch { return Reject; }
      if !BlockTree.IsValid(parent.status) {
        if parent.status.Pending? { return Panic; }
        return Reject;
      }
      var below := chain.IsDescendant(b.hcc, h);
      if !below { return Reject; }
      var named := chain.FindBlock(b.hcc);
      if named.None? { return Reject; }
      if !IsFinalized(named.value.status) {
        var valid := CertificateIsValid(b.hccVotes, b.hcc, vs);
        if !valid { return Reject; }
      }
      if parent.hasValidatorUpdate && b.hcc != b.parent { return Reject; }
      if parent.block.parent != EMPTY_HASH {
        var grandParent := chain.FindBlock(parent.block.parent);
        if grandParent.None? { return Reject; }
        if grandParent.value.hasValidatorUpdate && b.hcc != b.parent { return Reject; }
      }
      if !checksOk { return Reject; }
      verdict := Accept;
    }

    method PrepareBlock(vs: ValidatorSet, b: Block) returns (fatal: bool, ghost order: seq<Incoming>)
      requires Valid() && Distinct(vs) && WellKeyed(b.hccVotes) && TreeOk(chain.blocks)
      modifies this, chain
      ensures Valid() && Lists(order, b.hccVotes)
      ensures RunsTo(old(View()), Prepare(old(View()), vs, b, order), fatal, View())
    {
      hide RunsTo, Handlers.CheckCC, Handlers.HandleVotes;
      fatal, order := HandleVotes(vs, b.hccVotes);
      ghost var n, n1 := old(View()), View();
      ghost var ws := Handlers.HandleVotes(n, vs, order);
      if fatal {
        RunsEarly(n, ws, CatchUp(ApplyAll(n, ws), vs, b.hcc), n1);
        return;
      }
      RanThrough(n, ws, n1);
      CatchUpQuiet(n1, vs, b.hcc);
      RunsOn(n, ws, CatchUp(n1, vs, b.hcc), n1, false, ApplyAll(n1, CatchUp(n1, vs, b.hcc)));
      if hcc != b.hcc {
        CheckCC(vs, b.hcc);
      }
    }

    method MarkBlock(h: Hash, status: Status)
      requires Valid() && h in chain.blocks
      modifies chain`blocks
      ensures Valid() && View() == Apply(old(View()), PutStatus(h, status)) && View() == ApplyAll(old(View()), [PutStatus(h, status)])
    {
      ApplyTwo(View(), PutStatus(h, status), PutStatus(h, status));
      var found := chain.MarkBlock(h, status);
    }

    method MarkBlockValid(h: Hash, validatorUpdate: bool)
      requires Valid() && h in chain.blocks
      modifies chain`blocks
      ensures Valid() && Marks(old(View()), View(), h, Status.Valid, validatorUpdate)
      ensures View() == ApplyAll(old(View()), MarkValid(h, validatorUpdate))
    {
      hide Marks;
      MarkedExactly(View(), h, validatorUpdate);
      ApplyTwo(View(), PutUpdate(h), PutStatus(h, Status.Valid));
      if validatorUpdate {
        var found := chain.MarkBlockHasValidatorUpdate(h);
        assert MarkValid(h, true) == [PutUpdate(h), PutStatus(h, Status.Valid)];
      } else {
        assert MarkValid(h, false) == [PutStatus(h, Status.Valid)];
      }
      MarkBlock(h, Status.Valid);
    }

    /** From the ledger's consent on: mark the block, vote, and check its certificate. */
    method ConcludeBlock(vs: ValidatorSet, b: Block, validatorUpdate: bool, voteTimerReady: bool, ghost env0: Env) returns (ghost env: Env)
      requires Valid() && Distinct(vs) && b.hash in chain.blocks
      requires env0.validatorUpdate == validatorUpdate && env0.voteTimerReady == voteTimerReady
      requires TreeOk(ApplyAll(View(), MarkValid(b.hash, validatorUpdate)).chain.blocks)
      modifies this, chain
      ensures Valid() && env == env0.(tip := env.tip)
      ensures View() == ApplyAll(old(View()), Conclude(old(View()), vs, b, env))
      ensures
        var n1 := ApplyAll(old(View()), MarkValid(b.hash, validatorUpdate));
        WillVote(n1, b, env) ==> Searched(n1.chain.blocks, true, n1.hcc, env.tip)
    {
      hide Apply, ApplyAll, MarkValid, Handlers.CastVote, Handlers.CheckCC, TreeOk, Searched;
      env := env0;
      MarkBlockValid(b.hash, validatorUpdate);
      ghost var n1 := View();
      if RecentEpoch(b.epoch, epoch) && voteTimerReady {
        var tip := CastVote(vs);
        env := env.(tip := tip);
        if tip.None? {
          ConcludeInTwo(old(View()), vs, b, env, n1, View());
          return;
        }
      }
      ghost var n2 := View();
      ApplyNothing(n1);
      ConcludeInThree(old(View()), vs, b, env, n1, n2);
      CheckCC(vs, b.hash);
    }

    method AcceptBlock(vs: ValidatorSet, h: Hash, applyOk: bool, validatorUpdate: bool, voteTimerReady: bool,
                       ghost env0: Env, ghost w: World, ghost inv: Node -> bool)
      returns (fatal: bool, ghost env: Env)
      requires Valid() && Distinct(vs) && Accepts(View(), vs, h, env0) && TreeOk(chain.blocks)
      requires env0.applyOk == applyOk && env0.validatorUpdate == validatorUpdate && env0.voteTimerReady == voteTimerReady
      requires WorldOk(w) && w.validators == vs && Names(inv, w) && inv(View()) && ChildrenNamed(w, chain.blocks)
      modifies this, chain
      ensures Valid() && env == env0.(order := env.order, tip := env.tip)
      ensures Possible(w, old(View()), OnBlock(h, env))
      ensures RunsTo(old(View()), Handlers.AcceptBlock(old(View()), vs, old(chain.blocks)[h].block, env), fatal, View())
    {
      hide RunsTo, Prepare, Conclude, TreeOk, ChildrenNamed, WorldOk, MarkValid, Searched;
      ghost var n := View();
      var b := chain.blocks[h].block;
      ghost var order;
      fatal, order := PrepareBlock(vs, b);
      env := env0.(order := order);
      ghost var n1, ws := View(), Prepare(n, vs, b, order);
      HandleAccepted(w, inv, n, h, env);
      if fatal {
        ghost var tip := SomeAnswer(BeforeVote(n, vs, h, env).chain.blocks, true, BeforeVote(n, vs, h, env).hcc);
        env := env.(tip := tip);
        RunsEarly(n, ws, if applyOk then Conclude(ApplyAll(n, ws), vs, b, env) else [PutStatus(b.hash, Invalid)], n1);
        return;
      }
      RanThrough(n, ws, n1);
      if !applyOk {
        RunsQuiet(n1, [PutStatus(h, Invalid)]);
        RunsOn(n, ws, [PutStatus(h, Invalid)], n1, false, ApplyAll(n1, [PutStatus(h, Invalid)]));
        MarkBlock(h, Invalid);
        return;
      }
      env := ConcludeBlock(vs, b, validatorUpdate, voteTimerReady, env);
      ConcludeQuiet(n1, vs, b, env);
      RunsOn(n, ws, Conclude(n1, vs, b, env), n1, false, View());
    }

    /** The verdict on a pending block. Any other block, and one without its parent, is passed
        over, like one whose parent is pending. */
    method JudgeBlock(vs: ValidatorSet, h: Hash, checksOk: bool) returns (verdict: Verdict)
      requires Valid() && Distinct(vs)
      ensures verdict == Judged(View(), vs, h, checksOk)
    {
      hide Handlers.ValidateBlock;
      var found := chain.FindBlock(h);
      if found.None? || !found.value.status.Pending? {
        return Panic;
      }
      var parent := chain.FindBlock(found.value.block.parent);
      if parent.None? {
        return Panic;
      }
      verdict := ValidateBlock(vs, h, checksOk);
    }

    /** A block from the network, already stored. The whole handler is one step of the protocol,
        taken to its end or to a failed tip search. */
    method HandleBlock(vs: ValidatorSet, h: Hash, checksOk: bool, applyOk: bool, validatorUpdate: bool, voteTimerReady: bool, ghost w: World)
      returns (fatal: bool, ghost env: Env)
      requires Valid() && Distinct(vs)
      requires WorldOk(w) && w.validators == vs && NodeOk(w, View()) && ChildrenNamed(w, chain.blocks)
      modifies this, chain
      ensures Valid() && env == Env(env.order, checksOk, applyOk, validatorUpdate, voteTimerReady, env.tip)
      ensures Possible(w, old(View()), OnBlock(h, env))
      ensures RunsTo(old(View()), Writes(old(View()), vs, OnBlock(h, env)), fatal, View())
      ensures !fatal ==> Handles(old(View()), View(), vs, h, env)
    {
      hide RunsTo, TreeOk, Handles, NodeOk, ChildrenNamed, WorldOk, Distinct, Handlers.AcceptBlock, Possible, Writes, Judged, Accepts, Apply, ApplyAll;
      fatal := false;
      RunsQuiet(View(), []);
      ApplyNothing(View());
      env := Env([], checksOk, applyOk, validatorUpdate, voteTimerReady, None);
      ghost var n := View();
      BlockCases(w, n, vs, h, env);
      var verdict := JudgeBlock(vs, h, checksOk);
      if verdict.Reject? {
        RunsQuiet(n, [PutStatus(h, Invalid)]);
        MarkBlock(h, Invalid);
      } else if verdict.Accept? {
        ghost var inv := n => NodeOk(w, n);
        assert Names(inv, w);
        TreeIn(w, inv, n);
        fatal, env := AcceptBlock(vs, h, applyOk, validatorUpdate, voteTimerReady, env, w, inv);
        BlockCases(w, n, vs, h, env);
      }
      if !fatal {
        RanThrough(n, Writes(n, vs, OnBlock(h, env)), View());
        BlockHandled(w, n, vs, h, env);
      }
    }

    /** The certificate for the highest committed block: every receiver accepts it. */
    method Certificate(vs: ValidatorSet) returns (votes: VoteSet)
      requires Valid() && Distinct(vs) && Backed(vs, View()) && IndexEntryOk(VotesFor(chain.votes, hcc), hcc)
      ensures hcc == root || CertificateOk(votes, hcc, vs)
    {
      var known := chain.FindVotesByHash(hcc);
      var unique := UniqueVoter(known);
      votes := FilterByValidators(unique, vs);
      if hcc != root {
        ProposedCertificateAccepted(known, [], unique, hcc, vs);
      }
    }

    /** The consensus part of a proposal, unless the tip search fails. */
    method CreateProposal(vs: ValidatorSet) returns (r: Option<Draft>)
      requires Valid() && Distinct(vs) && TreeOk(chain.blocks)
      requires Backed(vs, View()) && IndexEntryOk(VotesFor(chain.votes, hcc), hcc)
      ensures r.None? <==> MeetsMissing(chain.blocks, false, hcc)
      ensures r.Some? ==>
        var d := r.value;
        && IsTip(chain.blocks, false, hcc, d.parent)
        && d.height == (chain.blocks[d.parent].block.height + 1) % U64 && d.epoch == epoch && d.hcc == hcc
        && (hcc == root || CertificateOk(d.hccVotes, hcc, vs))
    {
      var tip := GetTip(chain.blocks, hcc, false);
      if tip.None? {
        return None;
      }
      var votes := Certificate(vs);
      r := Some(Draft(tip.value, (chain.blocks[tip.value].block.height + 1) % U64, epoch, hcc, votes));
    }

    /** The vote timer. */
    method OnTimer(vs: ValidatorSet, ghost w: World) returns (tip: Option<Hash>)
      requires Valid() && NodeOk(w, View()) && ChildrenNamed(w, chain.blocks)
      modifies this`lastVote, this`stub, this`sent
      ensures Valid() && Possible(w, old(View()), Action.OnTimer(tip)) && CastsVote(old(View()), View(), vs, tip)
      ensures View() == ApplyAll(old(View()), Writes(old(View()), vs, Action.OnTimer(tip)))
    {
      ViewIsTree(w, chain.blocks, hcc, lfb);
      tip := CastVote(vs);
    }
  }

  lemma ConcludeInThree(n: Node, vs: ValidatorSet, b: Block, env: Env, n1: Node, n2: Node)
    requires n1 == ApplyAll(n, MarkValid(b.hash, env.validatorUpdate)) && n2 == ApplyAll(n1, VoteOn(n1, vs, b, env))
    requires !EndsAtSearch(n1, b, env)
    ensures ApplyAll(n, Conclude(n, vs, b, env)) == ApplyAll(n2, Handlers.CheckCC(n2, vs, b.hash))
  {
    ApplyAllConcat(n, MarkValid(b.hash, env.validatorUpdate), VoteOn(n1, vs, b, env));
    ApplyAllConcat(n, MarkAndVote(n, vs, b, env), Handlers.CheckCC(n2, vs, b.hash));
  }

  lemma ConcludeInTwo(n: Node, vs: ValidatorSet, b: Block, env: Env, n1: Node, n2: Node)
    requires n1 == ApplyAll(n, MarkValid(b.hash, env.validatorUpdate)) && EndsAtSearch(n1, b, env)
    requires n2 == ApplyAll(n1, Handlers.CastVote(n1, vs, None))
    ensures ApplyAll(n, Conclude(n, vs, b, env)) == n2
  {
    var ws := MarkValid(b.hash, env.validatorUpdate);
    assert ws + [] == ws;
  }

  /** An accepted block after its votes are handled: it is still stored, and the tip search will
      find a tree. */
  lemma HandleAccepted(w: World, inv: Node -> bool, n: Node, h: Hash, env: Env)
    requires WorldOk(w) && Names(inv, w) && inv(n) && ChildrenNamed(w, n.chain.blocks) && Accepts(n, w.validators, h, env)
    requires Lists(env.order, n.chain.blocks[h].block.hccVotes)
    ensures h in ApplyAll(n, Prepare(n, w.validators, n.chain.blocks[h].block, env.order)).chain.blocks
    ensures TreeOk(BeforeVote(n, w.validators, h, env).chain.blocks)
    ensures BeforeVote(n, w.validators, h, env).hcc in BeforeVote(n, w.validators, h, env).chain.blocks
  {
    BeforeVoteOk(w, inv, n, h, env);
    var a, b := Prepare(n, w.validators, n.chain.blocks[h].block, env.order), MarkValid(h, env.validatorUpdate);
    var n2 := BeforeVote(n, w.validators, h, env);
    WritesKeepShape(n, a);
    WritesKeepShape(ApplyAll(n, a), b);
    ShapeTransitive(n.chain, ApplyAll(n, a).chain, n2.chain);
    ShapeKeepsNames(w, n.chain, n2.chain);
    TreeIn(w, inv, n2);
  }

  lemma TreeIn(w: World, inv: Node -> bool, n: Node)
    requires Names(inv, w) && inv(n) && ChildrenNamed(w, n.chain.blocks)
    ensures TreeOk(n.chain.blocks) && n.hcc in n.chain.blocks
  {
    LookInside(w, inv, n);
    ViewIsTree(w, n.chain.blocks, n.hcc, n.lfb);
  }

  // ---- where the searches are --------------------------------------------------------

  ghost function Judged(n: Node, vs: ValidatorSet, h: Hash, checksOk: bool): Verdict
    requires n.lfb in n.chain.blocks
  {
    var s := n.chain.blocks;
    if h in s && s[h].status.Pending? && s[h].block.parent in s then Handlers.ValidateBlock(n, vs, h, checksOk) else Panic
  }

  lemma BlockHandled(w: World, n: Node, vs: ValidatorSet, h: Hash, env: Env)
    requires NodeOk(w, n)
    ensures Handles(n, ApplyAll(n, Writes(n, vs, OnBlock(h, env))), vs, h, env)
  {
    hide Handles, Handlers.HandleBlock, ApplyAll;
    BlockExactly(n, vs, h, env);
  }

  /** What the block handler does, verdict by verdict. */
  lemma BlockCases(w: World, n: Node, vs: ValidatorSet, h: Hash, env: Env)
    requires w.validators == vs && n.lfb in n.chain.blocks
    ensures
      var ws := Writes(n, vs, OnBlock(h, env));
      match Judged(n, vs, h, env.checksOk)
      case Panic => ws == [] && Possible(w, n, OnBlock(h, env))
      case Reject => ws == [PutStatus(h, Invalid)] && Possible(w, n, OnBlock(h, env)) && h in n.chain.blocks
      case Accept => Accepts(n, vs, h, env) && h in n.chain.blocks && ws == Handlers.AcceptBlock(n, vs, n.chain.blocks[h].block, env)
  {
    hide Handlers.AcceptBlock, Handlers.ValidateBlock, Searched;
  }

  lemma RanThrough(n: Node, ws: seq<Write>, m: Node)
    requires RunsTo(n, ws, false, m)
    ensures m == ApplyAll(n, ws)
  {
    assert ws[..|ws|] == ws;
  }

  lemma {:induction false} MarksQuiet(hs: seq<Hash>, st: Status)
    ensures forall x :: x in MarkAll(hs, st) ==> !x.PutEpoch?
    decreases hs
  {
    if hs != [] {
      MarksQuiet(hs[1..], IndirectlyFinalized);
    }
  }

  lemma NoEpochInCheck(n: Node, vs: ValidatorSet, h: Hash)
    ensures forall x :: x in Handlers.CheckCC(n, vs, h) ==> !x.PutEpoch?
  {
    if h in n.chain.blocks {
      MarksQuiet(Walk(n.chain.blocks, n.chain.blocks[h].block.parent), DirectlyFinalized);
    }
  }

  lemma CheckQuiet(n: Node, vs: ValidatorSet, h: Hash)
    ensures RunsTo(n, Handlers.CheckCC(n, vs, h), false, ApplyAll(n, Handlers.CheckCC(n, vs, h)))
  {
    NoEpochInCheck(n, vs, h);
    RunsQuiet(n, Handlers.CheckCC(n, vs, h));
  }

  lemma CatchUpQuiet(n: Node, vs: ValidatorSet, h: Hash)
    ensures RunsTo(n, CatchUp(n, vs, h), false, ApplyAll(n, CatchUp(n, vs, h)))
  {
    NoEpochInCheck(n, vs, h);
    RunsQuiet(n, CatchUp(n, vs, h));
  }

  lemma ConcludeQuiet(n: Node, vs: ValidatorSet, b: Block, env: Env)
    ensures RunsTo(n, Conclude(n, vs, b, env), false, ApplyAll(n, Conclude(n, vs, b, env)))
  {
    hide Handlers.CheckCC, RunsTo, ApplyAll;
    NoEpochInCheck(ApplyAll(n, MarkAndVote(n, vs, b, env)), vs, b.hash);
    RunsQuiet(n, Conclude(n, vs, b, env));
  }

  /** The votes of all keys but those still to do are in the list, and nothing else. */
  ghost predicate HandedOut(votes: VoteSet, order: seq<Incoming>, todo: set<VoteKey>) {
    && (forall m :: m in order ==> Key(m.vote) in votes && votes[Key(m.vote)] == m.vote)
    && (forall k {:trigger votes[k]} :: k in votes.Keys - todo ==> exists m :: m in order && m.vote == votes[k])
  }

  lemma HandedNext(votes: VoteSet, order: seq<Incoming>, todo: set<VoteKey>, k: VoteKey, tie: bool)
    requires HandedOut(votes, order, todo) && k in todo && todo <= votes.Keys && WellKeyed(votes)
    ensures HandedOut(votes, order + [Incoming(votes[k], tie)], todo - {k})
  {
    var m := Incoming(votes[k], tie);
    var longer := order + [m];
    assert m in longer && forall x :: x in order ==> x in longer;
  }

  /** The votes that a failed search leaves aside, in some order. */
  ghost function TheRest(votes: VoteSet, todo: set<VoteKey>): seq<Incoming>
    requires todo <= votes.Keys
    decreases todo
  {
    if todo == {} then [] else
      var k :| k in todo;
      [Incoming(votes[k], false)] + TheRest(votes, todo - {k})
  }

  lemma {:induction false} RestHolds(votes: VoteSet, todo: set<VoteKey>)
    requires todo <= votes.Keys && WellKeyed(votes)
    ensures forall m :: m in TheRest(votes, todo) ==> Key(m.vote) in votes && votes[Key(m.vote)] == m.vote
    ensures forall k {:trigger votes[k]} :: k in todo ==> exists m :: m in TheRest(votes, todo) && m.vote == votes[k]
    decreases todo
  {
    if todo != {} {
      var k :| k in todo && TheRest(votes, todo) == [Incoming(votes[k], false)] + TheRest(votes, todo - {k});
      var m := Incoming(votes[k], false);
      RestHolds(votes, todo - {k});
      assert m in TheRest(votes, todo);
      forall j {:trigger votes[j]} | j in todo ensures exists m :: m in TheRest(votes, todo) && m.vote == votes[j] {
        if j != k {
          var x :| x in TheRest(votes, todo - {k}) && x.vote == votes[j];
          assert x in TheRest(votes, todo);
        }
      }
    }
  }

  lemma RestListed(votes: VoteSet, order: seq<Incoming>, todo: set<VoteKey>, rest: seq<Incoming>)
    requires HandedOut(votes, order, todo) && todo <= votes.Keys && WellKeyed(votes) && rest == TheRest(votes, todo)
    ensures Lists(order + rest, votes)
  {
    RestHolds(votes, todo);
    forall k {:trigger votes[k]} | k in votes ensures exists m :: m in order + rest && m.vote == votes[k] {
      if k in todo {
        var m :| m in rest && m.vote == votes[k];
        assert m in order + rest;
      } else {
        var m :| m in order && m.vote == votes[k];
        assert m in order + rest;
      }
    }
  }

  lemma {:induction false} HandleVotesConcat(n: Node, vs: ValidatorSet, a: seq<Incoming>, b: seq<Incoming>)
    ensures
      var ws := Handlers.HandleVotes(n, vs, a);
      Handlers.HandleVotes(n, vs, a + b) == ws + Handlers.HandleVotes(ApplyAll(n, ws), vs, b)
    decreases a
  {
    hide Handlers.HandleVote;
    if a == [] {
      assert a + b == b;
    } else {
      var first := Handlers.HandleVote(n, vs, a[0].vote, a[0].replaceTie);
      var n1 := ApplyAll(n, first);
      assert (a + b)[0] == a[0] && (a + b)[1..] == a[1..] + b;
      HandleVotesConcat(n1, vs, a[1..], b);
      ApplyAllConcat(n, first, Handlers.HandleVotes(n1, vs, a[1..]));
    }
  }

  lemma HandleVotesAppend(n: Node, vs: ValidatorSet, order: seq<Incoming>, m: Incoming, n1: Node, fatal: bool, n2: Node)
    requires RunsTo(n, Handlers.HandleVotes(n, vs, order), false, n1)
    requires RunsTo(n1, Handlers.HandleVote(n1, vs, m.vote, m.replaceTie), fatal, n2)
    ensures RunsTo(n, Handlers.HandleVotes(n, vs, order + [m]), fatal, n2)
  {
    hide Handlers.HandleVote;
    var a, b := Handlers.HandleVotes(n, vs, order), Handlers.HandleVote(n1, vs, m.vote, m.replaceTie);
    RanThrough(n, a, n1);
    HandleVotesConcat(n, vs, order, [m]);
    assert [m][1..] == [] && b + [] == b;
    assert Handlers.HandleVotes(n1, vs, [m]) == b + Handlers.HandleVotes(ApplyAll(n1, b), vs, []);
    RunsOn(n, a, b, n1, fatal, n2);
  }

  lemma {:induction false} MarkedKeepsBlocks(s: Store, hs: seq<Hash>, st: Status)
    ensures MarkedStore(s, hs, st).Keys == s.Keys
    decreases hs
  {
    if hs != [] {
      MarkedKeepsBlocks(SetStatus(s, hs[0], st), hs[1..], IndirectlyFinalized);
    }
  }
}
