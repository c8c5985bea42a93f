/** Every handler keeps the node invariant after each of its persisted writes. */
module HandlerSafety {
  import opened Common
  import opened Validators
  import opened Votes
  import opened BlockTree
  import opened ChainSpec
  import opened Handlers
  import opened NodeInvariant

  // ---- votes -------------------------------------------------------------------------

  lemma EpochVoteKeeps(w: World, inv: Node -> bool, n: Node, v: Vote, tie: bool)
    requires Names(inv, w) && inv(n) && Key(v) in w.ballots && v.epoch < U64
    ensures inv(Apply(n, PutEpochVote(v, tie)))
  {
    assert At(n) && At(Apply(n, PutEpochVote(v, tie)));
  }

  lemma VoteKeeps(w: World, inv: Node -> bool, n: Node, v: Vote)
    requires Names(inv, w) && inv(n) && Key(v) in w.ballots && Validate(v)
    ensures inv(Apply(n, PutVote(v)))
  {
    var n' := Apply(n, PutVote(v));
    assert At(n) && At(n');
    forall h | h in n'.votes ensures IndexEntryOk(n'.votes[h], h) && n'.votes[h].Keys <= w.ballots {
      assert h != v.block ==> n'.votes[h] == n.votes[h];
    }
  }

  lemma EpochKeeps(w: World, inv: Node -> bool, n: Node, e: nat)
    requires Names(inv, w) && inv(n) && EpochOk(w, e)
    ensures inv(Apply(n, PutEpoch(e)))
  {
    assert At(n) && At(Apply(n, PutEpoch(e)));
  }

  /** A vote whose signature verifies was signed by its voter. */
  ghost predicate Genuine(w: World, v: Vote) {
    v.authentic ==> Key(v) in w.ballots && v.epoch < U64
  }

  lemma SafeTwo(inv: Node -> bool, n: Node, a: Write, b: Write)
    requires inv(n) && inv(Apply(n, a)) && inv(Apply(Apply(n, a), b)) && Guard(n, a) && Guard(Apply(n, a), b)
    ensures Safe(inv, n, [a, b]) && ApplyAll(n, [a, b]) == Apply(Apply(n, a), b)
  {
    assert [a, b][1..] == [b] && [b][1..] == [];
    assert Safe(inv, Apply(Apply(n, a), b), []);
    assert Safe(inv, Apply(n, a), [b]);
    assert ApplyAll(Apply(n, a), [b]) == ApplyAll(Apply(Apply(n, a), b), []);
  }

  lemma SafeOne(inv: Node -> bool, n: Node, a: Write)
    requires inv(n) && inv(Apply(n, a)) && Guard(n, a)
    ensures Safe(inv, n, [a]) && ApplyAll(n, [a]) == Apply(n, a)
  {
    assert [a][1..] == [];
    assert Safe(inv, Apply(n, a), []);
  }

  lemma SaveVoteSafe(w: World, inv: Node -> bool, n: Node, v: Vote, tie: bool)
    requires Names(inv, w) && inv(n) && Key(v) in w.ballots && Validate(v) && v.epoch < U64
    ensures Safe(inv, n, [PutEpochVote(v, tie), PutVote(v)])
  {
    EpochVoteKeeps(w, inv, n, v, tie);
    VoteKeeps(w, inv, Apply(n, PutEpochVote(v, tie)), v);
    SafeTwo(inv, n, PutEpochVote(v, tie), PutVote(v));
  }

  /** The voters that let a node leave an epoch have signed for it or a later one. */
  lemma EpochIsFollowed(w: World, votes: map<Address, Vote>, epoch: nat)
    requires EpochVotesOk(w, votes) && w.root in w.blocks && epoch < U64 && Majority(w.validators, VotersSince(votes, epoch))
    ensures EpochOk(w, (epoch + 1) % U64)
  {
    forall a | a in VotersSince(votes, epoch) ensures a in SignersSince(w, epoch) {
      assert Key(votes[a]) in w.ballots;
    }
    MajorityMonotone(w.validators, VotersSince(votes, epoch), SignersSince(w, epoch));
    assert (((epoch + 1) % U64) + U64 - 1) % U64 == epoch;
  }

  lemma SignedSince(w: World, votes: map<Address, Vote>, epoch: nat)
    requires EpochVotesOk(w, votes) && Majority(w.validators, VotersSince(votes, epoch))
    ensures epoch == U64 - 1 ==> LastEpochSigned(votes)
  {
    var a := StakeHasMember(w.validators, VotersSince(votes, epoch));
    assert votes[a].epoch < U64;
  }

  lemma LeaveEpochSafe(w: World, inv: Node -> bool, n: Node, v: Vote)
    requires Names(inv, w) && inv(n) && v.epoch < U64 && v.epoch >= n.epoch
    requires Majority(w.validators, VotersSince(n.epochVotes, v.epoch))
    ensures Safe(inv, n, [PutEpoch((v.epoch + 1) % U64)])
  {
    var e := (v.epoch + 1) % U64;
    assert EpochVotesOk(w, n.epochVotes) && w.root in w.blocks by {
      assert At(n);
    }
    EpochIsFollowed(w, n.epochVotes, v.epoch);
    SignedSince(w, n.epochVotes, v.epoch);
    EpochKeeps(w, inv, n, e);
    SafeOne(inv, n, PutEpoch(e));
  }

  lemma HandleVoteSafe(w: World, inv: Node -> bool, n: Node, v: Vote, tie: bool)
    requires Names(inv, w) && inv(n) && Genuine(w, v)
    ensures Safe(inv, n, HandleVote(n, w.validators, v, tie))
    ensures inv(ApplyAll(n, HandleVote(n, w.validators, v, tie)))
  {
    if Validate(v) {
      var saved := [PutEpochVote(v, tie), PutVote(v)];
      SaveVoteSafe(w, inv, n, v, tie);
      if HandleVote(n, w.validators, v, tie) != saved {
        var e := (v.epoch + 1) % U64;
        SafeEnd(inv, n, saved);
        ApplyTwo(n, saved[0], saved[1]);
        LeaveEpochSafe(w, inv, ApplyAll(n, saved), v);
        SafeConcat(inv, n, saved, [PutEpoch(e)]);
      }
    }
    SafeEnd(inv, n, HandleVote(n, w.validators, v, tie));
  }

  lemma {:induction false} HandleVotesSafe(w: World, inv: Node -> bool, n: Node, votes: seq<Incoming>)
    requires Names(inv, w) && inv(n) && forall m :: m in votes ==> Genuine(w, m.vote)
    ensures Safe(inv, n, HandleVotes(n, w.validators, votes))
    ensures inv(ApplyAll(n, HandleVotes(n, w.validators, votes)))
    decreases votes
  {
    if votes != [] {
      var ws := HandleVote(n, w.validators, votes[0].vote, votes[0].replaceTie);
      HandleVoteSafe(w, inv, n, votes[0].vote, votes[0].replaceTie);
      HandleVotesSafe(w, inv, ApplyAll(n, ws), votes[1..]);
      SafeConcat(inv, n, ws, HandleVotes(ApplyAll(n, ws), w.validators, votes[1..]));
    }
    SafeEnd(inv, n, HandleVotes(n, w.validators, votes));
  }

  // ---- commit and finality -----------------------------------------------------------

  lemma HccKeeps(w: World, inv: Node -> bool, n: Node, h: Hash)
    requires Names(inv, w) && inv(n) && h in n.chain.blocks && BlockTree.IsValid(n.chain.blocks[h].status) && Certified(w, h)
    requires HeightIn(n.chain.blocks, n.hcc) <= HeightIn(n.chain.blocks, h)
    ensures inv(Apply(n, PutHcc(h)))
  {
    var s := n.chain.blocks;
    assert At(n) && At(Apply(n, PutHcc(h)));
    LinksStep(w, s, s, HeightIn(s, n.hcc), HeightIn(s, h), h);
    CommittedStep(w, s, s, HeightIn(s, n.hcc), HeightIn(s, h), h);
  }

  lemma LfbKeeps(w: World, inv: Node -> bool, n: Node, p: Hash)
    requires Names(inv, w) && inv(n) && p in n.chain.blocks && BlockTree.IsValid(n.chain.blocks[p].status) && DirectFinal(w, p)
    requires HeightIn(n.chain.blocks, n.lfb) <= HeightIn(n.chain.blocks, p) <= HeightIn(n.chain.blocks, n.hcc)
    ensures inv(Apply(n, PutLfb(p)))
  {
    var s := n.chain.blocks;
    assert At(n) && At(Apply(n, PutLfb(p)));
    FinalStep(w, s, s, HeightIn(s, n.lfb), HeightIn(s, p), p);
  }

  /** Each processed block reaches the root through its parents. */
  lemma {:induction false} RootIsAncestor(w: World, s: Store, top: nat, h: Hash)
    requires StoreOk(w, s) && LinksOk(w, s, top) && h in s && BlockTree.IsValid(s[h].status)
    ensures Anc(w.blocks, w.root, h)
    decreases s[h].block.height
  {
    if h != w.root {
      assert Linked(w, s, top, h);
      RootIsAncestor(w, s, top, s[h].block.parent);
    }
  }

  /** The parent that a committed block finalizes: it is certified (or the root), sits exactly
      at the height of the local highest committed block, and is confirmed by the block. */
  lemma ParentIsFinal(w: World, inv: Node -> bool, n: Node, h: Hash)
    requires Names(inv, w) && inv(n) && h in n.chain.blocks && h != w.root && BlockTree.IsValid(n.chain.blocks[h].status) && Certified(w, h)
    requires HeightIn(n.chain.blocks, n.hcc) < HeightIn(n.chain.blocks, h)
    requires n.chain.blocks[h].block.parent == n.chain.blocks[h].block.hcc
    ensures
      var p := n.chain.blocks[h].block.parent;
      && p in n.chain.blocks && BlockTree.IsValid(n.chain.blocks[p].status) && DirectFinal(w, p) && Confirms(w, h, p)
      && HeightIn(n.chain.blocks, n.lfb) <= HeightIn(n.chain.blocks, p) == HeightIn(n.chain.blocks, n.hcc)
  {
    var s := n.chain.blocks;
    var p := s[h].block.parent;
    LookInside(w, inv, n);
    assert Linked(w, s, HeightIn(s, n.hcc), h);
    assert Confirms(w, h, p);
    if !Anchored(w, p) {
      assert BelowFinal(w, HeightIn(s, n.lfb), p);
      var f :| FinalBelow(w, HeightIn(s, n.lfb), p, f);
      AncHeight(w.blocks, p, f);
    }
  }

  lemma MarkKeeps(w: World, inv: Node -> bool, n: Node, h: Hash, st: Status)
    requires Names(inv, w) && inv(n) && h in n.chain.blocks && BlockTree.IsValid(n.chain.blocks[h].status) && !IsFinalized(n.chain.blocks[h].status)
    requires st.IndirectlyFinalized? || (st.DirectlyFinalized? && h == n.lfb)
    requires Anc(w.blocks, h, n.lfb)
    ensures inv(Apply(n, PutStatus(h, st))) && Guard(n, PutStatus(h, st))
  {
    LookInside(w, inv, n);
    assert FinalBelow(w, HeightIn(n.chain.blocks, n.lfb), h, n.lfb);
    assert BelowFinal(w, HeightIn(n.chain.blocks, n.lfb), h);
    StatusKeeps(w, inv, n, h, st);
  }

  lemma WalkStep(s: Store, h: Hash, st: Status)
    requires h != EMPTY_HASH && h in s && !IsFinalized(s[h].status) && IsFinalized(st)
    ensures
      var t := SetStatus(s, h, st);
      && NotFinalized(t) < NotFinalized(s)
      && MarkAll(Walk(s, h), st) == [PutStatus(h, st)] + MarkAll(Walk(t, s[h].block.parent), IndirectlyFinalized)
  {
    WalkNext(s, h, st);
    var rest := Walk(SetStatus(s, h, st), s[h].block.parent);
    assert ([h] + rest)[1..] == rest;
  }

  lemma ParentOnChain(w: World, s: Store, top: nat, h: Hash, d: Hash)
    requires StoreOk(w, s) && LinksOk(w, s, top)
    requires h in s && h != w.root && BlockTree.IsValid(s[h].status) && Anc(w.blocks, h, d)
    ensures s[h].block.parent in s && BlockTree.IsValid(s[s[h].block.parent].status)
    ensures Anc(w.blocks, s[h].block.parent, h) && Anc(w.blocks, s[h].block.parent, d)
  {
    assert Linked(w, s, top, h);
    AncTransitive(w.blocks, s[h].block.parent, h, d);
  }

  /** One step of the finalizing walk, and what the next step starts from. */
  lemma MarkOne(w: World, inv: Node -> bool, n: Node, h: Hash, st: Status) returns (n1: Node, p: Hash)
    requires Names(inv, w) && inv(n) && h in n.chain.blocks && BlockTree.IsValid(n.chain.blocks[h].status) && Anc(w.blocks, h, n.lfb)
    requires st.IndirectlyFinalized? || (st.DirectlyFinalized? && h == n.lfb)
    requires !IsFinalized(n.chain.blocks[h].status)
    ensures p == n.chain.blocks[h].block.parent && n1 == Apply(n, PutStatus(h, st)) && inv(n1) && Guard(n, PutStatus(h, st))
    ensures MarkAll(Walk(n.chain.blocks, h), st) == [PutStatus(h, st)] + MarkAll(Walk(n1.chain.blocks, p), IndirectlyFinalized)
    ensures NotFinalized(n1.chain.blocks) < NotFinalized(n.chain.blocks)
    ensures p in n1.chain.blocks && BlockTree.IsValid(n1.chain.blocks[p].status)
    ensures Anc(w.blocks, p, n1.lfb) && Anc(w.blocks, p, h)
  {
    var s := n.chain.blocks;
    p := s[h].block.parent;
    n1 := Apply(n, PutStatus(h, st));
    LookInside(w, inv, n);
    MarkKeeps(w, inv, n, h, st);
    WalkStep(s, h, st);
    ParentOnChain(w, s, HeightIn(s, n.hcc), h, n.lfb);
  }

  lemma {:induction false} SafeCons(inv: Node -> bool, n: Node, x: Write, rest: seq<Write>)
    requires inv(n) && Guard(n, x) && Safe(inv, Apply(n, x), rest)
    ensures Safe(inv, n, [x] + rest) && ApplyAll(n, [x] + rest) == ApplyAll(Apply(n, x), rest)
  {
    assert ([x] + rest)[0] == x && ([x] + rest)[1..] == rest;
  }

  lemma {:induction false} MarkAllSafe(w: World, inv: Node -> bool, n: Node, h: Hash, st: Status)
    requires Names(inv, w) && inv(n) && h in n.chain.blocks && BlockTree.IsValid(n.chain.blocks[h].status) && Anc(w.blocks, h, n.lfb)
    requires st.IndirectlyFinalized? || (st.DirectlyFinalized? && h == n.lfb)
    ensures
      var ws := MarkAll(Walk(n.chain.blocks, h), st);
      && Safe(inv, n, ws) && inv(ApplyAll(n, ws))
      && OnlyFinalizes(w, n, ApplyAll(n, ws), h)
    decreases NotFinalized(n.chain.blocks)
  {
    if !IsFinalized(n.chain.blocks[h].status) {
      var n1, p := MarkOne(w, inv, n, h, st);
      MarkAllSafe(w, inv, n1, p, IndirectlyFinalized);
      var rest := MarkAll(Walk(n1.chain.blocks, p), IndirectlyFinalized);
      SafeCons(inv, n, PutStatus(h, st), rest);
      OnlyFinalizesStep(w, n, n1, ApplyAll(n1, rest), h, p, st);
    }
  }

  lemma OnlyFinalizesStep(w: World, n: Node, n1: Node, n2: Node, h: Hash, p: Hash, st: Status)
    requires h in n.chain.blocks && BlockTree.IsValid(n.chain.blocks[h].status) && !IsFinalized(n.chain.blocks[h].status)
    requires IsFinalized(st) && n1 == Apply(n, PutStatus(h, st)) && OnlyFinalizes(w, n1, n2, p) && Anc(w.blocks, p, h)
    ensures OnlyFinalizes(w, n, n2, h)
  {
    StatusRestatus(n.chain.blocks, h, st);
    forall g | g in n.chain.blocks ensures FinalizedOrSame(w, n.chain.blocks[g], n2.chain.blocks[g], g, h) {
      assert FinalizedOrSame(w, n1.chain.blocks[g], n2.chain.blocks[g], g, p);
      if Anc(w.blocks, g, p) {
        AncTransitive(w.blocks, g, p, h);
      }
    }
  }

  ghost predicate FinalizedOrSame(w: World, before: ExtBlock, after: ExtBlock, g: Hash, h: Hash) {
    || after == before
    || (Anc(w.blocks, g, h) && after == before.(status := after.status)
      && BlockTree.IsValid(before.status) && !IsFinalized(before.status) && IsFinalized(after.status))
  }

  /** Finalizing from `h` touches nothing but processed ancestors of `h`, which become final. */
  ghost predicate OnlyFinalizes(w: World, n: Node, n': Node, h: Hash) {
    && n' == n.(chain := n.chain.(blocks := n'.chain.blocks))
    && n'.chain.blocks.Keys == n.chain.blocks.Keys
    && (forall g {:trigger n'.chain.blocks[g]} :: g in n.chain.blocks ==>
      FinalizedOrSame(w, n.chain.blocks[g], n'.chain.blocks[g], g, h))
  }

  /** What checking a certificate may change: the two tops, upwards, and processed statuses. */
  ghost predicate CommitEffect(n: Node, n': Node) {
    && n' == n.(chain := n.chain.(blocks := n'.chain.blocks), hcc := n'.hcc, lfb := n'.lfb)
    && n'.chain.blocks.Keys == n.chain.blocks.Keys
    && (forall g {:trigger n'.chain.blocks[g]} :: g in n.chain.blocks ==>
      && n'.chain.blocks[g].block == n.chain.blocks[g].block
      && BlockTree.IsValid(n'.chain.blocks[g].status) == BlockTree.IsValid(n.chain.blocks[g].status)
      && (IsFinalized(n.chain.blocks[g].status) ==> IsFinalized(n'.chain.blocks[g].status))
      && (!BlockTree.IsValid(n.chain.blocks[g].status) ==> n'.chain.blocks[g] == n.chain.blocks[g]))
    && HeightIn(n.chain.blocks, n.hcc) <= HeightIn(n'.chain.blocks, n'.hcc)
    && HeightIn(n.chain.blocks, n.lfb) <= HeightIn(n'.chain.blocks, n'.lfb)
  }

  lemma CommitShape(n: Node, h: Hash)
    requires h in n.chain.blocks && n.chain.blocks[h].status.Valid?
    requires HeightIn(n.chain.blocks, n.hcc) <= HeightIn(n.chain.blocks, h)
    ensures CommitEffect(n, Apply(Apply(n, PutHcc(h)), PutStatus(h, Committed)))
  {
    StatusRestatus(n.chain.blocks, h, Committed);
  }

  lemma CommitKeeps(w: World, inv: Node -> bool, n: Node, h: Hash)
    requires Names(inv, w) && inv(n) && h in n.chain.blocks && n.chain.blocks[h].status.Valid? && Certified(w, h)
    requires HeightIn(n.chain.blocks, n.hcc) < HeightIn(n.chain.blocks, h)
    ensures
      var ws := [PutHcc(h), PutStatus(h, Committed)];
      Safe(inv, n, ws) && ApplyAll(n, ws) == Apply(Apply(n, ws[0]), ws[1]) && inv(ApplyAll(n, ws))
  {
    HccKeeps(w, inv, n, h);
    StatusKeeps(w, inv, Apply(n, PutHcc(h)), h, Committed);
    SafeTwo(inv, n, PutHcc(h), PutStatus(h, Committed));
  }

  lemma FinalizeSafe(w: World, inv: Node -> bool, n: Node, p: Hash)
    requires Names(inv, w) && inv(n) && p in n.chain.blocks && BlockTree.IsValid(n.chain.blocks[p].status) && DirectFinal(w, p)
    requires HeightIn(n.chain.blocks, n.lfb) <= HeightIn(n.chain.blocks, p) == HeightIn(n.chain.blocks, n.hcc)
    ensures
      var ws := FinalizeBlock(n, p);
      && Safe(inv, n, ws) && inv(ApplyAll(n, ws))
      && ApplyAll(n, ws).lfb == p && OnlyFinalizes(w, n.(lfb := p), ApplyAll(n, ws), p)
  {
    if p != n.lfb {
      LfbKeeps(w, inv, n, p);
      var n1 := Apply(n, PutLfb(p));
      MarkAllSafe(w, inv, n1, p, DirectlyFinalized);
      SafeCons(inv, n, PutLfb(p), MarkAll(Walk(n.chain.blocks, p), DirectlyFinalized));
    }
  }

  lemma CommitAfterFinalize(w: World, n: Node, p: Hash, n1: Node, n2: Node)
    requires n.hcc in n.chain.blocks && n.lfb in n.chain.blocks && p in n.chain.blocks
    requires HeightIn(n.chain.blocks, n.lfb) <= HeightIn(n.chain.blocks, p)
    requires OnlyFinalizes(w, n.(lfb := p), n1, p) && CommitEffect(n1, n2)
    ensures CommitEffect(n, n2)
  {
    forall g | g in n.chain.blocks
      ensures n2.chain.blocks[g].block == n.chain.blocks[g].block
      ensures BlockTree.IsValid(n2.chain.blocks[g].status) == BlockTree.IsValid(n.chain.blocks[g].status)
      ensures IsFinalized(n.chain.blocks[g].status) ==> IsFinalized(n2.chain.blocks[g].status)
      ensures !BlockTree.IsValid(n.chain.blocks[g].status) ==> n2.chain.blocks[g] == n.chain.blocks[g]
    {
      assert FinalizedOrSame(w, n.chain.blocks[g], n1.chain.blocks[g], g, p);
    }
    assert FinalizedOrSame(w, n.chain.blocks[n.hcc], n1.chain.blocks[n.hcc], n.hcc, p);
    assert FinalizedOrSame(w, n.chain.blocks[p], n1.chain.blocks[p], p, p);
  }

  lemma AboveTop(w: World, inv: Node -> bool, n: Node, h: Hash)
    requires Names(inv, w) && inv(n) && h in n.chain.blocks
    requires n.chain.blocks[h].block.height > HeightIn(n.chain.blocks, n.hcc)
    ensures h != w.root && !n.chain.blocks[h].status.Trusted?
    ensures n.hcc in n.chain.blocks && n.lfb in n.chain.blocks
    ensures forall p :: p in n.chain.blocks && HeightIn(n.chain.blocks, p) < HeightIn(n.chain.blocks, h) ==> !Anc(w.blocks, h, p)
  {
    LookInside(w, inv, n);
    NotRootAbove(w, n.chain.blocks, n.hcc, HeightIn(n.chain.blocks, n.hcc), h);
    forall p | p in n.chain.blocks && HeightIn(n.chain.blocks, p) < HeightIn(n.chain.blocks, h) ensures !Anc(w.blocks, h, p) {
      if Anc(w.blocks, h, p) {
        AncHeight(w.blocks, h, p);
      }
    }
  }

  lemma FinalizeAndCommitSafe(w: World, inv: Node -> bool, n: Node, h: Hash)
    requires Names(inv, w) && inv(n) && h in n.chain.blocks && n.chain.blocks[h].status.Valid? && Certified(w, h)
    requires n.chain.blocks[h].block.height > HeightIn(n.chain.blocks, n.hcc)
    requires n.chain.blocks[h].block.parent == n.chain.blocks[h].block.hcc
    ensures
      var ws := FinalizeBlock(n, n.chain.blocks[h].block.parent) + [PutHcc(h), PutStatus(h, Committed)];
      var n' := ApplyAll(n, ws);
      Safe(inv, n, ws) && inv(n') && CommitEffect(n, n') && n'.hcc == h
  {
    var p := n.chain.blocks[h].block.parent;
    AboveTop(w, inv, n, h);
    ParentIsFinal(w, inv, n, h);
    var ws, commit := FinalizeBlock(n, p), [PutHcc(h), PutStatus(h, Committed)];
    FinalizeSafe(w, inv, n, p);
    var n1 := ApplyAll(n, ws);
    assert FinalizedOrSame(w, n.chain.blocks[h], n1.chain.blocks[h], h, p);
    assert FinalizedOrSame(w, n.chain.blocks[n.hcc], n1.chain.blocks[n.hcc], n.hcc, p);
    assert !Anc(w.blocks, h, p);
    CommitKeeps(w, inv, n1, h);
    CommitShape(n1, h);
    SafeConcat(inv, n, ws, commit);
    ApplyAllConcat(n, ws, commit);
    CommitAfterFinalize(w, n, p, n1, ApplyAll(n1, commit));
  }

  lemma CommitOnlySafe(w: World, inv: Node -> bool, n: Node, h: Hash)
    requires Names(inv, w) && inv(n) && h in n.chain.blocks && n.chain.blocks[h].status.Valid? && Certified(w, h)
    requires n.chain.blocks[h].block.height > HeightIn(n.chain.blocks, n.hcc)
    ensures
      var ws := [] + [PutHcc(h), PutStatus(h, Committed)];
      var n' := ApplyAll(n, ws);
      Safe(inv, n, ws) && inv(n') && CommitEffect(n, n') && n'.hcc == h
  {
    CommitKeeps(w, inv, n, h);
    CommitShape(n, h);
    assert [] + [PutHcc(h), PutStatus(h, Committed)] == [PutHcc(h), PutStatus(h, Committed)];
  }

  lemma ProcessCCSafe(w: World, inv: Node -> bool, n: Node, h: Hash)
    requires Names(inv, w) && inv(n) && h in n.chain.blocks && n.hcc in n.chain.blocks
    requires n.chain.blocks[h].status.Trusted? || (n.chain.blocks[h].status.Valid? && Certified(w, h))
    ensures
      var ws := ProcessCC(n, h);
      var n' := ApplyAll(n, ws);
      Safe(inv, n, ws) && inv(n') && CommitEffect(n, n') && HeightIn(n.chain.blocks, h) <= HeightIn(n'.chain.blocks, n'.hcc)
  {
    var b := n.chain.blocks[h].block;
    if b.height > HeightIn(n.chain.blocks, n.hcc) {
      AboveTop(w, inv, n, h);
      if b.parent == b.hcc {
        assert b.parent in n.chain.blocks by {
          ParentIsFinal(w, inv, n, h);
        }
        FinalizeAndCommitSafe(w, inv, n, h);
      } else {
        CommitOnlySafe(w, inv, n, h);
      }
    }
  }

  lemma NotRootAbove(w: World, s: Store, hcc: Hash, top: nat, h: Hash)
    requires StoreOk(w, s) && LinksOk(w, s, top) && h in s && hcc in s && BlockTree.IsValid(s[hcc].status)
    requires s[h].block.height > s[hcc].block.height
    ensures h != w.root && !s[h].status.Trusted?
  {
    RootIsAncestor(w, s, top, hcc);
    AncHeight(w.blocks, w.root, hcc);
  }

  lemma IndexMajority(w: World, n: Node, h: Hash)
    requires VoteIndexOk(w, n.votes) && h in w.blocks && Majority(w.validators, Voters(VotesOf(n, h)))
    ensures Certified(w, h)
  {
    var s := VotesOf(n, h);
    forall a | a in Voters(s) ensures a in Signers(w, h) {
      var k :| k in s && k.id == a;
      assert s[k].block == h && Key(s[k]) == k && k in w.ballots;
    }
    if h !in n.votes {
      assert Voters(s) == {};
      NoStake(w.validators);
    }
    MajorityMonotone(w.validators, Voters(s), Signers(w, h));
  }

  /** After the check, a block with a locally known majority is no higher than the local highest
      committed block. */
  lemma CheckCCSafe(w: World, inv: Node -> bool, n: Node, h: Hash)
    requires Names(inv, w) && inv(n)
    ensures
      var ws := CheckCC(n, w.validators, h);
      var n' := ApplyAll(n, ws);
      && Safe(inv, n, ws) && inv(n') && CommitEffect(n, n')
      && (h in n.chain.blocks && BlockTree.IsValid(n.chain.blocks[h].status)
          && (Majority(w.validators, Voters(VotesOf(n, h))) || IsFinalized(n.chain.blocks[h].status))
          ==> HeightIn(n.chain.blocks, h) <= HeightIn(n'.chain.blocks, n'.hcc))
  {
    LookInside(w, inv, n);
    if h in n.chain.blocks {
      var eb := n.chain.blocks[h];
      if IsFinalized(eb.status) {
        FinalIsLow(w, n.chain.blocks, n.hcc, n.lfb, h);
      }
      if eb.status.Trusted? || (eb.status.Valid? && Majority(w.validators, Voters(VotesOf(n, h)))) {
        if eb.status.Valid? {
          assert At(n);
          IndexMajority(w, n, h);
        }
        ProcessCCSafe(w, inv, n, h);
      }
    }
  }

  lemma FinalIsLow(w: World, s: Store, hcc: Hash, lfb: Hash, h: Hash)
    requires StoreViewOk(w, s, hcc, lfb) && h in s && IsFinalized(s[h].status)
    ensures s[h].block.height <= HeightIn(s, lfb) <= HeightIn(s, hcc)
  {
    assert BelowFinal(w, HeightIn(s, lfb), h);
    var f :| FinalBelow(w, HeightIn(s, lfb), h, f);
    AncHeight(w.blocks, h, f);
  }

  // ---- voting ------------------------------------------------------------------------

  lemma VotedHeights(w: World, s: Store, top: nat, id: Address, sent: set<VoteKey>, last: Vote, g: Hash)
    requires StoreOk(w, s) && LinksOk(w, s, top) && BallotsOk(w, s, id, sent, last) && g in Voted(sent, last) && g != w.root
    ensures HeightIn(s, g) >= 1 && last.height != 0 && Linked(w, s, top, g)
  {
    assert Linked(w, s, top, g);
  }

  /** A new vote is above every earlier one, and its highest committed block is the local one,
      which no earlier vote's exceeds. */
  lemma NewVoteOk(w: World, n: Node, tip: Hash)
    requires StoreViewOk(w, n.chain.blocks, n.hcc, n.lfb) && BallotsOk(w, n.chain.blocks, n.id, n.sent, n.lastVote)
    requires tip in n.chain.blocks && BlockTree.IsValid(n.chain.blocks[tip].status)
    requires n.lastVote.height != 0 ==> n.lastVote.height < n.chain.blocks[tip].block.height && n.chain.blocks[tip].block.hcc == n.hcc
    ensures BallotsOk(w, n.chain.blocks, n.id, n.sent, CreateVote(n, n.chain.blocks[tip].block))
  {
    var s, top := n.chain.blocks, HeightIn(n.chain.blocks, n.hcc);
    var last := CreateVote(n, s[tip].block);
    forall h | h in Voted(n.sent, last) ensures h == tip || h in Voted(n.sent, n.lastVote) {
    }
    forall g | g in Voted(n.sent, n.lastVote) && g != w.root
      ensures HeightIn(s, g) < HeightIn(s, tip) && Locked(w, g, tip)
    {
      VotedHeights(w, s, top, n.id, n.sent, n.lastVote, g);
    }
    RootIsAncestor(w, s, top, tip);
    AncHeight(w.blocks, w.root, tip);
  }

  lemma LastVoteKeeps(w: World, inv: Node -> bool, n: Node, tip: Hash)
    requires Names(inv, w) && inv(n) && tip in n.chain.blocks && BlockTree.IsValid(n.chain.blocks[tip].status)
    requires n.lastVote.height != 0 ==> n.lastVote.height < n.chain.blocks[tip].block.height && n.chain.blocks[tip].block.hcc == n.hcc
    ensures inv(Apply(n, PutLastVote(CreateVote(n, n.chain.blocks[tip].block))))
    ensures NewVote(n, CreateVote(n, n.chain.blocks[tip].block))
  {
    var n' := Apply(n, PutLastVote(CreateVote(n, n.chain.blocks[tip].block)));
    LookInside(w, inv, n);
    NewVoteOk(w, n, tip);
    assert tip != w.root ==> Linked(w, n.chain.blocks, HeightIn(n.chain.blocks, n.hcc), tip);
    assert At(n) && At(n');
  }

  lemma SendKeeps(w: World, inv: Node -> bool, n: Node, v: Vote)
    requires Names(inv, w) && inv(n) && v.id == n.id
    requires v.block == n.lastVote.block && (n.lastVote.height == 0 ==> v.block == w.root && HeightIn(n.chain.blocks, w.root) == 0)
    ensures inv(Apply(n, Send(v)))
  {
    hide StoreViewOk, VoteIndexOk, EpochVotesOk, EpochOk;
    var n' := Apply(n, Send(v));
    assert At(n) && At(n');
    SentVoted(n.sent, Key(v), n.lastVote);
    if n.lastVote.height == 0 {
      ZeroVotes(w, inv, n);
    }
  }

  lemma ZeroVotes(w: World, inv: Node -> bool, n: Node)
    requires Names(inv, w) && inv(n) && n.lastVote.height == 0
    ensures forall g :: g in Voted(n.sent, n.lastVote) ==> g == w.root
    ensures w.root in n.chain.blocks && BlockTree.IsValid(n.chain.blocks[w.root].status)
  {
    LookInside(w, inv, n);
    VotedAtZero(w, n.chain.blocks, HeightIn(n.chain.blocks, n.hcc), n.id, n.sent, n.lastVote);
  }

  lemma SentVoted(sent: set<VoteKey>, k: VoteKey, last: Vote)
    ensures Voted(sent + {k}, last) == Voted(sent, last) + {k.block}
  {
    assert (set x | x in sent + {k} :: x.block) == (set x | x in sent :: x.block) + {k.block};
  }

  lemma VotedAtZero(w: World, s: Store, top: nat, id: Address, sent: set<VoteKey>, last: Vote)
    requires StoreOk(w, s) && LinksOk(w, s, top) && BallotsOk(w, s, id, sent, last) && last.height == 0
    ensures forall g :: g in Voted(sent, last) ==> g == w.root
  {
    forall g | g in Voted(sent, last) ensures g == w.root {
      if g != w.root {
        VotedHeights(w, s, top, id, sent, last, g);
      }
    }
  }

  lemma ValidAtZero(w: World, s: Store, top: nat, h: Hash)
    requires StoreOk(w, s) && LinksOk(w, s, top) && h in s && BlockTree.IsValid(s[h].status) && s[h].block.height == 0
    ensures h == w.root
  {
    assert h != w.root ==> Linked(w, s, top, h);
  }

  lemma CastVoteSafe(w: World, inv: Node -> bool, n: Node, tip: Option<Hash>)
    requires Names(inv, w) && inv(n) && (tip.Some? && tip.value in n.chain.blocks ==> BlockTree.IsValid(n.chain.blocks[tip.value].status))
    ensures Safe(inv, n, CastVote(n, w.validators, tip)) && inv(ApplyAll(n, CastVote(n, w.validators, tip)))
  {
    var ws := CastVote(n, w.validators, tip);
    if |ws| == 1 {
      var v := ws[0].vote;
      assert v.block == n.lastVote.block && n.lastVote.height != 0 by {
        LookInside(w, inv, n);
      }
      SendKeeps(w, inv, n, v);
      SafeOne(inv, n, Send(v));
    } else if |ws| == 2 {
      var v := ws[0].vote;
      assert v.block == tip.value && (v.height == 0 ==> tip.value == w.root) by {
        LookInside(w, inv, n);
        if v.height == 0 {
          ValidAtZero(w, n.chain.blocks, HeightIn(n.chain.blocks, n.hcc), tip.value);
        }
      }
      LastVoteKeeps(w, inv, n, tip.value);
      SendKeeps(w, inv, Apply(n, ws[0]), v);
      SafeTwo(inv, n, PutLastVote(v), Send(v));
    }
  }

  // ---- blocks ------------------------------------------------------------------------

  lemma {:induction false} DescendantIsAnc(w: World, s: Store, top: nat, a: Hash, d: Hash, k: nat)
    requires StoreOk(w, s) && LinksOk(w, s, top) && a in s && d in s && BlockTree.IsValid(s[d].status)
    requires IsDescendant(s, a, d, k)
    ensures Anc(w.blocks, a, d) && BlockTree.IsValid(s[a].status)
    decreases k
  {
    if a != d && d != w.root {
      assert Linked(w, s, top, d);
      DescendantIsAnc(w, s, top, a, s[d].block.parent, k - 1);
    }
  }

  /** What a positive verdict settles about a pending block, except that its highest committed
      block is no higher than the local one. */
  lemma AcceptedIsLinked(w: World, inv: Node -> bool, n: Node, h: Hash, checksOk: bool)
    requires Names(inv, w) && inv(n) && h in n.chain.blocks && n.chain.blocks[h].status.Pending?
    requires n.chain.blocks[h].block.parent in n.chain.blocks && n.lfb in n.chain.blocks
    requires ValidateBlock(n, w.validators, h, checksOk).Accept?
    requires forall k :: k in n.chain.blocks[h].block.hccVotes ==> Genuine(w, n.chain.blocks[h].block.hccVotes[k])
    requires WellKeyed(n.chain.blocks[h].block.hccVotes)
    ensures HalfLinked(w, n.chain.blocks, h)
    ensures
      var b := n.chain.blocks[h].block;
      IsFinalized(n.chain.blocks[b.hcc].status) || CertificateOk(b.hccVotes, b.hcc, w.validators)
  {
    var s := n.chain.blocks;
    var b := s[h].block;
    LookInside(w, inv, n);
    assert b.hcc != h;
    assert IsDescendant(s, b.hcc, b.parent, MAX_DISTANCE - 1);
    DescendantIsAnc(w, s, HeightIn(s, n.hcc), b.hcc, b.parent, MAX_DISTANCE - 1);
    if !IsFinalized(s[b.hcc].status) {
      CertifiedByVotes(w, b.hccVotes, b.hcc);
    }
  }

  ghost predicate HalfLinked(w: World, s: Store, h: Hash)
    requires h in s
  {
    var b := s[h].block;
    && b.parent in s && BlockTree.IsValid(s[b.parent].status) && b.height == s[b.parent].block.height + 1
    && s[b.parent].block.epoch < b.epoch
    && b.hcc in s && BlockTree.IsValid(s[b.hcc].status) && Anc(w.blocks, b.hcc, b.parent)
    && (Anchored(w, b.hcc) || IsFinalized(s[b.hcc].status))
  }

  lemma CertifiedByVotes(w: World, votes: VoteSet, h: Hash)
    requires WellKeyed(votes) && CertificateOk(votes, h, w.validators) && h in w.blocks
    requires forall k :: k in votes ==> Genuine(w, votes[k])
    ensures Certified(w, h)
  {
    forall a | a in Voters(votes) ensures a in Signers(w, h) {
      var k :| k in votes && k.id == a;
      assert votes[k].block == h && Key(votes[k]) == k && k in w.ballots;
    }
    MajorityMonotone(w.validators, Voters(votes), Signers(w, h));
  }

  /** Handling votes changes only the vote records; index entries grow. */
  ghost predicate VoteEffect(n: Node, n': Node) {
    && n' == n.(votes := n'.votes, epochVotes := n'.epochVotes, epoch := n'.epoch)
    && forall h :: VotesOf(n, h).Keys <= VotesOf(n', h).Keys
  }

  lemma HandleVoteEffect(n: Node, vs: ValidatorSet, v: Vote, tie: bool)
    ensures
      var n' := ApplyAll(n, HandleVote(n, vs, v, tie));
      VoteEffect(n, n') && (Validate(v) ==> Key(v) in VotesOf(n', v.block))
  {
    if Validate(v) {
      var a, b := PutEpochVote(v, tie), PutVote(v);
      var n2 := Apply(Apply(n, a), b);
      var e := PutEpoch((v.epoch + 1) % U64);
      ApplyTwo(n, a, b);
      ApplyAllConcat(n, [a, b], [e]);
      ApplyTwo(n2, e, e);
      assert VoteEffect(n, n2);
    }
  }

  lemma {:induction false} HandleVotesEffect(n: Node, vs: ValidatorSet, votes: seq<Incoming>)
    ensures
      var n' := ApplyAll(n, HandleVotes(n, vs, votes));
      VoteEffect(n, n') && forall m :: m in votes && Validate(m.vote) ==> Key(m.vote) in VotesOf(n', m.vote.block)
    decreases votes
  {
    if votes != [] {
      var ws := HandleVote(n, vs, votes[0].vote, votes[0].replaceTie);
      HandleVoteEffect(n, vs, votes[0].vote, votes[0].replaceTie);
      var n1 := ApplyAll(n, ws);
      HandleVotesEffect(n1, vs, votes[1..]);
      ApplyAllConcat(n, ws, HandleVotes(n1, vs, votes[1..]));
      var n' := ApplyAll(n, HandleVotes(n, vs, votes));
      forall m | m in votes && Validate(m.vote) ensures Key(m.vote) in VotesOf(n', m.vote.block) {
        if m != votes[0] {
          assert m in votes[1..];
        }
      }
    }
  }

  /** The certificate's votes are visited one by one, in some order. */
  ghost predicate Lists(order: seq<Incoming>, votes: VoteSet) {
    && (forall m :: m in order ==> Key(m.vote) in votes && votes[Key(m.vote)] == m.vote)
    && (forall k {:trigger votes[k]} :: k in votes ==> exists m :: m in order && m.vote == votes[k])
  }

  lemma CertificateIndexed(n: Node, vs: ValidatorSet, b: Block, order: seq<Incoming>)
    requires WellKeyed(b.hccVotes) && Lists(order, b.hccVotes) && CertificateOk(b.hccVotes, b.hcc, vs)
    ensures Majority(vs, Voters(VotesOf(ApplyAll(n, HandleVotes(n, vs, order)), b.hcc)))
  {
    HandleVotesEffect(n, vs, order);
    var index := VotesOf(ApplyAll(n, HandleVotes(n, vs, order)), b.hcc);
    forall a | a in Voters(b.hccVotes) ensures a in Voters(index) {
      var k :| k in b.hccVotes && k.id == a;
      var m :| m in order && m.vote == b.hccVotes[k];
      assert Key(m.vote) in index;
    }
    MajorityMonotone(vs, Voters(b.hccVotes), Voters(index));
  }

  lemma CatchUpSafe(w: World, inv: Node -> bool, n: Node, hcc: Hash)
    requires Names(inv, w) && inv(n) && hcc in n.chain.blocks && BlockTree.IsValid(n.chain.blocks[hcc].status)
    requires Majority(w.validators, Voters(VotesOf(n, hcc))) || IsFinalized(n.chain.blocks[hcc].status)
    ensures
      var ws := CatchUp(n, w.validators, hcc);
      var n' := ApplyAll(n, ws);
      Safe(inv, n, ws) && inv(n') && CommitEffect(n, n') && HeightIn(n.chain.blocks, hcc) <= HeightIn(n'.chain.blocks, n'.hcc)
  {
    if n.hcc != hcc {
      CheckCCSafe(w, inv, n, hcc);
    }
  }

  /** What a block must be when its handler starts to save it. */
  ghost predicate Acceptable(w: World, n: Node, h: Hash, env: Env) {
    && h in n.chain.blocks && n.chain.blocks[h].status.Pending? && n.chain.blocks[h].block.hash == h
    && HalfLinked(w, n.chain.blocks, h)
    && var b := n.chain.blocks[h].block;
    && WellKeyed(b.hccVotes) && Lists(env.order, b.hccVotes) && (forall m :: m in env.order ==> Genuine(w, m.vote))
    && (IsFinalized(n.chain.blocks[b.hcc].status) || CertificateOk(b.hccVotes, b.hcc, w.validators))
  }

  /** Before a block is marked valid, its highest committed block is no higher than the local one. */
  lemma PrepareSafe(w: World, inv: Node -> bool, n: Node, h: Hash, env: Env)
    requires Names(inv, w) && inv(n) && Acceptable(w, n, h, env)
    ensures
      var ws := Prepare(n, w.validators, n.chain.blocks[h].block, env.order);
      var n' := ApplyAll(n, ws);
      && Safe(inv, n, ws) && inv(n') && h in n'.chain.blocks && n'.chain.blocks[h] == n.chain.blocks[h]
      && Linked(w, n'.chain.blocks, HeightIn(n'.chain.blocks, n'.hcc), h)
  {
    var b := n.chain.blocks[h].block;
    var ws := HandleVotes(n, w.validators, env.order);
    HandleVotesSafe(w, inv, n, env.order);
    HandleVotesEffect(n, w.validators, env.order);
    var n1 := ApplyAll(n, ws);
    if CertificateOk(b.hccVotes, b.hcc, w.validators) {
      CertificateIndexed(n, w.validators, b, env.order);
    }
    CatchUpSafe(w, inv, n1, b.hcc);
    var cs := CatchUp(n1, w.validators, b.hcc);
    var n2 := ApplyAll(n1, cs);
    SafeConcat(inv, n, ws, cs);
    ApplyAllConcat(n, ws, cs);
    assert n2.chain.blocks[h] == n.chain.blocks[h];
    assert n2.chain.blocks[b.parent].block == n.chain.blocks[b.parent].block;
    assert n2.chain.blocks[b.hcc].block == n.chain.blocks[b.hcc].block;
  }

  lemma MarkValidSafe(w: World, inv: Node -> bool, n: Node, h: Hash, update: bool)
    requires Names(inv, w) && inv(n) && h in n.chain.blocks && n.chain.blocks[h].status.Pending?
    requires Linked(w, n.chain.blocks, HeightIn(n.chain.blocks, n.hcc), h)
    ensures Safe(inv, n, MarkValid(h, update)) && inv(ApplyAll(n, MarkValid(h, update)))
  {
    if update {
      UpdateKeeps(w, inv, n, h);
      var n1 := Apply(n, PutUpdate(h));
      assert Linked(w, n1.chain.blocks, HeightIn(n1.chain.blocks, n1.hcc), h);
      StatusKeeps(w, inv, n1, h, Valid);
      SafeTwo(inv, n, PutUpdate(h), PutStatus(h, Valid));
      assert MarkValid(h, update) == [PutUpdate(h), PutStatus(h, Valid)];
    } else {
      StatusKeeps(w, inv, n, h, Valid);
      SafeOne(inv, n, PutStatus(h, Valid));
      assert MarkValid(h, update) == [PutStatus(h, Valid)];
    }
  }

  /** The tip search, if it is run and does not fail, returns a processed block. */
  ghost predicate TipOk(n: Node, b: Block, env: Env) {
    WillVote(n, b, env) && env.tip.Some? && env.tip.value in n.chain.blocks ==> BlockTree.IsValid(n.chain.blocks[env.tip.value].status)
  }

  lemma ConcludeSafe(w: World, inv: Node -> bool, n: Node, h: Hash, env: Env)
    requires Names(inv, w) && inv(n) && h in n.chain.blocks && n.chain.blocks[h].status.Pending?
    requires n.chain.blocks[h].block.hash == h
    requires Linked(w, n.chain.blocks, HeightIn(n.chain.blocks, n.hcc), h)
    requires TipOk(ApplyAll(n, MarkValid(h, env.validatorUpdate)), n.chain.blocks[h].block, env)
    ensures Safe(inv, n, Conclude(n, w.validators, n.chain.blocks[h].block, env))
  {
    var b := n.chain.blocks[h].block;
    var m := MarkValid(h, env.validatorUpdate);
    MarkValidSafe(w, inv, n, h, env.validatorUpdate);
    var n1 := ApplyAll(n, m);
    var v := VoteOn(n1, w.validators, b, env);
    if WillVote(n1, b, env) {
      CastVoteSafe(w, inv, n1, env.tip);
    }
    SafeConcat(inv, n, m, v);
    SafeEnd(inv, n, m + v);
    var n2 := ApplyAll(n, m + v);
    CheckCCSafe(w, inv, n2, h);
    SafeConcat(inv, n, m + v, CheckCC(n2, w.validators, h));
  }

  lemma AcceptBlockSafe(w: World, inv: Node -> bool, n: Node, h: Hash, env: Env)
    requires Names(inv, w) && inv(n) && Acceptable(w, n, h, env)
    requires
      var n1 := ApplyAll(n, Prepare(n, w.validators, n.chain.blocks[h].block, env.order));
      env.applyOk ==> TipOk(ApplyAll(n1, MarkValid(h, env.validatorUpdate)), n.chain.blocks[h].block, env)
    ensures Safe(inv, n, AcceptBlock(n, w.validators, n.chain.blocks[h].block, env))
  {
    var b := n.chain.blocks[h].block;
    var ws := Prepare(n, w.validators, b, env.order);
    PrepareSafe(w, inv, n, h, env);
    var n1 := ApplyAll(n, ws);
    if env.applyOk {
      ConcludeSafe(w, inv, n1, h, env);
      SafeConcat(inv, n, ws, Conclude(n1, w.validators, b, env));
    } else {
      StatusKeeps(w, inv, n1, h, Invalid);
      SafeOne(inv, n1, PutStatus(h, Invalid));
      SafeConcat(inv, n, ws, [PutStatus(h, Invalid)]);
    }
  }
}
