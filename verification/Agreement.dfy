/** What the voting rules buy: as long as validators holding no more than a third of the stake
    misbehave, everything that honest nodes finalize lies on one chain. */
module Agreement {
  import opened Common
  import opened Validators
  import opened Votes
  import opened BlockTree
  import opened ChainTree
  import opened NodeInvariant
  import opened HandlerSafety
  import opened Protocol

  /** The honest nodes keep their invariants and the other validators hold at most a third. */
  ghost predicate Sound(sys: System) {
    SystemOk(sys) && FaultBound(sys.world.validators, sys.nodes.Keys)
  }

  // ---- one certified block per height ------------------------------------------------

  /** What an honest signature says: the signer has processed the block, with a processed parent
      and an ancestor as highest committed block. */
  lemma SignatureMeans(sys: System, a: Address, k: VoteKey)
    requires SystemOk(sys) && a in sys.nodes && k in sys.world.ballots && k.id == a
    ensures
      var n, w := sys.nodes[a], sys.world;
      && k.block in Voted(n.sent, n.lastVote) && k.block in w.blocks && k.block in n.chain.blocks
      && HeightIn(n.chain.blocks, k.block) == w.blocks[k.block].height && Anc(w.blocks, w.root, k.block)
      && (k.block != w.root ==> NamesAncestor(w, k.block))
  {
    var n, w := sys.nodes[a], sys.world;
    assert NodeIn(w, a, n);
    assert k in n.sent && k.block in Voted(n.sent, n.lastVote);
    var s, top := n.chain.blocks, HeightIn(n.chain.blocks, n.hcc);
    RootIsAncestor(w, s, top, k.block);
    if k.block != w.root {
      assert Linked(w, s, top, k.block);
    }
  }

  ghost predicate NamesAncestor(w: World, h: Hash) {
    && h in w.blocks && w.blocks[h].parent in w.blocks && w.blocks[h].hcc in w.blocks
    && w.blocks[h].height == w.blocks[w.blocks[h].parent].height + 1
    && Anc(w.blocks, w.blocks[h].hcc, w.blocks[h].parent)
  }

  /** No honest node ever signs two blocks of one height. */
  lemma NoDoubleVote(sys: System, a: Address, k: VoteKey, l: VoteKey)
    requires SystemOk(sys) && a in sys.nodes && k in sys.world.ballots && l in sys.world.ballots && k.id == l.id == a
    ensures k.block in sys.world.blocks && l.block in sys.world.blocks
    ensures sys.world.blocks[k.block].height == sys.world.blocks[l.block].height ==> k.block == l.block
  {
    var n := sys.nodes[a];
    SignatureMeans(sys, a, k);
    SignatureMeans(sys, a, l);
    assert NodeIn(sys.world, a, n);
  }

  /** An honest node that signed at two heights saw, at the higher one, a certified block at
      least as high as the one named at the lower one. */
  lemma SignerIsLocked(sys: System, a: Address, k: VoteKey, l: VoteKey)
    requires SystemOk(sys) && a in sys.nodes && k in sys.world.ballots && l in sys.world.ballots && k.id == l.id == a
    requires k.block in sys.world.blocks && l.block in sys.world.blocks && k.block != sys.world.root
    requires sys.world.blocks[k.block].height < sys.world.blocks[l.block].height
    ensures Locked(sys.world, k.block, l.block)
  {
    var n := sys.nodes[a];
    SignatureMeans(sys, a, k);
    SignatureMeans(sys, a, l);
    assert NodeIn(sys.world, a, n);
  }

  /** Two certified blocks have an honest signer in common. */
  lemma SharedSigner(sys: System, c: Hash, d: Hash) returns (a: Address, k: VoteKey, l: VoteKey)
    requires Sound(sys) && Certified(sys.world, c) && Certified(sys.world, d)
    ensures a in sys.nodes && k in sys.world.ballots && l in sys.world.ballots && k.id == l.id == a
    ensures k.block == c && l.block == d
  {
    var w := sys.world;
    a := QuorumIntersection(w.validators, Signers(w, c), Signers(w, d), sys.nodes.Keys);
    k :| k in w.ballots && k.block == c && k.id == a;
    l :| l in w.ballots && l.block == d && l.id == a;
  }

  /** At most one block per height is ever certified. */
  lemma OneCertifiedPerHeight(sys: System, c: Hash, d: Hash)
    requires Sound(sys) && Certified(sys.world, c) && Certified(sys.world, d)
    requires sys.world.blocks[c].height == sys.world.blocks[d].height
    ensures c == d
  {
    var a, k, l := SharedSigner(sys, c, d);
    NoDoubleVote(sys, a, k, l);
  }

  lemma CertifiedMeans(sys: System, c: Hash)
    requires Sound(sys) && Certified(sys.world, c)
    ensures Anc(sys.world.blocks, sys.world.root, c)
    ensures c != sys.world.root ==> NamesAncestor(sys.world, c)
  {
    var a, k, l := SharedSigner(sys, c, c);
    SignatureMeans(sys, a, k);
  }

  // ---- agreement ---------------------------------------------------------------------

  /** Everything certified above a directly final block descends from it. */
  lemma {:induction false} FinalIsAncestor(sys: System, f: Hash, c: Hash)
    requires Sound(sys) && DirectFinal(sys.world, f) && c in sys.world.blocks && Anchored(sys.world, c)
    requires sys.world.blocks[f].height <= sys.world.blocks[c].height
    ensures Anc(sys.world.blocks, f, c)
    decreases sys.world.blocks[c].height
  {
    var w := sys.world;
    var bs := w.blocks;
    if f == w.root {
      if c != w.root {
        CertifiedMeans(sys, c);
      }
    } else if c == w.root {
      CertifiedMeans(sys, f);
      AncHeight(bs, w.root, f);
    } else {
      var child :| Confirms(w, child, f);
      if bs[c].height == bs[f].height {
        OneCertifiedPerHeight(sys, f, c);
      } else if bs[c].height == bs[child].height {
        OneCertifiedPerHeight(sys, child, c);
        assert Anc(bs, f, f);
      } else {
        FinalBelowNamed(sys, f, child, c);
        FinalIsAncestor(sys, f, bs[c].hcc);
        AncTransitive(bs, f, bs[c].hcc, bs[c].parent);
      }
    }
  }

  /** The step down: the highest committed block that `c` names lies between `f` and `c`. */
  lemma FinalBelowNamed(sys: System, f: Hash, child: Hash, c: Hash)
    requires Sound(sys) && Confirms(sys.world, child, f) && Certified(sys.world, c) && c != sys.world.root
    requires sys.world.blocks[child].height < sys.world.blocks[c].height
    ensures
      var bs := sys.world.blocks;
      && NamesAncestor(sys.world, c) && Anchored(sys.world, bs[c].hcc)
      && bs[f].height <= bs[bs[c].hcc].height < bs[c].height
  {
    var w := sys.world;
    var a, k, l := SharedSigner(sys, child, c);
    assert child != w.root;
    SignerIsLocked(sys, a, k, l);
    CertifiedMeans(sys, c);
    AncHeight(w.blocks, w.blocks[c].hcc, w.blocks[c].parent);
  }

  lemma Comparable(sys: System, f: Hash, g: Hash, x: Hash, y: Hash)
    requires Sound(sys) && DirectFinal(sys.world, f) && DirectFinal(sys.world, g)
    requires x in sys.world.blocks && y in sys.world.blocks && Anc(sys.world.blocks, x, f) && Anc(sys.world.blocks, y, g)
    ensures Anc(sys.world.blocks, x, y) || Anc(sys.world.blocks, y, x)
  {
    var bs := sys.world.blocks;
    var top := if bs[f].height <= bs[g].height then g else f;
    if top == g {
      FinalIsAncestor(sys, f, g);
      AncTransitive(bs, x, f, g);
    } else {
      FinalIsAncestor(sys, g, f);
      AncTransitive(bs, y, g, f);
    }
    if bs[x].height <= bs[y].height {
      AncLinear(bs, x, y, top);
    } else {
      AncLinear(bs, y, x, top);
    }
  }

  // ---- over whole runs ---------------------------------------------------------------

  ghost predicate FinalizedAt(sys: System, a: Address, h: Hash) {
    a in sys.nodes && h in sys.nodes[a].chain.blocks && IsFinalized(sys.nodes[a].chain.blocks[h].status)
  }

  ghost predicate CommittedAt(sys: System, a: Address, h: Hash) {
    a in sys.nodes && h in sys.nodes[a].chain.blocks &&
    (sys.nodes[a].chain.blocks[h].status.Committed? || h == sys.nodes[a].hcc)
  }

  ghost predicate DirectlyFinalAt(sys: System, a: Address, h: Hash) {
    a in sys.nodes && h in sys.nodes[a].chain.blocks &&
    (sys.nodes[a].chain.blocks[h].status.DirectlyFinalized? || h == sys.nodes[a].lfb)
  }

  lemma StepGrows(sys: System, step: Step)
    requires SystemOk(sys) && Enabled(sys, step)
    ensures Extends(sys.world, Next(sys, step).world) && Next(sys, step).nodes.Keys == sys.nodes.Keys
  {
  }

  lemma {:induction false} RunGrows(run: seq<System>, steps: seq<Step>, i: nat, j: nat)
    requires IsRun(run, steps) && i <= j <= |steps|
    ensures Extends(run[i].world, run[j].world) && run[j].nodes.Keys == run[i].nodes.Keys
    decreases j - i
  {
    if i < j {
      RunGrows(run, steps, i, j - 1);
      RunOk(run, steps, j - 1);
      var step := steps[j-1];
      StepGrows(run[j-1], step);
    }
  }

  lemma FinalAtMeans(sys: System, a: Address, h: Hash) returns (f: Hash)
    requires SystemOk(sys) && FinalizedAt(sys, a, h)
    ensures h in sys.world.blocks && DirectFinal(sys.world, f) && Anc(sys.world.blocks, h, f)
  {
    var n := sys.nodes[a];
    assert NodeIn(sys.world, a, n);
    var limit := HeightIn(n.chain.blocks, n.lfb);
    assert BelowFinal(sys.world, limit, h);
    f :| FinalBelow(sys.world, limit, h, f);
  }

  lemma DirectAtMeans(sys: System, a: Address, h: Hash)
    requires SystemOk(sys) && DirectlyFinalAt(sys, a, h)
    ensures DirectFinal(sys.world, h)
  {
    assert NodeIn(sys.world, a, sys.nodes[a]);
  }

  lemma CommittedAtMeans(sys: System, a: Address, h: Hash)
    requires SystemOk(sys) && CommittedAt(sys, a, h)
    ensures h in sys.world.blocks && Anchored(sys.world, h)
  {
    assert NodeIn(sys.world, a, sys.nodes[a]);
  }

  /** Agreement: whatever two honest nodes have finalized, each at its own moment of a run, the
      two blocks lie on one chain. */
  lemma FinalizedOnOneChain(run: seq<System>, steps: seq<Step>, i: nat, j: nat, a: Address, b: Address, g: Hash, h: Hash)
    requires IsRun(run, steps) && i <= j <= |steps|
    requires FaultBound(run[i].world.validators, run[i].nodes.Keys)
    requires FinalizedAt(run[i], a, g) && FinalizedAt(run[j], b, h)
    ensures Anc(run[j].world.blocks, g, h) || Anc(run[j].world.blocks, h, g)
  {
    RunOk(run, steps, i);
    RunOk(run, steps, j);
    RunGrows(run, steps, i, j);
    var f := FinalAtMeans(run[i], a, g);
    var e := FinalAtMeans(run[j], b, h);
    DirectFinalGrows(run[i].world, run[j].world, f);
    AncMonotone(run[i].world.blocks, run[j].world.blocks, g, f);
    Comparable(run[j], f, e, g, h);
  }

  /** Once any honest node has finalized a block directly, every block that any honest node
      commits at or above that height, before or after, descends from it. */
  lemma CommitsExtendFinal(run: seq<System>, steps: seq<Step>, i: nat, j: nat, a: Address, b: Address, f: Hash, c: Hash)
    requires IsRun(run, steps) && i <= |steps| && j <= |steps|
    requires FaultBound(run[0].world.validators, run[0].nodes.Keys)
    requires DirectlyFinalAt(run[i], a, f) && CommittedAt(run[j], b, c)
    ensures
      var bs := run[|steps|].world.blocks;
      f in bs && c in bs && (bs[f].height <= bs[c].height ==> Anc(bs, f, c))
  {
    var last := run[|steps|];
    RunOk(run, steps, i);
    RunOk(run, steps, j);
    RunOk(run, steps, |steps|);
    RunGrows(run, steps, 0, |steps|);
    RunGrows(run, steps, i, |steps|);
    RunGrows(run, steps, j, |steps|);
    DirectAtMeans(run[i], a, f);
    DirectFinalGrows(run[i].world, last.world, f);
    CommittedAtMeans(run[j], b, c);
    if c != last.world.root {
      CertifiedGrows(run[j].world, last.world, c);
    }
    if last.world.blocks[f].height <= last.world.blocks[c].height {
      FinalIsAncestor(last, f, c);
    }
  }

  /** At every honest node the last finalized block is an ancestor of the highest committed one. */
  lemma LastFinalizedBelowCommitted(sys: System, a: Address)
    requires Reached(sys) && FaultBound(sys.world.validators, sys.nodes.Keys) && a in sys.nodes
    ensures Anc(sys.world.blocks, sys.nodes[a].lfb, sys.nodes[a].hcc)
  {
    ReachedOk(sys);
    var n := sys.nodes[a];
    assert NodeIn(sys.world, a, n);
    FinalIsAncestor(sys, n.lfb, n.hcc);
  }

  /** At most one block per height is ever committed by honest nodes. */
  lemma OneCommitPerHeight(run: seq<System>, steps: seq<Step>, i: nat, j: nat, a: Address, b: Address, c: Hash, d: Hash)
    requires IsRun(run, steps) && i <= j <= |steps|
    requires FaultBound(run[i].world.validators, run[i].nodes.Keys)
    requires CommittedAt(run[i], a, c) && CommittedAt(run[j], b, d)
    ensures c in run[j].world.blocks && d in run[j].world.blocks
    ensures run[j].world.blocks[c].height == run[j].world.blocks[d].height ==> c == d
  {
    RunOk(run, steps, i);
    RunOk(run, steps, j);
    RunGrows(run, steps, i, j);
    CommittedAtMeans(run[i], a, c);
    CommittedAtMeans(run[j], b, d);
    var w := run[j].world;
    if w.blocks[c].height == w.blocks[d].height {
      if c != w.root {
        CertifiedGrows(run[i].world, w, c);
      }
      OneAnchoredPerHeight(run[j], c, d);
    }
  }

  lemma OneAnchoredPerHeight(sys: System, c: Hash, d: Hash)
    requires Sound(sys) && c in sys.world.blocks && d in sys.world.blocks
    requires Anchored(sys.world, c) && Anchored(sys.world, d) && sys.world.blocks[c].height == sys.world.blocks[d].height
    ensures c == d
  {
    var w := sys.world;
    if c != w.root && d != w.root {
      OneCertifiedPerHeight(sys, c, d);
    } else if c != d {
      var other := if c == w.root then d else c;
      CertifiedMeans(sys, other);
      AncHeight(w.blocks, w.root, other);
    }
  }

  // ---- epochs ------------------------------------------------------------------------

  lemma EpochBefore(w: World, epoch: nat)
    requires EpochOk(w, epoch) && epoch > w.blocks[w.root].epoch
    ensures Followed(w, epoch - 1)
  {
    assert (epoch + U64 - 1) % U64 == epoch - 1;
  }

  /** An honest node in an epoch above the initial one: honest validators holding more than a
      third of the stake have signed at the epoch before it or later. */
  lemma EpochIsBacked(sys: System, a: Address)
    requires Reached(sys) && FaultBound(sys.world.validators, sys.nodes.Keys) && a in sys.nodes
    requires sys.world.root in sys.world.blocks && sys.nodes[a].epoch > sys.world.blocks[sys.world.root].epoch
    ensures StakeOf(sys.world.validators, SignersSince(sys.world, sys.nodes[a].epoch - 1) * sys.nodes.Keys) * 3 > SumStake(sys.world.validators)
  {
    hide Reached, StoreViewOk, VoteIndexOk, EpochVotesOk, BallotsOk, ChildrenNamed, StakeOf, SumStake;
    ReachedOk(sys);
    var n, w := sys.nodes[a], sys.world;
    assert NodeIn(w, a, n);
    EpochBefore(w, n.epoch);
    HonestThird(w.validators, SignersSince(w, n.epoch - 1), sys.nodes.Keys);
  }
}
