/** What only moves forward at an honest node, over whole runs and across crashes. */
module Progress {
  import opened Common
  import opened Validators
  import opened Votes
  import opened BlockTree
  import opened ChainSpec
  import opened ChainTree
  import opened Tip
  import opened Handlers
  import opened NodeInvariant
  import opened HandlerSafety
  import opened Protocol
  import opened Passes
  import opened Agreement

  /** Where the status machine can get to from `s`: an invalid, a finalized and a trusted block
      stay as they are. */
  predicate StatusReaches(s: Status, t: Status) {
    || s == t
    || (s.Pending? && !t.Trusted?)
    || (s.Valid? && (t.Committed? || t.DirectlyFinalized? || t.IndirectlyFinalized?))
    || (s.Committed? && (t.DirectlyFinalized? || t.IndirectlyFinalized?))
  }

  ghost predicate BlockAdvances(s: Store, t: Store, h: Hash)
    requires h in s
  {
    h in t && t[h].block == s[h].block && StatusReaches(s[h].status, t[h].status)
  }

  /** `m` is a later state of the node `n`. */
  ghost predicate Advances(n: Node, m: Node) {
    var s, t := n.chain.blocks, m.chain.blocks;
    && (forall h {:trigger BlockAdvances(s, t, h)} :: h in s ==> BlockAdvances(s, t, h))
    && (m.hcc == n.hcc || HeightIn(s, n.hcc) < HeightIn(t, m.hcc))
    && HeightIn(s, n.lfb) <= HeightIn(t, m.lfb)
    && (m.lastVote == n.lastVote || n.lastVote.height == 0 || n.lastVote.height < m.lastVote.height)
    && n.sent <= m.sent
  }

  /** The node's highest committed and last finalized blocks are stored. */
  ghost predicate Rooted(n: Node) {
    n.hcc in n.chain.blocks && n.lfb in n.chain.blocks
  }

  lemma WriteAdvances(n: Node, x: Write)
    requires Guard(n, x) && Rooted(n)
    ensures Advances(n, Apply(n, x))
  {
    var s, t := n.chain.blocks, Apply(n, x).chain.blocks;
    forall h | h in s ensures BlockAdvances(s, t, h) {
      if x.PutStatus? {
        StatusRestatus(s, x.h, x.status);
      }
    }
  }

  lemma AdvancesTransitive(n: Node, m: Node, k: Node)
    requires Advances(n, m) && Advances(m, k) && Rooted(n) && Rooted(m)
    ensures Advances(n, k)
  {
    var s, t, u := n.chain.blocks, m.chain.blocks, k.chain.blocks;
    assert BlockAdvances(t, u, m.hcc) && BlockAdvances(t, u, m.lfb);
    forall h | h in s ensures BlockAdvances(s, u, h) {
      assert BlockAdvances(s, t, h) && BlockAdvances(t, u, h);
    }
  }

  lemma InvRooted(w: World, inv: Node -> bool, n: Node)
    requires Names(inv, w) && inv(n)
    ensures Rooted(n)
  {
    LookInside(w, inv, n);
  }

  lemma {:induction false} WritesAdvance(w: World, inv: Node -> bool, n: Node, ws: seq<Write>, k: nat)
    requires Names(inv, w) && Safe(inv, n, ws) && k <= |ws|
    ensures Advances(n, ApplyAll(n, ws[..k]))
    decreases k
  {
    InvRooted(w, inv, n);
    if k > 0 {
      InvRooted(w, inv, Apply(n, ws[0]));
    }
    if k == 0 {
      forall h | h in n.chain.blocks ensures BlockAdvances(n.chain.blocks, n.chain.blocks, h) {}
    } else {
      assert ws[..k][0] == ws[0] && ws[..k][1..] == ws[1..][..k-1];
      WriteAdvances(n, ws[0]);
      WritesAdvance(w, inv, Apply(n, ws[0]), ws[1..], k - 1);
      AdvancesTransitive(n, Apply(n, ws[0]), ApplyAll(n, ws[..k]));
    }
  }

  lemma DeliverAdvances(w: World, n: Node, b: Block, k: nat)
    requires NodeOk(w, n)
    ensures Advances(n, n.(chain := AddSaved(n.chain, b, k)))
  {
    hide AddSaved;
    var s, t := n.chain.blocks, AddSaved(n.chain, b, k).blocks;
    SavedShape(n.chain, b, k);
    forall h | h in s ensures BlockAdvances(s, t, h) {
      assert SameButChildren(s[h], t[h]);
    }
    assert BlockAdvances(s, t, n.hcc) && BlockAdvances(s, t, n.lfb);
  }

  lemma ActAdvances(w: World, n: Node, a: Action, persisted: nat)
    requires WorldOk(w) && NodeOk(w, n) && Possible(w, n, a) && persisted <= |Writes(n, w.validators, a)|
    ensures Advances(n, ApplyAll(n, Writes(n, w.validators, a)[..persisted]))
  {
    var inv := n => NodeOk(w, n);
    assert Names(inv, w);
    ActionSafe(w, inv, n, a);
    WritesAdvance(w, inv, n, Writes(n, w.validators, a), persisted);
  }

  lemma StayAdvances(w: World, n: Node)
    requires NodeOk(w, n)
    ensures Advances(n, n) && Rooted(n)
  {
    forall h | h in n.chain.blocks ensures BlockAdvances(n.chain.blocks, n.chain.blocks, h) {}
  }

  lemma StepAdvances(sys: System, step: Step, a: Address)
    requires SystemOk(sys) && Enabled(sys, step) && a in sys.nodes
    ensures Advances(sys.nodes[a], Next(sys, step).nodes[a])
  {
    hide Advances, NodeOk, Writes, ApplyAll, AddSaved;
    var n := sys.nodes[a];
    assert NodeIn(sys.world, a, n);
    StayAdvances(sys.world, n);
    match step {
      case Deliver(b, h, k) =>
        if b == a {
          DeliverAdvances(sys.world, n, sys.world.blocks[h], k);
        }
      case Act(b, action, persisted) =>
        if b == a {
          ActAdvances(sys.world, n, action, persisted);
        }
      case _ =>
    }
  }

  lemma AlwaysRooted(run: seq<System>, steps: seq<Step>, i: nat, a: Address)
    requires IsRun(run, steps) && i <= |steps| && a in run[i].nodes
    ensures Rooted(run[i].nodes[a]) && Advances(run[i].nodes[a], run[i].nodes[a])
  {
    RunOk(run, steps, i);
    assert NodeIn(run[i].world, a, run[i].nodes[a]);
    StayAdvances(run[i].world, run[i].nodes[a]);
  }

  /** Over any stretch of any run, crashes included: stored blocks stay and their statuses only
      move forward; the highest committed block changes only to a higher one; the last finalized
      block never sinks; a new last vote is higher, except over one at height zero; ballots are
      never taken back. */
  lemma {:induction false} RunAdvances(run: seq<System>, steps: seq<Step>, i: nat, j: nat, a: Address)
    requires IsRun(run, steps) && i <= j <= |steps| && a in run[i].nodes
    ensures a in run[j].nodes && Advances(run[i].nodes[a], run[j].nodes[a])
    decreases j - i
  {
    AlwaysRooted(run, steps, i, a);
    if i < j {
      RunAdvances(run, steps, i, j - 1, a);
      AlwaysRooted(run, steps, j - 1, a);
      RunOk(run, steps, j - 1);
      var step := steps[j-1];
      StepAdvances(run[j-1], step, a);
      AdvancesTransitive(run[i].nodes[a], run[j-1].nodes[a], run[j].nodes[a]);
    }
  }

  /** The last finalized block changes only to a strictly higher one. */
  lemma LastFinalizedRises(run: seq<System>, steps: seq<Step>, i: nat, j: nat, a: Address)
    requires IsRun(run, steps) && i <= j <= |steps| && a in run[i].nodes
    requires FaultBound(run[i].world.validators, run[i].nodes.Keys)
    ensures a in run[j].nodes
    ensures
      var n, m := run[i].nodes[a], run[j].nodes[a];
      m.lfb == n.lfb || HeightIn(n.chain.blocks, n.lfb) < HeightIn(m.chain.blocks, m.lfb)
  {
    RunAdvances(run, steps, i, j, a);
    RunOk(run, steps, i);
    RunOk(run, steps, j);
    RunGrows(run, steps, i, j);
    var n, m := run[i].nodes[a], run[j].nodes[a];
    assert NodeIn(run[i].world, a, n) && NodeIn(run[j].world, a, m);
    DirectFinalGrows(run[i].world, run[j].world, n.lfb);
    if HeightIn(n.chain.blocks, n.lfb) == HeightIn(m.chain.blocks, m.lfb) {
      OneAnchoredPerHeight(run[j], n.lfb, m.lfb);
    }
  }

  // ---- single writes -----------------------------------------------------------------

  lemma {:induction false} SafeGuards(inv: Node -> bool, n: Node, ws: seq<Write>, k: nat)
    requires Safe(inv, n, ws) && k < |ws|
    ensures Guard(ApplyAll(n, ws[..k]), ws[k])
    decreases k
  {
    if k > 0 {
      assert ws[..k][0] == ws[0] && ws[..k][1..] == ws[1..][..k-1];
      SafeGuards(inv, Apply(n, ws[0]), ws[1..], k - 1);
    }
  }

  /** Every single write that any handler makes in any reachable state obeys its rule: statuses
      take one arrow of the status machine; the highest committed block rises; a new vote is
      above the last one and its block names a highest committed block that is no higher than the
      node's own, and the very same unless the node had not voted. */
  lemma EveryWriteGuarded(sys: System, a: Address, action: Action, k: nat)
    requires Reached(sys) && a in sys.nodes && Possible(sys.world, sys.nodes[a], action)
    requires k < |Writes(sys.nodes[a], sys.world.validators, action)|
    ensures
      var ws := Writes(sys.nodes[a], sys.world.validators, action);
      Guard(ApplyAll(sys.nodes[a], ws[..k]), ws[k])
  {
    ReachedOk(sys);
    var w := sys.world;
    assert NodeIn(w, a, sys.nodes[a]);
    var inv := n => NodeOk(w, n);
    assert Names(inv, w);
    ActionSafe(w, inv, sys.nodes[a], action);
    SafeGuards(inv, sys.nodes[a], Writes(sys.nodes[a], w.validators, action), k);
  }

  // ---- epochs ------------------------------------------------------------------------

  /** Whether handling the vote moves the node to another epoch. */
  ghost predicate LeavesEpoch(n: Node, vs: ValidatorSet, v: Vote, tie: bool) {
    |HandleVote(n, vs, v, tie)| == 3
  }

  ghost predicate EpochRises(n: Node, vs: ValidatorSet, v: Vote, tie: bool) {
    ApplyAll(n, HandleVote(n, vs, v, tie)).epoch > n.epoch
  }

  /** An update raises the epoch exactly when the vote is not of the last epoch that 64 bits can
      hold: from there the epoch wraps to zero. */
  lemma UpdateRaisesEpoch(n: Node, vs: ValidatorSet, v: Vote, tie: bool)
    requires n.epoch < U64 && v.epoch < U64 && LeavesEpoch(n, vs, v, tie)
    ensures EpochRises(n, vs, v, tie) <==> v.epoch != U64 - 1
  {
    var saved := [PutEpochVote(v, tie), PutVote(v)];
    var last := PutEpoch((v.epoch + 1) % U64);
    assert HandleVote(n, vs, v, tie) == saved + [last];
    ApplyAllConcat(n, saved, [last]);
    assert ApplyAll(ApplyAll(n, saved), [last]) == Apply(ApplyAll(n, saved), last);
  }

  /** Validators with more than two thirds of the stake have signed in the last epoch. */
  ghost predicate LastEpochReached(w: World) {
    Majority(w.validators, SignersSince(w, U64 - 1))
  }

  /** An epoch is entered from below, or with a majority's votes of the last epoch at hand. */
  ghost function RaisesOrBacked(vs: ValidatorSet): (Node, Write) -> bool {
    (n: Node, x: Write) => x.PutEpoch? ==> x.epoch > n.epoch || Majority(vs, VotersSince(n.epochVotes, U64 - 1))
  }

  lemma VoteRaisesOrBacked(vs: ValidatorSet, n: Node, v: Vote, tie: bool)
    ensures Each(RaisesOrBacked(vs), n, HandleVote(n, vs, v, tie))
  {
    var rule, saved := RaisesOrBacked(vs), [PutEpochVote(v, tie), PutVote(v)];
    EachAlways(rule, n, saved);
    if |HandleVote(n, vs, v, tie)| > 2 {
      var known, e := LatestVote(n.epochVotes, v, tie), (v.epoch + 1) % U64;
      ApplyTwo(n, saved[0], saved[1]);
      if v.epoch >= U64 - 1 {
        MajorityMonotone(vs, VotersSince(known, v.epoch), VotersSince(known, U64 - 1));
      }
      assert rule(ApplyAll(n, saved), PutEpoch(e));
      assert [PutEpoch(e)][1..] == [];
      EachConcat(rule, n, saved, [PutEpoch(e)]);
    }
  }

  lemma CheckKeepsEpoch(vs: ValidatorSet, n: Node, h: Hash)
    ensures Each(RaisesOrBacked(vs), n, CheckCC(n, vs, h))
  {
    CheckLeavesEpoch(n, vs, h);
    EachAlways(RaisesOrBacked(vs), n, CheckCC(n, vs, h));
  }

  lemma CheckLeavesEpoch(n: Node, vs: ValidatorSet, h: Hash)
    ensures forall x :: x in CheckCC(n, vs, h) ==> !x.PutEpoch?
  {
    forall p ensures forall x :: x in MarkAll(Walk(n.chain.blocks, p), DirectlyFinalized) ==> !x.PutEpoch? {
      MarksAreStatuses(Walk(n.chain.blocks, p), DirectlyFinalized);
    }
  }

  lemma {:induction false} MarksAreStatuses(hs: seq<Hash>, st: Status)
    ensures forall x :: x in MarkAll(hs, st) ==> x.PutStatus?
    decreases hs
  {
    if hs != [] {
      MarksAreStatuses(hs[1..], IndirectlyFinalized);
    }
  }

  lemma EpochPasses(inv: Node -> bool, vs: ValidatorSet)
    ensures AllPass(inv, n => true, RaisesOrBacked(vs), vs)
  {
    hide HandleVote, CheckCC, Guard;
    var st, rule := (n: Node) => true, RaisesOrBacked(vs);
    forall n, v, tie | Safe(inv, n, HandleVote(n, vs, v, tie)) ensures ListPasses(st, rule, n, HandleVote(n, vs, v, tie)) {
      VoteRaisesOrBacked(vs, n, v, tie);
    }
    forall n, h | inv(n) ensures ListPasses(st, rule, n, CheckCC(n, vs, h)) {
      CheckKeepsEpoch(vs, n, h);
    }
  }

  lemma KnownIsSigned(w: World, inv: Node -> bool, n: Node)
    requires Names(inv, w) && inv(n) && Majority(w.validators, VotersSince(n.epochVotes, U64 - 1))
    ensures LastEpochReached(w)
  {
    assert EpochVotesOk(w, n.epochVotes) by {
      assert At(n);
    }
    var known, signed := VotersSince(n.epochVotes, U64 - 1), SignersSince(w, U64 - 1);
    forall a | a in known ensures a in signed {
      assert Key(n.epochVotes[a]) in w.ballots;
    }
    MajorityMonotone(w.validators, known, signed);
  }

  lemma {:induction false} WritesKeepEpoch(w: World, inv: Node -> bool, n: Node, ws: seq<Write>, k: nat)
    requires Names(inv, w) && Safe(inv, n, ws) && Each(RaisesOrBacked(w.validators), n, ws) && k <= |ws| && !LastEpochReached(w)
    ensures n.epoch <= ApplyAll(n, ws[..k]).epoch
    decreases k
  {
    hide LastEpochReached;
    if k > 0 {
      assert ws[..k][0] == ws[0] && ws[..k][1..] == ws[1..][..k-1];
      if Majority(w.validators, VotersSince(n.epochVotes, U64 - 1)) {
        KnownIsSigned(w, inv, n);
      }
      WritesKeepEpoch(w, inv, Apply(n, ws[0]), ws[1..], k - 1);
    }
  }

  lemma ActKeepsEpoch(w: World, n: Node, a: Action, k: nat)
    requires WorldOk(w) && NodeOk(w, n) && Possible(w, n, a) && k <= |Writes(n, w.validators, a)| && !LastEpochReached(w)
    ensures n.epoch <= ApplyAll(n, Writes(n, w.validators, a)[..k]).epoch
  {
    hide Writes, LastEpochReached, AllPass;
    var inv := n => NodeOk(w, n);
    assert Names(inv, w);
    ActionSafe(w, inv, n, a);
    EpochPasses(inv, w.validators);
    ActionPasses(inv, n => true, RaisesOrBacked(w.validators), w.validators, n, a);
    WritesKeepEpoch(w, inv, n, Writes(n, w.validators, a), k);
  }

  lemma StepKeepsEpoch(sys: System, step: Step, a: Address)
    requires SystemOk(sys) && Enabled(sys, step) && a in sys.nodes && !LastEpochReached(sys.world)
    ensures sys.nodes[a].epoch <= Next(sys, step).nodes[a].epoch
  {
    hide NodeOk, Writes, ApplyAll, LastEpochReached;
    assert NodeIn(sys.world, a, sys.nodes[a]);
    if step.Act? && step.node == a {
      ActKeepsEpoch(sys.world, sys.nodes[a], step.action, step.persisted);
    }
  }

  lemma ReachedEarlier(w: World, later: World)
    requires Extends(w, later) && LastEpochReached(w)
    ensures LastEpochReached(later)
  {
    MajorityMonotone(w.validators, SignersSince(w, U64 - 1), SignersSince(later, U64 - 1));
  }

  /** Whatever faulty validators sign: no honest node's epoch ever decreases before validators with
      more than two thirds of the stake have signed in the last epoch. */
  lemma {:induction false} EpochNeverFalls(run: seq<System>, steps: seq<Step>, i: nat, j: nat, a: Address)
    requires IsRun(run, steps) && i <= j <= |steps| && a in run[i].nodes && !LastEpochReached(run[j].world)
    ensures a in run[j].nodes && run[i].nodes[a].epoch <= run[j].nodes[a].epoch
    decreases j - i
  {
    hide LastEpochReached;
    if i < j {
      RunGrows(run, steps, j - 1, j);
      if LastEpochReached(run[j-1].world) {
        ReachedEarlier(run[j-1].world, run[j].world);
      }
      EpochNeverFalls(run, steps, i, j - 1, a);
      RunOk(run, steps, j - 1);
      var step := steps[j-1];
      StepKeepsEpoch(run[j-1], step, a);
    }
  }

  /** An honest epoch falls only after honest validators with more than a third of the stake have
      signed in the last epoch. */
  lemma FallIsHonest(run: seq<System>, steps: seq<Step>, i: nat, j: nat, a: Address)
    requires IsRun(run, steps) && i <= j <= |steps| && a in run[i].nodes && FaultBound(run[j].world.validators, run[j].nodes.Keys)
    ensures a in run[j].nodes
    ensures run[j].nodes[a].epoch < run[i].nodes[a].epoch ==>
      StakeOf(run[j].world.validators, SignersSince(run[j].world, U64 - 1) * run[j].nodes.Keys) * 3 > SumStake(run[j].world.validators)
  {
    RunGrows(run, steps, i, j);
    var w := run[j].world;
    if LastEpochReached(w) {
      HonestThird(w.validators, SignersSince(w, U64 - 1), run[j].nodes.Keys);
    } else {
      EpochNeverFalls(run, steps, i, j, a);
    }
  }

  // ---- the processed part of the tree ------------------------------------------------

  lemma {:induction false} ProcessedBelow(w: World, s: Store, top: nat, g: Hash, h: Hash)
    requires StoreOk(w, s) && LinksOk(w, s, top) && h in s && BlockTree.IsValid(s[h].status)
    requires g in w.blocks && Anc(w.blocks, g, h)
    ensures g in s && BlockTree.IsValid(s[g].status)
    decreases s[h].block.height
  {
    if g != h {
      assert h != w.root;
      assert Linked(w, s, top, h);
      ProcessedBelow(w, s, top, g, s[h].block.parent);
    }
  }

  /** A processed block hangs from the root, and everything between is processed too. */
  lemma ProcessedDownToRoot(sys: System, a: Address, h: Hash)
    requires Reached(sys) && a in sys.nodes && h in sys.nodes[a].chain.blocks
    requires BlockTree.IsValid(sys.nodes[a].chain.blocks[h].status)
    ensures Anc(sys.world.blocks, sys.world.root, h)
    ensures forall g :: g in sys.world.blocks && Anc(sys.world.blocks, g, h) ==>
      g in sys.nodes[a].chain.blocks && BlockTree.IsValid(sys.nodes[a].chain.blocks[g].status)
  {
    ReachedOk(sys);
    var w, n := sys.world, sys.nodes[a];
    assert NodeIn(w, a, n);
    var s, top := n.chain.blocks, HeightIn(n.chain.blocks, n.hcc);
    RootIsAncestor(w, s, top, h);
    forall g | g in w.blocks && Anc(w.blocks, g, h) ensures g in s && BlockTree.IsValid(s[g].status) {
      ProcessedBelow(w, s, top, g, h);
    }
  }

  /** The tip search can start, and ends, in every reachable state. */
  lemma SearchableTree(sys: System, a: Address)
    requires Reached(sys) && a in sys.nodes
    ensures TreeOk(sys.nodes[a].chain.blocks) && sys.nodes[a].hcc in sys.nodes[a].chain.blocks
  {
    ReachedOk(sys);
    var w, n := sys.world, sys.nodes[a];
    assert NodeIn(w, a, n);
    ViewIsTree(w, n.chain.blocks, n.hcc, n.lfb);
  }

  lemma ViewIsTree(w: World, s: Store, hcc: Hash, lfb: Hash)
    requires StoreViewOk(w, s, hcc, lfb) && ChildrenNamed(w, s)
    ensures TreeOk(s)
  {
    forall p, x | p in s && x in s[p].children && x in s
      ensures s[x].block.parent == p
      ensures BlockTree.IsValid(s[x].status) ==> s[x].block.height == s[p].block.height + 1
    {
      assert Named(w, s[p].children, p);
      if BlockTree.IsValid(s[x].status) {
        assert p in w.blocks;
        assert x != w.root;
        assert Linked(w, s, HeightIn(s, hcc), x);
      }
    }
  }
}
