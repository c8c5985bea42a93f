/** What a crash inside a marking walk leaves behind, for good (blockchain/chain.go). */
module Gaps {
  import opened Validators
  import opened Votes
  import opened BlockTree
  import opened ChainSpec
  import opened ChainTree
  import opened Handlers
  import opened NodeInvariant
  import opened HandlerSafety
  import opened Protocol
  import opened Passes
  import opened Agreement
  import opened StatusMachine

  /** `m` is final and its parent `q` is not. */
  ghost predicate GapAt(m: Hash, q: Hash, n: Node) {
    var s := n.chain.blocks;
    m in s && IsFinalized(s[m].status) && m != n.root && s[m].block.parent == q && (q in s ==> !IsFinalized(s[q].status))
  }

  /** Whatever certified lies no lower than a directly final block descends from it. */
  ghost predicate FinalsOrdered(w: World) {
    forall f, p {:trigger DirectFinal(w, f), DirectFinal(w, p)} ::
      DirectFinal(w, f) && DirectFinal(w, p) && w.blocks[f].height <= w.blocks[p].height ==> Anc(w.blocks, f, p)
  }

  lemma FinalsAreOrdered(sys: System)
    requires Sound(sys)
    ensures FinalsOrdered(sys.world)
  {
    var w := sys.world;
    forall f, p | DirectFinal(w, f) && DirectFinal(w, p) && w.blocks[f].height <= w.blocks[p].height ensures Anc(w.blocks, f, p) {
      FinalIsAncestor(sys, f, p);
    }
  }

  /** The walk from a descendant of a finalized block does not get below it. */
  lemma {:induction false} WalkStops(w: World, s: Store, m: Hash, q: Hash, f: Hash)
    requires StoreOk(w, s) && m in s && IsFinalized(s[m].status) && f in s && Anc(w.blocks, m, f)
    requires q in s ==> s[q].block.height < s[m].block.height
    ensures q !in Walk(s, f)
    decreases NotFinalized(s)
  {
    AncHeight(w.blocks, m, f);
    if !IsFinalized(s[f].status) {
      WalkNext(s, f, IndirectlyFinalized);
      var t := SetStatus(s, f, IndirectlyFinalized);
      StatusRestatus(s, f, IndirectlyFinalized);
      var p := s[f].block.parent;
      if p in s {
        assert StoreOk(w, t) by {
          NotTheRoot(w, s, f);
          StoreStep(w, s, t, f);
        }
        WalkStops(w, t, m, q, p);
      }
    }
  }

  lemma NotTheRoot(w: World, s: Store, f: Hash)
    requires StoreOk(w, s) && f in s && !IsFinalized(s[f].status)
    ensures f != w.root && !s[f].status.Trusted?
  {
  }

  /** `q` is not marked final. */
  ghost predicate Unmarks(q: Hash, x: Write) {
    IsFinalMark(x) ==> x.h != q
  }

  ghost function GapFact(m: Hash, q: Hash): Node -> bool {
    n => GapAt(m, q, n)
  }

  ghost function GapRule(q: Hash): (Node, Write) -> bool {
    (n, x) => Unmarks(q, x)
  }

  lemma GapStep(m: Hash, q: Hash, n: Node, x: Write)
    requires GapAt(m, q, n) && Guard(n, x) && Unmarks(q, x)
    ensures GapAt(m, q, Apply(n, x))
  {
    if x.PutStatus? {
      StatusRestatus(n.chain.blocks, x.h, x.status);
    }
  }

  lemma {:induction false} GapSteps(inv: Node -> bool, m: Hash, q: Hash, n: Node, ws: seq<Write>, k: nat)
    requires GapAt(m, q, n) && Safe(inv, n, ws) && Each(GapRule(q), n, ws) && k <= |ws|
    ensures GapAt(m, q, ApplyAll(n, ws[..k]))
    decreases k
  {
    if k > 0 {
      assert ws[..k][0] == ws[0] && ws[..k][1..] == ws[1..][..k-1];
      GapStep(m, q, n, ws[0]);
      GapSteps(inv, m, q, Apply(n, ws[0]), ws[1..], k - 1);
    }
  }

  lemma {:induction false} MarksOf(hs: seq<Hash>, st: Status)
    ensures forall x :: x in MarkAll(hs, st) ==> x.PutStatus? && x.h in hs
    decreases hs
  {
    if hs != [] {
      MarksOf(hs[1..], IndirectlyFinalized);
    }
  }

  lemma GapAbove(w: World, inv: Node -> bool, m: Hash, q: Hash, n: Node, p: Hash)
    requires Names(inv, w) && inv(n) && FinalsOrdered(w) && GapAt(m, q, n)
    requires p in n.chain.blocks && DirectFinal(w, p) && HeightIn(n.chain.blocks, n.lfb) <= HeightIn(n.chain.blocks, p)
    ensures q !in Walk(n.chain.blocks, p)
  {
    hide CommittedOk, BallotsOk;
    LookInside(w, inv, n);
    assert n.root == w.root by {
      assert At(n);
    }
    var s := n.chain.blocks;
    assert BelowFinal(w, HeightIn(s, n.lfb), m);
    var f :| FinalBelow(w, HeightIn(s, n.lfb), m, f);
    AncTransitive(w.blocks, m, f, p);
    assert Linked(w, s, HeightIn(s, n.hcc), m);
    WalkStops(w, s, m, q, p);
  }

  lemma CheckGap(w: World, inv: Node -> bool, m: Hash, q: Hash, n: Node, h: Hash)
    requires Names(inv, w) && inv(n) && FinalsOrdered(w) && GapAt(m, q, n)
    ensures ListPasses(GapFact(m, q), GapRule(q), n, CheckCC(n, w.validators, h))
  {
    hide FinalsOrdered, GapAt, CheckCC;
    var ws := CheckCC(n, w.validators, h);
    CheckUnmarks(w, inv, m, q, n, h);
    EachAlways(GapRule(q), n, ws);
    CheckCCSafe(w, inv, n, h);
    GapSteps(inv, m, q, n, ws, |ws|);
    assert ws[..|ws|] == ws;
  }

  lemma CheckUnmarks(w: World, inv: Node -> bool, m: Hash, q: Hash, n: Node, h: Hash)
    requires Names(inv, w) && inv(n) && FinalsOrdered(w) && GapAt(m, q, n)
    ensures forall x :: x in CheckCC(n, w.validators, h) ==> Unmarks(q, x)
  {
    var ws := CheckCC(n, w.validators, h);
    if ws != [] {
      hide FinalsOrdered, GapAt, NodeOk;
      var eb, commit := n.chain.blocks[h], [PutHcc(h), PutStatus(h, Committed)];
      AboveTop(w, inv, n, h);
      LookAtVotes(w, inv, n);
      IndexMajority(w, n, h);
      if eb.block.parent == eb.block.hcc {
        var p := eb.block.parent;
        ParentIsFinal(w, inv, n, h);
        GapAbove(w, inv, m, q, n, p);
        MarksOf(Walk(n.chain.blocks, p), DirectlyFinalized);
      } else {
        assert ws == commit;
      }
    }
  }

  lemma LookAtVotes(w: World, inv: Node -> bool, n: Node)
    requires Names(inv, w) && inv(n)
    ensures VoteIndexOk(w, n.votes) && forall h :: h in n.chain.blocks ==> h in w.blocks
  {
    assert At(n);
  }

  lemma GapPasses(w: World, inv: Node -> bool, m: Hash, q: Hash)
    requires Names(inv, w) && FinalsOrdered(w)
    ensures AllPass(inv, GapFact(m, q), GapRule(q), w.validators)
  {
    hide GapAt, CheckCC, Guard, ListPasses, FinalsOrdered;
    var fact, rule := GapFact(m, q), GapRule(q);
    forall n, x | inv(n) && fact(n) && Quiet(x) && Guard(n, x) ensures rule(n, x) && fact(Apply(n, x)) {
      GapStep(m, q, n, x);
    }
    forall n, h | inv(n) && fact(n) ensures ListPasses(fact, rule, n, CheckCC(n, w.validators, h)) {
      CheckGap(w, inv, m, q, n, h);
    }
    QuietVotesPass(inv, fact, rule, w.validators);
  }

  lemma ActKeepsGap(w: World, n: Node, a: Action, k: nat, m: Hash, q: Hash)
    requires WorldOk(w) && NodeOk(w, n) && Possible(w, n, a) && FinalsOrdered(w) && GapAt(m, q, n) && k <= |Writes(n, w.validators, a)|
    ensures GapAt(m, q, ApplyAll(n, Writes(n, w.validators, a)[..k]))
  {
    hide GapAt, Writes, AllPass, NodeOk, FinalsOrdered;
    var inv := n => NodeOk(w, n);
    assert Names(inv, w);
    ActionSafe(w, inv, n, a);
    GapPasses(w, inv, m, q);
    ActionPasses(inv, GapFact(m, q), GapRule(q), w.validators, n, a);
    GapSteps(inv, m, q, n, Writes(n, w.validators, a), k);
  }

  lemma DeliverKeepsGap(w: World, n: Node, b: Block, k: nat, m: Hash, q: Hash)
    requires NodeOk(w, n) && GapAt(m, q, n)
    ensures GapAt(m, q, n.(chain := AddSaved(n.chain, b, k)))
  {
    hide AddSaved;
    var s, t := n.chain.blocks, AddSaved(n.chain, b, k).blocks;
    SavedShape(n.chain, b, k);
    assert SameButChildren(s[m], t[m]);
    assert q in s ==> SameButChildren(s[q], t[q]);
  }

  lemma StepKeepsGap(sys: System, step: Step, a: Address, m: Hash, q: Hash)
    requires Sound(sys) && Enabled(sys, step) && a in sys.nodes && GapAt(m, q, sys.nodes[a])
    ensures GapAt(m, q, Next(sys, step).nodes[a])
  {
    hide NodeOk, Writes, ApplyAll, AddSaved, Possible, GapAt;
    var n := sys.nodes[a];
    assert NodeIn(sys.world, a, n);
    FinalsAreOrdered(sys);
    if step.Deliver? && step.node == a {
      DeliverKeepsGap(sys.world, n, sys.world.blocks[step.h], step.persisted, m, q);
    } else if step.Act? && step.node == a {
      ActKeepsGap(sys.world, n, step.action, step.persisted, m, q);
    }
  }

  /** A gap never closes: whatever is finalized later, a block below a finalized one that was left
      out stays out. */
  lemma {:induction false} GapStays(run: seq<System>, steps: seq<Step>, i: nat, j: nat, a: Address, m: Hash, q: Hash)
    requires IsRun(run, steps) && i <= j <= |steps| && a in run[i].nodes && GapAt(m, q, run[i].nodes[a])
    requires FaultBound(run[i].world.validators, run[i].nodes.Keys)
    ensures a in run[j].nodes && GapAt(m, q, run[j].nodes[a])
    decreases j - i
  {
    hide GapAt, Enabled, Next, Init;
    if i < j {
      RunGrows(run, steps, i, j - 1);
      RunGrows(run, steps, j - 1, j);
      GapStays(run, steps, i, j - 1, a, m, q);
      RunOk(run, steps, j - 1);
      var step := steps[j-1];
      StepKeepsGap(run[j-1], step, a, m, q);
    }
  }

  lemma OpenHasGap(n: Node) returns (m: Hash)
    requires !Closed(n.chain.blocks, n.root)
    ensures m in n.chain.blocks && GapAt(m, n.chain.blocks[m].block.parent, n)
  {
    var s := n.chain.blocks;
    m :| m in s && IsFinalized(s[m].status) && m != n.root && !FinalParent(s, m);
  }

  lemma GapIsOpen(n: Node, m: Hash, q: Hash)
    requires GapAt(m, q, n)
    ensures !Closed(n.chain.blocks, n.root)
  {
    assert !FinalParent(n.chain.blocks, m);
  }

  /** Over every run, exactly: the finalized blocks of a node are closed under parents if and only if
      the node itself never crashed inside a marking walk. */
  lemma {:induction false} ClosedExactly(run: seq<System>, steps: seq<Step>, i: nat, a: Address)
    requires IsRun(run, steps) && i <= |steps| && a in run[i].nodes
    requires FaultBound(run[i].world.validators, run[i].nodes.Keys)
    ensures Closed(run[i].nodes[a].chain.blocks, run[i].nodes[a].root) <==> RunSpares(Always(true, false, false), run, steps, i, a)
  {
    hide Closed, GapAt, StepSpares, Enabled, Next, Init;
    var t := Always(true, false, false);
    if RunSpares(t, run, steps, i, a) {
      RunSettled(run, steps, i, a, true, false, false);
    } else {
      RunGrows(run, steps, i - 1, i);
      ClosedExactly(run, steps, i - 1, a);
      RunOk(run, steps, i - 1);
      var n := run[i-1].nodes[a];
      var step := steps[i-1];
      if RunSpares(t, run, steps, i - 1, a) {
        CutOpens(run[i-1], step, a);
      } else {
        var m := OpenHasGap(n);
        GapStays(run, steps, i - 1, i, a, m, n.chain.blocks[m].block.parent);
        GapIsOpen(run[i].nodes[a], m, n.chain.blocks[m].block.parent);
      }
    }
  }

  lemma CutOpens(sys: System, step: Step, a: Address)
    requires SystemOk(sys) && Enabled(sys, step) && a in sys.nodes && !StepSpares(Always(true, false, false), sys, step, a)
    requires Closed(sys.nodes[a].chain.blocks, sys.nodes[a].root)
    ensures !Closed(Next(sys, step).nodes[a].chain.blocks, Next(sys, step).nodes[a].root)
  {
    hide Closed, Writes, ApplyAll;
    CrashesUpset(sys, a, step.action, step.persisted, Always(true, false, false));
  }
}
