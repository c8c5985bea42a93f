/** Statuses follow the diagram of core/block.go, exactly when. */
module Diagram {
  import opened Validators
  import opened Votes
  import opened BlockTree
  import opened ChainSpec
  import opened Handlers
  import opened NodeInvariant
  import opened HandlerSafety
  import opened Protocol
  import opened Passes
  import opened Agreement
  import opened Progress
  import opened StatusMachine

  /** The arrows of the status machine: Valid to directly finalized is not one of them. */
  predicate DiagramMove(s: Status, t: Status) {
    || (s.Pending? && (t.Valid? || t.Invalid?))
    || (s.Valid? && (t.Committed? || t.IndirectlyFinalized?))
    || (s.Committed? && (t.DirectlyFinalized? || t.IndirectlyFinalized?))
  }

  predicate FinalizesDirectly(x: Write) {
    x.PutStatus? && x.status.DirectlyFinalized?
  }

  /** The k-th write changes a status against the diagram. */
  ghost predicate Departs(n: Node, ws: seq<Write>, k: nat)
    requires k < |ws|
  {
    ws[k].PutStatus? &&
      var s := ApplyAll(n, ws[..k]).chain.blocks;
      !(ws[k].h in s && DiagramMove(s[ws[k].h].status, ws[k].status))
  }

  /** No two certified blocks, or root and certified block, at one height. */
  ghost predicate OnePerHeight(w: World) {
    forall c, d {:trigger Anchored(w, c), Anchored(w, d)} ::
      c in w.blocks && d in w.blocks && Anchored(w, c) && Anchored(w, d) && w.blocks[c].height == w.blocks[d].height ==> c == d
  }

  lemma OnlyOnePerHeight(sys: System)
    requires Sound(sys)
    ensures OnePerHeight(sys.world)
  {
    var w := sys.world;
    forall c, d | c in w.blocks && d in w.blocks && Anchored(w, c) && Anchored(w, d) && w.blocks[c].height == w.blocks[d].height
      ensures c == d
    {
      OneAnchoredPerHeight(sys, c, d);
    }
  }

  /** The highest committed block is still `top`, or is marked; it is no lower than `low`. */
  ghost predicate TopKept(top: Hash, low: nat, n: Node) {
    (n.hcc == top || Marked(n)) && low <= HeightIn(n.chain.blocks, n.hcc)
  }

  /** Only a committed block or `top` is finalized directly; only blocks above `low` are committed. */
  ghost predicate OnlyTop(top: Hash, low: nat, n: Node, x: Write) {
    && (FinalizesDirectly(x) ==> x.h in n.chain.blocks && (n.chain.blocks[x.h].status.Committed? || x.h == top))
    && (CutsMark(x) ==> HeightIn(n.chain.blocks, x.h) > low)
  }

  ghost function TopFact(top: Hash, low: nat): Node -> bool {
    n => TopKept(top, low, n)
  }

  ghost function TopRule(top: Hash, low: nat): (Node, Write) -> bool {
    (n, x) => OnlyTop(top, low, n, x)
  }

  lemma ParentIsTop(w: World, inv: Node -> bool, n: Node, p: Hash)
    requires Names(inv, w) && inv(n) && OnePerHeight(w) && p in n.chain.blocks && DirectFinal(w, p)
    requires HeightIn(n.chain.blocks, p) == HeightIn(n.chain.blocks, n.hcc)
    ensures p == n.hcc
  {
    LookInside(w, inv, n);
    assert Anchored(w, p) && Anchored(w, n.hcc);
  }

  lemma {:induction false} MarkedIndirectly(hs: seq<Hash>)
    ensures forall x :: x in MarkAll(hs, IndirectlyFinalized) ==> x.PutStatus? && x.status.IndirectlyFinalized?
  {
    if hs != [] {
      MarkedIndirectly(hs[1..]);
    }
  }

  lemma FinalizeTop(top: Hash, low: nat, n: Node, p: Hash)
    requires p in n.chain.blocks && p == n.hcc && TopKept(top, low, n)
    ensures Each(TopRule(top, low), n, FinalizeBlock(n, p))
  {
    var hs, rule := Walk(n.chain.blocks, p), TopRule(top, low);
    if p != n.lfb {
      var ws := MarkAll(hs, DirectlyFinalized);
      assert ([PutLfb(p)] + ws)[0] == PutLfb(p) && ([PutLfb(p)] + ws)[1..] == ws;
      assert rule(n, PutLfb(p));
      if hs != [] {
        var rest, n1 := MarkAll(hs[1..], IndirectlyFinalized), Apply(n, PutLfb(p));
        assert ws[0] == PutStatus(p, DirectlyFinalized) && ws[1..] == rest;
        assert rule(n1, ws[0]);
        MarkedIndirectly(hs[1..]);
        EachAlways(rule, Apply(n1, ws[0]), rest);
      }
    }
  }

  lemma CommitTop(top: Hash, low: nat, n: Node, h: Hash)
    requires h in n.chain.blocks && low < HeightIn(n.chain.blocks, h)
    ensures ListPasses(TopFact(top, low), TopRule(top, low), n, [PutHcc(h), PutStatus(h, Committed)])
  {
    var commit, rule := [PutHcc(h), PutStatus(h, Committed)], TopRule(top, low);
    var n1 := Apply(n, PutHcc(h));
    assert commit[1..] == [PutStatus(h, Committed)] && commit[1..][1..] == [];
    ApplyTwo(n, commit[0], commit[1]);
    assert rule(n, commit[0]) && rule(n1, commit[1]);
    assert Each(rule, Apply(n1, commit[1]), []) && Each(rule, n1, [commit[1]]);
  }

  lemma CheckTop(w: World, inv: Node -> bool, top: Hash, low: nat, n: Node, h: Hash)
    requires Names(inv, w) && inv(n) && OnePerHeight(w) && TopKept(top, low, n)
    ensures ListPasses(TopFact(top, low), TopRule(top, low), n, CheckCC(n, w.validators, h))
  {
    var ws := CheckCC(n, w.validators, h);
    if ws != [] {
      hide OnePerHeight, TopKept;
      var eb, commit := n.chain.blocks[h], [PutHcc(h), PutStatus(h, Committed)];
      AboveTop(w, inv, n, h);
      assert At(n);
      IndexMajority(w, n, h);
      LowBelow(top, low, n);
      if eb.block.parent == eb.block.hcc {
        var p := eb.block.parent;
        ParentIsFinal(w, inv, n, h);
        ParentIsTop(w, inv, n, p);
        FinalizeSafe(w, inv, n, p);
        FinalizeTop(top, low, n, p);
        var first := FinalizeBlock(n, p);
        assert FinalizedOrSame(w, n.chain.blocks[h], ApplyAll(n, first).chain.blocks[h], h, p);
        CommitTop(top, low, ApplyAll(n, first), h);
        EachConcat(TopRule(top, low), n, first, commit);
        ApplyAllConcat(n, first, commit);
      } else {
        CommitTop(top, low, n, h);
        assert ws == commit;
      }
    }
  }

  lemma LowBelow(top: Hash, low: nat, n: Node)
    requires TopKept(top, low, n)
    ensures low <= HeightIn(n.chain.blocks, n.hcc)
  {
  }

  lemma QuietTop(top: Hash, low: nat, n: Node, x: Write)
    requires TopKept(top, low, n) && Quiet(x) && Guard(n, x) && Rooted(n)
    ensures OnlyTop(top, low, n, x) && TopKept(top, low, Apply(n, x))
  {
    QuietTops(n, x);
  }

  lemma TopPasses(w: World, inv: Node -> bool, top: Hash, low: nat)
    requires Names(inv, w) && OnePerHeight(w)
    ensures AllPass(inv, TopFact(top, low), TopRule(top, low), w.validators)
  {
    hide TopKept, OnlyTop, CheckCC, Guard, ListPasses, OnePerHeight;
    var fact, rule := TopFact(top, low), TopRule(top, low);
    forall n, x | inv(n) && fact(n) && Quiet(x) && Guard(n, x) ensures rule(n, x) && fact(Apply(n, x)) {
      InvRooted(w, inv, n);
      QuietTop(top, low, n, x);
    }
    forall n, h | inv(n) && fact(n) ensures ListPasses(fact, rule, n, CheckCC(n, w.validators, h)) {
      CheckTop(w, inv, top, low, n, h);
    }
    QuietVotesPass(inv, fact, rule, w.validators);
  }

  /** Each write of a handler follows the diagram, except the direct finalization of `top`. */
  lemma WriteFollows(w: World, n: Node, a: Action, top: Hash, low: nat, k: nat)
    requires WorldOk(w) && NodeOk(w, n) && Possible(w, n, a) && OnePerHeight(w) && TopKept(top, low, n)
    requires k < |Writes(n, w.validators, a)|
    ensures
      var ws := Writes(n, w.validators, a);
      var m := ApplyAll(n, ws[..k]);
      && OnlyTop(top, low, m, ws[k]) && Guard(m, ws[k])
      && (Departs(n, ws, k) ==> ws[k] == PutStatus(top, DirectlyFinalized))
  {
    hide TopKept, Writes, AllPass, NodeOk;
    var inv := n => NodeOk(w, n);
    assert Names(inv, w);
    ActionSafe(w, inv, n, a);
    TopPasses(w, inv, top, low);
    ActionPasses(inv, TopFact(top, low), TopRule(top, low), w.validators, n, a);
    var ws := Writes(n, w.validators, a);
    EachAt(TopRule(top, low), n, ws, k);
    SafeGuards(inv, n, ws, k);
  }

  /** At a node that has never crashed between saving its highest committed block and marking it,
      every status that any handler writes follows an arrow of the status machine, whatever crashes
      elsewhere. */
  lemma StatusesFollowDiagram(run: seq<System>, steps: seq<Step>, i: nat, a: Address, action: Action, k: nat)
    requires IsRun(run, steps) && i <= |steps| && RunSpares(Always(false, true, false), run, steps, i, a) && a in run[i].nodes
    requires FaultBound(run[i].world.validators, run[i].nodes.Keys) && Possible(run[i].world, run[i].nodes[a], action)
    requires k < |Writes(run[i].nodes[a], run[i].world.validators, action)|
    ensures !Departs(run[i].nodes[a], Writes(run[i].nodes[a], run[i].world.validators, action), k)
  {
    hide Writes, Possible, NodeOk, RunSpares;
    RunOk(run, steps, i);
    RunSettled(run, steps, i, a, false, true, false);
    OnlyOnePerHeight(run[i]);
    var n := run[i].nodes[a];
    assert NodeIn(run[i].world, a, n);
    WriteFollows(run[i].world, n, action, EMPTY_HASH, 0, k);
    if Departs(n, Writes(n, run[i].world.validators, action), k) {
      NothingEmpty(run[i].world, n, action, k);
    }
  }

  lemma NothingEmpty(w: World, n: Node, a: Action, k: nat)
    requires WorldOk(w) && NodeOk(w, n) && Possible(w, n, a) && k < |Writes(n, w.validators, a)|
    ensures Writes(n, w.validators, a)[k].PutStatus? ==> Writes(n, w.validators, a)[k].h != EMPTY_HASH
  {
    hide Writes;
    var inv := n => NodeOk(w, n);
    var ws := Writes(n, w.validators, a);
    assert Names(inv, w);
    ActionSafe(w, inv, n, a);
    SafeGuards(inv, n, ws, k);
    SafePrefix(inv, n, ws, k);
  }

  // ---- exactly when the diagram is left ----------------------------------------------

  lemma {:induction false} BecameCommitted(n: Node, ws: seq<Write>, k: nat, h: Hash) returns (j: nat)
    requires k <= |ws| && h in n.chain.blocks && !n.chain.blocks[h].status.Committed?
    requires h in ApplyAll(n, ws[..k]).chain.blocks && ApplyAll(n, ws[..k]).chain.blocks[h].status.Committed?
    ensures j < k && ws[j] == PutStatus(h, Committed)
    decreases k
  {
    assert k > 0 by {
      assert ws[..0] == [];
    }
    assert ws[..k][0] == ws[0] && ws[..k][1..] == ws[1..][..k-1];
    if ws[0] == PutStatus(h, Committed) {
      j := 0;
    } else {
      j := BecameCommitted(Apply(n, ws[0]), ws[1..], k - 1, h);
      j := j + 1;
    }
  }

  /** The statuses of the highest committed block on the way to the k-th write. */
  lemma TopOnTheWay(w: World, n: Node, a: Action, k: nat)
    requires WorldOk(w) && NodeOk(w, n) && Possible(w, n, a) && k < |Writes(n, w.validators, a)|
    ensures
      var m := ApplyAll(n, Writes(n, w.validators, a)[..k]);
      && n.hcc in n.chain.blocks && n.hcc in m.chain.blocks && BlockTree.IsValid(n.chain.blocks[n.hcc].status)
      && HeightIn(m.chain.blocks, n.hcc) == HeightIn(n.chain.blocks, n.hcc)
      && StatusReaches(n.chain.blocks[n.hcc].status, m.chain.blocks[n.hcc].status)
  {
    hide Writes;
    ActAdvances(w, n, a, k);
    assert BlockAdvances(n.chain.blocks, ApplyAll(n, Writes(n, w.validators, a)[..k]).chain.blocks, n.hcc);
  }

  /** The highest committed block is not committed again on the way. */
  lemma StillValid(w: World, n: Node, a: Action, k: nat)
    requires WorldOk(w) && NodeOk(w, n) && Possible(w, n, a) && OnePerHeight(w) && k < |Writes(n, w.validators, a)|
    requires n.hcc in n.chain.blocks && n.chain.blocks[n.hcc].status.Valid?
    ensures
      var m := ApplyAll(n, Writes(n, w.validators, a)[..k]);
      n.hcc in m.chain.blocks && !m.chain.blocks[n.hcc].status.Committed?
  {
    hide Writes, NodeOk, Possible, OnePerHeight;
    TopOnTheWay(w, n, a, k);
    var ws, low := Writes(n, w.validators, a), HeightIn(n.chain.blocks, n.hcc);
    if ApplyAll(n, ws[..k]).chain.blocks[n.hcc].status.Committed? {
      var j := BecameCommitted(n, ws, k, n.hcc);
      WriteFollows(w, n, a, n.hcc, low, j);
      TopOnTheWay(w, n, a, j);
    }
  }

  /** In every reachable state with at most a third faulty, crashes included: a handler changes some
      status against the diagram exactly when it directly finalizes the highest committed block that
      the node had saved, and that block had not been marked. */
  lemma DepartsExactly(sys: System, a: Address, action: Action)
    requires Sound(sys) && a in sys.nodes && Possible(sys.world, sys.nodes[a], action)
    ensures
      var n := sys.nodes[a];
      var ws := Writes(n, sys.world.validators, action);
      && n.hcc in n.chain.blocks
      && ((exists k: nat :: k < |ws| && Departs(n, ws, k)) <==>
        n.chain.blocks[n.hcc].status.Valid? && PutStatus(n.hcc, DirectlyFinalized) in ws)
  {
    hide Writes, NodeOk, Possible, OnePerHeight;
    var w, n := sys.world, sys.nodes[a];
    var ws, low := Writes(n, w.validators, action), HeightIn(n.chain.blocks, n.hcc);
    assert NodeIn(w, a, n);
    OnlyOnePerHeight(sys);
    TopIsStored(w, n);
    forall k: nat | k < |ws| && Departs(n, ws, k)
      ensures n.chain.blocks[n.hcc].status.Valid? && PutStatus(n.hcc, DirectlyFinalized) in ws
    {
      WriteFollows(w, n, action, n.hcc, low, k);
      TopOnTheWay(w, n, action, k);
      assert ws[k] in ws;
    }
    if n.chain.blocks[n.hcc].status.Valid? && PutStatus(n.hcc, DirectlyFinalized) in ws {
      var k :| 0 <= k < |ws| && ws[k] == PutStatus(n.hcc, DirectlyFinalized);
      WriteFollows(w, n, action, n.hcc, low, k);
      StillValid(w, n, action, k);
      assert Departs(n, ws, k);
    }
  }

  lemma TopIsStored(w: World, n: Node)
    requires NodeOk(w, n)
    ensures n.hcc in n.chain.blocks
  {
  }

  /** The commit check finds that `h` confirms the highest committed block, which is not yet the
      last finalized one. */
  ghost predicate Confirming(n: Node, vs: ValidatorSet, h: Hash) {
    && h != EMPTY_HASH && h in n.chain.blocks && n.hcc in n.chain.blocks && n.chain.blocks[h].status.Valid?
    && n.chain.blocks[h].block.height > n.chain.blocks[n.hcc].block.height && Majority(vs, Voters(VotesOf(n, h)))
    && n.chain.blocks[h].block.parent == n.chain.blocks[h].block.hcc == n.hcc && n.hcc != n.lfb
  }

  /** The same seen before the call of the commit check, which is where finality is decided: it
      leaves the diagram exactly when a block confirms the saved highest committed block, and that
      is merely valid. */
  lemma CheckDeparts(sys: System, a: Address, h: Hash)
    requires Sound(sys) && a in sys.nodes
    ensures
      var n := sys.nodes[a];
      var ws := CheckCC(n, sys.world.validators, h);
      (exists k: nat :: k < |ws| && Departs(n, ws, k)) <==>
        Confirming(n, sys.world.validators, h) && n.chain.blocks[n.hcc].status.Valid?
  {
    hide CheckCC, NodeOk, OnePerHeight, Confirming;
    var w, n := sys.world, sys.nodes[a];
    var ws := CheckCC(n, w.validators, h);
    assert NodeIn(w, a, n);
    OnlyOnePerHeight(sys);
    TopIsStored(w, n);
    forall k: nat | k < |ws| && Departs(n, ws, k)
      ensures Confirming(n, w.validators, h) && n.chain.blocks[n.hcc].status.Valid?
    {
      DepartingCheck(w, n, h, k);
    }
    if Confirming(n, w.validators, h) && n.chain.blocks[n.hcc].status.Valid? {
      ConfirmingDeparts(w, n, h);
      assert Departs(n, ws, 1);
    }
  }

  lemma ConfirmingDeparts(w: World, n: Node, h: Hash)
    requires NodeOk(w, n) && Confirming(n, w.validators, h) && n.chain.blocks[n.hcc].status.Valid?
    ensures |CheckCC(n, w.validators, h)| > 1 && Departs(n, CheckCC(n, w.validators, h), 1)
  {
    var ws, p := CheckCC(n, w.validators, h), n.hcc;
    var hs, first := Walk(n.chain.blocks, p), FinalizeBlock(n, p);
    assert hs != [] && hs[0] == p;
    assert first[0] == PutLfb(p) && first[1] == PutStatus(p, DirectlyFinalized);
    assert ws == first + [PutHcc(h), PutStatus(h, Committed)];
    assert ws[..1] == [PutLfb(p)] && ws[1] == first[1];
    ApplyTwo(n, PutLfb(p), PutLfb(p));
  }

  lemma DepartingCheck(w: World, n: Node, h: Hash, k: nat)
    requires NodeOk(w, n) && OnePerHeight(w) && k < |CheckCC(n, w.validators, h)| && Departs(n, CheckCC(n, w.validators, h), k)
    ensures n.hcc in n.chain.blocks && Confirming(n, w.validators, h) && n.chain.blocks[n.hcc].status.Valid?
  {
    hide CheckCC, Guard, OnePerHeight, CommitEffect;
    var inv := n => NodeOk(w, n);
    var ws := CheckCC(n, w.validators, h);
    assert Names(inv, w);
    CheckCCSafe(w, inv, n, h);
    DepartingWrite(w, inv, n, h, k);
    FinalizesOnlyParent(n, w.validators, h, k);
    AboveTop(w, inv, n, h);
    IndexMajority(w, n, h);
    ParentIsFinal(w, inv, n, h);
    ParentIsTop(w, inv, n, n.chain.blocks[h].block.parent);
  }

  lemma DepartingWrite(w: World, inv: Node -> bool, n: Node, h: Hash, k: nat)
    requires Names(inv, w) && inv(n) && OnePerHeight(w) && Safe(inv, n, CheckCC(n, w.validators, h))
    requires k < |CheckCC(n, w.validators, h)| && Departs(n, CheckCC(n, w.validators, h), k)
    ensures n.hcc in n.chain.blocks && n.chain.blocks[n.hcc].status.Valid?
    ensures CheckCC(n, w.validators, h)[k] == PutStatus(n.hcc, DirectlyFinalized)
  {
    hide CheckCC, OnePerHeight;
    var ws, low := CheckCC(n, w.validators, h), HeightIn(n.chain.blocks, n.hcc);
    CheckTop(w, inv, n.hcc, low, n, h);
    EachAt(TopRule(n.hcc, low), n, ws, k);
    SafeGuards(inv, n, ws, k);
    LookInside(w, inv, n);
    WritesAdvance(w, inv, n, ws, k);
    assert BlockAdvances(n.chain.blocks, ApplyAll(n, ws[..k]).chain.blocks, n.hcc);
  }

  lemma FinalizesOnlyParent(n: Node, vs: ValidatorSet, h: Hash, k: nat)
    requires k < |CheckCC(n, vs, h)| && FinalizesDirectly(CheckCC(n, vs, h)[k])
    ensures
      && h != EMPTY_HASH && h in n.chain.blocks && n.hcc in n.chain.blocks
      && (n.chain.blocks[h].status.Trusted? || (n.chain.blocks[h].status.Valid? && Majority(vs, Voters(VotesOf(n, h)))))
      && n.chain.blocks[h].block.height > n.chain.blocks[n.hcc].block.height
      && n.chain.blocks[h].block.parent == n.chain.blocks[h].block.hcc != n.lfb
  {
    CommitsOnly(n, vs, h);
  }

  lemma CommitsOnly(n: Node, vs: ValidatorSet, h: Hash)
    ensures
      h in n.chain.blocks && (n.chain.blocks[h].block.parent != n.chain.blocks[h].block.hcc || n.chain.blocks[h].block.parent == n.lfb) ==>
      forall x :: x in CheckCC(n, vs, h) ==> !FinalizesDirectly(x)
  {
    var commit := [PutHcc(h), PutStatus(h, Committed)];
    assert [] + commit == commit;
  }

  // ---- nothing is finalized twice ----------------------------------------------------

  ghost predicate NotYetFinal(n: Node, x: Write) {
    x.PutLfb? ==> x.h in n.chain.blocks && !IsFinalized(n.chain.blocks[x.h].status)
  }

  ghost function NewRule(): (Node, Write) -> bool {
    (n, x) => NotYetFinal(n, x)
  }

  lemma ParentNotFinal(w: World, inv: Node -> bool, n: Node, p: Hash)
    requires Names(inv, w) && inv(n) && OnePerHeight(w) && p in n.chain.blocks && DirectFinal(w, p) && p != n.lfb
    requires HeightIn(n.chain.blocks, n.lfb) <= HeightIn(n.chain.blocks, p)
    ensures !IsFinalized(n.chain.blocks[p].status)
  {
    LookInside(w, inv, n);
    var s := n.chain.blocks;
    assert Anchored(w, p) && Anchored(w, n.lfb);
    if IsFinalized(s[p].status) {
      assert BelowFinal(w, HeightIn(s, n.lfb), p);
      var f :| FinalBelow(w, HeightIn(s, n.lfb), p, f);
      AncHeight(w.blocks, p, f);
    }
  }

  lemma CheckNew(w: World, inv: Node -> bool, n: Node, h: Hash)
    requires Names(inv, w) && inv(n) && OnePerHeight(w)
    ensures Each(NewRule(), n, CheckCC(n, w.validators, h))
  {
    var ws, rule := CheckCC(n, w.validators, h), NewRule();
    if ws != [] {
      hide OnePerHeight;
      var p, commit := n.chain.blocks[h].block.parent, [PutHcc(h), PutStatus(h, Committed)];
      AboveTop(w, inv, n, h);
      assert At(n);
      IndexMajority(w, n, h);
      if p == n.chain.blocks[h].block.hcc && p != n.lfb {
        ParentIsFinal(w, inv, n, h);
        ParentNotFinal(w, inv, n, p);
        FinalizeNew(n, p, commit);
        assert ws == FinalizeBlock(n, p) + commit;
      } else {
        assert [] + commit == commit;
        EachAlways(rule, n, ws);
      }
    }
  }

  lemma FinalizeNew(n: Node, p: Hash, rest: seq<Write>)
    requires p != n.lfb && p in n.chain.blocks && !IsFinalized(n.chain.blocks[p].status) && forall x :: x in rest ==> !x.PutLfb?
    ensures Each(NewRule(), n, FinalizeBlock(n, p) + rest)
  {
    var rule, marks := NewRule(), MarkAll(Walk(n.chain.blocks, p), DirectlyFinalized);
    var ws := FinalizeBlock(n, p) + rest;
    assert ws[0] == PutLfb(p) && ws[1..] == marks + rest;
    assert rule(n, ws[0]);
    OnlyMarks(Walk(n.chain.blocks, p), DirectlyFinalized);
    EachAlways(rule, Apply(n, ws[0]), marks + rest);
  }

  lemma {:induction false} OnlyMarks(hs: seq<Hash>, st: Status)
    ensures forall x :: x in MarkAll(hs, st) ==> x.PutStatus?
    decreases hs
  {
    if hs != [] {
      OnlyMarks(hs[1..], IndirectlyFinalized);
    }
  }

  /** In every reachable state with at most a third faulty, crashes included: a handler that makes a
      block the last finalized one has not finalized it before. */
  lemma FinalizedOnce(sys: System, a: Address, action: Action, k: nat)
    requires Sound(sys) && a in sys.nodes && Possible(sys.world, sys.nodes[a], action)
    requires k < |Writes(sys.nodes[a], sys.world.validators, action)|
    ensures
      var ws := Writes(sys.nodes[a], sys.world.validators, action);
      NotYetFinal(ApplyAll(sys.nodes[a], ws[..k]), ws[k])
  {
    hide Writes, Possible, NodeOk, OnePerHeight;
    var w, n := sys.world, sys.nodes[a];
    assert NodeIn(w, a, n);
    OnlyOnePerHeight(sys);
    var inv, fact := n => NodeOk(w, n), (n: Node) => true;
    assert Names(inv, w);
    ActionSafe(w, inv, n, action);
    NewPasses(w, inv, fact);
    ActionPasses(inv, fact, NewRule(), w.validators, n, action);
    EachAt(NewRule(), n, Writes(n, w.validators, action), k);
  }

  lemma NewPasses(w: World, inv: Node -> bool, fact: Node -> bool)
    requires Names(inv, w) && OnePerHeight(w) && forall n :: fact(n)
    ensures AllPass(inv, fact, NewRule(), w.validators)
  {
    hide CheckCC, Guard, OnePerHeight;
    var rule := NewRule();
    forall n, x | inv(n) && fact(n) && Quiet(x) && Guard(n, x) ensures rule(n, x) && fact(Apply(n, x)) {
    }
    forall n, h | inv(n) && fact(n) ensures ListPasses(fact, rule, n, CheckCC(n, w.validators, h)) {
      CheckNew(w, inv, n, h);
    }
    QuietVotesPass(inv, fact, rule, w.validators);
  }
}
