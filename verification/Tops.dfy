/** The highest committed block and the last finalized one after crashes: when the one is unmarked or
    the other level with it, and when that is over (consensus/engine.go). */
module Tops {
  import opened Validators
  import opened Votes
  import opened BlockTree
  import opened ChainSpec
  import opened Handlers
  import opened NodeInvariant
  import opened Protocol
  import opened Agreement
  import opened Progress
  import opened StatusMachine
  import opened Diagram

  /** The step is a crash of `a` right before a mark of the highest committed block. */
  ghost predicate LosesMark(sys: System, step: Step, a: Address) {
    step.Act? && step.node == a && a in sys.nodes &&
      var ws := Writes(sys.nodes[a], sys.world.validators, step.action);
      step.persisted < |ws| && CutsMark(ws[step.persisted])
  }

  /** The step is a crash of `a` after the parent of a block was saved as last finalized block and
      before the block itself was saved as highest committed one. */
  ghost predicate LosesTop(sys: System, step: Step, a: Address) {
    step.Act? && step.node == a && a in sys.nodes &&
      var ws := Writes(sys.nodes[a], sys.world.validators, step.action);
      step.persisted < |ws| && CutsBelow(ApplyAll(sys.nodes[a], ws[..step.persisted]), ws[step.persisted])
  }

  ghost predicate TopFinal(n: Node) {
    n.hcc in n.chain.blocks && IsFinalized(n.chain.blocks[n.hcc].status)
  }

  // ---- one step ----------------------------------------------------------------------

  lemma NotCommittedAgain(sys: System, a: Address, action: Action, k: nat)
    requires SystemOk(sys) && a in sys.nodes && Possible(sys.world, sys.nodes[a], action)
    requires k <= |Writes(sys.nodes[a], sys.world.validators, action)| && !Marked(sys.nodes[a])
    ensures
      var n, m := sys.nodes[a], ApplyAll(sys.nodes[a], Writes(sys.nodes[a], sys.world.validators, action)[..k]);
      n.hcc in n.chain.blocks && n.hcc in m.chain.blocks && !m.chain.blocks[n.hcc].status.Committed?
  {
    hide Writes, Possible, NodeOk, CutExactly;
    var w, n := sys.world, sys.nodes[a];
    var ws := Writes(n, w.validators, action);
    assert NodeIn(w, a, n);
    TopIsBlock(w, n);
    ActAdvances(w, n, action, k);
    assert BlockAdvances(n.chain.blocks, ApplyAll(n, ws[..k]).chain.blocks, n.hcc);
    if ApplyAll(n, ws[..k]).chain.blocks[n.hcc].status.Committed? {
      var j := BecameCommitted(n, ws, k, n.hcc);
      var t := Track(false, false, false, EMPTY_HASH, HeightIn(n.chain.blocks, n.hcc));
      CrashesUpset(sys, a, action, j, t);
      ActAdvances(w, n, action, j);
      NotAbove(t, n, ApplyAll(n, ws[..j]), ws[j]);
    }
  }

  lemma NotAbove(t: Track, n: Node, m: Node, x: Write)
    requires CutExactly(t, m, x) && t.low == HeightIn(n.chain.blocks, n.hcc) && Advances(n, m) && n.hcc in n.chain.blocks
    ensures x != PutStatus(n.hcc, Committed)
  {
    assert BlockAdvances(n.chain.blocks, m.chain.blocks, n.hcc);
  }

  lemma ActTops(sys: System, a: Address, action: Action, k: nat)
    requires SystemOk(sys) && a in sys.nodes && Possible(sys.world, sys.nodes[a], action)
    requires k <= |Writes(sys.nodes[a], sys.world.validators, action)|
    ensures
      var n, m := sys.nodes[a], ApplyAll(sys.nodes[a], Writes(sys.nodes[a], sys.world.validators, action)[..k]);
      var step := Act(a, action, k);
      && (LosesMark(sys, step, a) ==> m.hcc != n.hcc)
      && (m.hcc != n.hcc ==> (Marked(m) <==> !LosesMark(sys, step, a)) && (Below(m) <==> !LosesTop(sys, step, a)))
      && (Below(n) ==> (Below(m) <==> !LosesTop(sys, step, a)))
  {
    hide Writes, Possible, NodeOk, Marked, Below, CutsBelow;
    var w, n := sys.world, sys.nodes[a];
    assert NodeIn(w, a, n);
    TopIsBlock(w, n);
    ActAdvances(w, n, action, k);
    var m := ApplyAll(n, Writes(n, w.validators, action)[..k]);
    TopsTracked(sys, a, action, k, Track(false, true, true, n.hcc, HeightIn(n.chain.blocks, n.hcc)));
    assert BlockAdvances(n.chain.blocks, m.chain.blocks, n.hcc);
    if Below(n) {
      TopsTracked(sys, a, action, k, Track(false, false, true, EMPTY_HASH, 0));
      ActKeeps(w, n, action, k);
      TopIsBlock(w, m);
    }
  }

  lemma TopsTracked(sys: System, a: Address, action: Action, k: nat, t: Track)
    requires SystemOk(sys) && a in sys.nodes && Possible(sys.world, sys.nodes[a], action) && HoldsAt(t, sys.nodes[a])
    requires k <= |Writes(sys.nodes[a], sys.world.validators, action)|
    ensures
      var m := ApplyAll(sys.nodes[a], Writes(sys.nodes[a], sys.world.validators, action)[..k]);
      var step := Act(a, action, k);
      && (t.marked ==> m.hcc == t.top || (Marked(m) <==> !LosesMark(sys, step, a)))
      && (t.below ==> m.hcc == t.top || (Below(m) <==> !LosesTop(sys, step, a)))
      && (LosesMark(sys, step, a) ==> t.low < HeightIn(m.chain.blocks, m.hcc))
  {
    hide Writes, Possible, Marked, Below, CutsBelow;
    CrashesUpset(sys, a, action, k, t);
  }

  lemma LevelStays(w: World, n: Node, m: Node)
    requires NodeOk(w, n) && NodeOk(w, m) && Advances(n, m) && m.hcc == n.hcc && !Below(n)
    ensures !Below(m)
  {
    var inv := n => NodeOk(w, n);
    assert Names(inv, w);
    assert BlockAdvances(n.chain.blocks, m.chain.blocks, n.hcc) && BlockAdvances(n.chain.blocks, m.chain.blocks, n.lfb);
    if n.hcc == n.root {
      RootIsLowest(w, inv, n, n.lfb);
    }
  }

  /** What one step does to the two blocks. */
  lemma TopStep(sys: System, step: Step, a: Address)
    requires SystemOk(sys) && Enabled(sys, step) && a in sys.nodes
    ensures
      var n, m := sys.nodes[a], Next(sys, step).nodes[a];
      if m.hcc == n.hcc
      then !LosesMark(sys, step, a) && (Marked(m) <==> Marked(n) || TopFinal(m)) && (Below(m) <==> Below(n) && !LosesTop(sys, step, a))
      else (Marked(m) <==> !LosesMark(sys, step, a)) && (Below(m) <==> !LosesTop(sys, step, a))
    ensures
      var n, m := sys.nodes[a], Next(sys, step).nodes[a];
      m.hcc == n.hcc && TopFinal(n) ==> TopFinal(m)
  {
    hide Writes, Possible, NodeOk, CutsBelow, ApplyAll, AddSaved, Below, CutsMark;
    var w, n, m := sys.world, sys.nodes[a], Next(sys, step).nodes[a];
    assert NodeIn(w, a, n);
    StepAdvances(sys, step, a);
    TopIsBlock(w, n);
    assert BlockAdvances(n.chain.blocks, m.chain.blocks, n.hcc);
    if step.Act? && step.node == a {
      ActTops(sys, a, step.action, step.persisted);
      ActKeeps(w, n, step.action, step.persisted);
      if m.hcc == n.hcc {
        if !Below(n) {
          LevelStays(w, n, m);
        }
        if !Marked(n) {
          NotCommittedAgain(sys, a, step.action, step.persisted);
        }
      }
    } else if step.Deliver? && step.node == a {
      DeliverTops(w, n, w.blocks[step.h], step.persisted);
    }
  }

  // ---- whole runs --------------------------------------------------------------------

  /** One of the first `i` steps was such a crash, with `h` saved as highest committed block. */
  ghost predicate LostMark(run: seq<System>, steps: seq<Step>, i: nat, a: Address, h: Hash)
    requires i <= |steps| && |run| == |steps| + 1
  {
    exists j: nat {:trigger steps[j]} :: j < i && LosesMark(run[j], steps[j], a) && a in run[j+1].nodes && run[j+1].nodes[a].hcc == h
  }

  ghost predicate LostTop(run: seq<System>, steps: seq<Step>, i: nat, a: Address, h: Hash)
    requires i <= |steps| && |run| == |steps| + 1
  {
    exists j: nat {:trigger steps[j]} :: j < i && LosesTop(run[j], steps[j], a) && a in run[j+1].nodes && run[j+1].nodes[a].hcc == h
  }

  lemma LostNext(run: seq<System>, steps: seq<Step>, i: nat, a: Address, h: Hash)
    requires i < |steps| && |run| == |steps| + 1 && a in run[i+1].nodes
    ensures LostMark(run, steps, i + 1, a, h) <==> LostMark(run, steps, i, a, h) || (LosesMark(run[i], steps[i], a) && run[i+1].nodes[a].hcc == h)
    ensures LostTop(run, steps, i + 1, a, h) <==> LostTop(run, steps, i, a, h) || (LosesTop(run[i], steps[i], a) && run[i+1].nodes[a].hcc == h)
  {
    hide LosesMark, LosesTop;
    var step := steps[i];
  }

  /** What was lost with an earlier block is over when the highest committed block changes. */
  lemma LostIsOver(run: seq<System>, steps: seq<Step>, i: nat, a: Address)
    requires IsRun(run, steps) && i < |steps| && a in run[i].nodes && a in run[i+1].nodes && run[i+1].nodes[a].hcc != run[i].nodes[a].hcc
    ensures !LostMark(run, steps, i, a, run[i+1].nodes[a].hcc) && !LostTop(run, steps, i, a, run[i+1].nodes[a].hcc)
  {
    hide LosesMark, LosesTop, Enabled, Next, Init;
    forall j: nat {:trigger steps[j]} | j < i ensures a in run[j+1].nodes ==> run[j+1].nodes[a].hcc != run[i+1].nodes[a].hcc {
      NewTop(run, steps, j, i, a);
    }
  }

  /** A highest committed block that has changed is a new one. */
  lemma NewTop(run: seq<System>, steps: seq<Step>, j: nat, i: nat, a: Address)
    requires IsRun(run, steps) && j < i < |steps| && a in run[i].nodes && a in run[i+1].nodes && run[i+1].nodes[a].hcc != run[i].nodes[a].hcc
    ensures a in run[j+1].nodes && run[j+1].nodes[a].hcc != run[i+1].nodes[a].hcc
  {
    RunGrows(run, steps, j + 1, i);
    RunGrows(run, steps, i, i + 1);
    RunAdvances(run, steps, j + 1, i, a);
    RunAdvances(run, steps, i, i + 1, a);
    AlwaysRooted(run, steps, j + 1, a);
    AlwaysRooted(run, steps, i, a);
    var n, m, k := run[j+1].nodes[a], run[i].nodes[a], run[i+1].nodes[a];
    assert BlockAdvances(n.chain.blocks, m.chain.blocks, n.hcc) && BlockAdvances(m.chain.blocks, k.chain.blocks, n.hcc);
  }

  /** Over every run, exactly: the highest committed block is unmarked if and only if the node crashed
      between saving this very block and marking it, and it has not been finalized since. A later
      block that is committed without a crash restores the mark. */
  lemma {:induction false} MarkedExactly(run: seq<System>, steps: seq<Step>, i: nat, a: Address)
    requires IsRun(run, steps) && i <= |steps| && a in run[i].nodes
    ensures Marked(run[i].nodes[a]) <==> TopFinal(run[i].nodes[a]) || !LostMark(run, steps, i, a, run[i].nodes[a].hcc)
  {
    hide LosesMark, LostMark, LostTop, LosesTop, Marked, Below, TopFinal, Enabled, Next, Init;
    if i == 0 {
      FreshTops(run, steps, a);
    } else {
      MarkedExactly(run, steps, i - 1, a) by { RunGrows(run, steps, i - 1, i); }
      StepInRun(run, steps, i - 1, a);
      LostNext(run, steps, i - 1, a, run[i].nodes[a].hcc);
      MarkedOrFinal(run[i].nodes[a]);
      if run[i].nodes[a].hcc != run[i-1].nodes[a].hcc {
        LostIsOver(run, steps, i - 1, a);
      }
    }
  }

  lemma FreshTops(run: seq<System>, steps: seq<Step>, a: Address)
    requires IsRun(run, steps) && a in run[0].nodes
    ensures Marked(run[0].nodes[a]) && Below(run[0].nodes[a])
    ensures !LostMark(run, steps, 0, a, run[0].nodes[a].hcc) && !LostTop(run, steps, 0, a, run[0].nodes[a].hcc)
  {
    FreshStore(run[0].world.blocks[run[0].world.root]);
  }

  lemma StepInRun(run: seq<System>, steps: seq<Step>, i: nat, a: Address)
    requires IsRun(run, steps) && i < |steps| && a in run[i+1].nodes
    ensures a in run[i].nodes
    ensures
      var n, m := run[i].nodes[a], run[i+1].nodes[a];
      && (m.hcc == n.hcc && TopFinal(n) ==> TopFinal(m))
      && if m.hcc == n.hcc
         then !LosesMark(run[i], steps[i], a) && (Marked(m) <==> Marked(n) || TopFinal(m)) && (Below(m) <==> Below(n) && !LosesTop(run[i], steps[i], a))
         else (Marked(m) <==> !LosesMark(run[i], steps[i], a)) && (Below(m) <==> !LosesTop(run[i], steps[i], a))
  {
    hide LosesMark, LosesTop, Marked, Below, TopFinal;
    RunGrows(run, steps, i, i + 1);
    RunOk(run, steps, i);
    var step := steps[i];
    TopStep(run[i], step, a);
  }

  lemma MarkedOrFinal(n: Node)
    ensures TopFinal(n) ==> Marked(n)
  {
  }

  /** Over every run, exactly: the last finalized block is level with the highest committed one, above
      the root, if and only if the node crashed between saving the one and its child as the other,
      and has committed nothing since. */
  lemma {:induction false} BelowExactly(run: seq<System>, steps: seq<Step>, i: nat, a: Address)
    requires IsRun(run, steps) && i <= |steps| && a in run[i].nodes
    ensures Below(run[i].nodes[a]) <==> !LostTop(run, steps, i, a, run[i].nodes[a].hcc)
  {
    hide LosesMark, LostMark, LostTop, LosesTop, Marked, Below, TopFinal, Enabled, Next, Init;
    if i == 0 {
      FreshTops(run, steps, a);
    } else {
      BelowExactly(run, steps, i - 1, a) by { RunGrows(run, steps, i - 1, i); }
      StepInRun(run, steps, i - 1, a);
      LostNext(run, steps, i - 1, a, run[i].nodes[a].hcc);
      if run[i].nodes[a].hcc != run[i-1].nodes[a].hcc {
        LostIsOver(run, steps, i - 1, a);
      }
    }
  }
}
