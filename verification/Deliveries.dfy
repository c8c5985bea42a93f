/** Crashes while a block is being stored: what they leave of the tree, and when the tip search fails
    because of them (blockchain/chain.go, consensus/engine.go). */
module Deliveries {
  import opened Common
  import opened Validators
  import opened Votes
  import opened BlockTree
  import opened ChainSpec
  import opened ChainTree
  import opened Tip
  import opened Handlers
  import opened NodeInvariant
  import opened Protocol
  import opened Agreement
  import opened Progress

  // ---- one insertion -----------------------------------------------------------------

  /** The crash comes after the link to a stored parent, or after the block, and before the last
      save. */
  ghost predicate CutsAdd(c: ChainData, b: Block, k: nat) {
    b.hash !in c.blocks && ((k == 1 && b.parent in c.blocks) || k == 2)
  }

  ghost predicate Unindexed(c: ChainData, h: Hash) {
    h in c.blocks && h !in HeightEntry(c, c.blocks[h].block.height)
  }

  /** `p` lists `k`, which is not stored, or lists a child twice. */
  ghost predicate Scarred(s: Store, p: Hash, k: Hash) {
    p in s && k in s[p].children && (k !in s || !NoRepeats(s[p].children))
  }

  lemma ScarsShow(c: ChainData, p: Hash, k: Hash)
    requires Scarred(c.blocks, p, k) || Unindexed(c, k)
    ensures !ChainOk(c)
  {
    if Scarred(c.blocks, p, k) {
      assert !ChildrenOk(c.blocks, p);
    } else {
      var height := c.blocks[k].block.height;
      assert !EntryOk(c.blocks, HeightEntry(c, height), height);
    }
  }

  lemma CutLeavesScar(c: ChainData, b: Block, k: nat)
    requires CutsAdd(c, b, k) && EMPTY_HASH !in c.blocks && (k == 2 ==> b.hash !in HeightEntry(c, b.height))
    ensures if k == 1 then Scarred(AddSaved(c, b, k).blocks, b.parent, b.hash) else Unindexed(AddSaved(c, b, k), b.hash)
  {
    LinkShape(c.blocks, LinkToParent(c.blocks, b), b);
  }

  /** From a true tree: the tree is true after the first `k` saves of an insertion exactly unless the
      crash falls between the first effective save and the last. */
  lemma CutExactly(c: ChainData, b: Block, k: nat)
    requires ChainOk(c) && b.hash != EMPTY_HASH && b.height < U64
    ensures ChainOk(AddSaved(c, b, k)) <==> !CutsAdd(c, b, k)
  {
    hide ChainOk;
    if CutsAdd(c, b, k) {
      NotIndexed(c, b);
      CutLeavesScar(c, b, k);
      ScarsShow(AddSaved(c, b, k), b.parent, b.hash);
    } else {
      AddBlockKeeps(c, b);
    }
  }

  lemma NotIndexed(c: ChainData, b: Block)
    requires ChainOk(c) && b.hash !in c.blocks
    ensures EMPTY_HASH !in c.blocks && b.hash !in HeightEntry(c, b.height)
  {
    assert EntryOk(c.blocks, HeightEntry(c, b.height), b.height);
  }

  lemma AddedTwice<T>(s: seq<T>, x: T)
    requires x in s || !NoRepeats(s)
    ensures !NoRepeats(s + [x])
  {
    var t := s + [x];
    if x in s {
      var i :| 0 <= i < |s| && s[i] == x;
      assert t[i] == t[|s|];
    } else {
      var i, j :| 0 <= i < j < |s| && s[i] == s[j];
      assert t[i] == t[j];
    }
  }

  /** The children that any saves of an insertion leave in the list of an old block. */
  lemma SavedChildren(c: ChainData, b: Block, x: nat, p: Hash)
    requires EMPTY_HASH !in c.blocks && p in c.blocks
    ensures
      var t := AddSaved(c, b, x).blocks;
      p in t && t[p].children == if x > 0 && b.hash !in c.blocks && p == b.parent then c.blocks[p].children + [b.hash] else c.blocks[p].children
  {
    hide ChildrenIn;
    LinkShape(c.blocks, LinkToParent(c.blocks, b), b);
  }

  lemma SavedKeys(c: ChainData, b: Block, x: nat)
    requires EMPTY_HASH !in c.blocks
    ensures forall h :: h in AddSaved(c, b, x).blocks <==> h in c.blocks || (h == b.hash && x >= 2)
  {
    hide ChildrenIn;
    LinkShape(c.blocks, LinkToParent(c.blocks, b), b);
  }

  /** Storing a block never heals a scar: the missing child is stored only after it has been linked
      once more. */
  lemma ScarStays(w: World, c: ChainData, b: Block, x: nat, p: Hash, k: Hash)
    requires EMPTY_HASH !in c.blocks && Scarred(c.blocks, p, k) && ChildrenNamed(w, c.blocks) && b.hash in w.blocks && w.blocks[b.hash] == b
    ensures Scarred(AddSaved(c, b, x).blocks, p, k)
  {
    hide AddSaved, NoRepeats;
    assert Named(w, c.blocks[p].children, p);
    SavedChildren(c, b, x, p);
    SavedKeys(c, b, x);
    if k in c.blocks || b.hash == k || p == b.parent {
      if k in c.blocks[p].children && (b.hash == k || !NoRepeats(c.blocks[p].children)) {
        AddedTwice(c.blocks[p].children, b.hash);
      }
    }
  }

  lemma EntryOfSaved(c: ChainData, b: Block, x: nat, height: nat)
    ensures HeightEntry(AddSaved(c, b, x), height) ==
      if x >= 3 && b.hash !in c.blocks && height == b.height && b.hash !in HeightEntry(c, height)
      then HeightEntry(c, height) + [b.hash] else HeightEntry(c, height)
  {
    hide ChildrenIn, LinkToParent;
    EntryAfterAdd(ChainData(AddBlock(c, b, false).blocks, c.heights), b.height, b.hash, height);
  }

  /** Nor does it ever index an old block. */
  lemma UnindexedSaved(c: ChainData, b: Block, x: nat, h: Hash)
    requires EMPTY_HASH !in c.blocks && (b.hash !in c.blocks ==> b.hash !in HeightEntry(c, b.height))
    ensures Unindexed(AddSaved(c, b, x), h) <==> Unindexed(c, h) || (h == b.hash && h !in c.blocks && x == 2)
  {
    hide AddSaved, HeightEntry;
    SavedShape(c, b, x);
    SavedKeys(c, b, x);
    var t := AddSaved(c, b, x).blocks;
    if h in c.blocks {
      assert SameButChildren(c.blocks[h], t[h]);
      EntryOfSaved(c, b, x, c.blocks[h].block.height);
    } else {
      EntryOfSaved(c, b, x, b.height);
    }
  }

  // ---- whole runs --------------------------------------------------------------------

  ghost predicate CutsTree(sys: System, step: Step, a: Address) {
    && step.Deliver? && step.node == a && a in sys.nodes && step.h in sys.world.blocks
    && CutsAdd(sys.nodes[a].chain, sys.world.blocks[step.h], step.persisted)
  }

  /** Height entries hold stored blocks only. */
  ghost predicate EntriesStored(c: ChainData) {
    forall height: nat, h :: h in HeightEntry(c, height) ==> h in c.blocks
  }

  lemma EntriesStay(c: ChainData, d: ChainData)
    requires EntriesStored(c) && SameShape(c, d)
    ensures EntriesStored(d)
  {
    forall height: nat, h | h in HeightEntry(d, height) ensures h in d.blocks {
      assert h in HeightEntry(c, height);
    }
  }

  lemma EntriesSaved(c: ChainData, b: Block, x: nat)
    requires EntriesStored(c) && EMPTY_HASH !in c.blocks
    ensures EntriesStored(AddSaved(c, b, x))
  {
    hide AddSaved;
    SavedKeys(c, b, x);
    forall height: nat, h | h in HeightEntry(AddSaved(c, b, x), height) ensures h in AddSaved(c, b, x).blocks {
      EntryOfSaved(c, b, x, height);
    }
  }

  /** What a step does to the store of a node: an insertion, or writes that leave the tree alone. */
  lemma StepShapes(sys: System, step: Step, a: Address)
    requires SystemOk(sys) && Enabled(sys, step) && a in sys.nodes
    ensures a in Next(sys, step).nodes && EMPTY_HASH !in sys.nodes[a].chain.blocks
    ensures
      var c, d := sys.nodes[a].chain, Next(sys, step).nodes[a].chain;
      if step.Deliver? && step.node == a
      then d == AddSaved(c, sys.world.blocks[step.h], step.persisted) && sys.world.blocks[step.h].hash == step.h && step.h != EMPTY_HASH
        && sys.world.blocks[step.h].height < U64
      else SameShape(c, d)
  {
    hide Writes, ApplyAll, AddSaved, Possible, StopsAt;
    var n := sys.nodes[a];
    assert NodeIn(sys.world, a, n);
    if step.Act? && step.node == a {
      WritesKeepShape(n, Writes(n, sys.world.validators, step.action)[..step.persisted]);
    }
  }

  lemma ShapeKeepsScar(c: ChainData, d: ChainData, p: Hash, k: Hash)
    requires SameShape(c, d)
    ensures Scarred(d.blocks, p, k) <==> Scarred(c.blocks, p, k)
    ensures Unindexed(d, k) <==> Unindexed(c, k)
    ensures MissingChild(d.blocks, p, k) <==> MissingChild(c.blocks, p, k)
  {
    hide NoRepeats;
    assert forall height :: HeightEntry(d, height) == HeightEntry(c, height);
  }

  lemma {:induction false} AlwaysStored(run: seq<System>, steps: seq<Step>, i: nat, a: Address)
    requires IsRun(run, steps) && i <= |steps| && a in run[i].nodes
    ensures EntriesStored(run[i].nodes[a].chain)
  {
    if i == 0 {
      var root := run[0].world.blocks[run[0].world.root];
      FreshStore(root);
      FreshEntries(FreshNode(a, root).chain);
    } else {
      hide EntriesStored, SameShape, AddSaved;
      RunGrows(run, steps, i - 1, i);
      AlwaysStored(run, steps, i - 1, a);
      RunOk(run, steps, i - 1);
      var step := steps[i-1];
      StepShapes(run[i-1], step, a);
      var c, d := run[i-1].nodes[a].chain, run[i].nodes[a].chain;
      if step.Deliver? && step.node == a {
        EntriesSaved(c, run[i-1].world.blocks[step.h], step.persisted);
      } else {
        EntriesStay(c, d);
      }
    }
  }

  lemma FreshEntries(c: ChainData)
    requires ChainOk(c)
    ensures EntriesStored(c)
  {
    forall height: nat, h | h in HeightEntry(c, height) ensures h in c.blocks {
      assert EntryOk(c.blocks, HeightEntry(c, height), height);
    }
  }

  /** A scar or a gap in the index, once there, is there for good. */
  lemma ScarStep(sys: System, step: Step, a: Address, p: Hash, k: Hash)
    requires SystemOk(sys) && Enabled(sys, step) && a in sys.nodes && EntriesStored(sys.nodes[a].chain)
    requires Scarred(sys.nodes[a].chain.blocks, p, k) || Unindexed(sys.nodes[a].chain, k)
    ensures
      var d := Next(sys, step).nodes[a].chain;
      Scarred(d.blocks, p, k) || Unindexed(d, k)
  {
    hide AddSaved, Scarred, Unindexed, SameShape, HeightEntry;
    StepShapes(sys, step, a);
    assert NodeIn(sys.world, a, sys.nodes[a]);
    var c := sys.nodes[a].chain;
    if step.Deliver? && step.node == a {
      if Scarred(c.blocks, p, k) {
        ScarStays(sys.world, c, sys.world.blocks[step.h], step.persisted, p, k);
      } else {
        UnindexedSaved(c, sys.world.blocks[step.h], step.persisted, k);
      }
    } else {
      ShapeKeepsScar(c, Next(sys, step).nodes[a].chain, p, k);
    }
  }

  lemma {:induction false} ScarForGood(run: seq<System>, steps: seq<Step>, i: nat, j: nat, a: Address, p: Hash, k: Hash)
    requires IsRun(run, steps) && i <= j <= |steps| && a in run[i].nodes
    requires Scarred(run[i].nodes[a].chain.blocks, p, k) || Unindexed(run[i].nodes[a].chain, k)
    ensures a in run[j].nodes && (Scarred(run[j].nodes[a].chain.blocks, p, k) || Unindexed(run[j].nodes[a].chain, k))
    decreases j - i
  {
    hide Scarred, Unindexed, EntriesStored;
    if i < j {
      RunGrows(run, steps, i, j - 1);
      ScarForGood(run, steps, i, j - 1, a, p, k);
      RunOk(run, steps, j - 1);
      AlwaysStored(run, steps, j - 1, a);
      RunGrows(run, steps, j - 1, j);
      var step := steps[j-1];
      ScarStep(run[j-1], step, a, p, k);
    }
  }

  /** The node never crashed inside an insertion where that matters. */
  ghost predicate WholeDeliveries(run: seq<System>, steps: seq<Step>, i: nat, a: Address)
    requires i <= |steps| < |run|
  {
    forall j {:trigger steps[j]} :: 0 <= j < i ==> !CutsTree(run[j], steps[j], a)
  }

  lemma TreeStep(sys: System, step: Step, a: Address)
    requires SystemOk(sys) && Enabled(sys, step) && a in sys.nodes && ChainOk(sys.nodes[a].chain)
    ensures ChainOk(Next(sys, step).nodes[a].chain) <==> !CutsTree(sys, step, a)
  {
    hide ChainOk, AddSaved, SameShape;
    StepShapes(sys, step, a);
    var c := sys.nodes[a].chain;
    if step.Deliver? && step.node == a {
      CutExactly(c, sys.world.blocks[step.h], step.persisted);
    } else {
      ShapeKeepsChain(c, Next(sys, step).nodes[a].chain);
    }
  }

  lemma TreeScar(sys: System, step: Step, a: Address) returns (p: Hash, k: Hash)
    requires SystemOk(sys) && Enabled(sys, step) && a in sys.nodes && CutsTree(sys, step, a) && EntriesStored(sys.nodes[a].chain)
    ensures
      var d := Next(sys, step).nodes[a].chain;
      Scarred(d.blocks, p, k) || Unindexed(d, k)
  {
    hide AddSaved, Scarred, Unindexed, HeightEntry;
    StepShapes(sys, step, a);
    var b := sys.world.blocks[step.h];
    p, k := b.parent, b.hash;
    CutLeavesScar(sys.nodes[a].chain, b, step.persisted);
  }

  lemma {:induction false} WholeKeeps(run: seq<System>, steps: seq<Step>, i: nat, a: Address)
    requires IsRun(run, steps) && i <= |steps| && a in run[i].nodes && WholeDeliveries(run, steps, i, a)
    ensures ChainOk(run[i].nodes[a].chain)
  {
    hide ChainOk, CutsTree;
    if i == 0 {
      FreshStore(run[0].world.blocks[run[0].world.root]);
    } else {
      RunGrows(run, steps, i - 1, i);
      WholeKeeps(run, steps, i - 1, a);
      RunOk(run, steps, i - 1);
      var step := steps[i-1];
      TreeStep(run[i-1], step, a);
    }
  }

  /** Over every run, exactly: children lists and height entries are those of the stored blocks, each
      once, if and only if the node itself never crashed inside an insertion. What such a crash
      leaves is never made good, not even by receiving the block again. */
  lemma TreeExactly(run: seq<System>, steps: seq<Step>, i: nat, a: Address)
    requires IsRun(run, steps) && i <= |steps| && a in run[i].nodes
    ensures ChainOk(run[i].nodes[a].chain) <==> WholeDeliveries(run, steps, i, a)
  {
    hide ChainOk, CutsTree, Enabled, Next;
    if WholeDeliveries(run, steps, i, a) {
      WholeKeeps(run, steps, i, a);
    } else {
      var j :| 0 <= j < i && CutsTree(run[j], steps[j], a);
      CutForGood(run, steps, j, i, a);
    }
  }

  lemma CutForGood(run: seq<System>, steps: seq<Step>, j: nat, i: nat, a: Address)
    requires IsRun(run, steps) && j < i <= |steps| && a in run[i].nodes && CutsTree(run[j], steps[j], a)
    ensures !ChainOk(run[i].nodes[a].chain)
  {
    hide ChainOk, Scarred, Unindexed, EntriesStored;
    RunOk(run, steps, j);
    RunGrows(run, steps, j, i);
    AlwaysStored(run, steps, j, a);
    var p, k := TreeScar(run[j], steps[j], a);
    ScarForGood(run, steps, j + 1, i, a, p, k);
    ScarsShow(run[i].nodes[a].chain, p, k);
  }

  lemma UnindexedStep(sys: System, step: Step, a: Address, h: Hash)
    requires SystemOk(sys) && Enabled(sys, step) && a in sys.nodes && EntriesStored(sys.nodes[a].chain)
    ensures Unindexed(Next(sys, step).nodes[a].chain, h) <==>
      Unindexed(sys.nodes[a].chain, h) || (step == Deliver(a, h, 2) && h !in sys.nodes[a].chain.blocks)
  {
    hide AddSaved, Unindexed, SameShape, HeightEntry;
    StepShapes(sys, step, a);
    var c := sys.nodes[a].chain;
    if step.Deliver? && step.node == a {
      UnindexedSaved(c, sys.world.blocks[step.h], step.persisted, h);
    } else {
      ShapeKeepsScar(c, Next(sys, step).nodes[a].chain, h, h);
    }
  }

  /** Over every run, exactly: a stored block is missing from its height entry, where its parent would
      look for it, if and only if the node crashed between storing and indexing it. */
  lemma {:induction false} UnindexedExactly(run: seq<System>, steps: seq<Step>, i: nat, a: Address, h: Hash)
    requires IsRun(run, steps) && i <= |steps| && a in run[i].nodes
    ensures Unindexed(run[i].nodes[a].chain, h) <==>
      exists j: nat :: j < i && StoredOnly(run, steps, j, a, h)
  {
    hide Unindexed, StoredOnly, Enabled, Next, Init;
    if i == 0 {
      FreshIsIndexed(run, steps, a, h);
    } else {
      UnindexedExactly(run, steps, i - 1, a, h) by { RunGrows(run, steps, i - 1, i); }
      UnindexedNext(run, steps, i - 1, a, h);
    }
  }

  lemma FreshIsIndexed(run: seq<System>, steps: seq<Step>, a: Address, h: Hash)
    requires IsRun(run, steps) && a in run[0].nodes
    ensures !Unindexed(run[0].nodes[a].chain, h)
  {
    hide Unindexed, ChainOk;
    var root := run[0].world.blocks[run[0].world.root];
    FreshStore(root);
    if Unindexed(FreshNode(a, root).chain, h) {
      ScarsShow(FreshNode(a, root).chain, h, h);
    }
  }

  lemma UnindexedNext(run: seq<System>, steps: seq<Step>, i: nat, a: Address, h: Hash)
    requires IsRun(run, steps) && i < |steps| && a in run[i+1].nodes
    ensures a in run[i].nodes
    ensures Unindexed(run[i+1].nodes[a].chain, h) <==> Unindexed(run[i].nodes[a].chain, h) || StoredOnly(run, steps, i, a, h)
  {
    hide Unindexed, EntriesStored;
    RunGrows(run, steps, i, i + 1);
    RunOk(run, steps, i);
    AlwaysStored(run, steps, i, a);
    var step := steps[i];
    UnindexedStep(run[i], step, a, h);
  }

  /** Step `j` stored `h` and crashed before indexing it. */
  ghost predicate StoredOnly(run: seq<System>, steps: seq<Step>, j: nat, a: Address, h: Hash)
    requires j < |steps| < |run|
  {
    steps[j] == Deliver(a, h, 2) && a in run[j].nodes && h !in run[j].nodes[a].chain.blocks
  }

  // ---- missing children --------------------------------------------------------------

  /** Step `j` linked `k` from its stored parent `p` and crashed before storing it. */
  ghost predicate LinkedOnly(run: seq<System>, steps: seq<Step>, j: nat, a: Address, p: Hash, k: Hash)
    requires j < |steps| < |run|
  {
    && steps[j] == Deliver(a, k, 1) && a in run[j].nodes && k in run[j].world.blocks && run[j].world.blocks[k].parent == p
    && p in run[j].nodes[a].chain.blocks
  }

  lemma KidsStored(s: Store, hashes: seq<Hash>, parent: Hash)
    ensures forall k :: k in ChildrenIn(s, hashes, parent) ==> k in s
  {
  }

  lemma MissingSaved(c: ChainData, b: Block, x: nat, p: Hash, k: Hash)
    requires EMPTY_HASH !in c.blocks
    ensures MissingChild(AddSaved(c, b, x).blocks, p, k) <==>
      k !in AddSaved(c, b, x).blocks && (MissingChild(c.blocks, p, k) || (b.hash == k && x == 1 && p == b.parent && p in c.blocks))
  {
    hide ChildrenIn;
    SavedKeys(c, b, x);
    if p in c.blocks {
      SavedChildren(c, b, x, p);
    } else {
      var s := LinkToParent(c.blocks, b);
      LinkShape(c.blocks, s, b);
      KidsStored(s, HeightEntry(c, (b.height + 1) % U64), b.hash);
    }
  }

  lemma MissingStep(sys: System, step: Step, a: Address, p: Hash, k: Hash)
    requires SystemOk(sys) && Enabled(sys, step) && a in sys.nodes
    ensures
      var s, t := sys.nodes[a].chain.blocks, Next(sys, step).nodes[a].chain.blocks;
      && (k in s ==> k in t)
      && (MissingChild(t, p, k) <==>
        && k !in t
        && (MissingChild(s, p, k) || (step == Deliver(a, k, 1) && sys.world.blocks[k].parent == p && p in s)))
  {
    hide AddSaved, SameShape, MissingChild;
    StepShapes(sys, step, a);
    var c, d := sys.nodes[a].chain, Next(sys, step).nodes[a].chain;
    if step.Deliver? && step.node == a {
      var b := sys.world.blocks[step.h];
      SavedKeys(c, b, step.persisted);
      MissingSaved(c, b, step.persisted, p, k);
    } else {
      ShapeKeepsScar(c, d, p, k);
      SameKeys(c, d);
      NotMissing(c.blocks, p, k);
    }
  }

  lemma SameKeys(c: ChainData, d: ChainData)
    requires SameShape(c, d)
    ensures d.blocks.Keys == c.blocks.Keys
  {
  }

  lemma NotMissing(s: Store, p: Hash, k: Hash)
    ensures MissingChild(s, p, k) ==> k !in s
  {
  }

  /** Over every run, exactly: a block lists a missing child if and only if the node once crashed
      between linking that child and storing it, and has not stored it since. */
  lemma {:induction false} MissingExactly(run: seq<System>, steps: seq<Step>, i: nat, a: Address, p: Hash, k: Hash)
    requires IsRun(run, steps) && i <= |steps| && a in run[i].nodes
    ensures MissingChild(run[i].nodes[a].chain.blocks, p, k) <==>
      k !in run[i].nodes[a].chain.blocks && exists j: nat :: j < i && LinkedOnly(run, steps, j, a, p, k)
  {
    if i == 0 {
      FreshStore(run[0].world.blocks[run[0].world.root]);
    } else {
      hide MissingChild, LinkedOnly;
      RunGrows(run, steps, i - 1, i);
      MissingExactly(run, steps, i - 1, a, p, k);
      RunOk(run, steps, i - 1);
      var step := steps[i-1];
      MissingStep(run[i-1], step, a, p, k);
      LinkedAt(run, steps, i - 1, a, p, k);
    }
  }

  lemma LinkedAt(run: seq<System>, steps: seq<Step>, j: nat, a: Address, p: Hash, k: Hash)
    requires IsRun(run, steps) && j < |steps| && a in run[j].nodes
    ensures LinkedOnly(run, steps, j, a, p, k) <==>
      steps[j] == Deliver(a, k, 1) && run[j].world.blocks[k].parent == p && p in run[j].nodes[a].chain.blocks
  {
    var step := steps[j];
    assert Enabled(run[j], step);
  }

  /** In every state of every run the tip search fails if and only if it comes to the parent of a
      block that the node once linked from there, crashed before storing, and has not stored since. */
  lemma SearchFailsExactly(run: seq<System>, steps: seq<Step>, i: nat, a: Address, flag: bool)
    requires IsRun(run, steps) && i <= |steps| && a in run[i].nodes
    ensures
      var n := run[i].nodes[a];
      var s := n.chain.blocks;
      && TreeOk(s) && n.hcc in s
      && (MeetsMissing(s, flag, n.hcc) <==>
        exists j: nat, p, k :: j < i && LinkedOnly(run, steps, j, a, p, k) && k !in s && Reachable(s, flag, n.hcc, p))
  {
    hide LinkedOnly, Reachable, MissingChild, TreeOk;
    SearchableAt(run, steps, i, a);
    var s := run[i].nodes[a].chain.blocks;
    if MeetsMissing(s, flag, run[i].nodes[a].hcc) {
      var p, k :| MissingChild(s, p, k) && Reachable(s, flag, run[i].nodes[a].hcc, p);
      MissingExactly(run, steps, i, a, p, k);
    } else {
      forall j: nat, p, k | j < i && LinkedOnly(run, steps, j, a, p, k) && k !in s
        ensures !Reachable(s, flag, run[i].nodes[a].hcc, p)
      {
        MissingExactly(run, steps, i, a, p, k);
      }
    }
  }

  lemma SearchableAt(run: seq<System>, steps: seq<Step>, i: nat, a: Address)
    requires IsRun(run, steps) && i <= |steps| && a in run[i].nodes
    ensures TreeOk(run[i].nodes[a].chain.blocks) && run[i].nodes[a].hcc in run[i].nodes[a].chain.blocks
  {
    RunOk(run, steps, i);
    var w, n := run[i].world, run[i].nodes[a];
    assert NodeIn(w, a, n);
    ViewIsTree(w, n.chain.blocks, n.hcc, n.lfb);
  }
}
