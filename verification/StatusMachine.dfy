/** What finality and the highest committed block look like between handlers, over whole runs, and
    exactly which crashes upset it. */
module StatusMachine {
  import opened Validators
  import opened Votes
  import opened BlockTree
  import opened ChainSpec
  import opened ChainTree
  import opened Handlers
  import opened NodeInvariant
  import opened HandlerSafety
  import opened Protocol
  import opened Passes
  import opened Agreement
  import opened Progress

  ghost predicate FinalParent(s: Store, h: Hash)
    requires h in s
  {
    s[h].block.parent in s && IsFinalized(s[s[h].block.parent].status)
  }

  /** Finalized blocks other than the root and the children of `hole` have finalized parents. */
  ghost predicate ClosedBut(s: Store, root: Hash, hole: Hash) {
    forall h {:trigger FinalParent(s, h)} ::
      h in s && IsFinalized(s[h].status) && h != root && s[h].block.parent != hole ==> FinalParent(s, h)
  }

  /** The finalized blocks are closed under parents, down to the root. */
  ghost predicate Closed(s: Store, root: Hash) {
    forall h {:trigger FinalParent(s, h)} :: h in s && IsFinalized(s[h].status) && h != root ==> FinalParent(s, h)
  }

  /** The highest committed block is marked as committed, or final. */
  ghost predicate Marked(n: Node) {
    var s := n.chain.blocks;
    n.hcc in s && (s[n.hcc].status.Committed? || IsFinalized(s[n.hcc].status))
  }

  /** The last finalized block is below the highest committed one, unless both are the root. */
  ghost predicate Below(n: Node) {
    (n.hcc == n.root && n.lfb == n.root) || HeightIn(n.chain.blocks, n.lfb) < HeightIn(n.chain.blocks, n.hcc)
  }

  /** Which of the three are looked at. The last two are not asked for as long as `top` is the highest
      committed block. That block is no lower than `low`. */
  datatype Track = Track(closed: bool, marked: bool, below: bool, top: Hash, low: nat)

  /** All the time. */
  function Always(closed: bool, marked: bool, below: bool): Track {
    Track(closed, marked, below, EMPTY_HASH, 0)
  }

  ghost predicate MarkedBut(t: Track, n: Node) {
    n.hcc == t.top || Marked(n)
  }

  ghost predicate BelowBut(t: Track, n: Node) {
    n.hcc == t.top || Below(n)
  }

  ghost predicate HoldsAt(t: Track, n: Node) {
    && (t.closed ==> Closed(n.chain.blocks, n.root)) && (t.marked ==> MarkedBut(t, n)) && (t.below ==> BelowBut(t, n))
    && t.low <= HeightIn(n.chain.blocks, n.hcc)
  }

  // ---- where a crash hurts -----------------------------------------------------------

  predicate IsFinalMark(x: Write) {
    x.PutStatus? && (x.status.DirectlyFinalized? || x.status.IndirectlyFinalized?)
  }

  /** A crash right before `x` leaves a marking walk half done. */
  predicate CutsWalk(x: Write) {
    x.PutStatus? && x.status.IndirectlyFinalized?
  }

  /** A crash right before `x` leaves the highest committed block unmarked. */
  predicate CutsMark(x: Write) {
    x.PutStatus? && x.status.Committed?
  }

  /** A crash right before `x` leaves the last finalized block level with the highest committed
      one: the parent of a new committed block is final, the block itself not yet saved. */
  ghost predicate CutsBelow(n: Node, x: Write) {
    || IsFinalMark(x)
    || (x.PutHcc? && x.h in n.chain.blocks && n.chain.blocks[x.h].block.parent == n.chain.blocks[x.h].block.hcc
      && n.chain.blocks[x.h].block.parent != n.root)
  }

  /** Right before `x`, each of the three holds exactly unless a crash here upsets it. */
  ghost predicate CutExactly(t: Track, n: Node, x: Write) {
    && (t.closed ==> (Closed(n.chain.blocks, n.root) <==> !CutsWalk(x)))
    && (t.marked ==> n.hcc == t.top || (Marked(n) <==> !CutsMark(x)))
    && (t.below ==> n.hcc == t.top || (Below(n) <==> !CutsBelow(n, x)))
    && t.low <= HeightIn(n.chain.blocks, n.hcc) && (CutsMark(x) ==> x.h == n.hcc && t.low < HeightIn(n.chain.blocks, n.hcc))
  }

  ghost function Fact(t: Track): Node -> bool {
    n => HoldsAt(t, n)
  }

  ghost function Rule(t: Track): (Node, Write) -> bool {
    (n, x) => CutExactly(t, n, x)
  }

  // ---- writes that do not touch finality ---------------------------------------------

  lemma QuietCloses(n: Node, x: Write)
    requires Quiet(x) && Guard(n, x) && Closed(n.chain.blocks, n.root)
    ensures Closed(Apply(n, x).chain.blocks, n.root)
  {
    var s, t := n.chain.blocks, Apply(n, x).chain.blocks;
    if x.PutStatus? {
      StatusRestatus(s, x.h, x.status);
    }
    forall h | h in t && IsFinalized(t[h].status) && h != n.root ensures FinalParent(t, h) {
      assert FinalParent(s, h);
      assert t[s[h].block.parent].block == s[s[h].block.parent].block;
    }
  }

  lemma QuietTops(n: Node, x: Write)
    requires Quiet(x) && Guard(n, x) && Rooted(n)
    ensures Marked(n) ==> Marked(Apply(n, x))
    ensures Below(n) ==> Below(Apply(n, x))
    ensures Apply(n, x).hcc == n.hcc && HeightIn(Apply(n, x).chain.blocks, n.hcc) == HeightIn(n.chain.blocks, n.hcc)
  {
    var s, t := n.chain.blocks, Apply(n, x).chain.blocks;
    if x.PutStatus? {
      StatusRestatus(s, x.h, x.status);
    }
  }

  lemma QuietKeeps(t: Track, n: Node, x: Write)
    requires HoldsAt(t, n) && Quiet(x) && Guard(n, x) && Rooted(n)
    ensures CutExactly(t, n, x) && HoldsAt(t, Apply(n, x))
  {
    hide Closed, Marked, Below, Guard;
    if t.closed {
      QuietCloses(n, x);
    }
    QuietTops(n, x);
  }

  // ---- finalizing --------------------------------------------------------------------

  ghost predicate HasFinalChild(s: Store, root: Hash, h: Hash) {
    exists c :: c in s && IsFinalized(s[c].status) && c != root && s[c].block.parent == h
  }

  lemma OpenBelow(s: Store, root: Hash, h: Hash)
    requires HasFinalChild(s, root, h) && (h in s ==> !IsFinalized(s[h].status))
    ensures !Closed(s, root)
  {
    var c :| c in s && IsFinalized(s[c].status) && c != root && s[c].block.parent == h;
    assert !FinalParent(s, c);
  }

  lemma MarkOneCloses(s: Store, root: Hash, h: Hash, st: Status)
    requires h in s && h != root && IsFinalized(st) && ClosedBut(s, root, h)
    ensures ClosedBut(SetStatus(s, h, st), root, s[h].block.parent) && HasFinalChild(SetStatus(s, h, st), root, s[h].block.parent)
  {
    var t := SetStatus(s, h, st);
    StatusRestatus(s, h, st);
    forall g | g in t && IsFinalized(t[g].status) && g != root && t[g].block.parent != s[h].block.parent ensures FinalParent(t, g) {
      assert t[g].block == s[g].block;
      if s[g].block.parent != h {
        assert FinalParent(s, g);
        assert t[s[g].block.parent].block == s[s[g].block.parent].block;
      }
    }
    assert h in t && IsFinalized(t[h].status) && t[h].block.parent == s[h].block.parent;
  }

  lemma HoleFilled(s: Store, root: Hash, h: Hash)
    requires ClosedBut(s, root, h) && h in s && IsFinalized(s[h].status)
    ensures Closed(s, root)
  {
    forall g | g in s && IsFinalized(s[g].status) && g != root ensures FinalParent(s, g) {}
  }

  lemma NoHole(s: Store, root: Hash, h: Hash)
    requires Closed(s, root)
    ensures ClosedBut(s, root, h)
  {
    forall g | g in s && IsFinalized(s[g].status) && g != root ensures FinalParent(s, g) {}
  }

  /** The last finalized block is level with the highest committed one, above the root. */
  ghost predicate Level(n: Node) {
    HeightIn(n.chain.blocks, n.lfb) == HeightIn(n.chain.blocks, n.hcc) && !(n.hcc == n.root && n.lfb == n.root)
  }

  /** In the middle of finalizing, with `h` to be looked at next. */
  ghost predicate Marking(t: Track, n: Node, h: Hash, st: Status) {
    && (t.closed ==> ClosedBut(n.chain.blocks, n.root, h))
    && (t.closed ==> if st.DirectlyFinalized? then Closed(n.chain.blocks, n.root) else HasFinalChild(n.chain.blocks, n.root, h))
    && (t.marked ==> MarkedBut(t, n)) && Level(n) && t.low <= HeightIn(n.chain.blocks, n.hcc)
  }

  lemma NotRoot(w: World, inv: Node -> bool, n: Node, h: Hash)
    requires Names(inv, w) && inv(n) && h in n.chain.blocks && !IsFinalized(n.chain.blocks[h].status)
    ensures h != n.root && n.root == w.root
  {
    assert At(n);
  }

  lemma MarkStands(t: Track, n: Node, h: Hash, st: Status)
    requires Marking(t, n, h, st) && h in n.chain.blocks && h != n.root && !IsFinalized(n.chain.blocks[h].status)
    requires st.DirectlyFinalized? || st.IndirectlyFinalized?
    ensures CutExactly(t, n, PutStatus(h, st))
    ensures Marking(t, Apply(n, PutStatus(h, st)), n.chain.blocks[h].block.parent, IndirectlyFinalized)
  {
    hide Closed, ClosedBut, HasFinalChild;
    var s := n.chain.blocks;
    if t.closed {
      if st.IndirectlyFinalized? {
        OpenBelow(s, n.root, h);
      }
      MarkOneCloses(s, n.root, h, st);
    }
  }

  lemma {:induction false} MarksPass(w: World, inv: Node -> bool, t: Track, n: Node, h: Hash, st: Status)
    requires Names(inv, w) && inv(n) && h in n.chain.blocks && BlockTree.IsValid(n.chain.blocks[h].status) && Anc(w.blocks, h, n.lfb)
    requires st.IndirectlyFinalized? || (st.DirectlyFinalized? && h == n.lfb)
    requires Marking(t, n, h, st)
    ensures
      var ws := MarkAll(Walk(n.chain.blocks, h), st);
      var n' := ApplyAll(n, ws);
      && Each(Rule(t), n, ws) && (t.closed ==> Closed(n'.chain.blocks, n'.root)) && (t.marked ==> MarkedBut(t, n')) && Level(n')
      && t.low <= HeightIn(n'.chain.blocks, n'.hcc) && n'.hcc == n.hcc
    decreases NotFinalized(n.chain.blocks)
  {
    hide Closed, MarkedBut, Level, CutExactly, HeightIn;
    var s := n.chain.blocks;
    if IsFinalized(s[h].status) {
      if t.closed {
        HoleFilled(s, n.root, h);
      }
    } else {
      NotRoot(w, inv, n, h);
      MarkStands(t, n, h, st);
      var n1, p := MarkOne(w, inv, n, h, st);
      MarksPass(w, inv, t, n1, p, IndirectlyFinalized);
      var rest := MarkAll(Walk(n1.chain.blocks, p), IndirectlyFinalized);
      assert ([PutStatus(h, st)] + rest)[0] == PutStatus(h, st) && ([PutStatus(h, st)] + rest)[1..] == rest;
      assert Rule(t)(n, PutStatus(h, st));
    }
  }

  lemma RootIsLowest(w: World, inv: Node -> bool, n: Node, g: Hash)
    requires Names(inv, w) && inv(n) && g in n.chain.blocks && BlockTree.IsValid(n.chain.blocks[g].status)
    requires HeightIn(n.chain.blocks, g) <= HeightIn(n.chain.blocks, n.root)
    ensures g == n.root
  {
    LookInside(w, inv, n);
    assert n.root == w.root by {
      assert At(n);
    }
    RootIsAncestor(w, n.chain.blocks, HeightIn(n.chain.blocks, n.hcc), g);
    AncHeight(w.blocks, w.root, g);
  }

  /** What is known once the parent `p` of a block about to be committed has been finalized. */
  ghost predicate Finalized(t: Track, n: Node, p: Hash) {
    && (t.closed ==> Closed(n.chain.blocks, n.root)) && (t.marked ==> MarkedBut(t, n))
    && (t.below ==> n.hcc == t.top || if p == n.root then Below(n) else Level(n)) && t.low <= HeightIn(n.chain.blocks, n.hcc)
  }

  lemma ParentStarts(w: World, inv: Node -> bool, n: Node, p: Hash)
    requires Names(inv, w) && inv(n) && p in n.chain.blocks && BlockTree.IsValid(n.chain.blocks[p].status)
    requires HeightIn(n.chain.blocks, p) == HeightIn(n.chain.blocks, n.hcc)
    ensures p != n.lfb ==> p != n.root && !(n.hcc == n.root)
    ensures p == n.lfb && Below(n) ==> p == n.root
  {
    LookInside(w, inv, n);
    if p == n.root || n.hcc == n.root {
      RootIsLowest(w, inv, n, n.lfb);
      RootIsLowest(w, inv, n, p);
    }
  }

  lemma FinalizePasses(w: World, inv: Node -> bool, t: Track, n: Node, p: Hash)
    requires Names(inv, w) && inv(n) && p in n.chain.blocks && BlockTree.IsValid(n.chain.blocks[p].status) && DirectFinal(w, p)
    requires HeightIn(n.chain.blocks, n.lfb) <= HeightIn(n.chain.blocks, p) == HeightIn(n.chain.blocks, n.hcc)
    requires HoldsAt(t, n)
    ensures Each(Rule(t), n, FinalizeBlock(n, p)) && Finalized(t, ApplyAll(n, FinalizeBlock(n, p)), p)
  {
    hide Closed, Marked;
    ParentStarts(w, inv, n, p);
    if p != n.lfb {
      LfbKeeps(w, inv, n, p);
      var n1, marks := Apply(n, PutLfb(p)), MarkAll(Walk(n.chain.blocks, p), DirectlyFinalized);
      if t.closed {
        NoHole(n.chain.blocks, n.root, p);
      }
      MarkedStays(n, n1);
      MarksPass(w, inv, t, n1, p, DirectlyFinalized);
      assert ([PutLfb(p)] + marks)[0] == PutLfb(p) && ([PutLfb(p)] + marks)[1..] == marks;
      assert Rule(t)(n, PutLfb(p));
      MarksKeepRoot(n1, Walk(n.chain.blocks, p), DirectlyFinalized);
    }
  }

  lemma MarkedStays(n: Node, m: Node)
    requires m == n.(lfb := m.lfb)
    ensures Marked(n) ==> Marked(m)
  {
  }

  lemma {:induction false} MarksKeepRoot(n: Node, hs: seq<Hash>, st: Status)
    ensures ApplyAll(n, MarkAll(hs, st)).root == n.root
    decreases hs
  {
    if hs != [] {
      var rest := MarkAll(hs[1..], IndirectlyFinalized);
      assert ([PutStatus(hs[0], st)] + rest)[1..] == rest;
      MarksKeepRoot(Apply(n, PutStatus(hs[0], st)), hs[1..], IndirectlyFinalized);
    }
  }

  // ---- committing --------------------------------------------------------------------

  lemma CommitPasses(t: Track, n: Node, h: Hash)
    requires h in n.chain.blocks && n.chain.blocks[h].status.Valid? && CutExactly(t, n, PutHcc(h))
    requires HeightIn(n.chain.blocks, n.lfb) < HeightIn(n.chain.blocks, h) && t.low < HeightIn(n.chain.blocks, h)
    ensures ListPasses(Fact(t), Rule(t), n, [PutHcc(h), PutStatus(h, Committed)])
  {
    var commit := [PutHcc(h), PutStatus(h, Committed)];
    var n1 := Apply(n, PutHcc(h));
    assert commit[1..] == [PutStatus(h, Committed)] && commit[1..][1..] == [];
    ApplyTwo(n, commit[0], commit[1]);
    assert Rule(t)(n, commit[0]) && Rule(t)(n1, commit[1]);
    assert Each(Rule(t), Apply(n1, commit[1]), []) && Each(Rule(t), n1, [commit[1]]);
    if t.closed {
      CommitCloses(n.chain.blocks, n.root, h);
    }
  }

  lemma CommitCloses(s: Store, root: Hash, h: Hash)
    requires Closed(s, root) && h in s && s[h].status.Valid?
    ensures Closed(SetStatus(s, h, Committed), root)
  {
    var t := SetStatus(s, h, Committed);
    StatusRestatus(s, h, Committed);
    forall g | g in t && IsFinalized(t[g].status) && g != root ensures FinalParent(t, g) {
      assert FinalParent(s, g);
      assert t[s[g].block.parent].block == s[s[g].block.parent].block;
    }
  }

  lemma CommitAfter(w: World, inv: Node -> bool, t: Track, n: Node, h: Hash)
    requires Names(inv, w) && inv(n) && h in n.chain.blocks && HoldsAt(t, n)
    requires n.chain.blocks[h].status.Valid? && Certified(w, h)
    requires n.chain.blocks[h].block.height > HeightIn(n.chain.blocks, n.hcc)
    requires n.chain.blocks[h].block.parent == n.chain.blocks[h].block.hcc
    ensures
      var ws := FinalizeBlock(n, n.chain.blocks[h].block.parent) + [PutHcc(h), PutStatus(h, Committed)];
      ListPasses(Fact(t), Rule(t), n, ws)
  {
    hide Closed, Marked;
    var p := n.chain.blocks[h].block.parent;
    var ws, commit := FinalizeBlock(n, p), [PutHcc(h), PutStatus(h, Committed)];
    AboveTop(w, inv, n, h);
    ParentIsFinal(w, inv, n, h);
    FinalizeSafe(w, inv, n, p);
    FinalizePasses(w, inv, t, n, p);
    var n1 := ApplyAll(n, ws);
    assert FinalizedOrSame(w, n.chain.blocks[h], n1.chain.blocks[h], h, p);
    assert FinalizedOrSame(w, n.chain.blocks[p], n1.chain.blocks[p], p, p);
    assert !Anc(w.blocks, h, p);
    CommitPasses(t, n1, h);
    EachConcat(Rule(t), n, ws, commit);
    ApplyAllConcat(n, ws, commit);
  }

  lemma CheckPasses(w: World, inv: Node -> bool, t: Track, n: Node, h: Hash)
    requires Names(inv, w) && inv(n) && HoldsAt(t, n)
    ensures ListPasses(Fact(t), Rule(t), n, CheckCC(n, w.validators, h))
  {
    var ws := CheckCC(n, w.validators, h);
    if ws != [] {
      hide HoldsAt, Rule, Fact;
      var eb := n.chain.blocks[h];
      AboveTop(w, inv, n, h);
      assert At(n);
      IndexMajority(w, n, h);
      if eb.block.parent == eb.block.hcc {
        CommitAfter(w, inv, t, n, h);
      } else {
        CommitAlone(w, inv, t, n, h);
        assert ws == [PutHcc(h), PutStatus(h, Committed)];
      }
    }
  }

  lemma CommitAlone(w: World, inv: Node -> bool, t: Track, n: Node, h: Hash)
    requires Names(inv, w) && inv(n) && h in n.chain.blocks && HoldsAt(t, n)
    requires n.chain.blocks[h].status.Valid? && n.chain.blocks[h].block.height > HeightIn(n.chain.blocks, n.hcc)
    requires n.chain.blocks[h].block.parent != n.chain.blocks[h].block.hcc
    ensures ListPasses(Fact(t), Rule(t), n, [PutHcc(h), PutStatus(h, Committed)])
  {
    LookInside(w, inv, n);
    CommitPasses(t, n, h);
  }

  // ---- whole handlers ----------------------------------------------------------------

  lemma TrackPasses(w: World, inv: Node -> bool, t: Track)
    requires Names(inv, w)
    ensures AllPass(inv, Fact(t), Rule(t), w.validators)
  {
    hide HoldsAt, CutExactly, CheckCC, Guard, ListPasses;
    forall n, x | inv(n) && Fact(t)(n) && Quiet(x) && Guard(n, x) ensures Rule(t)(n, x) && Fact(t)(Apply(n, x)) {
      InvRooted(w, inv, n);
      QuietKeeps(t, n, x);
    }
    forall n, h | inv(n) && Fact(t)(n) ensures ListPasses(Fact(t), Rule(t), n, CheckCC(n, w.validators, h)) {
      CheckPasses(w, inv, t, n, h);
    }
    QuietVotesPass(inv, Fact(t), Rule(t), w.validators);
  }

  lemma ActTracks(w: World, n: Node, a: Action, t: Track)
    requires WorldOk(w) && NodeOk(w, n) && HoldsAt(t, n) && Possible(w, n, a)
    ensures Each(Rule(t), n, Writes(n, w.validators, a)) && HoldsAt(t, ApplyAll(n, Writes(n, w.validators, a)))
  {
    hide HoldsAt, CutExactly, Writes, AllPass;
    var inv := n => NodeOk(w, n);
    assert Names(inv, w);
    ActionSafe(w, inv, n, a);
    TrackPasses(w, inv, t);
    ActionPasses(inv, Fact(t), Rule(t), w.validators, n, a);
  }

  /** Whatever a node does and wherever a crash stops it: finality stays closed exactly unless the
      first lost write is one of the later marks of a walk; the highest committed block stays marked
      exactly unless it is its mark; the last finalized block stays below exactly unless it is a
      final mark or saves the block that made its parent final. */
  lemma CrashesUpset(sys: System, a: Address, action: Action, k: nat, t: Track)
    requires SystemOk(sys) && a in sys.nodes && Possible(sys.world, sys.nodes[a], action) && HoldsAt(t, sys.nodes[a])
    requires k <= |Writes(sys.nodes[a], sys.world.validators, action)|
    ensures
      var ws := Writes(sys.nodes[a], sys.world.validators, action);
      var n := ApplyAll(sys.nodes[a], ws[..k]);
      if k == |ws| then HoldsAt(t, n) else CutExactly(t, n, ws[k])
  {
    hide HoldsAt, CutExactly, Writes, NodeOk, Possible;
    var n := sys.nodes[a];
    assert NodeIn(sys.world, a, n);
    ActTracks(sys.world, n, action, t);
    var ws := Writes(n, sys.world.validators, action);
    if k < |ws| {
      EachAt(Rule(t), n, ws, k);
    } else {
      assert ws[..k] == ws;
    }
  }

  // ---- whole runs --------------------------------------------------------------------

  /** A crash that loses `x` first does not upset what is looked at. */
  ghost predicate Spares(t: Track, n: Node, x: Write) {
    (t.closed ==> !CutsWalk(x)) && (t.marked ==> !CutsMark(x)) && (t.below ==> !CutsBelow(n, x))
  }

  /** The step is no crash of `a`, or one that spares what is looked at. Other nodes may crash
      wherever they like. */
  ghost predicate StepSpares(t: Track, sys: System, step: Step, a: Address) {
    step.Act? && step.node == a && a in sys.nodes ==>
      var ws := Writes(sys.nodes[a], sys.world.validators, step.action);
      step.persisted < |ws| ==> Spares(t, ApplyAll(sys.nodes[a], ws[..step.persisted]), ws[step.persisted])
  }

  ghost predicate RunSpares(t: Track, run: seq<System>, steps: seq<Step>, i: nat, a: Address)
    requires i <= |steps| < |run|
  {
    forall j {:trigger steps[j]} :: 0 <= j < i ==> StepSpares(t, run[j], steps[j], a)
  }

  lemma DeliverCloses(w: World, n: Node, b: Block, k: nat)
    requires NodeOk(w, n) && Closed(n.chain.blocks, n.root)
    ensures Closed(AddSaved(n.chain, b, k).blocks, n.root)
  {
    hide AddSaved;
    var s, t := n.chain.blocks, AddSaved(n.chain, b, k).blocks;
    SavedShape(n.chain, b, k);
    forall h | h in t && IsFinalized(t[h].status) && h != n.root ensures FinalParent(t, h) {
      assert h in s && SameButChildren(s[h], t[h]);
      assert FinalParent(s, h);
      assert SameButChildren(s[s[h].block.parent], t[s[h].block.parent]);
    }
  }

  lemma DeliverTops(w: World, n: Node, b: Block, k: nat)
    requires NodeOk(w, n)
    ensures
      var m := n.(chain := AddSaved(n.chain, b, k));
      && (Marked(n) <==> Marked(m)) && (Below(n) <==> Below(m))
      && HeightIn(m.chain.blocks, m.hcc) == HeightIn(n.chain.blocks, n.hcc)
  {
    hide AddSaved;
    var s, t := n.chain.blocks, AddSaved(n.chain, b, k).blocks;
    SavedShape(n.chain, b, k);
    assert SameButChildren(s[n.hcc], t[n.hcc]) && SameButChildren(s[n.lfb], t[n.lfb]);
  }

  lemma DeliverHolds(w: World, n: Node, b: Block, k: nat, t: Track)
    requires NodeOk(w, n) && HoldsAt(t, n)
    ensures HoldsAt(t, n.(chain := AddSaved(n.chain, b, k)))
  {
    hide NodeOk, AddSaved, Closed, Marked, Below;
    if t.closed {
      DeliverCloses(w, n, b, k);
    }
    DeliverTops(w, n, b, k);
  }

  lemma StepHolds(sys: System, step: Step, a: Address, t: Track)
    requires SystemOk(sys) && Enabled(sys, step) && a in sys.nodes && HoldsAt(t, sys.nodes[a]) && StepSpares(t, sys, step, a)
    ensures HoldsAt(t, Next(sys, step).nodes[a])
  {
    hide NodeOk, Writes, ApplyAll, AddSaved, Possible, Closed, Marked, Below;
    var n := sys.nodes[a];
    assert NodeIn(sys.world, a, n);
    if step.Deliver? && step.node == a {
      DeliverHolds(sys.world, n, sys.world.blocks[step.h], step.persisted, t);
    } else if step.Act? && step.node == a {
      CrashesUpset(sys, a, step.action, step.persisted, t);
    }
  }

  /** At every honest node, in every run, whatever crashes elsewhere: finalized blocks are closed
      under parents, the highest committed block is marked, and the last finalized block is below it,
      each as long as no crash of the node itself has upset just that. */
  lemma RunSettled(run: seq<System>, steps: seq<Step>, i: nat, a: Address, closed: bool, marked: bool, below: bool)
    requires IsRun(run, steps) && i <= |steps| && RunSpares(Always(closed, marked, below), run, steps, i, a) && a in run[i].nodes
    ensures
      var n := run[i].nodes[a];
      (closed ==> Closed(n.chain.blocks, n.root)) && (marked ==> Marked(n)) && (below ==> Below(n))
  {
    hide RunSpares, NodeOk, Closed, Marked, Below;
    RunHolds(run, steps, i, a, Always(closed, marked, below));
    RunOk(run, steps, i);
    var n := run[i].nodes[a];
    assert NodeIn(run[i].world, a, n);
    TopIsBlock(run[i].world, n);
  }

  lemma TopIsBlock(w: World, n: Node)
    requires NodeOk(w, n)
    ensures n.hcc in n.chain.blocks && n.hcc != EMPTY_HASH
  {
  }

  lemma {:induction false} RunHolds(run: seq<System>, steps: seq<Step>, i: nat, a: Address, t: Track)
    requires IsRun(run, steps) && i <= |steps| && RunSpares(t, run, steps, i, a) && a in run[i].nodes && t.low == 0
    ensures HoldsAt(t, run[i].nodes[a])
  {
    if i == 0 {
      var root := run[0].world.blocks[run[0].world.root];
      FreshStore(root);
    } else {
      hide HoldsAt, StepSpares;
      RunGrows(run, steps, i - 1, i);
      RunHolds(run, steps, i - 1, a, t);
      RunOk(run, steps, i - 1);
      var step := steps[i-1];
      StepHolds(run[i-1], step, a, t);
    }
  }
}
