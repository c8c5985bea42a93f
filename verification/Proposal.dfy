/** The certificate that a proposer attaches to its block (consensus/engine.go, createProposal). */
module Proposal {
  import opened Validators
  import opened Votes
  import opened BlockTree
  import opened ChainSpec
  import opened Handlers
  import opened NodeInvariant
  import opened Protocol
  import opened Passes
  import opened Agreement

  /** A majority's votes for the highest committed block are at hand, unless it is the root. */
  ghost predicate HasCertificate(vs: ValidatorSet, n: Node, h: Hash) {
    h == n.root || Majority(vs, Voters(VotesOf(n, h)))
  }

  ghost predicate Backed(vs: ValidatorSet, n: Node) {
    HasCertificate(vs, n, n.hcc)
  }

  /** A block becomes the highest committed one only with its certificate at hand. */
  ghost function Backing(vs: ValidatorSet): (Node, Write) -> bool {
    (n, x: Write) => x.PutHcc? ==> HasCertificate(vs, n, x.h)
  }

  lemma WriteKeepsBacked(vs: ValidatorSet, n: Node, x: Write)
    requires Backed(vs, n) && Backing(vs)(n, x)
    ensures Backed(vs, Apply(n, x))
  {
    var m := Apply(n, x);
    if x.PutVote? {
      var before, after := VotesOf(n, n.hcc), VotesOf(m, n.hcc);
      assert before.Keys <= after.Keys;
      MajorityMonotoneIf(vs, Voters(before), Voters(after));
    }
  }

  lemma MajorityMonotoneIf(vs: ValidatorSet, a: set<Address>, b: set<Address>)
    requires a <= b
    ensures Majority(vs, a) ==> Majority(vs, b)
  {
    if Majority(vs, a) {
      MajorityMonotone(vs, a, b);
    }
  }

  lemma {:induction false} WritesKeepBacked(vs: ValidatorSet, n: Node, ws: seq<Write>, k: nat)
    requires Backed(vs, n) && Each(Backing(vs), n, ws) && k <= |ws|
    ensures Backed(vs, ApplyAll(n, ws[..k]))
    decreases k
  {
    if k > 0 {
      assert ws[..k][0] == ws[0] && ws[..k][1..] == ws[1..][..k-1];
      WriteKeepsBacked(vs, n, ws[0]);
      WritesKeepBacked(vs, Apply(n, ws[0]), ws[1..], k - 1);
    }
  }

  // ---- the handlers ------------------------------------------------------------------

  lemma QuietIsBacked(vs: ValidatorSet, n: Node, ws: seq<Write>)
    requires forall x :: x in ws ==> !x.PutHcc?
    ensures Each(Backing(vs), n, ws)
  {
    EachAlways(Backing(vs), n, ws);
  }

  lemma {:induction false} MarksOnly(hs: seq<Hash>, st: Status, n: Node)
    ensures forall x :: x in MarkAll(hs, st) ==> x.PutStatus?
    ensures ApplyAll(n, MarkAll(hs, st)).votes == n.votes && ApplyAll(n, MarkAll(hs, st)).root == n.root
    decreases hs
  {
    if hs != [] {
      var rest := MarkAll(hs[1..], IndirectlyFinalized);
      assert ([PutStatus(hs[0], st)] + rest)[1..] == rest;
      MarksOnly(hs[1..], IndirectlyFinalized, Apply(n, PutStatus(hs[0], st)));
    }
  }

  lemma ProcessCCBacked(vs: ValidatorSet, n: Node, h: Hash)
    requires h in n.chain.blocks && n.hcc in n.chain.blocks && HasCertificate(vs, n, h)
    ensures Each(Backing(vs), n, ProcessCC(n, h))
  {
    var b := n.chain.blocks[h].block;
    var first := if b.parent == b.hcc then FinalizeBlock(n, b.parent) else [];
    var commit := [PutHcc(h), PutStatus(h, Committed)];
    if ProcessCC(n, h) == first + commit {
      var hs := Walk(n.chain.blocks, b.parent);
      var marks := MarkAll(hs, DirectlyFinalized);
      assert ([PutLfb(b.parent)] + marks)[1..] == marks;
      MarksOnly(hs, DirectlyFinalized, Apply(n, PutLfb(b.parent)));
      QuietIsBacked(vs, n, first);
      var n1 := ApplyAll(n, first);
      assert n1.votes == n.votes && n1.root == n.root;
      assert HasCertificate(vs, n1, h);
      assert Backing(vs)(n1, commit[0]);
      QuietIsBacked(vs, Apply(n1, commit[0]), commit[1..]);
      EachConcat(Backing(vs), n, first, commit);
    }
  }

  lemma CheckCCBacked(w: World, inv: Node -> bool, n: Node, h: Hash)
    requires Names(inv, w) && inv(n)
    ensures Each(Backing(w.validators), n, CheckCC(n, w.validators, h))
  {
    assert At(n);
    var ws := CheckCC(n, w.validators, h);
    if ws != [] {
      ProcessCCBacked(w.validators, n, h);
    }
  }

  lemma BackingPasses(w: World, inv: Node -> bool)
    requires Names(inv, w)
    ensures AllPass(inv, n => true, Backing(w.validators), w.validators)
  {
    hide CheckCC, Guard;
    var st, rule := (n: Node) => true, Backing(w.validators);
    forall n, h | inv(n) ensures ListPasses(st, rule, n, CheckCC(n, w.validators, h)) {
      CheckCCBacked(w, inv, n, h);
    }
    QuietVotesPass(inv, st, rule, w.validators);
  }

  // ---- whole runs --------------------------------------------------------------------

  lemma ActKeepsBacked(w: World, n: Node, a: Action, k: nat)
    requires WorldOk(w) && NodeOk(w, n) && Backed(w.validators, n) && Possible(w, n, a) && k <= |Writes(n, w.validators, a)|
    ensures Backed(w.validators, ApplyAll(n, Writes(n, w.validators, a)[..k]))
  {
    hide Writes, AllPass;
    var inv := n => NodeOk(w, n);
    assert Names(inv, w);
    ActionSafe(w, inv, n, a);
    BackingPasses(w, inv);
    ActionPasses(inv, n => true, Backing(w.validators), w.validators, n, a);
    WritesKeepBacked(w.validators, n, Writes(n, w.validators, a), k);
  }

  lemma StepKeepsBacked(sys: System, step: Step, a: Address)
    requires SystemOk(sys) && Enabled(sys, step) && a in sys.nodes && Backed(sys.world.validators, sys.nodes[a])
    ensures Backed(sys.world.validators, Next(sys, step).nodes[a])
  {
    assert NodeIn(sys.world, a, sys.nodes[a]);
    if step.Act? && step.node == a {
      ActKeepsBacked(sys.world, sys.nodes[a], step.action, step.persisted);
    }
  }

  /** In every reachable state, crashes included, an honest node holds the votes of a majority
      for its highest committed block. */
  lemma {:induction false} RunBacked(run: seq<System>, steps: seq<Step>, i: nat, a: Address)
    requires IsRun(run, steps) && i <= |steps| && a in run[i].nodes
    ensures Backed(run[i].world.validators, run[i].nodes[a])
  {
    if i > 0 {
      RunGrows(run, steps, i - 1, i);
      RunBacked(run, steps, i - 1, a);
      RunOk(run, steps, i - 1);
      var step := steps[i-1];
      StepKeepsBacked(run[i-1], step, a);
    }
  }

  lemma EntryOfNode(w: World, n: Node, h: Hash)
    requires NodeOk(w, n)
    ensures IndexEntryOk(VotesOf(n, h), h)
  {
  }

  /** Whatever an honest node attaches for a highest committed block above the root, every
      receiver accepts. */
  lemma AttachedCertificateAccepted(sys: System, a: Address, unique: VoteSet)
    requires Reached(sys) && a in sys.nodes && sys.nodes[a].hcc != sys.nodes[a].root
    requires IsUniqueVoter(VotesOf(sys.nodes[a], sys.nodes[a].hcc), unique)
    ensures CertificateOk(FilterSpec(unique, sys.world.validators), sys.nodes[a].hcc, sys.world.validators)
  {
    var run, steps :| IsRun(run, steps) && run[|steps|] == sys;
    RunBacked(run, steps, |steps|, a);
    RunOk(run, steps, |steps|);
    var n := sys.nodes[a];
    assert NodeIn(sys.world, a, n);
    EntryOfNode(sys.world, n, n.hcc);
    ProposedCertificateAccepted(VotesOf(n, n.hcc), [], unique, n.hcc, sys.world.validators);
  }
}
