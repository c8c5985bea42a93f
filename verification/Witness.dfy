/** A short run of one validator over three blocks in a row: what the theorems about runs speak of
    does happen, the crashes that they allow for included. */
module Witness {
  import opened Common
  import opened Validators
  import opened Votes
  import opened BlockTree
  import opened ChainSpec
  import opened ChainTree
  import opened Tip
  import opened Handlers
  import opened NodeInvariant
  import opened HandlerSafety
  import opened Protocol
  import opened Agreement
  import opened StatusMachine
  import opened Diagram
  import opened Gaps

  const VS: ValidatorSet := [Validator(1, 1)]

  /** The validator's votes for the third and the fourth block. */
  const V3: Vote := Vote(3, 2, 0, 1, true)
  const V4: Vote := Vote(4, 3, 1, 1, true)

  /** The blocks are 1, 2, 3 and 4, each the parent of the next. The first is the root; the second
      and third name it as highest committed block; the fourth names the third. */
  function B(h: nat): Block
    requires h >= 1
  {
    Block(h, h - 1, h - 1, h - 1, if h == 1 then 0 else if h < 4 then 1 else 3, if h == 4 then map[Key(V3) := V3] else map[], [])
  }

  lemma Alone(who: set<Address>)
    ensures Majority(VS, who) <==> 1 in who
    ensures FaultBound(VS, {1}) && Addresses(VS) == {1}
  {
    assert VS[1..] == [];
    assert Addresses(VS) == {1} by {
      assert VS[0].address in Addresses(VS);
    }
    assert StakeOf(VS, who) == if 1 in who then 1 else 0;
    assert SumStake(VS) == 1;
    assert Addresses(VS) - {1} == {};
    assert StakeOf(VS, {}) == 0;
  }

  // ---- what the system looks like ----------------------------------------------------

  /** The node stores the blocks up to `top`, linked. */
  ghost predicate Stores(n: Node, top: nat) {
    var s := n.chain.blocks;
    && n.id == 1 && n.root == 1 && ChainOk(n.chain)
    && (forall h: nat :: h in s <==> 1 <= h <= top)
    && (forall h: nat :: h in s ==> s[h].block == B(h) && !s[h].hasValidatorUpdate && (h > 1 ==> h in s[h-1].children))
  }

  /** The system is this one node and the blocks up to `top`. */
  ghost predicate OneNode(sys: System, top: nat, n: Node) {
    && sys.nodes == map[1 := n] && sys.world.root == 1 && sys.world.validators == VS && Reached(sys)
    && (forall h: nat :: h in sys.world.blocks <==> 1 <= h <= top)
    && (forall h: nat :: h in sys.world.blocks ==> sys.world.blocks[h] == B(h))
  }

  lemma ReachedNext(sys: System, step: Step)
    requires Reached(sys) && Enabled(sys, step)
    ensures Reached(Next(sys, step))
  {
    var run, steps :| IsRun(run, steps) && run[|steps|] == sys;
    var run', steps' := run + [Next(sys, step)], steps + [step];
    forall i {:trigger steps'[i]} | 0 <= i < |steps'| ensures Enabled(run'[i], steps'[i]) && run'[i+1] == Next(run'[i], steps'[i]) {
      if i < |steps| {
        assert steps[i] == steps'[i] && run[i] == run'[i] && run[i+1] == run'[i+1];
      }
    }
    assert IsRun(run', steps');
  }

  lemma Start() returns (sys: System, n: Node)
    ensures OneNode(sys, 1, n) && Stores(n, 1) && sys.world.ballots == {}
    ensures n.chain.blocks[1].status == Trusted && n.hcc == 1 && n.lfb == 1
    ensures n.lastVote.height == 0 && n.epoch == 0 && n.votes == map[] && n.epochVotes == map[]
  {
    n := FreshNode(1, B(1));
    sys := System(World(1, VS, map[1 := B(1)], {}), map[1 := n]);
    FreshStore(B(1));
    assert Init(sys);
    assert IsRun([sys], []);
    assert Reached(sys);
    ReachedOk(sys);
    assert NodeIn(sys.world, 1, n);
  }

  // ---- one step at a time ------------------------------------------------------------

  lemma Publishes(sys: System, top: nat, n: Node) returns (sys': System)
    requires OneNode(sys, top, n) && 1 <= top < 4 && (top == 3 ==> Key(V3) in sys.world.ballots)
    ensures OneNode(sys', top + 1, n) && sys'.world.ballots == sys.world.ballots
  {
    hide Reached;
    var step := Publish(B(top + 1));
    sys' := Next(sys, step);
    ReachedNext(sys, step);
  }

  lemma NextBlock(top: nat)
    requires 1 <= top < 4
    ensures B(top + 1).hash == top + 1 && B(top + 1).parent == top && B(top + 1).height == top < U64
  {
  }

  lemma StoresNext(n: Node, top: nat) returns (n': Node)
    requires Stores(n, top) && 1 <= top < 4
    ensures n' == n.(chain := AddBlock(n.chain, B(top + 1), false)) && Stores(n', top + 1) && n'.chain.blocks[top + 1].status == Pending
    ensures forall h: nat :: h in n.chain.blocks ==> n'.chain.blocks[h].status == n.chain.blocks[h].status
  {
    hide ChainOk, AddBlock, B;
    NextBlock(top);
    var b := B(top + 1);
    n' := n.(chain := AddBlock(n.chain, b, false));
    AddedStore(n.chain, b);
    AddBlockKeeps(n.chain, b);
    var s, t := n.chain.blocks, n'.chain.blocks;
    forall h: nat | h in s ensures t[h].status == s[h].status && t[h].block == B(h) && !t[h].hasValidatorUpdate {
      assert SameButChildren(s[h], t[h]);
    }
    forall h: nat | h in t && h > 1 ensures h in t[h-1].children {
      assert h in s ==> h in s[h-1].children;
    }
  }

  /** What changes when the next block arrives: it is stored, pending. */
  lemma Arrives(sys: System, top: nat, n: Node) returns (sys': System, n': Node)
    requires OneNode(sys, top, n) && Stores(n, top) && 1 <= top < 4 && (top == 3 ==> Key(V3) in sys.world.ballots)
    ensures OneNode(sys', top + 1, n') && Stores(n', top + 1) && n' == n.(chain := n'.chain)
    ensures n'.chain.blocks[top + 1].status == Pending
    ensures forall h: nat :: h in n.chain.blocks ==> n'.chain.blocks[h].status == n.chain.blocks[h].status
    ensures sys'.world.ballots == sys.world.ballots
  {
    hide OneNode, Stores, B;
    var sys1 := Publishes(sys, top, n);
    n' := StoresNext(n, top);
    sys' := Delivers(sys1, top + 1, n);
  }

  lemma Delivers(sys: System, top: nat, n: Node) returns (sys': System)
    requires OneNode(sys, top, n) && 1 <= top
    ensures OneNode(sys', top, n.(chain := AddBlock(n.chain, B(top), false))) && sys'.world.ballots == sys.world.ballots
  {
    hide OneNode, AddBlock, AddSaved, B;
    sys' := DeliversCut(sys, top, n, 3);
    SavedWhole(n.chain, B(top));
  }

  lemma DeliversCut(sys: System, top: nat, n: Node, k: nat) returns (sys': System)
    requires OneNode(sys, top, n) && 1 <= top && k <= 3
    ensures OneNode(sys', top, n.(chain := AddSaved(n.chain, B(top), k))) && sys'.world.ballots == sys.world.ballots
  {
    hide Reached, AddSaved;
    var step := Deliver(1, top, k);
    sys' := Next(sys, step);
    ReachedNext(sys, step);
  }

  /** A handler of the node runs, and is cut off after `k` writes. */
  lemma Acts(sys: System, top: nat, n: Node, a: Action, k: nat) returns (sys': System, n': Node)
    requires OneNode(sys, top, n) && Possible(sys.world, n, a) && Survives(n, Writes(n, VS, a), k)
    ensures OneNode(sys', top, n') && n' == ApplyAll(n, Writes(n, VS, a)[..k])
    ensures sys'.world.ballots == sys.world.ballots + n'.sent
  {
    hide Reached, Possible, Writes, ApplyAll, StopsAt;
    var step := Act(1, a, k);
    n' := ApplyAll(n, Writes(n, VS, a)[..k]);
    sys' := Next(sys, step);
    ReachedNext(sys, step);
  }

  lemma StatusStores(n: Node, top: nat, h: Hash, st: Status)
    requires Stores(n, top) && h in n.chain.blocks
    ensures Stores(Apply(n, PutStatus(h, st)), top)
  {
    var m := Apply(n, PutStatus(h, st));
    StatusRestatus(n.chain.blocks, h, st);
    assert SameShape(n.chain, m.chain);
    ShapeKeepsChain(n.chain, m.chain);
  }

  // ---- what the handlers write -------------------------------------------------------

  ghost predicate StatusIs(n: Node, h: Hash, st: Status) {
    h in n.chain.blocks && n.chain.blocks[h].status == st
  }

  const QUIET: Env := Env([], true, true, false, false, None)
  const WITH_V3: Env := Env([Incoming(V3, false)], true, true, false, false, None)

  lemma NoVotesNoCommit(n: Node, h: Hash)
    requires VotesOf(n, h) == map[] && (h in n.chain.blocks ==> !n.chain.blocks[h].status.Trusted?)
    ensures CheckCC(n, VS, h) == []
  {
    Alone(Voters(map[]));
  }

  lemma Descends(n: Node, top: nat, h: Hash)
    requires Stores(n, top) && 2 <= h <= top <= 4
    ensures IsDescendant(n.chain.blocks, B(h).hcc, h, MAX_DISTANCE)
  {
    var s, d := n.chain.blocks, MAX_DISTANCE;
    assert s[h].block.parent == h - 1;
    if h == 3 {
      assert IsDescendant(s, 1, 1, d - 2);
      assert IsDescendant(s, 1, 2, d - 1);
    }
  }

  lemma EarlyVerdict(n: Node, h: Hash)
    requires Stores(n, h) && 2 <= h <= 3 && StatusIs(n, h, Pending) && StatusIs(n, 1, Trusted) && n.lfb == 1
    requires BlockTree.IsValid(n.chain.blocks[h-1].status)
    ensures ValidateBlock(n, VS, h, true) == Accept
  {
    Descends(n, h, h);
  }

  lemma EarlyBlock(n: Node, h: Hash)
    requires Stores(n, h) && 2 <= h <= 3 && StatusIs(n, h, Pending) && StatusIs(n, 1, Trusted) && n.lfb == 1 && n.hcc == 1
    requires BlockTree.IsValid(n.chain.blocks[h-1].status) && n.votes == map[]
    ensures HandleBlock(n, VS, h, QUIET) == [PutStatus(h, Valid)]
  {
    hide ValidateBlock, CheckCC, ChainOk;
    EarlyVerdict(n, h);
    var b, n1 := B(h), Apply(n, PutStatus(h, Valid));
    assert HandleVotes(n, VS, []) == [] && Prepare(n, VS, b, []) == [];
    ApplyTwo(n, PutStatus(h, Valid), PutStatus(h, Valid));
    assert MarkAndVote(n, VS, b, QUIET) == [PutStatus(h, Valid)];
    NoVotesNoCommit(n1, h);
    assert Conclude(n, VS, b, QUIET) == [PutStatus(h, Valid)];
  }

  lemma LastVerdict(n: Node)
    requires Stores(n, 4) && StatusIs(n, 4, Pending) && n.lfb == 1 && BlockTree.IsValid(n.chain.blocks[3].status)
    ensures ValidateBlock(n, VS, 4, true) == Accept
  {
    Descends(n, 4, 4);
    var votes := B(4).hccVotes;
    assert Key(V3) in votes && votes.Keys == {Key(V3)} && |votes| == |votes.Keys| == 1;
    assert 1 in Voters(votes) by {
      assert Key(V3).id == 1;
    }
    Alone(Voters(votes));
    assert CertificateOk(votes, 3, VS);
  }

  lemma LastBlock(n: Node)
    requires Stores(n, 4) && StatusIs(n, 4, Pending) && n.lfb == 1 && n.hcc == 3 && BlockTree.IsValid(n.chain.blocks[3].status)
    requires n.epoch == 1 && 4 !in n.votes
    ensures HandleBlock(n, VS, 4, WITH_V3) == [PutEpochVote(V3, false), PutVote(V3), PutStatus(4, Valid)]
  {
    hide ValidateBlock, CheckCC, ChainOk;
    LastVerdict(n);
    var b, saved := B(4), [PutEpochVote(V3, false), PutVote(V3)];
    assert HandleVote(n, VS, V3, false) == saved;
    ApplyTwo(n, saved[0], saved[1]);
    var n1 := ApplyAll(n, saved);
    assert WITH_V3.order[1..] == [] && HandleVotes(n1, VS, []) == [];
    assert saved + [] == saved;
    assert HandleVotes(n, VS, WITH_V3.order) == saved;
    assert CatchUp(n1, VS, b.hcc) == [];
    assert Prepare(n, VS, b, WITH_V3.order) == saved;
    ApplyTwo(n1, PutStatus(4, Valid), PutStatus(4, Valid));
    assert MarkAndVote(n1, VS, b, WITH_V3) == [PutStatus(4, Valid)];
    NoVotesNoCommit(Apply(n1, PutStatus(4, Valid)), 4);
    assert Conclude(n1, VS, b, WITH_V3) == [PutStatus(4, Valid)];
  }

  /** A vote of the node itself ends its epoch. */
  lemma OwnVote(n: Node, v: Vote)
    requires Validate(v) && v.id == 1 && v.epoch == n.epoch < 5 && (1 in n.epochVotes ==> n.epochVotes[1].epoch < v.epoch)
    ensures HandleVote(n, VS, v, false) == [PutEpochVote(v, false), PutVote(v), PutEpoch(v.epoch + 1)]
    ensures
      var m := ApplyAll(n, HandleVote(n, VS, v, false));
      && m == n.(votes := m.votes, epochVotes := n.epochVotes[1 := v], epoch := v.epoch + 1)
      && m.votes == n.votes[v.block := AddVote(VotesOf(n, v.block), v)] && Majority(VS, Voters(VotesOf(m, v.block)))
  {
    var saved, last := [PutEpochVote(v, false), PutVote(v)], PutEpoch(v.epoch + 1);
    var known := LatestVote(n.epochVotes, v, false);
    assert 1 in VotersSince(known, v.epoch);
    Alone(VotersSince(known, v.epoch));
    ApplyAllConcat(n, saved, [last]);
    ApplyTwo(n, saved[0], saved[1]);
    ApplyTwo(ApplyAll(n, saved), last, last);
    var m := ApplyAll(n, saved + [last]);
    assert Key(v) in VotesOf(m, v.block) && Key(v).id == 1;
    Alone(Voters(VotesOf(m, v.block)));
  }

  lemma ThirdCommitted(n: Node)
    requires Stores(n, 3) && StatusIs(n, 3, Valid) && n.hcc == 1 && Majority(VS, Voters(VotesOf(n, 3)))
    ensures CheckCC(n, VS, 3) == [PutHcc(3), PutStatus(3, Committed)]
  {
    var commit := [PutHcc(3), PutStatus(3, Committed)];
    assert [] + commit == commit;
  }

  lemma FourthCommitted(n: Node)
    requires Stores(n, 4) && StatusIs(n, 4, Valid) && n.hcc == 3 && n.lfb == 1 && Majority(VS, Voters(VotesOf(n, 4)))
    requires StatusIs(n, 1, Trusted) && StatusIs(n, 2, Valid) && (StatusIs(n, 3, Valid) || StatusIs(n, 3, Committed))
    ensures CheckCC(n, VS, 4) ==
      [PutLfb(3), PutStatus(3, DirectlyFinalized), PutStatus(2, IndirectlyFinalized), PutHcc(4), PutStatus(4, Committed)]
  {
    hide ChainOk;
    var s := n.chain.blocks;
    var t := SetStatus(s, 3, IndirectlyFinalized);
    var u := SetStatus(t, 2, IndirectlyFinalized);
    assert s[3].block.parent == 2 && t[2].block.parent == 1;
    assert IsFinalized(u[1].status) && Walk(u, 1) == [];
    assert Walk(t, 2) == [2] + Walk(u, 1) == [2];
    assert Walk(s, 3) == [3] + Walk(t, 2) == [3, 2];
    assert [3, 2][1..] == [2] && [2][1..] == [];
    assert MarkAll([2], IndirectlyFinalized) == [PutStatus(2, IndirectlyFinalized)];
    assert MarkAll([3, 2], DirectlyFinalized) == [PutStatus(3, DirectlyFinalized), PutStatus(2, IndirectlyFinalized)];
    assert FinalizeBlock(n, 3) == [PutLfb(3), PutStatus(3, DirectlyFinalized), PutStatus(2, IndirectlyFinalized)];
  }

  lemma TipAt(n: Node, top: nat)
    requires Stores(n, top) && (top == 3 || top == 4) && n.hcc == (if top == 3 then 1 else 3)
    requires forall h: nat :: n.hcc <= h <= top ==> BlockTree.IsValid(n.chain.blocks[h].status)
    ensures Searched(n.chain.blocks, true, n.hcc, Some(top))
  {
    NothingMissing(n, top);
    hide ChainOk;
    var s := n.chain.blocks;
    var path := if top == 3 then [1, 2, 3] else [3, 4];
    forall i | 0 <= i < |path| - 1 ensures path[i+1] in s[path[i]].children {
      var h := path[i+1];
      assert h in s && path[i] == h - 1;
    }
    assert IsPath(s, true, n.hcc, top, path);
    assert Reachable(s, true, n.hcc, top);
  }

  lemma NothingMissing(n: Node, top: nat)
    requires Stores(n, top)
    ensures forall flag, h :: !MeetsMissing(n.chain.blocks, flag, h)
  {
    forall p, c | p in n.chain.blocks && c in n.chain.blocks[p].children ensures c in n.chain.blocks {
      assert ChildrenOk(n.chain.blocks, p);
    }
  }

  /** A store without missing children stops no handler. */
  lemma NothingStops(n: Node, top: nat, ws: seq<Write>, k: nat)
    requires Stores(n, top) && k <= |ws|
    ensures Survives(n, ws, k)
  {
    hide Stores, MeetsMissing;
    forall j: nat | j < k ensures !StopsAt(n, ws, j) {
      ShapeStores(n, top, ws[..j]);
    }
  }

  lemma ShapeStores(n: Node, top: nat, ws: seq<Write>)
    requires Stores(n, top)
    ensures forall flag, h :: !MeetsMissing(ApplyAll(n, ws).chain.blocks, flag, h)
  {
    hide Stores, ApplyAll;
    WritesKeepShape(n, ws);
    NothingMissing(n, top);
    var s, t := n.chain.blocks, ApplyAll(n, ws).chain.blocks;
    assert ChainOk(n.chain) by { StoresChain(n, top); }
    forall p, c | p in t && c in t[p].children ensures c in t {
      assert ChildrenOk(s, p) && t[p].children == s[p].children;
    }
  }

  lemma StoresChain(n: Node, top: nat)
    requires Stores(n, top)
    ensures ChainOk(n.chain)
  {
  }

  /** The node votes for the tip. */
  lemma TimerWrites(n: Node, top: nat, v: Vote)
    requires Stores(n, top) && (top == 3 || top == 4) && v == CreateVote(n, B(top))
    requires n.lastVote.height == 0 || (n.lastVote.height < v.height && B(top).hcc == n.hcc)
    ensures Writes(n, VS, OnTimer(Some(top))) == [PutLastVote(v), Send(v)]
    ensures ApplyAll(n, [PutLastVote(v), Send(v)]) == n.(lastVote := v, sent := n.sent + {Key(v)})
  {
    Alone({});
    ApplyTwo(n, PutLastVote(v), Send(v));
  }

  // ---- the run -----------------------------------------------------------------------

  lemma EarlyStep(sys: System, h: Hash, n: Node) returns (sys': System, n': Node)
    requires OneNode(sys, h, n) && Stores(n, h) && 2 <= h <= 3 && StatusIs(n, h, Pending) && StatusIs(n, 1, Trusted) && n.lfb == 1 && n.hcc == 1
    requires BlockTree.IsValid(n.chain.blocks[h-1].status) && n.votes == map[]
    ensures OneNode(sys', h, n') && Stores(n', h) && n' == Apply(n, PutStatus(h, Valid))
  {
    hide Reached, ChainOk, ValidateBlock;
    EarlyBlock(n, h);
    ApplyTwo(n, PutStatus(h, Valid), PutStatus(h, Valid));
    assert [PutStatus(h, Valid)][..1] == [PutStatus(h, Valid)];
    NothingStops(n, h, [PutStatus(h, Valid)], 1);
    sys', n' := Acts(sys, h, n, OnBlock(h, QUIET), 1);
    StatusStores(n, h, h, Valid);
  }

  /** Two blocks have arrived and been processed. */
  lemma TwoBlocks() returns (sys: System, n: Node)
    ensures OneNode(sys, 3, n) && Stores(n, 3) && StatusIs(n, 1, Trusted) && StatusIs(n, 2, Valid) && StatusIs(n, 3, Valid)
    ensures n.hcc == 1 && n.lfb == 1 && n.lastVote.height == 0 && n.epoch == 0 && n.votes == map[] && n.epochVotes == map[]
  {
    hide OneNode, Stores;
    sys, n := Start();
    StoredUpTo(n, 1);
    sys, n := Arrives(sys, 1, n);
    StoredUpTo(n, 2);
    sys, n := EarlyStep(sys, 2, n);
    StoredUpTo(n, 2);
    sys, n := Arrives(sys, 2, n);
    StoredUpTo(n, 3);
    sys, n := EarlyStep(sys, 3, n);
  }

  lemma StoredUpTo(n: Node, top: nat)
    requires Stores(n, top)
    ensures forall h: nat :: h in n.chain.blocks <==> 1 <= h <= top
  {
  }

  lemma TimerStep(sys: System, top: nat, n: Node, v: Vote) returns (sys': System, n': Node)
    requires OneNode(sys, top, n) && Stores(n, top) && (top == 3 || top == 4) && v == CreateVote(n, B(top))
    requires n.hcc == (if top == 3 then 1 else 3) && forall h: nat :: n.hcc <= h <= top ==> BlockTree.IsValid(n.chain.blocks[h].status)
    requires n.lastVote.height == 0 || (n.lastVote.height < v.height && B(top).hcc == n.hcc)
    ensures OneNode(sys', top, n') && n' == n.(lastVote := v, sent := n.sent + {Key(v)}) && Key(v) in sys'.world.ballots
  {
    hide OneNode, Stores, Searched, Writes;
    TipAt(n, top);
    TimerWrites(n, top, v);
    var ws := [PutLastVote(v), Send(v)];
    assert ws[..2] == ws;
    NothingStops(n, top, ws, 2);
    sys', n' := Acts(sys, top, n, OnTimer(Some(top)), 2);
    assert Key(v) in n'.sent;
  }

  lemma SameStore(n: Node, m: Node, top: nat)
    requires Stores(n, top) && m.chain == n.chain && m.id == n.id && m.root == n.root
    ensures Stores(m, top)
  {
  }

  lemma VoteThree(n: Node)
    requires Stores(n, 3) && StatusIs(n, 3, Valid) && n.hcc == 1 && n.votes == map[] && n.epochVotes == map[] && n.epoch == 0
    ensures
      var ws := Writes(n, VS, OnVote(V3, false));
      var m := n.(votes := map[3 := map[Key(V3) := V3]], epochVotes := map[1 := V3], epoch := 1, hcc := 3);
      |ws| == 5 && ApplyAll(n, ws[..4]) == m && ApplyAll(n, ws[..5]) == Apply(m, PutStatus(3, Committed))
  {
    hide Stores, CheckCC, HandleVote;
    OwnVote(n, V3);
    var a, b := HandleVote(n, VS, V3, false), [PutHcc(3), PutStatus(3, Committed)];
    var m := ApplyAll(n, a);
    SameStore(n, m, 3);
    ThirdCommitted(m);
    var ws := Writes(n, VS, OnVote(V3, false));
    assert ws == a + b && ws[..5] == ws && ws[..4] == a + [PutHcc(3)];
    ApplyAllConcat(n, a, b);
    ApplyAllConcat(n, a, [PutHcc(3)]);
    ApplyTwo(m, b[0], b[1]);
    assert VotesOf(n, 3) == map[];
  }

  lemma MaySend(sys: System, top: nat, n: Node, v: Vote)
    requires OneNode(sys, top, n) && Key(v) in sys.world.ballots && v.epoch < 5
    ensures Possible(sys.world, n, OnVote(v, false))
  {
  }

  /** The third block has its vote. It is committed, or merely saved as highest committed block if
      a crash comes in between. */
  lemma ThirdVoted(crash: bool) returns (sys: System, n: Node)
    ensures OneNode(sys, 3, n) && Stores(n, 3) && StatusIs(n, 1, Trusted) && StatusIs(n, 2, Valid)
    ensures StatusIs(n, 3, if crash then Valid else Committed)
    ensures n.hcc == 3 && n.lfb == 1 && n.lastVote == V3 && n.epoch == 1 && 4 !in n.votes && n.epochVotes == map[1 := V3]
    ensures Key(V3) in sys.world.ballots
  {
    hide OneNode, Stores, Writes, ApplyAll;
    var sys0, n0 := TwoBlocks();
    StoredUpTo(n0, 3);
    IdOf(n0, 3);
    var sys1, n1 := TimerStep(sys0, 3, n0, V3);
    SameStore(n0, n1, 3);
    VoteThree(n1);
    MaySend(sys1, 3, n1, V3);
    NothingStops(n1, 3, Writes(n1, VS, OnVote(V3, false)), if crash then 4 else 5);
    sys, n := Acts(sys1, 3, n1, OnVote(V3, false), if crash then 4 else 5);
    StatusStores(n1, 3, 3, Committed);
    if crash {
      SameStore(n1, n, 3);
    } else {
      SameStore(Apply(n1, PutStatus(3, Committed)), n, 3);
    }
  }

  lemma IdOf(n: Node, top: nat)
    requires Stores(n, top)
    ensures n.id == 1 && n.root == 1
  {
  }

  lemma LastStep(sys: System, n: Node) returns (sys': System, n': Node)
    requires OneNode(sys, 4, n) && Stores(n, 4) && StatusIs(n, 4, Pending) && n.lfb == 1 && n.hcc == 3 && BlockTree.IsValid(n.chain.blocks[3].status)
    requires n.epoch == 1 && 4 !in n.votes && n.epochVotes == map[1 := V3] && Key(V3) in sys.world.ballots
    ensures OneNode(sys', 4, n') && Stores(n', 4) && 4 !in n'.votes
    ensures n' == Apply(n, PutStatus(4, Valid)).(votes := n'.votes)
    ensures sys'.world.ballots >= sys.world.ballots
  {
    hide OneNode, Stores, HandleBlock, ApplyAll, Possible;
    LastBlock(n);
    var ws := [PutEpochVote(V3, false), PutVote(V3), PutStatus(4, Valid)];
    var m := LastWrites(n);
    assert ws[..3] == ws;
    MayProcess(sys, n);
    NothingStops(n, 4, ws, 3);
    sys', n' := Acts(sys, 4, n, OnBlock(4, WITH_V3), 3);
    SameStore(n, m, 4);
    StoredUpTo(m, 4);
    StatusStores(m, 4, 4, Valid);
  }

  lemma MayProcess(sys: System, n: Node)
    requires OneNode(sys, 4, n) && Stores(n, 4)
    ensures Possible(sys.world, n, OnBlock(4, WITH_V3))
  {
    hide Reached, ChainOk, ValidateBlock, ApplyAll, Prepare, MarkValid, Searched;
    CertificateListed();
  }

  lemma LastWrites(n: Node) returns (m: Node)
    requires n.epochVotes == map[1 := V3] && 4 !in n.votes
    ensures m == n.(votes := m.votes) && 4 !in m.votes
    ensures ApplyAll(n, [PutEpochVote(V3, false), PutVote(V3), PutStatus(4, Valid)]) == Apply(m, PutStatus(4, Valid))
  {
    var first, last := [PutEpochVote(V3, false), PutVote(V3)], PutStatus(4, Valid);
    ApplyTwo(n, first[0], first[1]);
    m := ApplyAll(n, first);
    assert first + [last] == [PutEpochVote(V3, false), PutVote(V3), PutStatus(4, Valid)];
    ApplyAllConcat(n, first, [last]);
    ApplyTwo(m, last, last);
  }

  lemma CertificateListed()
    ensures Lists(WITH_V3.order, B(4).hccVotes)
  {
    assert WITH_V3.order[0] in WITH_V3.order;
  }

  /** All is ready for the vote that commits the fourth block and finalizes the third. */
  lemma Ready(crash: bool) returns (sys: System, n: Node)
    ensures OneNode(sys, 4, n) && Stores(n, 4) && StatusIs(n, 1, Trusted) && StatusIs(n, 2, Valid) && StatusIs(n, 4, Valid)
    ensures StatusIs(n, 3, if crash then Valid else Committed)
    ensures n.hcc == 3 && n.lfb == 1 && n.epoch == 1 && n.epochVotes == map[1 := V3]
    ensures Key(V4) in sys.world.ballots
  {
    hide OneNode, Stores;
    var sys0, n0 := ThirdVoted(crash);
    StoredUpTo(n0, 3);
    var sys1, n1 := Arrives(sys0, 3, n0);
    StoredUpTo(n1, 4);
    var sys2, n2 := LastStep(sys1, n1);
    StoredUpTo(n2, 4);
    IdOf(n2, 4);
    sys, n := TimerStep(sys2, 4, n2, V4);
    SameStore(n2, n, 4);
  }

  /** The writes of that vote, and the node after the first mark and after all of them. */
  lemma VoteFour(n: Node)
    requires Stores(n, 4) && StatusIs(n, 1, Trusted) && StatusIs(n, 2, Valid) && StatusIs(n, 4, Valid)
    requires StatusIs(n, 3, Valid) || StatusIs(n, 3, Committed)
    requires n.hcc == 3 && n.lfb == 1 && n.epoch == 1 && n.epochVotes == map[1 := V3]
    ensures
      var ws := Writes(n, VS, OnVote(V4, false));
      && |ws| == 8 && ws[4] == PutStatus(3, DirectlyFinalized)
      && (var m := ApplyAll(n, ws[..5]); m.root == 1 && m.hcc == 3 && m.lfb == 3 && StatusIs(m, 3, DirectlyFinalized) && StatusIs(m, 2, Valid) && m.chain.blocks[3].block == B(3))
      && (var m := ApplyAll(n, ws[..8]); m.hcc == 4 && StatusIs(m, 3, DirectlyFinalized) && StatusIs(m, 2, IndirectlyFinalized) && StatusIs(m, 4, Committed))
  {
    hide CheckCC, HandleVote, Stores, ApplyAll, StatusIs;
    OwnVote(n, V4);
    var a := HandleVote(n, VS, V4, false);
    var first := [PutLfb(3), PutStatus(3, DirectlyFinalized)];
    var rest := [PutStatus(2, IndirectlyFinalized), PutHcc(4), PutStatus(4, Committed)];
    var m := ApplyAll(n, a);
    SameStore(n, m, 4);
    SameStatuses(n, m);
    FourthCommitted(m);
    var ws := Writes(n, VS, OnVote(V4, false));
    assert ws == a + (first + rest) && ws[..8] == ws && ws[..5] == a + first;
    ApplyAllConcat(n, a, first + rest);
    ApplyAllConcat(n, a, first);
    ApplyAllConcat(m, first, rest);
    FirstMark(m);
    LastMarks(ApplyAll(m, first));
  }

  lemma SameStatuses(n: Node, m: Node)
    requires m.chain == n.chain
    ensures forall h, st :: StatusIs(n, h, st) ==> StatusIs(m, h, st)
  {
  }

  lemma FirstMark(n: Node)
    requires Stores(n, 4) && StatusIs(n, 2, Valid) && StatusIs(n, 4, Valid)
    ensures
      var m := ApplyAll(n, [PutLfb(3), PutStatus(3, DirectlyFinalized)]);
      m.root == 1 && m.hcc == n.hcc && m.lfb == 3 && StatusIs(m, 3, DirectlyFinalized) && StatusIs(m, 2, Valid) && StatusIs(m, 4, Valid) && m.chain.blocks[3].block == B(3)
  {
    hide ChainOk;
    ApplyTwo(n, PutLfb(3), PutStatus(3, DirectlyFinalized));
  }

  lemma LastMarks(n: Node)
    requires StatusIs(n, 3, DirectlyFinalized) && StatusIs(n, 2, Valid) && StatusIs(n, 4, Valid)
    ensures
      var m := ApplyAll(n, [PutStatus(2, IndirectlyFinalized), PutHcc(4), PutStatus(4, Committed)]);
      m.hcc == 4 && StatusIs(m, 3, DirectlyFinalized) && StatusIs(m, 2, IndirectlyFinalized) && StatusIs(m, 4, Committed)
  {
    var two, last := [PutStatus(2, IndirectlyFinalized), PutHcc(4)], PutStatus(4, Committed);
    assert two + [last] == [PutStatus(2, IndirectlyFinalized), PutHcc(4), PutStatus(4, Committed)];
    ApplyAllConcat(n, two, [last]);
    ApplyTwo(n, two[0], two[1]);
    ApplyTwo(ApplyAll(n, two), last, last);
  }

  lemma Bounded(sys: System, top: nat, n: Node)
    requires OneNode(sys, top, n)
    ensures Reached(sys) && 1 in sys.nodes && sys.nodes[1] == n && FaultBound(sys.world.validators, sys.nodes.Keys)
  {
    Alone({});
  }

  /** A run without faults and crashes in which blocks are committed and finalized: the theorems on
      agreement are about something. */
  lemma SomethingIsFinalized() returns (sys: System)
    ensures Reached(sys) && FaultBound(sys.world.validators, sys.nodes.Keys)
    ensures DirectlyFinalAt(sys, 1, 3) && FinalizedAt(sys, 1, 2) && CommittedAt(sys, 1, 4)
  {
    hide OneNode, Stores, Writes, ApplyAll, Reached;
    var sys0, n0 := Ready(false);
    VoteFour(n0);
    MaySend(sys0, 4, n0, V4);
    var n;
    NothingStops(n0, 4, Writes(n0, VS, OnVote(V4, false)), 8);
    sys, n := Acts(sys0, 4, n0, OnVote(V4, false), 8);
    Bounded(sys, 4, n);
  }

  /** The same run, with the last handler cut off inside the marking walk: a reachable gap. */
  lemma GapHappens() returns (sys: System)
    ensures Reached(sys) && FaultBound(sys.world.validators, sys.nodes.Keys)
    ensures 1 in sys.nodes && GapAt(3, 2, sys.nodes[1]) && !Closed(sys.nodes[1].chain.blocks, sys.nodes[1].root)
  {
    hide OneNode, Stores, Writes, ApplyAll, Reached;
    var sys0, n0 := Ready(false);
    VoteFour(n0);
    MaySend(sys0, 4, n0, V4);
    var n;
    NothingStops(n0, 4, Writes(n0, VS, OnVote(V4, false)), 5);
    sys, n := Acts(sys0, 4, n0, OnVote(V4, false), 5);
    Bounded(sys, 4, n);
    GapIsOpen(n, 3, 2);
  }

  /** The same run, with a crash between saving the third block as highest committed and marking it:
      the handler of the last vote then leaves the status diagram. */
  lemma DepartureHappens() returns (sys: System, action: Action, k: nat)
    ensures Reached(sys) && FaultBound(sys.world.validators, sys.nodes.Keys)
    ensures 1 in sys.nodes && Possible(sys.world, sys.nodes[1], action)
    ensures k < |Writes(sys.nodes[1], sys.world.validators, action)| && Departs(sys.nodes[1], Writes(sys.nodes[1], sys.world.validators, action), k)
  {
    hide OneNode, Stores, Writes, ApplyAll, Reached, Departs, Possible;
    var n;
    sys, n := Ready(true);
    VoteFour(n);
    MaySend(sys, 4, n, V4);
    Bounded(sys, 4, n);
    ReachedOk(sys);
    ValidatorsOf(sys, 4, n);
    action := OnVote(V4, false);
    DepartsExactly(sys, 1, action);
    var ws := Writes(n, VS, action);
    assert ws[4] in ws;
    k :| k < |ws| && Departs(n, ws, k);
  }

  /** The same two crashes: the last finalized block is level with the highest committed one after the
      first, and the highest committed block is unmarked after the second. */
  lemma LevelHappens() returns (sys: System)
    ensures Reached(sys) && FaultBound(sys.world.validators, sys.nodes.Keys) && 1 in sys.nodes && !Below(sys.nodes[1])
  {
    hide OneNode, Stores, Writes, ApplyAll, Reached;
    var sys0, n0 := Ready(false);
    VoteFour(n0);
    MaySend(sys0, 4, n0, V4);
    NothingStops(n0, 4, Writes(n0, VS, OnVote(V4, false)), 5);
    var n;
    sys, n := Acts(sys0, 4, n0, OnVote(V4, false), 5);
    Bounded(sys, 4, n);
  }

  lemma UnmarkedHappens() returns (sys: System)
    ensures Reached(sys) && FaultBound(sys.world.validators, sys.nodes.Keys) && 1 in sys.nodes && !Marked(sys.nodes[1])
  {
    hide OneNode, Stores, Reached;
    var n;
    sys, n := Ready(true);
    Bounded(sys, 4, n);
  }

  // ---- the last epoch ----------------------------------------------------------------

  /** A root in the last epoch that 64 bits can hold, and the validator's vote for it. */
  const LAST_ROOT: Block := Block(1, 0, 0, U64 - 1, 0, map[], [])
  const LAST_VOTE: Vote := Vote(1, 0, U64 - 1, 1, true)

  lemma LastStart() returns (sys: System, n: Node)
    ensures Reached(sys) && sys == System(World(1, VS, map[1 := LAST_ROOT], {}), map[1 := n])
    ensures n == FreshNode(1, LAST_ROOT) && n.chain.blocks == map[1 := ExtBlock(LAST_ROOT, [], Trusted, false)]
  {
    n := FreshNode(1, LAST_ROOT);
    sys := System(World(1, VS, map[1 := LAST_ROOT], {}), map[1 := n]);
    FreshStore(LAST_ROOT);
    assert Init(sys);
    assert IsRun([sys], []);
  }

  lemma RootIsTip(n: Node)
    requires n.hcc == 1 && n.chain.blocks == map[1 := ExtBlock(LAST_ROOT, [], Trusted, false)]
    ensures Searched(n.chain.blocks, true, 1, Some(1))
  {
  }

  /** The validator votes in the last epoch and then handles its own vote: a reached system in which
      the epoch of an honest node falls to zero, without faults and without crashes. */
  lemma EpochCanWrap() returns (sys: System, action: Action)
    ensures Reached(sys) && FaultBound(sys.world.validators, sys.nodes.Keys) && 1 in sys.nodes && sys.nodes[1].epoch == U64 - 1
    ensures Enabled(sys, Act(1, action, 3)) && |Writes(sys.nodes[1], sys.world.validators, action)| == 3
    ensures 1 in Next(sys, Act(1, action, 3)).nodes && Next(sys, Act(1, action, 3)).nodes[1].epoch == 0
  {
    hide Reached;
    var sys0, n0 := LastStart();
    RootIsTip(n0);
    Alone({});
    var ws := [PutLastVote(LAST_VOTE), Send(LAST_VOTE)];
    ApplyTwo(n0, ws[0], ws[1]);
    assert Writes(n0, VS, OnTimer(Some(1))) == ws && ws[..2] == ws;
    var step := Act(1, OnTimer(Some(1)), 2);
    assert Survives(n0, ws, 2);
    sys := Next(sys0, step);
    ReachedNext(sys0, step);
    action := OnVote(LAST_VOTE, false);
    LastWritesAre(sys.nodes[1]);
    assert sys.nodes.Keys == {1};
  }

  lemma LastWritesAre(n: Node)
    requires n.chain.blocks == map[1 := ExtBlock(LAST_ROOT, [], Trusted, false)] && n.hcc == 1 && n.epoch == U64 - 1 && n.epochVotes == map[]
    ensures
      var ws := Writes(n, VS, OnVote(LAST_VOTE, false));
      |ws| == 3 && Survives(n, ws, 3) && ApplyAll(n, ws[..3]).epoch == 0
  {
    var saved, last := [PutEpochVote(LAST_VOTE, false), PutVote(LAST_VOTE)], PutEpoch(0);
    var known := LatestVote(n.epochVotes, LAST_VOTE, false);
    assert 1 in VotersSince(known, U64 - 1);
    Alone(VotersSince(known, U64 - 1));
    assert HandleVote(n, VS, LAST_VOTE, false) == saved + [last];
    ApplyAllConcat(n, saved, [last]);
    ApplyTwo(n, saved[0], saved[1]);
    ApplyTwo(ApplyAll(n, saved), last, last);
    var ws := Writes(n, VS, OnVote(LAST_VOTE, false));
    assert CheckCC(ApplyAll(n, saved + [last]), VS, 1) == [];
    assert ws == saved + [last] && ws[..3] == ws && ws[..2] == saved;
    assert !StopsAt(n, ws, 0) && !StopsAt(n, ws, 1) && !StopsAt(n, ws, 2);
  }

  /** A crash between linking a block from its parent and storing it, after which the tip search
      fails. */
  lemma FatalSearchHappens() returns (sys: System)
    ensures Reached(sys) && FaultBound(sys.world.validators, sys.nodes.Keys)
    ensures 1 in sys.nodes && MeetsMissing(sys.nodes[1].chain.blocks, true, sys.nodes[1].hcc)
    ensures MeetsMissing(sys.nodes[1].chain.blocks, false, sys.nodes[1].hcc)
  {
    hide OneNode;
    var sys0, n0 := Start();
    var sys1 := Publishes(sys0, 1, n0);
    sys := DeliversCut(sys1, 2, n0, 1);
    StoredUpTo(n0, 1);
    Bounded(sys, 2, n0.(chain := AddSaved(n0.chain, B(2), 1)));
    var s := sys.nodes[1].chain.blocks;
    assert MissingChild(s, 1, 2);
    assert IsPath(s, true, 1, 1, [1]) && IsPath(s, false, 1, 1, [1]);
    assert Reachable(s, true, 1, 1) && Reachable(s, false, 1, 1);
  }

  lemma ValidatorsOf(sys: System, top: nat, n: Node)
    requires OneNode(sys, top, n)
    ensures sys.world.validators == VS
  {
  }
}
