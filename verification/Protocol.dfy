/** The whole network: honest nodes running the handlers, crashing between any two writes, and
    validators outside the honest set that sign and publish what they like. */
module Protocol {
  import opened Common
  import opened Validators
  import opened Votes
  import opened BlockTree
  import opened ChainSpec
  import opened ChainTree
  import opened Tip
  import opened Handlers
  import opened NodeInvariant
  import opened HandlerSafety

  datatype System = System(world: World, nodes: map<Address, Node>)

  // ---- runs --------------------------------------------------------------------------

  /** A fresh node knows the root alone, trusted, and has not voted. */
  function FreshNode(id: Address, root: Block): Node {
    Node(id, root.hash, AddBlock(ChainData(map[], map[]), root, true), map[], map[],
         root.hash, root.hash, NO_VOTE, root.epoch, {})
  }

  ghost predicate Init(sys: System) {
    var w := sys.world;
    && w.root != EMPTY_HASH && w.root in w.blocks && w.blocks == map[w.root := w.blocks[w.root]]
    && w.blocks[w.root].height < U64 && w.blocks[w.root].epoch < U64
    && w.blocks[w.root].hash == w.root && w.blocks[w.root].parent != w.root && w.blocks[w.root].hcc != w.root
    && WellKeyed(w.blocks[w.root].hccVotes) && w.ballots == {}
    && (forall k :: k in w.blocks[w.root].hccVotes ==> !w.blocks[w.root].hccVotes[k].authentic)
    && (forall a :: a in sys.nodes ==> sys.nodes[a] == FreshNode(a, w.blocks[w.root]))
  }

  /** What one honest node does next: the writes its handler would persist. */
  datatype Action =
    | OnVote(vote: Vote, replaceTie: bool)
    | OnBlock(h: Hash, env: Env)
    | OnTimer(tip: Option<Hash>)

  ghost function Writes(n: Node, vs: ValidatorSet, a: Action): seq<Write> {
    match a
    case OnVote(v, tie) => HandleVoteMessage(n, vs, v, tie)
    case OnBlock(h, env) => HandleBlock(n, vs, h, env)
    case OnTimer(tip) => CastVote(n, vs, tip)
  }

  /** The environment answers as the code it stands for does: certificates list their votes,
      tips come from the tip search, and none if it fails, received votes with a valid signature were signed. */
  ghost predicate Possible(w: World, n: Node, a: Action) {
    match a
    case OnVote(v, _) => Genuine(w, v)
    case OnTimer(tip) => Searched(n.chain.blocks, true, n.hcc, tip)
    case OnBlock(h, env) => Accepts(n, w.validators, h, env) ==>
      && Lists(env.order, n.chain.blocks[h].block.hccVotes)
      && (env.applyOk ==>
        var n1 := BeforeVote(n, w.validators, h, env);
        WillVote(n1, n.chain.blocks[h].block, env) ==> Searched(n1.chain.blocks, true, n1.hcc, env.tip))
  }

  ghost predicate Accepts(n: Node, vs: ValidatorSet, h: Hash, env: Env) {
    && h in n.chain.blocks && n.chain.blocks[h].status.Pending?
    && n.chain.blocks[h].block.parent in n.chain.blocks && n.lfb in n.chain.blocks
    && ValidateBlock(n, vs, h, env.checksOk).Accept?
  }

  /** The node as the tip search of the block handler finds it. */
  ghost function BeforeVote(n: Node, vs: ValidatorSet, h: Hash, env: Env): Node
    requires h in n.chain.blocks
  {
    ApplyAll(ApplyAll(n, Prepare(n, vs, n.chain.blocks[h].block, env.order)), MarkValid(h, env.validatorUpdate))
  }

  /** Leaving an epoch starts with a tip search. Where that fails, the handler ends. */
  ghost predicate StopsAt(n: Node, ws: seq<Write>, k: nat)
    requires k < |ws|
  {
    ws[k].PutEpoch? &&
      var m := ApplyAll(n, ws[..k]);
      MeetsMissing(m.chain.blocks, false, m.hcc)
  }

  /** The handler can get as far as its first `k` writes. */
  ghost predicate Survives(n: Node, ws: seq<Write>, k: nat) {
    k <= |ws| && forall j: nat {:trigger StopsAt(n, ws, j)} :: j < k ==> !StopsAt(n, ws, j)
  }

  datatype Step =
    | Publish(block: Block)
    | Forge(ballot: VoteKey)
    | Deliver(node: Address, h: Hash, persisted: nat)
    | Act(node: Address, action: Action, persisted: nat)

  /** A new block has a hash of its own: nobody can have named it, and the root's parent lies
      outside the model. Signatures in its certificate that verify are real. */
  ghost predicate MayPublish(w: World, b: Block) {
    && b.hash != EMPTY_HASH && b.hash !in w.blocks && b.hcc != b.hash && b.height < U64
    && w.root in w.blocks && b.hash != w.blocks[w.root].parent
    && WellKeyed(b.hccVotes) && forall k :: k in b.hccVotes ==> Genuine(w, b.hccVotes[k])
  }

  ghost predicate Enabled(sys: System, step: Step) {
    match step
    case Publish(b) => MayPublish(sys.world, b)
    case Forge(k) => k.id !in sys.nodes && k.epoch < U64
    case Deliver(a, h, persisted) => a in sys.nodes && h in sys.world.blocks && persisted <= 3
    case Act(a, action, persisted) =>
      && a in sys.nodes && Possible(sys.world, sys.nodes[a], action)
      && Survives(sys.nodes[a], Writes(sys.nodes[a], sys.world.validators, action), persisted)
  }

  /** `Act` applies the first `persisted` writes: all of them, or as many as a crash let through.
      So does `Deliver` with the three saves of an insertion. A restart resumes from what was
      saved. */
  ghost function Next(sys: System, step: Step): System
    requires Enabled(sys, step)
  {
    var w := sys.world;
    match step
    case Publish(b) => sys.(world := w.(blocks := w.blocks[b.hash := b]))
    case Forge(k) => sys.(world := w.(ballots := w.ballots + {k}))
    case Deliver(a, h, persisted) =>
      var n := sys.nodes[a];
      sys.(nodes := sys.nodes[a := n.(chain := AddSaved(n.chain, w.blocks[h], persisted))])
    case Act(a, action, persisted) =>
      var n := ApplyAll(sys.nodes[a], Writes(sys.nodes[a], w.validators, action)[..persisted]);
      System(w.(ballots := w.ballots + n.sent), sys.nodes[a := n])
  }

  ghost predicate IsRun(run: seq<System>, steps: seq<Step>) {
    && |run| == |steps| + 1 && Init(run[0])
    && forall i {:trigger steps[i]} :: 0 <= i < |steps| ==> Enabled(run[i], steps[i]) && run[i+1] == Next(run[i], steps[i])
  }

  ghost predicate Reached(sys: System) {
    exists run, steps :: IsRun(run, steps) && run[|steps|] == sys
  }

  // ---- the invariant of the network --------------------------------------------------

  ghost predicate WorldOk(w: World) {
    && w.root in w.blocks && w.blocks[w.root].parent !in w.blocks && w.blocks[w.root].epoch < U64
    && (forall h :: h in w.blocks ==> h != EMPTY_HASH && w.blocks[h].hash == h && w.blocks[h].hcc != h && w.blocks[h].height < U64 && CertGenuine(w, h))
  }

  ghost predicate CertGenuine(w: World, h: Hash)
    requires h in w.blocks
  {
    var votes := w.blocks[h].hccVotes;
    WellKeyed(votes) && forall k :: k in votes ==> Genuine(w, votes[k])
  }

  /** Every listed child is a block that names the lister as its parent, whether it is stored or
      not. */
  ghost predicate ChildrenNamed(w: World, s: Store) {
    forall p :: p in s ==> Named(w, s[p].children, p)
  }

  ghost predicate Named(w: World, children: seq<Hash>, p: Hash) {
    forall k :: k in children ==> k in w.blocks && w.blocks[k].parent == p
  }

  ghost predicate NodeIn(w: World, a: Address, n: Node) {
    NodeOk(w, n) && ChildrenNamed(w, n.chain.blocks) && n.id == a && n.sent == set k | k in w.ballots && k.id == a
  }

  /** Every honest node keeps its invariant, and has sent exactly the ballots that bear its
      signature. */
  ghost predicate SystemOk(sys: System) {
    && WorldOk(sys.world)
    && forall a {:trigger NodeIn(sys.world, a, sys.nodes[a])} :: a in sys.nodes ==> NodeIn(sys.world, a, sys.nodes[a])
  }

  // ---- a growing world ---------------------------------------------------------------

  lemma CertifiedGrows(w: World, later: World, h: Hash)
    requires Extends(w, later) && Certified(w, h)
    ensures Certified(later, h)
  {
    MajorityMonotone(w.validators, Signers(w, h), Signers(later, h));
  }

  lemma DirectFinalGrows(w: World, later: World, f: Hash)
    requires Extends(w, later) && DirectFinal(w, f)
    ensures DirectFinal(later, f)
  {
    if f != w.root {
      CertifiedGrows(w, later, f);
      var c :| Confirms(w, c, f);
      CertifiedGrows(w, later, c);
      assert Confirms(later, c, f);
    }
  }

  lemma LinksGrow(w: World, later: World, s: Store, top: nat)
    requires Extends(w, later) && StoreOk(w, s) && LinksOk(w, s, top)
    ensures LinksOk(later, s, top)
  {
    forall h | h in s && BlockTree.IsValid(s[h].status) && h != later.root ensures Linked(later, s, top, h) {
      assert Linked(w, s, top, h);
      AncMonotone(w.blocks, later.blocks, s[h].block.hcc, s[h].block.parent);
      if Certified(w, s[h].block.hcc) {
        CertifiedGrows(w, later, s[h].block.hcc);
      }
    }
  }

  lemma FinalGrows(w: World, later: World, s: Store, limit: nat)
    requires Extends(w, later) && FinalOk(w, s, limit)
    ensures FinalOk(later, s, limit)
  {
    forall h | h in s && IsFinalized(s[h].status) ensures BelowFinal(later, limit, h) {
      assert BelowFinal(w, limit, h);
      var f :| FinalBelow(w, limit, h, f);
      DirectFinalGrows(w, later, f);
      AncMonotone(w.blocks, later.blocks, h, f);
      assert FinalBelow(later, limit, h, f);
    }
    forall h | h in s && s[h].status.DirectlyFinalized? ensures DirectFinal(later, h) {
      DirectFinalGrows(w, later, h);
    }
  }

  lemma CommittedGrows(w: World, later: World, s: Store, top: nat)
    requires Extends(w, later) && CommittedOk(w, s, top)
    ensures CommittedOk(later, s, top)
  {
    forall h | h in s && s[h].status.Committed? ensures Certified(later, h) && s[h].block.height <= top {
      CertifiedGrows(w, later, h);
    }
  }

  lemma ViewGrows(w: World, later: World, s: Store, hcc: Hash, lfb: Hash)
    requires Extends(w, later) && WorldOk(later) && StoreViewOk(w, s, hcc, lfb)
    ensures StoreViewOk(later, s, hcc, lfb)
  {
    LinksGrow(w, later, s, HeightIn(s, hcc));
    FinalGrows(w, later, s, HeightIn(s, lfb));
    CommittedGrows(w, later, s, HeightIn(s, hcc));
    DirectFinalGrows(w, later, lfb);
    if hcc != w.root {
      CertifiedGrows(w, later, hcc);
    }
  }

  lemma BallotsGrow(w: World, later: World, s: Store, id: Address, sent: set<VoteKey>, last: Vote)
    requires Extends(w, later) && BallotsOk(w, s, id, sent, last)
    ensures BallotsOk(later, s, id, sent, last)
  {
    forall g, h | g in Voted(sent, last) && h in Voted(sent, last) && g != w.root && HeightIn(s, g) < HeightIn(s, h)
      ensures Locked(later, g, h)
    {
      assert Locked(w, g, h);
      if w.blocks[h].hcc != w.root {
        CertifiedGrows(w, later, w.blocks[h].hcc);
      }
    }
  }

  lemma EpochGrows(w: World, later: World, epoch: nat)
    requires Extends(w, later) && EpochOk(w, epoch)
    ensures EpochOk(later, epoch)
  {
    var before := (epoch + U64 - 1) % U64;
    if epoch != w.blocks[w.root].epoch {
      MajorityMonotone(w.validators, SignersSince(w, before), SignersSince(later, before));
    }
  }

  lemma NodeGrows(w: World, later: World, n: Node)
    requires Extends(w, later) && WorldOk(later) && NodeOk(w, n)
    ensures NodeOk(later, n)
  {
    ViewGrows(w, later, n.chain.blocks, n.hcc, n.lfb);
    EpochGrows(w, later, n.epoch);
    BallotsGrow(w, later, n.chain.blocks, n.id, n.sent, n.lastVote);
  }

  // ---- a block arrives ---------------------------------------------------------------

  lemma InsertKeepsProcessed(w: World, s: Store, t: Store, b: Block, top: nat)
    requires LinksOk(w, s, top) && Received(s, t, b)
    ensures LinksOk(w, t, top)
  {
    forall h | h in t && BlockTree.IsValid(t[h].status) && h != w.root ensures Linked(w, t, top, h) {
      assert h in s && SameButChildren(s[h], t[h]);
      assert Linked(w, s, top, h);
      assert SameButChildren(s[s[h].block.parent], t[s[h].block.parent]);
      assert SameButChildren(s[s[h].block.hcc], t[s[h].block.hcc]);
    }
  }

  lemma InsertKeepsFinal(w: World, s: Store, t: Store, b: Block, limit: nat)
    requires FinalOk(w, s, limit) && Received(s, t, b)
    ensures FinalOk(w, t, limit)
  {
    forall h | h in t && IsFinalized(t[h].status)
      ensures BelowFinal(w, limit, h)
      ensures t[h].status.DirectlyFinalized? ==> DirectFinal(w, h)
    {
      assert h in s && SameButChildren(s[h], t[h]);
    }
  }

  lemma InsertKeepsView(w: World, s: Store, t: Store, b: Block, hcc: Hash, lfb: Hash)
    requires StoreViewOk(w, s, hcc, lfb) && WorldOk(w) && Received(s, t, b)
    requires b.hash in w.blocks && w.blocks[b.hash] == b
    ensures StoreViewOk(w, t, hcc, lfb)
  {
    assert SameButChildren(s[hcc], t[hcc]) && SameButChildren(s[lfb], t[lfb]) && SameButChildren(s[w.root], t[w.root]);
    InsertKeepsProcessed(w, s, t, b, HeightIn(s, hcc));
    InsertKeepsFinal(w, s, t, b, HeightIn(s, lfb));
    forall h | h in t && t[h].status.Committed? ensures Certified(w, h) && t[h].block.height <= HeightIn(s, hcc) {
      assert h in s && SameButChildren(s[h], t[h]);
    }
    forall h | h in t
      ensures h in w.blocks && t[h].block == w.blocks[h] && w.blocks[h].hash == h && h != EMPTY_HASH
      ensures t[h].status.Trusted? ==> h == w.root
    {
      if h != b.hash {
        assert SameButChildren(s[h], t[h]);
      }
    }
  }

  lemma InsertKeepsBallots(w: World, s: Store, t: Store, b: Block, id: Address, sent: set<VoteKey>, last: Vote)
    requires BallotsOk(w, s, id, sent, last) && Received(s, t, b)
    ensures BallotsOk(w, t, id, sent, last)
  {
    forall h | h in Voted(sent, last)
      ensures h in t && BlockTree.IsValid(t[h].status) && t[h].block.height <= last.height && HeightIn(t, h) == HeightIn(s, h)
    {
      assert SameButChildren(s[h], t[h]);
    }
  }

  lemma KidsAreNamed(w: World, s: Store, hashes: seq<Hash>, parent: Hash)
    requires forall h :: h in s ==> h in w.blocks && s[h].block == w.blocks[h]
    ensures Named(w, ChildrenIn(s, hashes, parent), parent)
  {
    if hashes != [] {
      KidsAreNamed(w, s, hashes[..|hashes|-1], parent);
    }
  }

  lemma SavedKeepsNames(w: World, c: ChainData, b: Block, k: nat)
    requires ChildrenNamed(w, c.blocks) && b.hash in w.blocks && w.blocks[b.hash] == b && EMPTY_HASH !in c.blocks
    requires forall h :: h in c.blocks ==> h in w.blocks && c.blocks[h].block == w.blocks[h]
    ensures ChildrenNamed(w, AddSaved(c, b, k).blocks)
  {
    hide ChildrenIn, LinkToParent, HeightEntry, Named;
    var s := LinkToParent(c.blocks, b);
    LinkKeepsNames(w, c.blocks, s, b);
    KidsAreNamed(w, s, HeightEntry(c, (b.height + 1) % U64), b.hash);
    var t := AddSaved(c, b, k).blocks;
    forall p | p in t ensures Named(w, t[p].children, p) {
      assert p in s ==> Named(w, s[p].children, p);
    }
  }

  lemma LinkKeepsNames(w: World, s: Store, t: Store, b: Block)
    requires ChildrenNamed(w, s) && b.hash in w.blocks && w.blocks[b.hash] == b && EMPTY_HASH !in s && t == LinkToParent(s, b)
    requires forall h :: h in s ==> h in w.blocks && s[h].block == w.blocks[h]
    ensures ChildrenNamed(w, t) && forall h :: h in t ==> h in w.blocks && t[h].block == w.blocks[h]
  {
    LinkShape(s, t, b);
    forall p | p in t ensures Named(w, t[p].children, p) && t[p].block == w.blocks[p] {
      assert SameButChildren(s[p], t[p]) && Named(w, s[p].children, p);
    }
  }

  lemma NamesGrow(w: World, later: World, s: Store)
    requires Extends(w, later) && ChildrenNamed(w, s)
    ensures ChildrenNamed(later, s)
  {
    forall p | p in s ensures Named(later, s[p].children, p) {
      assert Named(w, s[p].children, p);
    }
  }

  lemma DeliverKeeps(w: World, n: Node, b: Block, k: nat)
    requires WorldOk(w) && NodeOk(w, n) && ChildrenNamed(w, n.chain.blocks) && b.hash in w.blocks && w.blocks[b.hash] == b
    ensures NodeOk(w, n.(chain := AddSaved(n.chain, b, k))) && ChildrenNamed(w, AddSaved(n.chain, b, k).blocks)
  {
    hide AddSaved, ChildrenNamed;
    var s, t := n.chain.blocks, AddSaved(n.chain, b, k).blocks;
    SavedShape(n.chain, b, k);
    SavedKeepsNames(w, n.chain, b, k);
    InsertKeepsView(w, s, t, b, n.hcc, n.lfb);
    InsertKeepsBallots(w, s, t, b, n.id, n.sent, n.lastVote);
  }

  // ---- a node acts -------------------------------------------------------------------

  /** Writes leave the stored blocks, their children lists and the height index alone. */
  ghost predicate SameShape(c: ChainData, d: ChainData) {
    && d.heights == c.heights && d.blocks.Keys == c.blocks.Keys
    && forall h {:trigger d.blocks[h]} :: h in c.blocks ==>
      d.blocks[h].block == c.blocks[h].block && d.blocks[h].children == c.blocks[h].children
  }

  lemma WriteKeepsShape(n: Node, x: Write)
    ensures SameShape(n.chain, Apply(n, x).chain) && Apply(n, x).id == n.id && n.sent <= Apply(n, x).sent
  {
    if x.PutStatus? && x.h in n.chain.blocks {
      StatusRestatus(n.chain.blocks, x.h, x.status);
    }
  }

  lemma {:induction false} WritesKeepShape(n: Node, ws: seq<Write>)
    ensures SameShape(n.chain, ApplyAll(n, ws).chain) && ApplyAll(n, ws).id == n.id && n.sent <= ApplyAll(n, ws).sent
    decreases ws
  {
    if ws != [] {
      var n1 := Apply(n, ws[0]);
      WriteKeepsShape(n, ws[0]);
      WritesKeepShape(n1, ws[1..]);
      ShapeTransitive(n.chain, n1.chain, ApplyAll(n1, ws[1..]).chain);
    }
  }

  lemma ShapeTransitive(c: ChainData, d: ChainData, e: ChainData)
    requires SameShape(c, d) && SameShape(d, e)
    ensures SameShape(c, e)
  {
    forall h | h in c.blocks ensures e.blocks[h].block == c.blocks[h].block && e.blocks[h].children == c.blocks[h].children {
      assert d.blocks[h].block == c.blocks[h].block;
    }
  }

  lemma ShapeKeepsNames(w: World, c: ChainData, d: ChainData)
    requires ChildrenNamed(w, c.blocks) && SameShape(c, d)
    ensures ChildrenNamed(w, d.blocks)
  {
    forall p | p in d.blocks ensures Named(w, d.blocks[p].children, p) {
      assert d.blocks[p].children == c.blocks[p].children;
    }
  }

  lemma ShapeKeepsChain(c: ChainData, d: ChainData)
    requires ChainOk(c) && SameShape(c, d)
    ensures ChainOk(d)
  {
    forall p | p in d.blocks ensures ChildrenOk(d.blocks, p) {
      assert ChildrenOk(c.blocks, p);
    }
    forall height ensures EntryOk(d.blocks, HeightEntry(d, height), height) {
      assert HeightEntry(d, height) == HeightEntry(c, height);
      assert EntryOk(c.blocks, HeightEntry(c, height), height);
    }
  }

  /** Up to the tip search the block handler keeps the invariant, and the block may be saved. */
  lemma BeforeVoteOk(w: World, inv: Node -> bool, n: Node, h: Hash, env: Env)
    requires WorldOk(w) && Names(inv, w) && inv(n) && Accepts(n, w.validators, h, env)
    requires Lists(env.order, n.chain.blocks[h].block.hccVotes)
    ensures inv(BeforeVote(n, w.validators, h, env)) && Acceptable(w, n, h, env)
  {
    assert n.chain.blocks[h].block == w.blocks[h] && w.blocks[h].hash == h by {
      LookInside(w, inv, n);
    }
    assert CertGenuine(w, h);
    AcceptedIsLinked(w, inv, n, h, env.checksOk);
    PrepareSafe(w, inv, n, h, env);
    MarkValidSafe(w, inv, ApplyAll(n, Prepare(n, w.validators, n.chain.blocks[h].block, env.order)), h, env.validatorUpdate);
  }

  lemma HandleBlockSafe(w: World, inv: Node -> bool, n: Node, h: Hash, env: Env)
    requires WorldOk(w) && Names(inv, w) && inv(n) && Possible(w, n, OnBlock(h, env))
    ensures Safe(inv, n, HandleBlock(n, w.validators, h, env))
  {
    var s := n.chain.blocks;
    if h in s && s[h].status.Pending? && s[h].block.parent in s && n.lfb in s {
      match ValidateBlock(n, w.validators, h, env.checksOk) {
        case Panic =>
        case Reject =>
          StatusKeeps(w, inv, n, h, Invalid);
          SafeOne(inv, n, PutStatus(h, Invalid));
        case Accept =>
          BeforeVoteOk(w, inv, n, h, env);
          if env.applyOk && WillVote(BeforeVote(n, w.validators, h, env), s[h].block, env) {
            TipFromSearch(w, inv, BeforeVote(n, w.validators, h, env), env.tip);
          }
          AcceptBlockSafe(w, inv, n, h, env);
      }
    }
  }

  lemma TipFromSearch(w: World, inv: Node -> bool, n: Node, tip: Option<Hash>)
    requires Names(inv, w) && inv(n) && Searched(n.chain.blocks, true, n.hcc, tip)
    ensures tip.Some? ==> tip.value in n.chain.blocks && BlockTree.IsValid(n.chain.blocks[tip.value].status)
  {
    LookInside(w, inv, n);
    if tip.Some? {
      TipIsValid(n.chain.blocks, true, n.hcc, tip.value);
    }
  }

  /** Every handler, whatever it is asked and wherever a crash cuts it off, keeps the node
      invariant. */
  lemma ActionSafe(w: World, inv: Node -> bool, n: Node, a: Action)
    requires WorldOk(w) && Names(inv, w) && inv(n) && Possible(w, n, a)
    ensures Safe(inv, n, Writes(n, w.validators, a))
  {
    match a {
      case OnVote(v, tie) =>
        var ws := HandleVote(n, w.validators, v, tie);
        HandleVoteSafe(w, inv, n, v, tie);
        CheckCCSafe(w, inv, ApplyAll(n, ws), v.block);
        SafeConcat(inv, n, ws, CheckCC(ApplyAll(n, ws), w.validators, v.block));
      case OnBlock(h, env) =>
        HandleBlockSafe(w, inv, n, h, env);
      case OnTimer(tip) =>
        TipFromSearch(w, inv, n, tip);
        CastVoteSafe(w, inv, n, tip);
    }
  }

  lemma ActKeeps(w: World, n: Node, a: Action, persisted: nat)
    requires WorldOk(w) && NodeOk(w, n) && ChildrenNamed(w, n.chain.blocks) && Possible(w, n, a) && persisted <= |Writes(n, w.validators, a)|
    ensures
      var n' := ApplyAll(n, Writes(n, w.validators, a)[..persisted]);
      NodeOk(w, n') && ChildrenNamed(w, n'.chain.blocks) && n'.id == n.id && n.sent <= n'.sent
  {
    var inv := n => NodeOk(w, n);
    assert Names(inv, w);
    var ws := Writes(n, w.validators, a);
    ActionSafe(w, inv, n, a);
    SafePrefix(inv, n, ws, persisted);
    WritesKeepShape(n, ws[..persisted]);
    ShapeKeepsNames(w, n.chain, ApplyAll(n, ws[..persisted]).chain);
  }

  // ---- whole runs --------------------------------------------------------------------

  lemma FreshStore(root: Block)
    requires root.hash != EMPTY_HASH && root.height < U64
    ensures
      var c := AddBlock(ChainData(map[], map[]), root, true);
      c.blocks == map[root.hash := ExtBlock(root, [], Trusted, false)] && ChainOk(c)
  {
    var empty := ChainData(map[], map[]);
    var c := AddBlock(empty, root, true);
    assert HeightEntry(empty, (root.height + 1) % U64) == [] && HeightEntry(empty, root.height) == [];
    assert ChildrenOk(c.blocks, root.hash);
    forall height ensures EntryOk(c.blocks, HeightEntry(c, height), height) {
      EntryAfterAdd(ChainData(c.blocks, map[]), root.height, root.hash, height);
    }
  }

  lemma FreshNodeOk(w: World, a: Address)
    requires WorldOk(w)
    ensures NodeOk(w, FreshNode(a, w.blocks[w.root])) && ChainOk(FreshNode(a, w.blocks[w.root]).chain)
  {
    FreshStore(w.blocks[w.root]);
    FreshView(w, map[w.root := ExtBlock(w.blocks[w.root], [], Trusted, false)]);
  }

  lemma FreshView(w: World, s: Store)
    requires WorldOk(w) && s == map[w.root := ExtBlock(w.blocks[w.root], [], Trusted, false)]
    ensures StoreViewOk(w, s, w.root, w.root)
  {
    var height := w.blocks[w.root].height;
    assert DirectFinal(w, w.root);
    assert FinalBelow(w, height, w.root, w.root);
    assert BelowFinal(w, height, w.root);
  }

  lemma InitOk(sys: System)
    requires Init(sys)
    ensures SystemOk(sys)
  {
    var w := sys.world;
    assert CertGenuine(w, w.root);
    forall a | a in sys.nodes ensures NodeIn(w, a, sys.nodes[a]) {
      FreshNodeOk(w, a);
    }
  }

  lemma OtherNode(w: World, later: World, a: Address, n: Node)
    requires NodeIn(w, a, n) && Extends(w, later) && WorldOk(later)
    requires forall k :: k in later.ballots && k !in w.ballots ==> k.id != a
    ensures NodeIn(later, a, n)
  {
    hide NodeOk, WorldOk, ChildrenNamed;
    NodeGrows(w, later, n);
    NamesGrow(w, later, n.chain.blocks);
  }

  lemma CertsGrow(w: World, later: World)
    requires WorldOk(w) && Extends(w, later) && later.blocks == w.blocks
    ensures WorldOk(later)
  {
    forall h | h in later.blocks ensures CertGenuine(later, h) {
      assert CertGenuine(w, h);
    }
  }

  lemma WorldWithBlock(w: World, b: Block)
    requires WorldOk(w) && MayPublish(w, b)
    ensures WorldOk(w.(blocks := w.blocks[b.hash := b])) && Extends(w, w.(blocks := w.blocks[b.hash := b]))
  {
    var later := w.(blocks := w.blocks[b.hash := b]);
    forall h | h in later.blocks ensures CertGenuine(later, h) {
      assert h != b.hash ==> CertGenuine(w, h);
    }
  }

  lemma PublishOk(sys: System, b: Block)
    requires SystemOk(sys) && MayPublish(sys.world, b)
    ensures SystemOk(Next(sys, Publish(b)))
  {
    var w, later := sys.world, Next(sys, Publish(b)).world;
    WorldWithBlock(w, b);
    forall a | a in sys.nodes ensures NodeIn(later, a, sys.nodes[a]) {
      assert NodeIn(w, a, sys.nodes[a]);
      OtherNode(w, later, a, sys.nodes[a]);
    }
  }

  lemma ForgeOk(sys: System, k: VoteKey)
    requires SystemOk(sys) && Enabled(sys, Forge(k))
    ensures SystemOk(Next(sys, Forge(k)))
  {
    var w, later := sys.world, Next(sys, Forge(k)).world;
    CertsGrow(w, later);
    forall a | a in sys.nodes ensures NodeIn(later, a, sys.nodes[a]) {
      assert NodeIn(w, a, sys.nodes[a]);
      OtherNode(w, later, a, sys.nodes[a]);
    }
  }

  lemma DeliveredIn(w: World, a: Address, n: Node, b: Block, k: nat)
    requires WorldOk(w) && NodeIn(w, a, n) && b.hash in w.blocks && w.blocks[b.hash] == b
    ensures NodeIn(w, a, n.(chain := AddSaved(n.chain, b, k)))
  {
    DeliverKeeps(w, n, b, k);
  }

  lemma DeliverOk(sys: System, a: Address, h: Hash, k: nat)
    requires SystemOk(sys) && Enabled(sys, Deliver(a, h, k))
    ensures SystemOk(Next(sys, Deliver(a, h, k)))
  {
    hide NodeIn, AddSaved;
    var n := sys.nodes[a];
    assert NodeIn(sys.world, a, n);
    DeliveredIn(sys.world, a, n, sys.world.blocks[h], k);
    OthersOk(sys, sys.world, a, n.(chain := AddSaved(n.chain, sys.world.blocks[h], k)));
  }

  lemma SentSet(w: World, a: Address, sent: set<VoteKey>, sent': set<VoteKey>)
    requires sent == (set k | k in w.ballots && k.id == a) && sent <= sent' && forall k :: k in sent' ==> k.id == a
    ensures sent' == set k | k in w.ballots + sent' && k.id == a
  {
  }

  lemma OwnBallots(w: World, n: Node)
    requires NodeOk(w, n)
    ensures forall k :: k in n.sent ==> k.id == n.id
  {
  }

  /** The acting node and the world after its ballots are out. */
  lemma ActorOk(w: World, later: World, a: Address, n: Node, n': Node)
    requires WorldOk(w) && NodeIn(w, a, n) && NodeOk(w, n') && ChildrenNamed(w, n'.chain.blocks) && n'.id == n.id && n.sent <= n'.sent
    requires later == w.(ballots := w.ballots + n'.sent)
    ensures Extends(w, later) && WorldOk(later) && NodeIn(later, a, n')
    ensures forall k :: k in later.ballots && k !in w.ballots ==> k.id == a
  {
    hide NodeOk, WorldOk, ChildrenNamed;
    OwnBallots(w, n');
    SentSet(w, a, n.sent, n'.sent);
    CertsGrow(w, later);
    NodeGrows(w, later, n');
    NamesGrow(w, later, n'.chain.blocks);
  }

  // ---- how far a handler gets without a crash ----------------------------------------

  /** Undisturbed, the handler makes the writes up to a failed tip search, if it comes to one, and
      all of them otherwise. */
  ghost predicate RunsTo(n: Node, ws: seq<Write>, fatal: bool, m: Node) {
    exists k: nat :: EndsAt(n, ws, k) && m == ApplyAll(n, ws[..k]) && (fatal <==> k < |ws|)
  }

  ghost predicate EndsAt(n: Node, ws: seq<Write>, k: nat) {
    Survives(n, ws, k) && (k < |ws| ==> StopsAt(n, ws, k))
  }

  lemma PrefixStops(n: Node, a: seq<Write>, b: seq<Write>, k: nat)
    requires k < |a|
    ensures StopsAt(n, a + b, k) <==> StopsAt(n, a, k)
  {
    assert (a + b)[..k] == a[..k];
  }

  lemma SuffixStops(n: Node, a: seq<Write>, b: seq<Write>, k: nat)
    requires k < |b|
    ensures StopsAt(n, a + b, |a| + k) <==> StopsAt(ApplyAll(n, a), b, k)
  {
    assert (a + b)[..|a| + k] == a + b[..k];
    ApplyAllConcat(n, a, b[..k]);
  }

  lemma RunsQuiet(n: Node, ws: seq<Write>)
    requires forall x :: x in ws ==> !x.PutEpoch?
    ensures RunsTo(n, ws, false, ApplyAll(n, ws))
  {
    assert ws[..|ws|] == ws;
    assert EndsAt(n, ws, |ws|);
  }

  lemma RunsEarly(n: Node, a: seq<Write>, b: seq<Write>, m: Node)
    requires RunsTo(n, a, true, m)
    ensures RunsTo(n, a + b, true, m)
  {
    var k: nat :| EndsAt(n, a, k) && m == ApplyAll(n, a[..k]) && k < |a|;
    forall j: nat | j <= k ensures StopsAt(n, a + b, j) <==> StopsAt(n, a, j) {
      PrefixStops(n, a, b, j);
    }
    assert (a + b)[..k] == a[..k];
    assert EndsAt(n, a + b, k);
  }

  lemma RunsOn(n: Node, a: seq<Write>, b: seq<Write>, m: Node, fatal: bool, m': Node)
    requires RunsTo(n, a, false, m) && RunsTo(m, b, fatal, m')
    ensures RunsTo(n, a + b, fatal, m')
  {
    assert a[..|a|] == a && m == ApplyAll(n, a) && EndsAt(n, a, |a|);
    var k: nat :| EndsAt(m, b, k) && m' == ApplyAll(m, b[..k]) && (fatal <==> k < |b|);
    forall j: nat | j < |a| ensures !StopsAt(n, a + b, j) {
      PrefixStops(n, a, b, j);
    }
    forall j: nat | |a| <= j < |a + b| ensures StopsAt(n, a + b, j) <==> StopsAt(m, b, j - |a|) {
      SuffixStops(n, a, b, j - |a|);
    }
    assert (a + b)[..|a| + k] == a + b[..k];
    ApplyAllConcat(n, a, b[..k]);
    assert EndsAt(n, a + b, |a| + k);
  }

  lemma ActOk(sys: System, a: Address, action: Action, persisted: nat)
    requires SystemOk(sys) && Enabled(sys, Act(a, action, persisted))
    ensures SystemOk(Next(sys, Act(a, action, persisted)))
  {
    var w, n := sys.world, sys.nodes[a];
    assert NodeIn(w, a, n);
    ActKeeps(w, n, action, persisted);
    var n' := ApplyAll(n, Writes(n, w.validators, action)[..persisted]);
    var later := w.(ballots := w.ballots + n'.sent);
    ActorOk(w, later, a, n, n');
    OthersOk(sys, later, a, n');
  }

  lemma OthersOk(sys: System, later: World, a: Address, n: Node)
    requires SystemOk(sys) && Extends(sys.world, later) && WorldOk(later) && NodeIn(later, a, n)
    requires forall k :: k in later.ballots && k !in sys.world.ballots ==> k.id == a
    ensures SystemOk(System(later, sys.nodes[a := n]))
  {
    var next := System(later, sys.nodes[a := n]);
    forall x | x in next.nodes ensures NodeIn(later, x, next.nodes[x]) {
      if x != a {
        assert NodeIn(sys.world, x, sys.nodes[x]);
        OtherNode(sys.world, later, x, sys.nodes[x]);
      }
    }
  }

  lemma StepOk(sys: System, step: Step)
    requires SystemOk(sys) && Enabled(sys, step)
    ensures SystemOk(Next(sys, step))
  {
    match step {
      case Publish(b) => PublishOk(sys, b);
      case Forge(k) => ForgeOk(sys, k);
      case Deliver(a, h, k) => DeliverOk(sys, a, h, k);
      case Act(a, action, persisted) => ActOk(sys, a, action, persisted);
    }
  }

  lemma {:induction false} RunOk(run: seq<System>, steps: seq<Step>, i: nat)
    requires IsRun(run, steps) && i <= |steps|
    ensures SystemOk(run[i])
  {
    if i == 0 {
      InitOk(run[0]);
    } else {
      RunOk(run, steps, i - 1);
      var step := steps[i-1];
      StepOk(run[i-1], step);
    }
  }

  lemma ReachedOk(sys: System)
    requires Reached(sys)
    ensures SystemOk(sys)
  {
    var run, steps :| IsRun(run, steps) && run[|steps|] == sys;
    RunOk(run, steps, |steps|);
  }
}
