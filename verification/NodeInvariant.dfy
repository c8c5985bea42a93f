/** What every persisted write of an honest node keeps. */
module NodeInvariant {
  import opened Common
  import opened Validators
  import opened Votes
  import opened BlockTree
  import opened ChainSpec
  import opened Handlers

  /** Everything created so far: blocks by hash, and every ballot ever signed. */
  datatype World = World(root: Hash, validators: ValidatorSet, blocks: Blocks, ballots: set<VoteKey>)

  ghost predicate Extends(w: World, later: World) {
    && later.root == w.root && later.validators == w.validators && w.ballots <= later.ballots
    && forall h :: h in w.blocks ==> h in later.blocks && later.blocks[h] == w.blocks[h]
  }

  ghost function Signers(w: World, h: Hash): set<Address> {
    set k | k in w.ballots && k.block == h :: k.id
  }

  /** Validators with more than two thirds of the stake have signed for the block. */
  ghost predicate Certified(w: World, h: Hash) {
    h in w.blocks && Majority(w.validators, Signers(w, h))
  }

  ghost predicate Anchored(w: World, h: Hash) {
    h == w.root || Certified(w, h)
  }

  /** `c` is a certified child of `f` that names `f` as its highest committed block. */
  ghost predicate Confirms(w: World, c: Hash, f: Hash) {
    && f in w.blocks && Certified(w, c)
    && w.blocks[c].parent == f && w.blocks[c].hcc == f
    && w.blocks[c].height == w.blocks[f].height + 1
  }

  ghost predicate DirectFinal(w: World, f: Hash) {
    f in w.blocks && Anchored(w, f) && (f == w.root || exists c :: Confirms(w, c, f))
  }

  // ---- the invariant, piece by piece -------------------------------------------------

  ghost predicate StoreOk(w: World, s: Store) {
    && w.root in s && s[w.root].status == Trusted
    && (forall h :: h in s ==> h in w.blocks && s[h].block == w.blocks[h] && w.blocks[h].hash == h && h != EMPTY_HASH)
    && (forall h :: h in s && s[h].status.Trusted? ==> h == w.root)
    && w.blocks[w.root].parent !in w.blocks
    && (forall h :: h in w.blocks ==> w.blocks[h].hcc != h)
  }

  /** A processed block hangs below a processed parent of an earlier epoch and names a processed
      ancestor, no higher than `top`, that is certified or finalized. */
  ghost predicate Linked(w: World, s: Store, top: nat, h: Hash)
    requires h in s
  {
    var b := s[h].block;
    && b.parent in s && BlockTree.IsValid(s[b.parent].status) && b.height == s[b.parent].block.height + 1
    && s[b.parent].block.epoch < b.epoch
    && b.hcc in s && BlockTree.IsValid(s[b.hcc].status) && Anc(w.blocks, b.hcc, b.parent)
    && s[b.hcc].block.height <= top
    && (Anchored(w, b.hcc) || IsFinalized(s[b.hcc].status))
  }

  ghost predicate LinksOk(w: World, s: Store, top: nat) {
    forall h {:trigger Linked(w, s, top, h)} ::
      h in s && BlockTree.IsValid(s[h].status) && h != w.root ==> Linked(w, s, top, h)
  }

  ghost predicate FinalBelow(w: World, limit: nat, h: Hash, f: Hash) {
    DirectFinal(w, f) && w.blocks[f].height <= limit && Anc(w.blocks, h, f)
  }

  /** Every finalized block lies below a directly final one that is no higher than `limit`. */
  ghost predicate FinalOk(w: World, s: Store, limit: nat) {
    && (forall h {:trigger BelowFinal(w, limit, h)} :: h in s && IsFinalized(s[h].status) ==> BelowFinal(w, limit, h))
    && (forall h {:trigger DirectFinal(w, h)} :: h in s && s[h].status.DirectlyFinalized? ==> DirectFinal(w, h))
  }

  ghost predicate BelowFinal(w: World, limit: nat, h: Hash) {
    exists f :: FinalBelow(w, limit, h, f)
  }

  ghost predicate CommittedOk(w: World, s: Store, top: nat) {
    forall h :: h in s && s[h].status.Committed? ==> Certified(w, h) && s[h].block.height <= top
  }

  ghost predicate TopsOk(w: World, s: Store, hcc: Hash, lfb: Hash) {
    && hcc in s && BlockTree.IsValid(s[hcc].status) && Anchored(w, hcc)
    && lfb in s && BlockTree.IsValid(s[lfb].status) && DirectFinal(w, lfb)
    && s[lfb].block.height <= s[hcc].block.height
  }

  ghost predicate VoteIndexOk(w: World, votes: map<Hash, VoteSet>) {
    forall h :: h in votes ==> IndexEntryOk(votes[h], h) && votes[h].Keys <= w.ballots
  }

  ghost predicate EpochVotesOk(w: World, votes: map<Address, Vote>) {
    forall a :: a in votes ==> votes[a].id == a && votes[a].epoch < U64 && Key(votes[a]) in w.ballots
  }

  ghost function HeightIn(s: Store, h: Hash): nat {
    if h in s then s[h].block.height else 0
  }

  /** The blocks this node has voted for: those it has sent a ballot for, and the block of its
      last vote, which it may have saved without sending. */
  ghost function Voted(sent: set<VoteKey>, last: Vote): set<Hash> {
    (set k | k in sent :: k.block) + (if last.height != 0 then {last.block} else {})
  }

  /** No two voted blocks at one height, none above the last vote, and each higher one's highest
      committed block is certified and no lower than that of every lower one. */
  ghost predicate BallotsOk(w: World, s: Store, id: Address, sent: set<VoteKey>, last: Vote) {
    && (forall k :: k in sent ==> k.id == id)
    && (last.height != 0 ==> HeightIn(s, last.block) == last.height)
    && (forall h :: h in Voted(sent, last) ==> h in s && BlockTree.IsValid(s[h].status) && s[h].block.height <= last.height)
    && (forall g, h :: g in Voted(sent, last) && h in Voted(sent, last) && HeightIn(s, g) == HeightIn(s, h) ==> g == h)
    && (forall g, h :: g in Voted(sent, last) && h in Voted(sent, last) && g != w.root && HeightIn(s, g) < HeightIn(s, h) ==> Locked(w, g, h))
  }

  ghost predicate Locked(w: World, earlier: Hash, later: Hash) {
    && earlier in w.blocks && later in w.blocks
    && w.blocks[earlier].hcc in w.blocks && w.blocks[later].hcc in w.blocks
    && Anchored(w, w.blocks[later].hcc)
    && w.blocks[w.blocks[earlier].hcc].height <= w.blocks[w.blocks[later].hcc].height
  }

  ghost function SignersSince(w: World, epoch: nat): set<Address> {
    set k | k in w.ballots && k.epoch >= epoch :: k.id
  }

  /** The epoch is the root's, or follows one that a majority has signed at or after. */
  ghost predicate EpochOk(w: World, epoch: nat) {
    && epoch < U64 && w.root in w.blocks
    && (epoch == w.blocks[w.root].epoch || Followed(w, (epoch + U64 - 1) % U64))
  }

  ghost predicate Followed(w: World, epoch: nat) {
    Majority(w.validators, SignersSince(w, epoch))
  }

  /** The block store with its highest committed and last finalized block. */
  ghost predicate StoreViewOk(w: World, s: Store, hcc: Hash, lfb: Hash) {
    && StoreOk(w, s) && TopsOk(w, s, hcc, lfb)
    && LinksOk(w, s, HeightIn(s, hcc)) && FinalOk(w, s, HeightIn(s, lfb)) && CommittedOk(w, s, HeightIn(s, hcc))
  }

  ghost predicate NodeOk(w: World, n: Node) {
    && n.root == w.root
    && StoreViewOk(w, n.chain.blocks, n.hcc, n.lfb)
    && VoteIndexOk(w, n.votes)
    && EpochVotesOk(w, n.epochVotes)
    && EpochOk(w, n.epoch)
    && BallotsOk(w, n.chain.blocks, n.id, n.sent, n.lastVote)
  }

  /** The moves of the status machine: the diagram of core/block.go and, when finality skips the
      commit, Valid to finalized. */
  predicate StatusMove(s: Status, t: Status) {
    || (s.Pending? && (t.Valid? || t.Invalid?))
    || (s.Valid? && (t.Committed? || t.DirectlyFinalized? || t.IndirectlyFinalized?))
    || (s.Committed? && (t.DirectlyFinalized? || t.IndirectlyFinalized?))
  }

  /** What each write may do to the node it is applied to. */
  ghost predicate Guard(n: Node, x: Write) {
    var s := n.chain.blocks;
    match x
    case PutStatus(h, st) => h in s && StatusMove(s[h].status, st)
    case PutHcc(h) => HeightIn(s, n.hcc) < HeightIn(s, h)
    case PutLfb(p) => p != n.lfb && HeightIn(s, n.lfb) <= HeightIn(s, p)
    case PutLastVote(v) => NewVote(n, v)
    case Send(v) => v.block == n.lastVote.block && v.id == n.id && v.epoch == n.epoch
    case PutEpoch(e) => e > n.epoch || (e == 0 && LastEpochSigned(n.epochVotes))
    case _ => true
  }

  /** Some known vote is of the last epoch that 64 bits can hold. */
  ghost predicate LastEpochSigned(votes: map<Address, Vote>) {
    exists a :: a in votes && votes[a].epoch == U64 - 1
  }

  /** A new vote: above the last one and naming the local highest committed block, unless it is
      the first; in any case the block it names is no higher than the local one. */
  ghost predicate NewVote(n: Node, v: Vote) {
    && v.block in n.chain.blocks && v.height == HeightIn(n.chain.blocks, v.block)
    && (n.lastVote.height != 0 ==> n.lastVote.height < v.height && n.chain.blocks[v.block].block.hcc == n.hcc)
    && (v.block == n.root || HeightIn(n.chain.blocks, n.chain.blocks[v.block].block.hcc) <= HeightIn(n.chain.blocks, n.hcc))
  }

  /** `inv` holds after every prefix of the writes, and every write is guarded. */
  ghost predicate Safe(inv: Node -> bool, n: Node, ws: seq<Write>)
    decreases ws
  {
    inv(n) && (ws != [] ==> Guard(n, ws[0]) && Safe(inv, Apply(n, ws[0]), ws[1..]))
  }

  /** Every write of the list obeys the rule where it is applied. */
  ghost predicate Each(rule: (Node, Write) -> bool, n: Node, ws: seq<Write>)
    decreases ws
  {
    ws != [] ==> rule(n, ws[0]) && Each(rule, Apply(n, ws[0]), ws[1..])
  }

  lemma {:induction false} EachConcat(rule: (Node, Write) -> bool, n: Node, a: seq<Write>, b: seq<Write>)
    requires Each(rule, n, a) && Each(rule, ApplyAll(n, a), b)
    ensures Each(rule, n, a + b)
    decreases a
  {
    if a == [] {
      assert a + b == b;
    } else {
      assert (a + b)[0] == a[0] && (a + b)[1..] == a[1..] + b;
      EachConcat(rule, Apply(n, a[0]), a[1..], b);
    }
  }

  lemma {:induction false} EachAt(rule: (Node, Write) -> bool, n: Node, ws: seq<Write>, k: nat)
    requires Each(rule, n, ws) && k < |ws|
    ensures rule(ApplyAll(n, ws[..k]), ws[k])
    decreases k
  {
    if k > 0 {
      assert ws[..k][0] == ws[0] && ws[..k][1..] == ws[1..][..k-1];
      EachAt(rule, Apply(n, ws[0]), ws[1..], k - 1);
    }
  }

  lemma {:induction false} EachAlways(rule: (Node, Write) -> bool, n: Node, ws: seq<Write>)
    requires forall m, x :: x in ws ==> rule(m, x)
    ensures Each(rule, n, ws)
    decreases ws
  {
    if ws != [] {
      assert ws[0] in ws;
      EachAlways(rule, Apply(n, ws[0]), ws[1..]);
    }
  }

  /** Part of a safe list of writes is safe. */
  lemma {:induction false} SafeSplit(inv: Node -> bool, n: Node, a: seq<Write>, b: seq<Write>)
    requires Safe(inv, n, a + b)
    ensures Safe(inv, n, a) && Safe(inv, ApplyAll(n, a), b) && inv(ApplyAll(n, a))
    ensures ApplyAll(n, a + b) == ApplyAll(ApplyAll(n, a), b)
    decreases a
  {
    if a == [] {
      assert a + b == b;
    } else {
      assert (a + b)[0] == a[0] && (a + b)[1..] == a[1..] + b;
      SafeSplit(inv, Apply(n, a[0]), a[1..], b);
    }
  }

  /** A mark that brings the invariant of a node into play. */
  ghost predicate At(n: Node) { true }

  /** `inv` is the node invariant of `w`. Proofs about runs of writes carry it as a name and
      look inside only where a node is marked. */
  ghost predicate Names(inv: Node -> bool, w: World) {
    forall n {:trigger At(n)} :: At(n) && (inv(n) <==> NodeOk(w, n))
  }

  lemma {:induction false} SafePrefix(inv: Node -> bool, n: Node, ws: seq<Write>, k: nat)
    requires Safe(inv, n, ws) && k <= |ws|
    ensures inv(ApplyAll(n, ws[..k]))
    decreases ws
  {
    if k > 0 {
      assert ws[..k][0] == ws[0] && ws[..k][1..] == ws[1..][..k-1];
      SafePrefix(inv, Apply(n, ws[0]), ws[1..], k - 1);
    }
  }

  lemma {:induction false} SafeConcat(inv: Node -> bool, n: Node, a: seq<Write>, b: seq<Write>)
    requires Safe(inv, n, a) && Safe(inv, ApplyAll(n, a), b)
    ensures Safe(inv, n, a + b)
    decreases a
  {
    if a == [] {
      assert a + b == b;
    } else {
      assert (a + b)[0] == a[0] && (a + b)[1..] == a[1..] + b;
      SafeConcat(inv, Apply(n, a[0]), a[1..], b);
    }
  }

  lemma SafeEnd(inv: Node -> bool, n: Node, ws: seq<Write>)
    requires Safe(inv, n, ws)
    ensures inv(ApplyAll(n, ws))
  {
    assert ws[..|ws|] == ws;
    SafePrefix(inv, n, ws, |ws|);
  }

  // ---- changing one status -----------------------------------------------------------

  /** `t` differs from `s` at most in the status of `h` and in what no rule looks at. */
  ghost predicate Restatus(s: Store, t: Store, h: Hash) {
    && t.Keys == s.Keys
    && forall g {:trigger t[g]} :: g in s ==> t[g].block == s[g].block && (g != h ==> t[g].status == s[g].status)
  }

  lemma StatusRestatus(s: Store, h: Hash, st: Status)
    requires h in s
    ensures Restatus(s, SetStatus(s, h, st), h) && SetStatus(s, h, st)[h].status == st
  {
  }

  lemma StoreStep(w: World, s: Store, t: Store, h: Hash)
    requires StoreOk(w, s) && h in s && Restatus(s, t, h)
    requires t[h].status.Trusted? <==> s[h].status.Trusted?
    ensures StoreOk(w, t)
  {
  }

  lemma LinksStep(w: World, s: Store, t: Store, top: nat, newTop: nat, h: Hash)
    requires LinksOk(w, s, top) && h in s && Restatus(s, t, h) && top <= newTop
    requires BlockTree.IsValid(s[h].status) ==> BlockTree.IsValid(t[h].status)
    requires IsFinalized(s[h].status) ==> IsFinalized(t[h].status)
    requires BlockTree.IsValid(t[h].status) && !BlockTree.IsValid(s[h].status) ==> Linked(w, s, newTop, h)
    ensures LinksOk(w, t, newTop)
  {
    forall g | g in t && BlockTree.IsValid(t[g].status) && g != w.root ensures Linked(w, t, newTop, g) {
      assert t[g].block == s[g].block;
      if g != h || BlockTree.IsValid(s[h].status) {
        assert Linked(w, s, top, g);
      }
    }
  }

  lemma FinalStep(w: World, s: Store, t: Store, limit: nat, newLimit: nat, h: Hash)
    requires FinalOk(w, s, limit) && h in s && Restatus(s, t, h) && limit <= newLimit
    requires IsFinalized(t[h].status) && !IsFinalized(s[h].status) ==> BelowFinal(w, newLimit, h)
    requires t[h].status.DirectlyFinalized? && !s[h].status.DirectlyFinalized? ==> DirectFinal(w, h)
    ensures FinalOk(w, t, newLimit)
  {
    forall g | g in t && t[g].status.DirectlyFinalized? ensures DirectFinal(w, g) {
      assert t[g].block == s[g].block;
    }
    forall g | g in t && IsFinalized(t[g].status) ensures BelowFinal(w, newLimit, g) {
      assert t[g].block == s[g].block;
      if g != h || IsFinalized(s[h].status) {
        assert BelowFinal(w, limit, g);
        var f :| FinalBelow(w, limit, g, f);
        assert FinalBelow(w, newLimit, g, f);
      }
    }
  }

  lemma CommittedStep(w: World, s: Store, t: Store, top: nat, newTop: nat, h: Hash)
    requires CommittedOk(w, s, top) && h in s && Restatus(s, t, h) && top <= newTop
    requires t[h].status.Committed? && !s[h].status.Committed? ==> Certified(w, h) && s[h].block.height <= newTop
    ensures CommittedOk(w, t, newTop)
  {
  }

  lemma BallotsStep(w: World, s: Store, t: Store, h: Hash, id: Address, sent: set<VoteKey>, last: Vote)
    requires BallotsOk(w, s, id, sent, last) && h in s && Restatus(s, t, h)
    requires BlockTree.IsValid(s[h].status) ==> BlockTree.IsValid(t[h].status)
    ensures BallotsOk(w, t, id, sent, last)
  {
  }

  /** The status changes the handlers make, with what each needs. */
  ghost predicate StatusMayBecome(w: World, s: Store, top: nat, limit: nat, h: Hash, st: Status)
    requires h in s
  {
    match st
    case Pending => false
    case Trusted => false
    case Invalid => s[h].status.Pending?
    case Valid => s[h].status.Pending? && Linked(w, s, top, h)
    case Committed => s[h].status.Valid? && Certified(w, h) && s[h].block.height <= top
    case DirectlyFinalized => (s[h].status.Valid? || s[h].status.Committed?) && BelowFinal(w, limit, h) && DirectFinal(w, h)
    case IndirectlyFinalized => (s[h].status.Valid? || s[h].status.Committed?) && BelowFinal(w, limit, h)
  }

  lemma RestatusKeepsView(w: World, s: Store, t: Store, hcc: Hash, lfb: Hash, h: Hash)
    requires StoreViewOk(w, s, hcc, lfb) && h in s && Restatus(s, t, h)
    requires t[h].status == s[h].status || StatusMayBecome(w, s, HeightIn(s, hcc), HeightIn(s, lfb), h, t[h].status)
    ensures StoreViewOk(w, t, hcc, lfb)
  {
    var top, limit := HeightIn(s, hcc), HeightIn(s, lfb);
    assert HeightIn(t, hcc) == top && HeightIn(t, lfb) == limit;
    StoreStep(w, s, t, h);
    LinksStep(w, s, t, top, top, h);
    FinalStep(w, s, t, limit, limit, h);
    CommittedStep(w, s, t, top, top, h);
  }

  lemma NewStoreKeeps(w: World, inv: Node -> bool, n: Node, t: Store)
    requires Names(inv, w) && inv(n) && StoreViewOk(w, t, n.hcc, n.lfb) && BallotsOk(w, t, n.id, n.sent, n.lastVote)
    ensures inv(n.(chain := n.chain.(blocks := t)))
  {
    assert At(n) && At(n.(chain := n.chain.(blocks := t)));
  }

  lemma LookInside(w: World, inv: Node -> bool, n: Node)
    requires Names(inv, w) && inv(n)
    ensures StoreViewOk(w, n.chain.blocks, n.hcc, n.lfb)
    ensures BallotsOk(w, n.chain.blocks, n.id, n.sent, n.lastVote)
  {
    assert At(n);
  }

  lemma StatusKeeps(w: World, inv: Node -> bool, n: Node, h: Hash, st: Status)
    requires Names(inv, w) && inv(n) && h in n.chain.blocks
    requires StatusMayBecome(w, n.chain.blocks, HeightIn(n.chain.blocks, n.hcc), HeightIn(n.chain.blocks, n.lfb), h, st)
    ensures inv(Apply(n, PutStatus(h, st)))
  {
    hide StoreViewOk, BallotsOk, NodeOk;
    var s := n.chain.blocks;
    var t := SetStatus(s, h, st);
    LookInside(w, inv, n);
    StatusRestatus(s, h, st);
    RestatusKeepsView(w, s, t, n.hcc, n.lfb, h);
    BallotsStep(w, s, t, h, n.id, n.sent, n.lastVote);
    NewStoreKeeps(w, inv, n, t);
  }

  lemma UpdateKeeps(w: World, inv: Node -> bool, n: Node, h: Hash)
    requires Names(inv, w) && inv(n) && h in n.chain.blocks
    ensures inv(Apply(n, PutUpdate(h)))
  {
    hide StoreViewOk, BallotsOk, NodeOk;
    var s := n.chain.blocks;
    var t := SetUpdate(s, h);
    LookInside(w, inv, n);
    RestatusKeepsView(w, s, t, n.hcc, n.lfb, h);
    BallotsStep(w, s, t, h, n.id, n.sent, n.lastVote);
    NewStoreKeeps(w, inv, n, t);
  }
}
