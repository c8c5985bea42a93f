/** The transaction index: where each transaction can be found (blockchain/tx.go). */
module TxIndex {
  import opened Validators
  import opened Votes
  import opened BlockTree
  import opened ChainSpec

  datatype TxEntry = TxEntry(block: Hash, height: nat, index: nat)

  /** Transaction hashes are injective, so the transaction itself is the key. */
  type Index = map<Tx, TxEntry>

  /** The index after the first `k` transactions of `b`: unless forced, a known transaction keeps
      its entry. */
  function Indexed(txs: Index, b: Block, k: nat, force: bool): Index
    requires k <= |b.txs|
  {
    if k == 0 then txs else
      var before := Indexed(txs, b, k - 1, force);
      if !force && b.txs[k-1] in before then before
      else before[b.txs[k-1] := TxEntry(b.hash, b.height, k - 1)]
  }

  /** The statuses that finalizing the blocks `hs`, nearest first, leaves behind. */
  ghost function MarkedStore(s: Store, hs: seq<Hash>, first: Status): Store
    decreases hs
  {
    if hs == [] then s else MarkedStore(SetStatus(s, hs[0], first), hs[1..], IndirectlyFinalized)
  }

  ghost function IndexedAll(txs: Index, s: Store, hs: seq<Hash>): Index
    requires forall h :: h in hs ==> h in s
    decreases hs
  {
    if hs == [] then txs else
      assert hs[0] in hs && forall h :: h in hs[1..] ==> h in hs;
      IndexedAll(Indexed(txs, s[hs[0]].block, |s[hs[0]].block.txs|, true), s, hs[1..])
  }

  // ---- runs of chain operations ------------------------------------------------------

  datatype TxState = TxState(chain: ChainData, txs: Index)

  /** What can happen to the store and the index: blocks arrive in any order and on any fork,
      statuses change short of finality, and chains are finalized from any block. */
  datatype Op =
    | Add(block: Block)
    | Mark(h: Hash, status: Status)
    | Finalize(h: Hash)
    | Reindex(h: Hash)

  ghost predicate Allowed(st: TxState, op: Op) {
    var s := st.chain.blocks;
    match op
    case Mark(h, status) => h in s && !IsFinalized(s[h].status) && !IsFinalized(status)
    case Reindex(h) => h in s && IsFinalized(s[h].status)
    case _ => true
  }

  ghost function Do(st: TxState, op: Op): TxState
    requires Allowed(st, op)
  {
    var s := st.chain.blocks;
    match op
    case Add(b) =>
      if b.hash in s then st else TxState(AddBlock(st.chain, b, false), Indexed(st.txs, b, |b.txs|, false))
    case Mark(h, status) => st.(chain := st.chain.(blocks := SetStatus(s, h, status)))
    case Finalize(h) =>
      var hs := Walk(s, h);
      WalkIsStored(s, h);
      TxState(st.chain.(blocks := MarkedStore(s, hs, DirectlyFinalized)), IndexedAll(st.txs, s, hs))
    case Reindex(h) => st.(txs := Indexed(st.txs, s[h].block, |s[h].block.txs|, true))
  }

  ghost predicate IsTxRun(run: seq<TxState>, ops: seq<Op>, root: Block) {
    && |run| == |ops| + 1
    && run[0] == TxState(AddBlock(ChainData(map[], map[]), root, true), Indexed(map[], root, |root.txs|, false))
    && forall i {:trigger ops[i]} :: 0 <= i < |ops| ==> Allowed(run[i], ops[i]) && run[i+1] == Do(run[i], ops[i])
  }

  // ---- what the index says -----------------------------------------------------------

  /** The entry names a stored block that holds exactly this transaction at this position. */
  ghost predicate EntryIsTrue(s: Store, t: Tx, e: TxEntry) {
    && e.block in s && s[e.block].block.height == e.height
    && e.index < |s[e.block].block.txs| && s[e.block].block.txs[e.index] == t
  }

  ghost predicate FoundFinal(s: Store, txs: Index, t: Tx) {
    t in txs && txs[t].block in s && IsFinalized(s[txs[t].block].status)
  }

  /** Some finalized block, other than the trusted root, holds the transaction. */
  ghost predicate InFinalBlock(s: Store, t: Tx) {
    exists h :: h in s && IsFinalized(s[h].status) && !s[h].status.Trusted? && t in s[h].block.txs
  }

  ghost predicate BlockFound(s: Store, txs: Index, h: Hash)
    requires h in s
  {
    forall t :: t in s[h].block.txs ==> FoundFinal(s, txs, t)
  }

  /** All entries are true, and every transaction of a finalized block other than the trusted
      root is found in a finalized block. */
  ghost predicate TxsOk(s: Store, txs: Index) {
    && (forall t {:trigger txs[t]} :: t in txs ==> EntryIsTrue(s, t, txs[t]))
    && (forall h {:trigger BlockFound(s, txs, h)} ::
      h in s && IsFinalized(s[h].status) && !s[h].status.Trusted? ==> BlockFound(s, txs, h))
    && (forall h :: h in s ==> s[h].block.hash == h)
  }

  predicate PointsInto(b: Block, t: Tx, e: TxEntry) {
    e.block == b.hash && e.height == b.height && e.index < |b.txs| && b.txs[e.index] == t
  }

  /** Where the transaction `t` is found after the first `k` transactions of `b` are indexed. */
  lemma {:induction false} IndexedMeans(txs: Index, b: Block, k: nat, force: bool, t: Tx)
    requires k <= |b.txs|
    ensures
      var r := Indexed(txs, b, k, force);
      && (t in r ==> (t in txs && r[t] == txs[t]) || PointsInto(b, t, r[t]))
      && (t in txs ==> t in r && (!force ==> r[t] == txs[t]))
      && (t in b.txs[..k] ==> t in r && (force ==> r[t].block == b.hash))
  {
    if k > 0 {
      IndexedMeans(txs, b, k - 1, force, t);
      assert b.txs[..k] == b.txs[..k-1] + [b.txs[k-1]];
    }
  }

  lemma WholeBlock(txs: Index, b: Block, force: bool, t: Tx)
    ensures
      var r := Indexed(txs, b, |b.txs|, force);
      && (t in r ==> (t in txs && r[t] == txs[t]) || PointsInto(b, t, r[t]))
      && (t in txs ==> t in r && (!force ==> r[t] == txs[t]))
      && (t in b.txs ==> t in r && (force ==> r[t].block == b.hash))
  {
    IndexedMeans(txs, b, |b.txs|, force, t);
    assert b.txs[..|b.txs|] == b.txs;
  }

  /** Forcing the index to a block of the store that is final. */
  lemma ForcedKeeps(s: Store, txs: Index, h: Hash)
    requires TxsOk(s, txs) && h in s && IsFinalized(s[h].status)
    ensures TxsOk(s, Indexed(txs, s[h].block, |s[h].block.txs|, true))
    ensures BlockFound(s, Indexed(txs, s[h].block, |s[h].block.txs|, true), h)
  {
    var b := s[h].block;
    var r := Indexed(txs, b, |b.txs|, true);
    forall t | t in r ensures EntryIsTrue(s, t, r[t]) {
      WholeBlock(txs, b, true, t);
    }
    forall t | t in b.txs ensures FoundFinal(s, r, t) {
      WholeBlock(txs, b, true, t);
    }
    forall g | g in s && IsFinalized(s[g].status) && !s[g].status.Trusted? ensures BlockFound(s, r, g) {
      assert BlockFound(s, txs, g);
      forall t | t in s[g].block.txs ensures FoundFinal(s, r, t) {
        assert FoundFinal(s, txs, t);
        WholeBlock(txs, b, true, t);
      }
    }
  }

  /** Marking one block final and forcing its transactions into the index. */
  lemma MarkKeepsIndex(s: Store, txs: Index, h: Hash, st: Status)
    requires TxsOk(s, txs) && h in s && !IsFinalized(s[h].status) && IsFinalized(st)
    ensures TxsOk(SetStatus(s, h, st), Indexed(txs, s[h].block, |s[h].block.txs|, true))
  {
    var u := SetStatus(s, h, st);
    var b := s[h].block;
    var r := Indexed(txs, b, |b.txs|, true);
    forall t | t in r ensures EntryIsTrue(u, t, r[t]) {
      WholeBlock(txs, b, true, t);
      assert t in txs && r[t] == txs[t] ==> EntryIsTrue(s, t, txs[t]);
    }
    forall g | g in u && IsFinalized(u[g].status) && !u[g].status.Trusted? ensures BlockFound(u, r, g) {
      forall t | t in u[g].block.txs ensures FoundFinal(u, r, t) {
        WholeBlock(txs, b, true, t);
        if g != h {
          assert BlockFound(s, txs, g);
          assert FoundFinal(s, txs, t);
        }
      }
    }
  }

  /** The transactions of `b` from the k-th on, unless they occur before, are indexed at `b` or at a
      finalized block already. */
  ghost predicate RestIsFound(s: Store, txs: Index, b: Block, k: nat)
    requires k <= |b.txs|
  {
    forall t :: t in b.txs && t !in b.txs[..k] ==> t in txs && (txs[t].block == b.hash || FoundFinal(s, txs, t))
  }

  /** What a forced indexing of the first `k` transactions does to the entry of `t`. */
  lemma CutEntry(txs: Index, b: Block, k: nat, t: Tx)
    requires k <= |b.txs|
    ensures
      var r := Indexed(txs, b, k, true);
      && (t in r ==> (t in txs && r[t] == txs[t]) || PointsInto(b, t, r[t])) && (t in txs ==> t in r)
      && (if t in b.txs[..k] then t in r && r[t].block == b.hash else t in r ==> t in txs && r[t] == txs[t])
  {
    IndexedMeans(txs, b, k, true, t);
    if t !in b.txs[..k] {
      OthersUntouched(txs, b, k, true, t);
    }
  }

  lemma CutOthers(s: Store, txs: Index, h: Hash, st: Status, k: nat)
    requires TxsOk(s, txs) && h in s && !IsFinalized(s[h].status) && IsFinalized(st) && k <= |s[h].block.txs|
    ensures
      var u, r := SetStatus(s, h, st), Indexed(txs, s[h].block, k, true);
      && (forall t {:trigger r[t]} :: t in r ==> EntryIsTrue(u, t, r[t])) && (forall g :: g in u ==> u[g].block.hash == g)
      && (forall g {:trigger BlockFound(u, r, g)} :: g in u && g != h && IsFinalized(u[g].status) && !u[g].status.Trusted? ==> BlockFound(u, r, g))
  {
    var u, b := SetStatus(s, h, st), s[h].block;
    var r := Indexed(txs, b, k, true);
    forall t | t in r ensures EntryIsTrue(u, t, r[t]) {
      CutEntry(txs, b, k, t);
      assert t in txs && r[t] == txs[t] ==> EntryIsTrue(s, t, txs[t]);
    }
    forall g | g in u && g != h && IsFinalized(u[g].status) && !u[g].status.Trusted? ensures BlockFound(u, r, g) {
      assert BlockFound(s, txs, g);
      forall t | t in u[g].block.txs ensures FoundFinal(u, r, t) {
        assert FoundFinal(s, txs, t);
        CutEntry(txs, b, k, t);
      }
    }
  }

  lemma CutOwn(s: Store, txs: Index, h: Hash, st: Status, k: nat)
    requires h in s && s[h].block.hash == h && IsFinalized(st) && !IsFinalized(s[h].status) && k <= |s[h].block.txs|
    ensures BlockFound(SetStatus(s, h, st), Indexed(txs, s[h].block, k, true), h) <==> RestIsFound(s, txs, s[h].block, k)
  {
    var u, b := SetStatus(s, h, st), s[h].block;
    var r := Indexed(txs, b, k, true);
    forall t | t in b.txs
      ensures FoundFinal(u, r, t) <==> t in b.txs[..k] || (t in txs && (txs[t].block == b.hash || FoundFinal(s, txs, t)))
    {
      CutEntry(txs, b, k, t);
    }
  }

  /** A crash between saving a block as final and the k-th of its index entries: the index stays
      true of all finalized blocks exactly when no later transaction of the block is indexed at a
      block that is not final. */
  lemma CutIndexing(s: Store, txs: Index, h: Hash, st: Status, k: nat)
    requires TxsOk(s, txs) && h in s && !IsFinalized(s[h].status) && IsFinalized(st) && !st.Trusted? && k <= |s[h].block.txs|
    ensures TxsOk(SetStatus(s, h, st), Indexed(txs, s[h].block, k, true)) <==> RestIsFound(s, txs, s[h].block, k)
  {
    hide Indexed, RestIsFound, BlockFound, EntryIsTrue;
    CutOthers(s, txs, h, st, k);
    CutOwn(s, txs, h, st, k);
    var u, r := SetStatus(s, h, st), Indexed(txs, s[h].block, k, true);
    assert TxsOk(u, r) ==> BlockFound(u, r, h);
  }

  lemma {:induction false} OthersUntouched(txs: Index, b: Block, k: nat, force: bool, t: Tx)
    requires k <= |b.txs| && t !in b.txs[..k]
    ensures t in Indexed(txs, b, k, force) <==> t in txs
    ensures t in txs ==> Indexed(txs, b, k, force)[t] == txs[t]
  {
    if k > 0 {
      assert b.txs[..k] == b.txs[..k-1] + [b.txs[k-1]];
      OthersUntouched(txs, b, k - 1, force, t);
    }
  }

  lemma {:induction false} WalkIsStored(s: Store, h: Hash)
    ensures forall g :: g in Walk(s, h) ==> g in s
    decreases NotFinalized(s)
  {
    if !(h == EMPTY_HASH || h !in s || IsFinalized(s[h].status)) {
      WalkNext(s, h, IndirectlyFinalized);
      WalkIsStored(SetStatus(s, h, IndirectlyFinalized), s[h].block.parent);
    }
  }

  /** The index depends on the transactions of the blocks alone. */
  lemma {:induction false} IndexedAllSame(txs: Index, s: Store, u: Store, hs: seq<Hash>)
    requires u.Keys == s.Keys && (forall h :: h in hs ==> h in s) && forall h :: h in s ==> u[h].block == s[h].block
    ensures IndexedAll(txs, s, hs) == IndexedAll(txs, u, hs)
    decreases hs
  {
    if hs != [] {
      assert hs[0] in hs && forall h :: h in hs[1..] ==> h in hs;
      IndexedAllSame(Indexed(txs, s[hs[0]].block, |s[hs[0]].block.txs|, true), s, u, hs[1..]);
    }
  }

  lemma NothingToMark(txs: Index, s: Store, h: Hash, st: Status)
    requires h == EMPTY_HASH || h !in s || IsFinalized(s[h].status)
    ensures Walk(s, h) == [] && MarkedStore(s, Walk(s, h), st) == s && IndexedAll(txs, s, Walk(s, h)) == txs
  {
  }

  /** One step of the finalizing loop, seen from the whole walk. */
  lemma FinalizeNext(txs: Index, s: Store, h: Hash, st: Status)
    requires h != EMPTY_HASH && h in s && !IsFinalized(s[h].status) && IsFinalized(st)
    ensures (forall g :: g in Walk(s, h) ==> g in s) && (forall g :: g in Walk(SetStatus(s, h, st), s[h].block.parent) ==> g in s)
    ensures
      var u := SetStatus(s, h, st);
      var rest := Walk(u, s[h].block.parent);
      && MarkedStore(s, Walk(s, h), st) == MarkedStore(u, rest, IndirectlyFinalized)
      && IndexedAll(txs, s, Walk(s, h)) == IndexedAll(Indexed(txs, s[h].block, |s[h].block.txs|, true), u, rest)
      && NotFinalized(u) < NotFinalized(s)
  {
    var u := SetStatus(s, h, st);
    var rest := Walk(u, s[h].block.parent);
    WalkNext(s, h, st);
    WalkIsStored(s, h);
    WalkIsStored(u, s[h].block.parent);
    assert ([h] + rest)[1..] == rest && ([h] + rest)[0] == h;
    IndexedAllSame(Indexed(txs, s[h].block, |s[h].block.txs|, true), s, u, rest);
  }

  lemma {:induction false} MarkedIs(s: Store, hs: seq<Hash>, first: Status)
    requires NoRepeats(hs) && forall g :: g in hs ==> g in s
    ensures Remarked(s, MarkedStore(s, hs, first), hs, first)
    decreases hs
  {
    if hs != [] {
      assert hs[0] in hs && forall g :: g in hs[1..] ==> g in hs;
      MarkedIs(SetStatus(s, hs[0], first), hs[1..], IndirectlyFinalized);
      RemarkedNext(s, MarkedStore(s, hs, first), hs, first);
    }
  }

  /** Where `t` is found once the blocks of `hs` are indexed: in one of them if any holds it, and
      where it was otherwise. */
  ghost predicate Repointed(txs: Index, after: Index, s: Store, hs: seq<Hash>, t: Tx)
    requires forall h :: h in hs ==> h in s
  {
    if exists h :: h in hs && t in s[h].block.txs
    then t in after && exists h :: h in hs && PointsInto(s[h].block, t, after[t])
    else (t in after <==> t in txs) && (t in txs ==> after[t] == txs[t])
  }

  lemma {:induction false} RepointedAll(txs: Index, s: Store, hs: seq<Hash>, t: Tx)
    requires forall h :: h in hs ==> h in s
    ensures Repointed(txs, IndexedAll(txs, s, hs), s, hs, t)
    decreases hs
  {
    if hs != [] {
      assert forall h :: h in hs <==> h == hs[0] || h in hs[1..];
      var b := s[hs[0]].block;
      var mid := Indexed(txs, b, |b.txs|, true);
      RepointedAll(mid, s, hs[1..], t);
      ForcedPointsInto(txs, b, |b.txs|, t);
      assert b.txs[..|b.txs|] == b.txs;
      if t !in b.txs {
        OthersUntouched(txs, b, |b.txs|, true, t);
      }
    }
  }

  lemma {:induction false} ForcedPointsInto(txs: Index, b: Block, k: nat, t: Tx)
    requires k <= |b.txs|
    ensures t in b.txs[..k] ==> t in Indexed(txs, b, k, true) && PointsInto(b, t, Indexed(txs, b, k, true)[t])
  {
    if k > 0 {
      ForcedPointsInto(txs, b, k - 1, t);
      assert b.txs[..k] == b.txs[..k-1] + [b.txs[k-1]];
    }
  }

  /** Finalizing from `h` makes the blocks on the walk final, `h` directly and the others
      indirectly, and points the index into them for exactly their transactions. */
  lemma FinalizeExactly(s: Store, txs: Index, h: Hash)
    ensures
      var hs := Walk(s, h);
      && IsWalk(s, h, hs) && (forall g :: g in hs ==> g in s)
      && Remarked(s, MarkedStore(s, hs, DirectlyFinalized), hs, DirectlyFinalized)
      && forall t :: Repointed(txs, IndexedAll(txs, s, hs), s, hs, t)
  {
    WalkExactly(s, h);
    WalkIsStored(s, h);
    MarkedIs(s, Walk(s, h), DirectlyFinalized);
    forall t ensures Repointed(txs, IndexedAll(txs, s, Walk(s, h)), s, Walk(s, h), t) {
      RepointedAll(txs, s, Walk(s, h), t);
    }
  }

  lemma {:induction false} FinalizeKeeps(s: Store, txs: Index, h: Hash, st: Status)
    requires TxsOk(s, txs) && IsFinalized(st)
    ensures (forall g :: g in Walk(s, h) ==> g in s) && TxsOk(MarkedStore(s, Walk(s, h), st), IndexedAll(txs, s, Walk(s, h)))
    decreases NotFinalized(s)
  {
    if !(h == EMPTY_HASH || h !in s || IsFinalized(s[h].status)) {
      FinalizeNext(txs, s, h, st);
      MarkKeepsIndex(s, txs, h, st);
      FinalizeKeeps(SetStatus(s, h, st), Indexed(txs, s[h].block, |s[h].block.txs|, true), s[h].block.parent, IndirectlyFinalized);
    }
  }

  lemma AddShape(c: ChainData, b: Block)
    requires b.hash !in c.blocks
    ensures
      var t := AddBlock(c, b, false).blocks;
      t.Keys == c.blocks.Keys + {b.hash} && t[b.hash].block == b && t[b.hash].status.Pending? &&
      forall h {:trigger t[h]} :: h in c.blocks ==> t[h].block == c.blocks[h].block && t[h].status == c.blocks[h].status
  {
  }

  lemma AddKeepsIndex(c: ChainData, txs: Index, b: Block)
    requires TxsOk(c.blocks, txs) && b.hash !in c.blocks
    ensures TxsOk(AddBlock(c, b, false).blocks, Indexed(txs, b, |b.txs|, false))
  {
    var s, u, r := c.blocks, AddBlock(c, b, false).blocks, Indexed(txs, b, |b.txs|, false);
    AddShape(c, b);
    forall t | t in r ensures EntryIsTrue(u, t, r[t]) {
      WholeBlock(txs, b, false, t);
      assert t in txs ==> EntryIsTrue(s, t, txs[t]);
      assert t in txs ==> u[txs[t].block].block == s[txs[t].block].block;
    }
    forall g | g in u && IsFinalized(u[g].status) && !u[g].status.Trusted? ensures BlockFound(u, r, g) {
      assert BlockFound(s, txs, g);
      forall t | t in u[g].block.txs ensures FoundFinal(u, r, t) {
        assert FoundFinal(s, txs, t);
        WholeBlock(txs, b, false, t);
        assert u[txs[t].block].status == s[txs[t].block].status;
      }
    }
  }

  lemma MarkOnlyKeeps(s: Store, txs: Index, h: Hash, status: Status)
    requires TxsOk(s, txs) && h in s && !IsFinalized(s[h].status) && !IsFinalized(status)
    ensures TxsOk(SetStatus(s, h, status), txs)
  {
    var u := SetStatus(s, h, status);
    forall t | t in txs ensures EntryIsTrue(u, t, txs[t]) {
      assert EntryIsTrue(s, t, txs[t]);
    }
    forall g | g in u && IsFinalized(u[g].status) && !u[g].status.Trusted? ensures BlockFound(u, txs, g) {
      assert BlockFound(s, txs, g);
      forall t | t in u[g].block.txs ensures FoundFinal(u, txs, t) {
        assert FoundFinal(s, txs, t);
      }
    }
  }

  lemma OpKeeps(st: TxState, op: Op)
    requires TxsOk(st.chain.blocks, st.txs) && Allowed(st, op)
    ensures TxsOk(Do(st, op).chain.blocks, Do(st, op).txs)
  {
    match op {
      case Add(b) =>
        if b.hash !in st.chain.blocks {
          AddKeepsIndex(st.chain, st.txs, b);
        }
      case Mark(h, status) => MarkOnlyKeeps(st.chain.blocks, st.txs, h, status);
      case Finalize(h) => FinalizeKeeps(st.chain.blocks, st.txs, h, DirectlyFinalized);
      case Reindex(h) => ForcedKeeps(st.chain.blocks, st.txs, h);
    }
  }

  lemma FirstIndex(root: Block)
    ensures TxsOk(AddBlock(ChainData(map[], map[]), root, true).blocks, Indexed(map[], root, |root.txs|, false))
  {
    var s, r := AddBlock(ChainData(map[], map[]), root, true).blocks, Indexed(map[], root, |root.txs|, false);
    assert s.Keys == {root.hash} && s[root.hash].block == root && s[root.hash].status.Trusted?;
    forall t | t in r ensures EntryIsTrue(s, t, r[t]) {
      WholeBlock(map[], root, false, t);
    }
  }

  /** After any run of chain operations, whatever forks also hold a transaction: a transaction of
      a finalized block is found, in a finalized block, at the position where it stands. */
  lemma {:induction false} FinalizedTxsAreFound(run: seq<TxState>, ops: seq<Op>, root: Block, i: nat)
    requires IsTxRun(run, ops, root) && i <= |ops|
    ensures TxsOk(run[i].chain.blocks, run[i].txs)
  {
    if i == 0 {
      FirstIndex(root);
    } else {
      FinalizedTxsAreFound(run, ops, root, i - 1);
      var op := ops[i-1];
      OpKeeps(run[i-1], op);
    }
  }
}
