/** The chain as the object it is: a key-value store that every operation reads and writes
    (blockchain/chain.go, blockchain/tx.go, blockchain/vote.go). */
module Chain {
  import opened Common
  import opened Votes
  import opened BlockTree
  import opened ChainSpec
  import opened TxIndex

  class Chain {
    const chainId: nat
    var blocks: Store
    var heights: map<seq<nat>, seq<Hash>>
    var votes: map<Hash, VoteSet>
    var txs: Index

    ghost function Data(): ChainData
      reads this
    {
      ChainData(blocks, heights)
    }

    /** Blocks are stored under their own hash, with well-formed certificates. */
    ghost predicate Valid()
      reads this
    {
      Keyed(blocks)
    }

    /** A new chain with its root, which is of this chain; any other is fatal. */
    constructor (chainId: nat, root: Block)
      requires WellKeyed(root.hccVotes)
      ensures Valid() && this.chainId == chainId
      ensures Data() == ChainSpec.AddBlock(ChainData(map[], map[]), root, true)
      ensures votes == map[] && txs == Indexed(map[], root, |root.txs|, false)
    {
      this.chainId := chainId;
      blocks, heights, votes, txs := map[], map[], map[], map[];
      new;
      var added := AddBlock(root, chainId, true);
      ghost var marked := FinalizePreviousBlocks(root.hash);
    }

    // ---- looking up ------------------------------------------------------------------

    method FindBlock(h: Hash) returns (r: Option<ExtBlock>)
      ensures r == if h in blocks then Some(blocks[h]) else None
    {
      if h in blocks { r := Some(blocks[h]); } else { r := None; }
    }

    /** The stored blocks of the height's entry, in its order; dangling hashes are skipped. */
    method FindBlocksByHeight(height: nat) returns (r: seq<ExtBlock>)
      ensures r == Stored(blocks, HeightEntry(Data(), height))
    {
      var key := HeightKey(height);
      var entry := if key in heights then heights[key] else [];
      r := [];
      for i := 0 to |entry|
        invariant r == Stored(blocks, entry[..i])
      {
        assert entry[..i+1][..i] == entry[..i];
        var b := FindBlock(entry[i]);
        if b.Some? {
          r := r + [b.value];
        }
      }
      assert entry[..|entry|] == entry;
    }

    /** Whether `a` is met on the parent walk from `d` within the distance limit. */
    method IsDescendant(a: Hash, d: Hash) returns (r: bool)
      ensures r <==> MetWithin(blocks, a, d, 2000)
      ensures r == ChainSpec.IsDescendant(blocks, a, d, MAX_DISTANCE)
    {
      DescendantExactly(blocks, a, d, MAX_DISTANCE);
      var h := d;
      for i := 0 to MAX_DISTANCE
        invariant ChainSpec.IsDescendant(blocks, a, d, MAX_DISTANCE) == ChainSpec.IsDescendant(blocks, a, h, MAX_DISTANCE - i)
      {
        if h == a {
          return true;
        }
        var b := FindBlock(h);
        if b.None? {
          return false;
        }
        h := b.value.block.parent;
      }
      r := false;
    }

    // ---- adding a block --------------------------------------------------------------

    method AddBlockByHeightIndex(height: nat, h: Hash)
      modifies this`heights
      ensures Data() == AddToHeightIndex(old(Data()), height, h)
    {
      var key := HeightKey(height);
      var entry := if key in heights then heights[key] else [];
      for i := 0 to |entry|
        invariant heights == old(heights) && h !in entry[..i]
      {
        if entry[i] == h {
          return;
        }
      }
      assert entry[..|entry|] == entry;
      heights := heights[key := entry + [h]];
    }

    method AddTxsToIndex(b: Block, force: bool)
      modifies this`txs
      ensures txs == Indexed(old(txs), b, |b.txs|, force)
    {
      for i := 0 to |b.txs|
        invariant txs == Indexed(old(txs), b, i, force)
      {
        var tx := b.txs[i];
        if !force && tx in txs {
          continue;
        }
        txs := txs[tx := TxEntry(b.hash, b.height, i)];
      }
    }

    /** The stored blocks one height up that name `b` as their parent. */
    method FindChildren(b: Block) returns (children: seq<Hash>)
      requires Valid()
      ensures children == ChildrenIn(blocks, HeightEntry(Data(), (b.height + 1) % U64), b.hash)
    {
      var next := FindBlocksByHeight((b.height + 1) % U64);
      children := [];
      for i := 0 to |next|
        invariant children == ChildHashes(next[..i], b.hash)
      {
        assert next[..i+1][..i] == next[..i];
        if next[i].block.parent == b.hash {
          children := children + [next[i].block.hash];
        }
      }
      assert next[..|next|] == next;
      ChildrenAgree(blocks, HeightEntry(Data(), (b.height + 1) % U64), b.hash);
    }

    /** A block of another chain, `id`, and one that is stored already change nothing. The saves are
        made in the order in which a crash can cut them off. */
    method AddBlock(b: Block, id: nat, snapshotRoot: bool) returns (added: bool)
      requires Valid() && WellKeyed(b.hccVotes)
      modifies this`blocks, this`heights, this`txs
      ensures Valid()
      ensures added <==> id == chainId && b.hash !in old(blocks)
      ensures Data() == if id == chainId then ChainSpec.AddBlock(old(Data()), b, snapshotRoot) else old(Data())
      ensures txs == if added then Indexed(old(txs), b, |b.txs|, false) else old(txs)
    {
      hide Indexed, Keyed, ChildrenIn, AddToHeightIndex, WellKeyed;
      if id != chainId {
        return false;
      }
      if b.hash in blocks {
        return false;
      }
      if b.parent != EMPTY_HASH && !snapshotRoot {
        var parent := FindBlock(b.parent);
        if parent.Some? {
          ParentKeyed(blocks, b.parent, b.hash);
          blocks := blocks[b.parent := parent.value.(children := parent.value.children + [b.hash])];
        }
      }
      assert !snapshotRoot ==> Data() == AddSaved(old(Data()), b, 1);
      var children := FindChildren(b);
      BlockKeyed(blocks, b, children, if snapshotRoot then Trusted else Pending);
      blocks := blocks[b.hash := ExtBlock(b, children, if snapshotRoot then Trusted else Pending, false)];
      assert !snapshotRoot ==> Data() == AddSaved(old(Data()), b, 2) by {
        IndexLeavesBlocks(ChainData(blocks, heights), b.height, b.hash);
      }
      AddBlockByHeightIndex(b.height, b.hash);
      assert !snapshotRoot ==> Data() == AddSaved(old(Data()), b, 3);
      AddTxsToIndex(b, false);
      added := true;
    }

    // ---- statuses --------------------------------------------------------------------

    /** Not finding the block is fatal: nothing is written. */
    method MarkBlock(h: Hash, status: Status) returns (found: bool)
      requires Valid()
      modifies this`blocks
      ensures Valid() && found == (h in old(blocks)) && blocks == SetStatus(old(blocks), h, status)
    {
      var b := FindBlock(h);
      found := b.Some?;
      if found {
        blocks := blocks[h := b.value.(status := status)];
      }
    }

    method MarkBlockHasValidatorUpdate(h: Hash) returns (found: bool)
      requires Valid()
      modifies this`blocks
      ensures Valid() && found == (h in old(blocks)) && blocks == SetUpdate(old(blocks), h)
    {
      var b := FindBlock(h);
      found := b.Some?;
      if found {
        blocks := blocks[h := b.value.(hasValidatorUpdate := true)];
      }
    }

    /** Marks the block and its ancestors up to the first finalized or missing one, the block
        itself as directly finalized, and points the index to each. */
    method FinalizePreviousBlocks(h: Hash) returns (ghost marked: seq<Hash>)
      requires Valid()
      modifies this`blocks, this`txs
      ensures Valid() && IsWalk(old(blocks), h, marked) && Remarked(old(blocks), blocks, marked, DirectlyFinalized)
      ensures (forall g :: g in marked ==> g in old(blocks)) && forall t :: Repointed(old(txs), txs, old(blocks), marked, t)
      ensures marked == Walk(old(blocks), h)
      ensures blocks == MarkedStore(old(blocks), Walk(old(blocks), h), DirectlyFinalized)
      ensures txs == IndexedAll(old(txs), old(blocks), Walk(old(blocks), h))
    {
      hide IsWalk, Remarked, Repointed, MarkedStore, IndexedAll, Walk;
      var hash, status := h, DirectlyFinalized;
      marked := Walk(blocks, h);
      FinalizeExactly(blocks, txs, h);
      while hash != EMPTY_HASH
        invariant Valid() && IsFinalized(status) && forall g :: g in Walk(blocks, hash) ==> g in blocks
        invariant MarkedStore(blocks, Walk(blocks, hash), status) == MarkedStore(old(blocks), Walk(old(blocks), h), DirectlyFinalized)
        invariant IndexedAll(txs, blocks, Walk(blocks, hash)) == IndexedAll(old(txs), old(blocks), Walk(old(blocks), h))
        decreases NotFinalized(blocks)
      {
        var block := FindBlock(hash);
        if block.None? || IsFinalized(block.value.status) {
          NothingToMark(txs, blocks, hash, status);
          return;
        }
        FinalizeNext(txs, blocks, hash, status);
        blocks := blocks[hash := block.value.(status := status)];
        status := IndirectlyFinalized;
        AddTxsToIndex(block.value.block, true);
        hash := block.value.block.parent;
      }
      NothingToMark(txs, blocks, hash, status);
    }

    // ---- votes and transactions ------------------------------------------------------

    method AddVoteToIndex(v: Vote)
      modifies this`votes
      ensures v.block == EMPTY_HASH ==> votes == old(votes)
      ensures v.block != EMPTY_HASH ==> votes == old(votes)[v.block := AddVote(VotesFor(old(votes), v.block), v)]
    {
      if v.block == EMPTY_HASH {
        return;
      }
      var known := FindVotesByHash(v.block);
      votes := votes[v.block := AddVote(known, v)];
    }

    method FindVotesByHash(h: Hash) returns (r: VoteSet)
      ensures r == VotesFor(votes, h)
    {
      r := if h in votes then votes[h] else map[];
    }

    /** What the entry points to, if it and its block are there. With a true index that is the
        transaction, with a block that holds it, and a final one if any is. An entry that points
        past the end of its block would be fatal. */
    method FindTxByHash(t: Tx) returns (r: Option<(Tx, ExtBlock)>)
      requires t in txs && txs[t].block in blocks ==> txs[t].index < |blocks[txs[t].block].block.txs|
      ensures r.Some? <==> t in txs && txs[t].block in blocks
      ensures r.Some? ==> r.value == (blocks[txs[t].block].block.txs[txs[t].index], blocks[txs[t].block])
      ensures TxsOk(blocks, txs) && r.Some? ==> r.value.0 == t && t in r.value.1.block.txs
      ensures TxsOk(blocks, txs) && InFinalBlock(blocks, t) ==> r.Some? && IsFinalized(r.value.1.status)
    {
      FinalIsFound(blocks, txs, t);
      if t !in txs {
        return None;
      }
      var b := FindBlock(txs[t].block);
      if b.None? {
        return None;
      }
      r := Some((b.value.block.txs[txs[t].index], b.value));
    }
  }

  lemma FinalIsFound(s: Store, txs: Index, t: Tx)
    ensures TxsOk(s, txs) && InFinalBlock(s, t) ==> FoundFinal(s, txs, t)
    ensures TxsOk(s, txs) && t in txs ==> EntryIsTrue(s, t, txs[t])
  {
    if TxsOk(s, txs) && InFinalBlock(s, t) {
      var h :| h in s && IsFinalized(s[h].status) && !s[h].status.Trusted? && t in s[h].block.txs;
      assert BlockFound(s, txs, h);
    }
  }

  ghost predicate Keyed(s: Store) {
    forall h :: h in s ==> s[h].block.hash == h && WellKeyed(s[h].block.hccVotes)
  }

  lemma KeyedAt(s: Store, h: Hash)
    requires Keyed(s) && h in s
    ensures WellKeyed(s[h].block.hccVotes)
  {
  }

  lemma ParentKeyed(s: Store, p: Hash, child: Hash)
    requires Keyed(s) && p in s
    ensures Keyed(s[p := s[p].(children := s[p].children + [child])])
  {
  }

  lemma IndexLeavesBlocks(c: ChainData, height: nat, h: Hash)
    ensures AddToHeightIndex(c, height, h).blocks == c.blocks
  {
  }

  lemma BlockKeyed(s: Store, b: Block, children: seq<Hash>, status: Status)
    requires Keyed(s) && WellKeyed(b.hccVotes)
    ensures Keyed(s[b.hash := ExtBlock(b, children, status, false)])
  {
  }

  ghost function Stored(s: Store, hs: seq<Hash>): seq<ExtBlock> {
    if hs == [] then [] else
      var front, h := Stored(s, hs[..|hs|-1]), hs[|hs|-1];
      if h in s then front + [s[h]] else front
  }

  ghost function ChildHashes(bs: seq<ExtBlock>, parent: Hash): seq<Hash> {
    if bs == [] then [] else
      var front, b := ChildHashes(bs[..|bs|-1], parent), bs[|bs|-1];
      if b.block.parent == parent then front + [b.block.hash] else front
  }

  lemma {:induction false} ChildrenAgree(s: Store, hs: seq<Hash>, parent: Hash)
    requires Keyed(s)
    ensures ChildHashes(Stored(s, hs), parent) == ChildrenIn(s, hs, parent)
    decreases hs
  {
    if hs != [] {
      var front, h := hs[..|hs|-1], hs[|hs|-1];
      ChildrenAgree(s, front, parent);
      if h in s {
        var all := Stored(s, front) + [s[h]];
        assert all[..|all|-1] == Stored(s, front);
      }
    }
  }
}
