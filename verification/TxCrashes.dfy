/** The transaction index with crashes between any two saves (blockchain/chain.go, blockchain/tx.go). */
module TxCrashes {
  import opened Votes
  import opened BlockTree
  import opened ChainSpec
  import opened TxIndex

  // ---- operations save by save -------------------------------------------------------

  /** One save: the store short of finality, a block as final, or an index entry. */
  datatype Save =
    | PutChain(chain: ChainData)
    | PutFinal(h: Hash, status: Status)
    | PutTx(t: Tx, entry: TxEntry)

  ghost function SaveOne(st: TxState, x: Save): TxState {
    match x
    case PutChain(c) => st.(chain := c)
    case PutFinal(h, status) => st.(chain := st.chain.(blocks := SetStatus(st.chain.blocks, h, status)))
    case PutTx(t, e) => st.(txs := st.txs[t := e])
  }

  ghost function SaveAll(st: TxState, xs: seq<Save>): TxState
    decreases xs
  {
    if xs == [] then st else SaveAll(SaveOne(st, xs[0]), xs[1..])
  }

  /** The entries that indexing the first `k` transactions of `b` saves. */
  ghost function EntrySaves(txs: Index, b: Block, k: nat, force: bool): seq<Save>
    requires k <= |b.txs|
  {
    if k == 0 then [] else
      var before := EntrySaves(txs, b, k - 1, force);
      if !force && b.txs[k-1] in Indexed(txs, b, k - 1, force) then before
      else before + [PutTx(b.txs[k-1], TxEntry(b.hash, b.height, k - 1))]
  }

  /** Each block of the walk is saved as final, and then its entries. */
  ghost function FinalSaves(txs: Index, s: Store, hs: seq<Hash>, first: Status): seq<Save>
    requires forall h :: h in hs ==> h in s
    decreases hs
  {
    if hs == [] then [] else
      assert hs[0] in hs && forall h :: h in hs[1..] ==> h in hs;
      var b := s[hs[0]].block;
      [PutFinal(hs[0], first)] + EntrySaves(txs, b, |b.txs|, true)
        + FinalSaves(Indexed(txs, b, |b.txs|, true), s, hs[1..], IndirectlyFinalized)
  }

  ghost function Saves(st: TxState, op: Op): seq<Save>
    requires Allowed(st, op)
  {
    var s := st.chain.blocks;
    match op
    case Add(b) =>
      if b.hash in s then [] else
        [PutChain(AddSaved(st.chain, b, 1)), PutChain(AddSaved(st.chain, b, 2)), PutChain(AddSaved(st.chain, b, 3))]
          + EntrySaves(st.txs, b, |b.txs|, false)
    case Mark(h, status) => [PutChain(st.chain.(blocks := SetStatus(s, h, status)))]
    case Finalize(h) =>
      WalkIsStored(s, h);
      FinalSaves(st.txs, s, Walk(s, h), DirectlyFinalized)
    case Reindex(h) => EntrySaves(st.txs, s[h].block, |s[h].block.txs|, true)
  }

  /** Each operation is cut off after some of its saves, or after all of them. */
  ghost predicate IsCutRun(run: seq<TxState>, ops: seq<Op>, cuts: seq<nat>, root: Block) {
    && |run| == |ops| + 1 && |cuts| == |ops|
    && run[0] == TxState(AddBlock(ChainData(map[], map[]), root, true), Indexed(map[], root, |root.txs|, false))
    && forall i {:trigger ops[i]} :: 0 <= i < |ops| ==>
      && Allowed(run[i], ops[i]) && cuts[i] <= |Saves(run[i], ops[i])|
      && run[i+1] == SaveAll(run[i], Saves(run[i], ops[i])[..cuts[i]])
  }

  lemma {:induction false} SaveConcat(st: TxState, a: seq<Save>, b: seq<Save>)
    ensures SaveAll(st, a + b) == SaveAll(SaveAll(st, a), b)
    decreases a
  {
    if a == [] {
      assert a + b == b;
    } else {
      assert (a + b)[1..] == a[1..] + b;
      SaveConcat(SaveOne(st, a[0]), a[1..], b);
    }
  }

  lemma SaveLast(st: TxState, a: seq<Save>, x: Save)
    ensures SaveAll(st, a + [x]) == SaveOne(SaveAll(st, a), x)
  {
    SaveConcat(st, a, [x]);
    assert [x][1..] == [];
  }

  lemma {:induction false} EntriesSaved(st: TxState, b: Block, k: nat, force: bool)
    requires k <= |b.txs|
    ensures SaveAll(st, EntrySaves(st.txs, b, k, force)) == st.(txs := Indexed(st.txs, b, k, force))
  {
    if k > 0 {
      EntriesSaved(st, b, k - 1, force);
      SaveLast(st, EntrySaves(st.txs, b, k - 1, force), PutTx(b.txs[k-1], TxEntry(b.hash, b.height, k - 1)));
    }
  }

  lemma {:induction false} FinalsSaved(st: TxState, s: Store, hs: seq<Hash>, first: Status)
    requires (forall h :: h in hs ==> h in s) && s.Keys == st.chain.blocks.Keys
    ensures SaveAll(st, FinalSaves(st.txs, s, hs, first)) ==
      TxState(st.chain.(blocks := MarkedStore(st.chain.blocks, hs, first)), IndexedAll(st.txs, s, hs))
    decreases hs
  {
    if hs != [] {
      assert hs[0] in hs && forall h :: h in hs[1..] ==> h in hs;
      var b := s[hs[0]].block;
      var one, entries := [PutFinal(hs[0], first)], EntrySaves(st.txs, b, |b.txs|, true);
      var rest := FinalSaves(Indexed(st.txs, b, |b.txs|, true), s, hs[1..], IndirectlyFinalized);
      SaveConcat(st, one + entries, rest);
      SaveConcat(st, one, entries);
      SaveLast(st, [], one[0]);
      assert [] + one == one;
      var st1 := SaveOne(st, one[0]);
      EntriesSaved(st1, b, |b.txs|, true);
      FinalsSaved(st1.(txs := Indexed(st.txs, b, |b.txs|, true)), s, hs[1..], IndirectlyFinalized);
    }
  }

  /** All the saves together are the operation. */
  lemma SavesDo(st: TxState, op: Op)
    requires Allowed(st, op)
    ensures SaveAll(st, Saves(st, op)) == Do(st, op)
  {
    var s := st.chain.blocks;
    match op {
      case Add(b) =>
        if b.hash !in s {
          hide AddSaved, AddBlock;
          var c1, c2, c3 := PutChain(AddSaved(st.chain, b, 1)), PutChain(AddSaved(st.chain, b, 2)), PutChain(AddSaved(st.chain, b, 3));
          SavedWhole(st.chain, b);
          SaveThree(st, c1, c2, c3);
          SaveConcat(st, [c1, c2, c3], EntrySaves(st.txs, b, |b.txs|, false));
          EntriesSaved(st.(chain := c3.chain), b, |b.txs|, false);
        }
      case Mark(h, status) =>
        SaveLast(st, [], PutChain(st.chain.(blocks := SetStatus(s, h, status))));
      case Finalize(h) =>
        WalkIsStored(s, h);
        FinalsSaved(st, s, Walk(s, h), DirectlyFinalized);
      case Reindex(h) =>
        EntriesSaved(st, s[h].block, |s[h].block.txs|, true);
    }
  }

  lemma SaveThree(st: TxState, a: Save, b: Save, c: Save)
    requires a.PutChain? && b.PutChain? && c.PutChain?
    ensures SaveAll(st, [a, b, c]) == st.(chain := c.chain)
  {
    SaveLast(st, [a, b], c);
    SaveLast(st, [a], b);
    SaveLast(st, [], a);
    assert [a, b] + [c] == [a, b, c] && [a] + [b] == [a, b] && [] + [a] == [a];
  }

  // ---- what every save keeps ---------------------------------------------------------

  ghost predicate KeepsFinal(s: Store, u: Store) {
    && (forall h :: h in s ==> h in u && u[h].block == s[h].block && (IsFinalized(s[h].status) || IsFinalized(u[h].status) ==> u[h].status == s[h].status))
    && (forall h :: h in u && h !in s ==> u[h].block.hash == h && !IsFinalized(u[h].status))
  }

  /** Finality is only added, entries point to where the transaction stands, and an entry is only
      replaced by one that points into a final block. */
  ghost predicate Good(st: TxState, x: Save) {
    var s := st.chain.blocks;
    match x
    case PutChain(c) => KeepsFinal(s, c.blocks)
    case PutFinal(h, status) => h in s && IsFinalized(status) && !status.Trusted?
    case PutTx(t, e) => EntryIsTrue(s, t, e) && (t in st.txs ==> IsFinalized(s[e.block].status))
  }

  ghost predicate AllGood(st: TxState, xs: seq<Save>)
    decreases xs
  {
    xs == [] || (Good(st, xs[0]) && AllGood(SaveOne(st, xs[0]), xs[1..]))
  }

  lemma {:induction false} GoodConcat(st: TxState, a: seq<Save>, b: seq<Save>)
    ensures AllGood(st, a + b) <==> AllGood(st, a) && AllGood(SaveAll(st, a), b)
    decreases a
  {
    hide Good;
    if a == [] {
      assert a + b == b;
    } else {
      assert (a + b)[1..] == a[1..] + b;
      GoodConcat(SaveOne(st, a[0]), a[1..], b);
    }
  }

  lemma GoodOne(st: TxState, x: Save)
    ensures AllGood(st, [x]) <==> Good(st, x)
  {
  }

  lemma GoodPrefix(st: TxState, xs: seq<Save>, k: nat)
    requires AllGood(st, xs) && k <= |xs|
    ensures AllGood(st, xs[..k]) && (k < |xs| ==> Good(SaveAll(st, xs[..k]), xs[k]))
  {
    hide Good;
    GoodConcat(st, xs[..k], xs[k..]);
    assert xs == xs[..k] + xs[k..];
  }

  /** All entries are true, and blocks are stored under their hashes. */
  ghost predicate EntriesTrue(st: TxState) {
    && (forall t {:trigger st.txs[t]} :: t in st.txs ==> EntryIsTrue(st.chain.blocks, t, st.txs[t]))
    && (forall h :: h in st.chain.blocks ==> st.chain.blocks[h].block.hash == h)
  }

  lemma GoodKeepsTrue(st: TxState, x: Save)
    requires EntriesTrue(st) && Good(st, x)
    ensures EntriesTrue(SaveOne(st, x))
  {
    var u := SaveOne(st, x);
    forall t | t in u.txs ensures EntryIsTrue(u.chain.blocks, t, u.txs[t]) {
      assert t in st.txs ==> EntryIsTrue(st.chain.blocks, t, st.txs[t]);
    }
  }

  /** The save is what brings `t` to be found in a final block. */
  ghost predicate Finds(st: TxState, x: Save, t: Tx) {
    match x
    case PutChain(_) => false
    case PutFinal(h, _) => t in st.txs && st.txs[t].block == h
    case PutTx(t', e) => t' == t && e.block in st.chain.blocks && IsFinalized(st.chain.blocks[e.block].status)
  }

  ghost predicate Found(st: TxState, t: Tx) {
    FoundFinal(st.chain.blocks, st.txs, t)
  }

  lemma FoundStep(st: TxState, x: Save, t: Tx)
    requires Good(st, x)
    ensures Found(SaveOne(st, x), t) <==> Found(st, t) || Finds(st, x, t)
  {
    var u := SaveOne(st, x);
    if x.PutChain? && t in st.txs && st.txs[t].block in u.chain.blocks {
      assert u.chain.blocks[st.txs[t].block].status == u.chain.blocks[st.txs[t].block].status;
    }
  }

  lemma {:induction false} FoundAfter(st: TxState, xs: seq<Save>, t: Tx)
    requires AllGood(st, xs)
    ensures Found(SaveAll(st, xs), t) <==> Found(st, t) || FoundBy(st, xs, t)
    decreases |xs|
  {
    hide Good, Finds, Found;
    if xs == [] {
    } else {
      var n := |xs| - 1;
      var front, x := xs[..n], xs[n];
      GoodPrefix(st, xs, n);
      FoundAfter(st, front, t);
      FoundStep(SaveAll(st, front), x, t);
      SaveLast(st, front, x);
      assert xs == front + [x];
      forall k: nat | k < n ensures FindsAt(st, front, k, t) <==> FindsAt(st, xs, k, t) {
        assert front[..k] == xs[..k];
      }
      assert FindsAt(st, xs, n, t) <==> Finds(SaveAll(st, front), x, t);
    }
  }

  ghost predicate FoundBy(st: TxState, xs: seq<Save>, t: Tx) {
    exists k: nat :: k < |xs| && FindsAt(st, xs, k, t)
  }

  ghost predicate FindsAt(st: TxState, xs: seq<Save>, k: nat, t: Tx)
    requires k < |xs|
  {
    Finds(SaveAll(st, xs[..k]), xs[k], t)
  }

  // ---- all saves are good ------------------------------------------------------------

  lemma {:induction false} EntriesGood(st: TxState, b: Block, k: nat, force: bool)
    requires k <= |b.txs| && b.hash in st.chain.blocks && st.chain.blocks[b.hash].block == b
    requires force ==> IsFinalized(st.chain.blocks[b.hash].status)
    ensures AllGood(st, EntrySaves(st.txs, b, k, force))
  {
    if k > 0 {
      EntriesGood(st, b, k - 1, force);
      EntriesSaved(st, b, k - 1, force);
      var a, x := EntrySaves(st.txs, b, k - 1, force), PutTx(b.txs[k-1], TxEntry(b.hash, b.height, k - 1));
      GoodConcat(st, a, [x]);
      GoodOne(SaveAll(st, a), x);
    }
  }

  lemma {:induction false} FinalsGood(st: TxState, s: Store, hs: seq<Hash>, first: Status)
    requires (forall h :: h in hs ==> h in s && s[h].block.hash == h) && IsFinalized(first) && !first.Trusted?
    requires forall h :: h in s ==> h in st.chain.blocks && st.chain.blocks[h].block == s[h].block
    ensures AllGood(st, FinalSaves(st.txs, s, hs, first))
    decreases hs
  {
    hide Good;
    if hs != [] {
      assert hs[0] in hs && forall h :: h in hs[1..] ==> h in hs;
      var b := s[hs[0]].block;
      var one, entries := PutFinal(hs[0], first), EntrySaves(st.txs, b, |b.txs|, true);
      var rest := FinalSaves(Indexed(st.txs, b, |b.txs|, true), s, hs[1..], IndirectlyFinalized);
      var st1 := SaveOne(st, one);
      assert Good(st, one) by { FinalIsGood(st, one); }
      GoodOne(st, one);
      SaveLast(st, [], one);
      assert [] + [one] == [one];
      EntriesGood(st1, b, |b.txs|, true);
      EntriesSaved(st1, b, |b.txs|, true);
      var st2 := st1.(txs := Indexed(st.txs, b, |b.txs|, true));
      FinalsGood(st2, s, hs[1..], IndirectlyFinalized);
      GoodConcat(st, [one], entries);
      SaveConcat(st, [one], entries);
      GoodConcat(st, [one] + entries, rest);
    }
  }

  lemma FinalIsGood(st: TxState, x: Save)
    requires x.PutFinal? && x.h in st.chain.blocks && IsFinalized(x.status) && !x.status.Trusted?
    ensures Good(st, x)
  {
  }

  lemma SavedKeepsFinal(c: ChainData, b: Block, k: nat, j: nat)
    requires b.hash !in c.blocks && k <= j
    ensures KeepsFinal(AddSaved(c, b, k).blocks, AddSaved(c, b, j).blocks)
    ensures j >= 2 ==> b.hash in AddSaved(c, b, j).blocks && AddSaved(c, b, j).blocks[b.hash].block == b
  {
    hide ChildrenIn, LinkToParent, KeepsFinal;
    var t := LinkToParent(c.blocks, b);
    LinkKeepsFinal(c.blocks, t, b);
    var u := AddBlock(c, b, false).blocks;
    NewKeepsFinal(t, u, b);
    KeepsItself(c.blocks);
    KeepsItself(t);
    KeepsItself(u);
    KeepsBoth(c.blocks, t, u);
  }

  lemma LinkKeepsFinal(s: Store, t: Store, b: Block)
    requires t == LinkToParent(s, b)
    ensures KeepsFinal(s, t) && t.Keys == s.Keys
  {
  }

  lemma NewKeepsFinal(t: Store, u: Store, b: Block)
    requires b.hash !in t && exists kids :: u == t[b.hash := ExtBlock(b, kids, Pending, false)]
    ensures KeepsFinal(t, u)
  {
  }

  lemma KeepsItself(s: Store)
    ensures KeepsFinal(s, s)
  {
  }

  lemma KeepsBoth(s: Store, t: Store, u: Store)
    requires KeepsFinal(s, t) && KeepsFinal(t, u)
    ensures KeepsFinal(s, u)
  {
  }

  lemma AddsGood(st: TxState, b: Block)
    requires b.hash !in st.chain.blocks
    ensures AllGood(st, Saves(st, Add(b)))
  {
    hide AddSaved, KeepsFinal;
    var c := st.chain;
    var x1, x2, x3 := PutChain(AddSaved(c, b, 1)), PutChain(AddSaved(c, b, 2)), PutChain(AddSaved(c, b, 3));
    SavedNone(c, b);
    SavedKeepsFinal(c, b, 0, 1);
    SavedKeepsFinal(c, b, 1, 2);
    SavedKeepsFinal(c, b, 2, 3);
    var entries := EntrySaves(st.txs, b, |b.txs|, false);
    SaveThree(st, x1, x2, x3);
    EntriesGood(st.(chain := x3.chain), b, |b.txs|, false);
    ThreeGood(st, x1, x2, x3);
    GoodConcat(st, [x1, x2, x3], entries);
  }

  lemma SavedNone(c: ChainData, b: Block)
    ensures AddSaved(c, b, 0) == c
  {
  }

  lemma ThreeGood(st: TxState, a: Save, b: Save, c: Save)
    requires a.PutChain? && b.PutChain? && c.PutChain?
    requires KeepsFinal(st.chain.blocks, a.chain.blocks) && KeepsFinal(a.chain.blocks, b.chain.blocks) && KeepsFinal(b.chain.blocks, c.chain.blocks)
    ensures AllGood(st, [a, b, c])
  {
    hide KeepsFinal;
    assert [a, b, c][1..] == [b, c] && [b, c][1..] == [c] && [c][1..] == [];
    GoodOne(SaveOne(SaveOne(st, a), b), c);
    assert AllGood(SaveOne(st, a), [b, c]);
  }

  lemma SavesGood(st: TxState, op: Op)
    requires Allowed(st, op) && EntriesTrue(st)
    ensures AllGood(st, Saves(st, op))
  {
    var s := st.chain.blocks;
    match op {
      case Add(b) =>
        if b.hash !in s {
          AddsGood(st, b);
        }
      case Mark(h, status) =>
        GoodOne(st, PutChain(st.chain.(blocks := SetStatus(s, h, status))));
      case Finalize(h) =>
        WalkIsStored(s, h);
        FinalsGood(st, s, Walk(s, h), DirectlyFinalized);
      case Reindex(h) =>
        EntriesGood(st, s[h].block, |s[h].block.txs|, true);
    }
  }

  lemma {:induction false} AllGoodKeepTrue(st: TxState, xs: seq<Save>)
    requires EntriesTrue(st) && AllGood(st, xs)
    ensures EntriesTrue(SaveAll(st, xs))
    decreases xs
  {
    hide Good, EntriesTrue;
    if xs != [] {
      GoodKeepsTrue(st, xs[0]);
      AllGoodKeepTrue(SaveOne(st, xs[0]), xs[1..]);
    }
  }

  // ---- whole runs --------------------------------------------------------------------

  /** Whatever crashes: an entry points to a stored block that holds the transaction there. */
  lemma {:induction false} EntriesStayTrue(run: seq<TxState>, ops: seq<Op>, cuts: seq<nat>, root: Block, i: nat)
    requires IsCutRun(run, ops, cuts, root) && i <= |ops|
    ensures EntriesTrue(run[i])
  {
    if i == 0 {
      FirstIndex(root);
    } else {
      hide EntriesTrue, Good;
      EntriesStayTrue(run, ops, cuts, root, i - 1);
      var op := ops[i-1];
      SavesGood(run[i-1], op);
      GoodPrefix(run[i-1], Saves(run[i-1], op), cuts[i-1]);
      AllGoodKeepTrue(run[i-1], Saves(run[i-1], op)[..cuts[i-1]]);
    }
  }

  /** One of the saves that operation `j` got through found `t`. */
  ghost predicate FoundIn(run: seq<TxState>, ops: seq<Op>, cuts: seq<nat>, j: nat, t: Tx)
    requires j < |ops| < |run| && |cuts| == |ops|
  {
    && Allowed(run[j], ops[j]) && cuts[j] <= |Saves(run[j], ops[j])|
    && FoundBy(run[j], Saves(run[j], ops[j])[..cuts[j]], t)
  }

  ghost predicate EverFound(run: seq<TxState>, ops: seq<Op>, cuts: seq<nat>, i: nat, t: Tx)
    requires i <= |ops| < |run| && |cuts| == |ops|
  {
    exists j: nat :: j < i && FoundIn(run, ops, cuts, j, t)
  }

  lemma EverNext(run: seq<TxState>, ops: seq<Op>, cuts: seq<nat>, i: nat, t: Tx)
    requires i < |ops| < |run| && |cuts| == |ops|
    ensures EverFound(run, ops, cuts, i + 1, t) <==> EverFound(run, ops, cuts, i, t) || FoundIn(run, ops, cuts, i, t)
  {
    hide FoundIn;
  }

  lemma NeverFound(run: seq<TxState>, ops: seq<Op>, cuts: seq<nat>, t: Tx)
    requires |ops| < |run| && |cuts| == |ops|
    ensures !EverFound(run, ops, cuts, 0, t)
  {
  }

  /** Over every run with crashes, exactly: a transaction is found in a final block if and only if it
      was at the start, or some finalization has since got as far as writing its entry or as marking
      the block where it was indexed. */
  lemma {:induction false} FoundExactly(run: seq<TxState>, ops: seq<Op>, cuts: seq<nat>, root: Block, i: nat, t: Tx)
    requires IsCutRun(run, ops, cuts, root) && i <= |ops|
    ensures Found(run[i], t) <==> Found(run[0], t) || EverFound(run, ops, cuts, i, t)
  {
    hide Found, FoundIn, EverFound, Allowed, Saves, SaveAll;
    if i == 0 {
      NeverFound(run, ops, cuts, t);
    } else {
      FoundExactly(run, ops, cuts, root, i - 1, t);
      FoundNext(run, ops, cuts, root, i - 1, t);
      EverNext(run, ops, cuts, i - 1, t);
    }
  }

  lemma FoundNext(run: seq<TxState>, ops: seq<Op>, cuts: seq<nat>, root: Block, i: nat, t: Tx)
    requires IsCutRun(run, ops, cuts, root) && i < |ops|
    ensures Found(run[i+1], t) <==> Found(run[i], t) || FoundIn(run, ops, cuts, i, t)
  {
    hide EntriesTrue, Good, Found, FoundBy, Allowed, Saves, SaveAll;
    EntriesStayTrue(run, ops, cuts, root, i);
    var op := ops[i];
    SavesGood(run[i], op);
    GoodPrefix(run[i], Saves(run[i], op), cuts[i]);
    FoundAfter(run[i], Saves(run[i], op)[..cuts[i]], t);
  }

  // ---- a stale entry stays -----------------------------------------------------------

  /** `t` stands in a final block and is not found in one. */
  ghost predicate Stale(st: TxState, t: Tx) {
    InFinalBlock(st.chain.blocks, t) && !Found(st, t)
  }

  /** The operation finalizes a block that holds `t`, or indexes one anew. */
  ghost predicate Touches(st: TxState, op: Op, t: Tx) {
    var s := st.chain.blocks;
    match op
    case Finalize(h) => exists g :: g in Walk(s, h) && g in s && t in s[g].block.txs
    case Reindex(h) => h in s && t in s[h].block.txs
    case _ => false
  }

  lemma {:induction false} EntrySavesAre(txs: Index, b: Block, k: nat, force: bool)
    requires k <= |b.txs|
    ensures forall x :: x in EntrySaves(txs, b, k, force) ==> x.PutTx? && x.t in b.txs && x.entry.block == b.hash
  {
    if k > 0 {
      EntrySavesAre(txs, b, k - 1, force);
    }
  }

  lemma {:induction false} FinalSavesAre(txs: Index, s: Store, hs: seq<Hash>, first: Status, t: Tx)
    requires forall h :: h in hs ==> h in s && t !in s[h].block.txs
    ensures forall x :: x in FinalSaves(txs, s, hs, first) ==> (x.PutFinal? && x.h in hs) || (x.PutTx? && x.t != t)
    decreases hs
  {
    if hs != [] {
      assert hs[0] in hs && forall h :: h in hs[1..] ==> h in hs;
      var b := s[hs[0]].block;
      EntrySavesAre(txs, b, |b.txs|, true);
      FinalSavesAre(Indexed(txs, b, |b.txs|, true), s, hs[1..], IndirectlyFinalized, t);
    }
  }

  /** Saves that make nothing final find nothing, unless they point into a final block. */
  lemma {:induction false} QuietMiss(st: TxState, xs: seq<Save>, t: Tx)
    requires AllGood(st, xs) && !Found(st, t)
    requires forall x :: x in xs ==> !x.PutFinal? && (x.PutTx? && x.t == t ==> !IsFinalIn(st.chain.blocks, x.entry.block))
    ensures !Found(SaveAll(st, xs), t)
    decreases xs
  {
    if xs != [] {
      var x := xs[0];
      assert x in xs;
      FoundStep(st, x, t);
      QuietMiss(SaveOne(st, x), xs[1..], t);
    }
  }

  ghost predicate IsFinalIn(s: Store, h: Hash) {
    h in s && IsFinalized(s[h].status)
  }

  /** Nor do saves for blocks that do not hold the transaction. */
  lemma {:induction false} FinalMiss(st: TxState, xs: seq<Save>, t: Tx)
    requires AllGood(st, xs) && EntriesTrue(st) && !Found(st, t)
    requires forall x :: x in xs ==>
      (x.PutFinal? && x.h in st.chain.blocks && t !in st.chain.blocks[x.h].block.txs) || (x.PutTx? && x.t != t)
    ensures !Found(SaveAll(st, xs), t)
    decreases xs
  {
    if xs != [] {
      var x := xs[0];
      assert x in xs;
      FoundStep(st, x, t);
      GoodKeepsTrue(st, x);
      assert t in st.txs ==> EntryIsTrue(st.chain.blocks, t, st.txs[t]);
      FinalMiss(SaveOne(st, x), xs[1..], t);
    }
  }

  lemma UntouchedStays(st: TxState, op: Op, k: nat, t: Tx)
    requires Allowed(st, op) && EntriesTrue(st) && !Touches(st, op, t) && k <= |Saves(st, op)| && !Found(st, t)
    ensures !Found(SaveAll(st, Saves(st, op)[..k]), t)
  {
    hide Good, EntriesTrue, Found;
    var s, xs := st.chain.blocks, Saves(st, op)[..k];
    SavesGood(st, op);
    GoodPrefix(st, Saves(st, op), k);
    assert forall x :: x in xs ==> x in Saves(st, op);
    match op {
      case Add(b) =>
        EntrySavesAre(st.txs, b, |b.txs|, false);
        QuietMiss(st, xs, t);
      case Mark(h, status) =>
        QuietMiss(st, xs, t);
      case Finalize(h) =>
        WalkIsStored(s, h);
        FinalSavesAre(st.txs, s, Walk(s, h), DirectlyFinalized, t);
        FinalMiss(st, xs, t);
      case Reindex(h) =>
        EntrySavesAre(st.txs, s[h].block, |s[h].block.txs|, true);
        FinalMiss(st, xs, t);
    }
  }

  lemma {:induction false} FinalStays(st: TxState, xs: seq<Save>, t: Tx)
    requires AllGood(st, xs) && InFinalBlock(st.chain.blocks, t)
    ensures InFinalBlock(SaveAll(st, xs).chain.blocks, t)
    decreases xs
  {
    if xs != [] {
      var s, u := st.chain.blocks, SaveOne(st, xs[0]).chain.blocks;
      var h :| h in s && IsFinalized(s[h].status) && !s[h].status.Trusted? && t in s[h].block.txs;
      assert h in u && IsFinalized(u[h].status) && !u[h].status.Trusted? && t in u[h].block.txs;
      FinalStays(SaveOne(st, xs[0]), xs[1..], t);
    }
  }

  /** A stale entry stays through every run with crashes, until a block that holds the transaction is
      finalized or indexed anew. */
  lemma {:induction false} StaleStays(run: seq<TxState>, ops: seq<Op>, cuts: seq<nat>, root: Block, i: nat, j: nat, t: Tx)
    requires IsCutRun(run, ops, cuts, root) && i <= j <= |ops| && Stale(run[i], t)
    requires forall m {:trigger ops[m]} :: i <= m < j ==> !Touches(run[m], ops[m], t)
    ensures Stale(run[j], t)
    decreases j - i
  {
    if i < j {
      hide Good, EntriesTrue, Found, Touches, InFinalBlock;
      StaleStays(run, ops, cuts, root, i, j - 1, t);
      EntriesStayTrue(run, ops, cuts, root, j - 1);
      var op := ops[j-1];
      UntouchedStays(run[j-1], op, cuts[j-1], t);
      SavesGood(run[j-1], op);
      GoodPrefix(run[j-1], Saves(run[j-1], op), cuts[j-1]);
      FinalStays(run[j-1], Saves(run[j-1], op)[..cuts[j-1]], t);
    }
  }

  lemma {:induction false} MarkedIsFinal(s: Store, hs: seq<Hash>, first: Status, g: Hash)
    requires IsFinalized(first) && g in s && (g in hs || IsFinalized(s[g].status))
    ensures g in MarkedStore(s, hs, first) && IsFinalized(MarkedStore(s, hs, first)[g].status)
    decreases hs
  {
    if hs != [] {
      MarkedIsFinal(SetStatus(s, hs[0], first), hs[1..], IndirectlyFinalized, g);
    }
  }

  lemma {:induction false} IndexedInWalk(txs: Index, s: Store, hs: seq<Hash>, t: Tx)
    requires forall h :: h in hs ==> h in s && s[h].block.hash == h
    ensures
      var r := IndexedAll(txs, s, hs);
      (exists g :: g in hs && t in s[g].block.txs) || (t in txs && txs[t].block in hs) ==> t in r && r[t].block in hs
    ensures
      var r := IndexedAll(txs, s, hs);
      t in txs ==> t in r && (r[t] == txs[t] || r[t].block in hs)
    decreases hs
  {
    if hs != [] {
      assert hs[0] in hs && forall h :: h in hs[1..] ==> h in hs;
      var b := s[hs[0]].block;
      WholeBlock(txs, b, true, t);
      IndexedInWalk(Indexed(txs, b, |b.txs|, true), s, hs[1..], t);
      if t !in b.txs {
        assert b.txs[..|b.txs|] == b.txs;
        OthersUntouched(txs, b, |b.txs|, true, t);
      }
    }
  }

  /** A finalization or a new indexing that goes through brings the transaction back. */
  lemma TouchRestores(st: TxState, op: Op, t: Tx)
    requires Allowed(st, op) && EntriesTrue(st) && Touches(st, op, t)
    ensures Found(SaveAll(st, Saves(st, op)), t)
  {
    SavesDo(st, op);
    var s := st.chain.blocks;
    if op.Finalize? {
      var hs := Walk(s, op.h);
      WalkIsStored(s, op.h);
      IndexedInWalk(st.txs, s, hs, t);
      MarkedIsFinal(s, hs, DirectlyFinalized, IndexedAll(st.txs, s, hs)[t].block);
    } else {
      WholeBlock(st.txs, s[op.h].block, true, t);
    }
  }

  // ---- it happens --------------------------------------------------------------------

  /** The root, and two children of it that hold the same transaction. */
  function RootBlock(): Block { Block(1, EMPTY_HASH, 0, 0, EMPTY_HASH, map[], []) }

  function ForkBlock(h: Hash, epoch: nat, t: Tx): Block { Block(h, 1, 1, epoch, 1, map[], [t]) }

  /** A run that receives both blocks and crashes right after the second is saved as final: the
      transaction is left indexed at the first. */
  lemma IndexCanGoStale(t: Tx) returns (run: seq<TxState>, ops: seq<Op>, cuts: seq<nat>)
    ensures IsCutRun(run, ops, cuts, RootBlock()) && |ops| == 3 && Stale(run[3], t)
  {
    hide AddBlock, Indexed, Do, Saves, SaveAll, Stale;
    var a, b := ForkBlock(2, 1, t), ForkBlock(3, 2, t);
    var s0 := TxState(AddBlock(ChainData(map[], map[]), RootBlock(), true), Indexed(map[], RootBlock(), |RootBlock().txs|, false));
    var s1, s2 := Do(s0, Add(a)), Do(Do(s0, Add(a)), Add(b));
    ForkStates(s0, s1, s2, t);
    SavesDo(s0, Add(a));
    SavesDo(s1, Add(b));
    ForkFinalized(s2, t);
    var s3 := SaveAll(s2, Saves(s2, Finalize(3))[..1]);
    run, ops := [s0, s1, s2, s3], [Add(a), Add(b), Finalize(3)];
    cuts := [|Saves(s0, Add(a))|, |Saves(s1, Add(b))|, 1];
    assert Saves(s0, Add(a))[..cuts[0]] == Saves(s0, Add(a)) && Saves(s1, Add(b))[..cuts[1]] == Saves(s1, Add(b));
  }

  lemma ForkStates(s0: TxState, s1: TxState, s2: TxState, t: Tx)
    requires s0 == TxState(AddBlock(ChainData(map[], map[]), RootBlock(), true), Indexed(map[], RootBlock(), |RootBlock().txs|, false))
    requires s1 == Do(s0, Add(ForkBlock(2, 1, t))) && s2 == Do(s1, Add(ForkBlock(3, 2, t)))
    ensures s2.txs == map[t := TxEntry(2, 1, 0)] && s2.chain.blocks.Keys == {1, 2, 3}
    ensures IsFinalized(s2.chain.blocks[1].status) && s2.chain.blocks[2].status == Pending && s2.chain.blocks[3].status == Pending
    ensures s2.chain.blocks[3].block == ForkBlock(3, 2, t)
  {
    hide AddBlock;
    FirstBlock(s0.chain);
    AddShape(s0.chain, ForkBlock(2, 1, t));
    AddShape(s1.chain, ForkBlock(3, 2, t));
    OneEntry(map[], ForkBlock(2, 1, t), t);
    OneEntry(s1.txs, ForkBlock(3, 2, t), t);
  }

  lemma OneEntry(txs: Index, b: Block, t: Tx)
    requires b.txs == [t]
    ensures Indexed(txs, b, 1, false) == if t in txs then txs else txs[t := TxEntry(b.hash, b.height, 0)]
  {
    assert Indexed(txs, b, 0, false) == txs;
  }

  lemma FirstBlock(c: ChainData)
    requires c == AddBlock(ChainData(map[], map[]), RootBlock(), true)
    ensures c.blocks.Keys == {1} && c.blocks[1].status == Trusted
  {
  }

  lemma ForkFinalized(st: TxState, t: Tx)
    requires st.txs == map[t := TxEntry(2, 1, 0)] && st.chain.blocks.Keys == {1, 2, 3}
    requires IsFinalized(st.chain.blocks[1].status) && st.chain.blocks[2].status == Pending && st.chain.blocks[3].status == Pending
    requires st.chain.blocks[3].block == ForkBlock(3, 2, t)
    ensures |Saves(st, Finalize(3))| >= 1 && Stale(SaveAll(st, Saves(st, Finalize(3))[..1]), t)
  {
    var s := st.chain.blocks;
    var u := SetStatus(s, 3, IndirectlyFinalized);
    assert IsFinalized(u[1].status) && Walk(u, 1) == [];
    assert Walk(s, 3) == [3] + Walk(u, 1) == [3];
    var xs := Saves(st, Finalize(3));
    assert xs[0] == PutFinal(3, DirectlyFinalized) && xs[..1] == [] + [xs[0]];
    SaveLast(st, [], xs[0]);
    var v := SaveOne(st, xs[0]).chain.blocks;
    assert t in v[3].block.txs && v[3].status == DirectlyFinalized;
  }
}
