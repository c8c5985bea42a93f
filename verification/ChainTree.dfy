/** The stored tree does not depend on the order in which blocks arrive (blockchain/chain.go). */
module ChainTree {
  import opened Common
  import opened Validators
  import opened Votes
  import opened BlockTree
  import opened ChainSpec

  // ---- the height key ----------------------------------------------------------------

  lemma {:induction false} UvarintInjective(x: nat, y: nat)
    requires Uvarint(x) == Uvarint(y)
    ensures x == y
    decreases x
  {
    var u, v := Uvarint(x), Uvarint(y);
    assert u[0] == (if x < 128 then x else x % 128 + 128) && v[0] == (if y < 128 then y else y % 128 + 128);
    if x >= 128 && y >= 128 {
      assert u[1..] == Uvarint(x / 128) && v[1..] == Uvarint(y / 128);
      UvarintInjective(x / 128, y / 128);
    }
  }

  /** Different heights have different database keys. */
  lemma HeightKeyInjective(x: nat, y: nat)
    requires HeightKey(x) == HeightKey(y)
    ensures x == y
  {
    assert HeightKey(x)[3..] == Uvarint(x) && HeightKey(y)[3..] == Uvarint(y);
    UvarintInjective(x, y);
  }

  /** The number in groups of seven bits, the lowest group first. */
  ghost function FromGroups(b: seq<nat>): nat {
    if b == [] then 0 else b[0] % 128 + 128 * FromGroups(b[1..])
  }

  ghost predicate EndsAtLast(b: seq<nat>) {
    b != [] && b[|b|-1] < 128 && forall i :: 0 <= i < |b| - 1 ==> 128 <= b[i] < 256
  }

  lemma {:induction false} UvarintExactly(x: nat)
    ensures FromGroups(Uvarint(x)) == x && EndsAtLast(Uvarint(x))
  {
    if x >= 128 {
      UvarintExactly(x / 128);
      var rest := Uvarint(x / 128);
      assert Uvarint(x)[1..] == rest;
      assert forall i :: 0 < i < |rest| + 1 ==> Uvarint(x)[i] == rest[i-1];
    }
  }

  /** The key of a height is "bh/" and then the height, seven bits to a byte, with the top bit set in
      all bytes but the last. */
  lemma HeightKeyExactly(x: nat)
    ensures
      var key := HeightKey(x);
      |key| > 3 && key[..3] == [0x62, 0x68, 0x2F] && FromGroups(key[3..]) == x && EndsAtLast(key[3..])
  {
    UvarintExactly(x);
    assert HeightKey(x)[3..] == Uvarint(x);
  }

  lemma EntryAfterAdd(c: ChainData, height: nat, h: Hash, other: nat)
    ensures
      var after := HeightEntry(AddToHeightIndex(c, height, h), other);
      after == if other == height && h !in HeightEntry(c, height) then HeightEntry(c, height) + [h] else HeightEntry(c, other)
  {
    if HeightKey(other) == HeightKey(height) {
      HeightKeyInjective(other, height);
    }
  }

  // ---- what every insertion keeps ----------------------------------------------------

  /** Children lists name stored children, each once; each height entry lists exactly the stored
      blocks of that height, each once. */
  ghost predicate ChainOk(c: ChainData) {
    && (forall h :: h in c.blocks ==> c.blocks[h].block.hash == h && h != EMPTY_HASH && c.blocks[h].block.height < U64)
    && (forall p {:trigger ChildrenOk(c.blocks, p)} :: p in c.blocks ==> ChildrenOk(c.blocks, p))
    && (forall height {:trigger HeightEntry(c, height)} :: EntryOk(c.blocks, HeightEntry(c, height), height))
  }

  ghost predicate ChildrenOk(s: Store, p: Hash)
    requires p in s
  {
    NoRepeats(s[p].children) && forall k :: k in s[p].children ==> k in s && s[k].block.parent == p
  }

  ghost predicate EntryOk(s: Store, entry: seq<Hash>, height: nat) {
    NoRepeats(entry) && forall h :: h in entry <==> h in s && s[h].block.height == height
  }

  ghost predicate LinkedUp(s: Store, h: Hash)
    requires h in s
  {
    s[h].block.parent in s ==> h in s[s[h].block.parent].children
  }

  /** Every stored block is linked from its stored parent. */
  ghost predicate Complete(s: Store) {
    forall h {:trigger LinkedUp(s, h)} :: h in s ==> LinkedUp(s, h)
  }

  ghost predicate OneUp(s: Store, h: Hash)
    requires h in s
  {
    s[h].block.parent in s ==> s[h].block.height == s[s[h].block.parent].block.height + 1
  }

  /** A block and its parent, when both are stored, are one height apart. */
  ghost predicate Consistent(s: Store) {
    forall h {:trigger OneUp(s, h)} :: h in s ==> OneUp(s, h)
  }

  lemma {:induction false} ChildrenInSpec(s: Store, hashes: seq<Hash>, parent: Hash)
    requires NoRepeats(hashes)
    ensures NoRepeats(ChildrenIn(s, hashes, parent))
    ensures forall k :: k in ChildrenIn(s, hashes, parent) <==> k in hashes && k in s && s[k].block.parent == parent
    decreases hashes
  {
    if hashes != [] {
      var front, h := hashes[..|hashes|-1], hashes[|hashes|-1];
      ChildrenInSpec(s, front, parent);
      assert forall k :: k in hashes <==> k in front || k == h;
      assert h !in front;
    }
  }

  ghost predicate SameButChildren(a: ExtBlock, b: ExtBlock) {
    a.block == b.block && a.status == b.status && a.hasValidatorUpdate == b.hasValidatorUpdate
  }

  ghost predicate Fresh(eb: ExtBlock, b: Block) {
    eb.block == b && eb.status == Pending && !eb.hasValidatorUpdate
  }

  /** The new store after an insertion: one more pending block, one more link. */
  ghost predicate Inserted(s: Store, t: Store, b: Block) {
    && t.Keys == s.Keys + {b.hash} && Fresh(t[b.hash], b)
    && (forall h {:trigger t[h]} :: h in s ==>
      && SameButChildren(s[h], t[h])
      && t[h].children == if h == b.parent then s[h].children + [b.hash] else s[h].children)
    && NoRepeats(t[b.hash].children)
    && (forall k :: k in t[b.hash].children <==> k in s && s[k].block.height == (b.height + 1) % U64 && s[k].block.parent == b.hash)
  }

  /** What any number of saves of an insertion leaves of the store: at most one more block, pending,
      and the old ones with other children lists. */
  ghost predicate Received(s: Store, t: Store, b: Block) {
    && s.Keys <= t.Keys <= s.Keys + {b.hash} && (b.hash in t && b.hash !in s ==> Fresh(t[b.hash], b))
    && (forall h {:trigger t[h]} :: h in s ==> SameButChildren(s[h], t[h]))
  }

  lemma SavedShape(c: ChainData, b: Block, k: nat)
    requires EMPTY_HASH !in c.blocks
    ensures Received(c.blocks, AddSaved(c, b, k).blocks, b)
  {
    hide ChildrenIn, LinkToParent;
    LinkShape(c.blocks, LinkToParent(c.blocks, b), b);
  }

  lemma LinkShape(s: Store, t: Store, b: Block)
    requires EMPTY_HASH !in s && t == LinkToParent(s, b)
    ensures t.Keys == s.Keys
    ensures forall h {:trigger t[h]} :: h in s ==>
      SameButChildren(s[h], t[h]) && t[h].children == if h == b.parent then s[h].children + [b.hash] else s[h].children
  {
  }

  lemma KidsShape(c: ChainData, s: Store, height: nat, parent: Hash)
    requires EntryOk(c.blocks, HeightEntry(c, height), height)
    requires s.Keys == c.blocks.Keys && forall h {:trigger s[h]} :: h in s ==> s[h].block == c.blocks[h].block
    ensures
      var kids := ChildrenIn(s, HeightEntry(c, height), parent);
      NoRepeats(kids) && forall k :: k in kids <==> k in c.blocks && c.blocks[k].block.height == height && c.blocks[k].block.parent == parent
  {
    ChildrenInSpec(s, HeightEntry(c, height), parent);
    forall k ensures k in ChildrenIn(s, HeightEntry(c, height), parent) <==> k in c.blocks && c.blocks[k].block.height == height && c.blocks[k].block.parent == parent {
      if k in s {
        assert s[k].block == c.blocks[k].block;
      }
    }
  }

  lemma InsertShape(s: Store, linked: Store, t: Store, b: Block, kids: seq<Hash>)
    requires b.hash !in s && EMPTY_HASH !in s && linked == LinkToParent(s, b)
    requires t == linked[b.hash := ExtBlock(b, kids, Pending, false)]
    requires NoRepeats(kids)
    requires forall k :: k in kids <==> k in s && s[k].block.height == (b.height + 1) % U64 && s[k].block.parent == b.hash
    ensures Inserted(s, t, b)
  {
    LinkShape(s, linked, b);
    forall h | h in s
      ensures SameButChildren(s[h], t[h])
      ensures t[h].children == if h == b.parent then s[h].children + [b.hash] else s[h].children
    {
      assert t[h] == linked[h];
    }
  }

  lemma AddedStore(c: ChainData, b: Block)
    requires ChainOk(c) && b.hash !in c.blocks
    ensures Inserted(c.blocks, AddBlock(c, b, false).blocks, b)
  {
    var height := (b.height + 1) % U64;
    assert EntryOk(c.blocks, HeightEntry(c, height), height);
    AddedStoreAt(c, b, height);
  }

  lemma AddedStoreAt(c: ChainData, b: Block, height: nat)
    requires EMPTY_HASH !in c.blocks && b.hash !in c.blocks
    requires height == (b.height + 1) % U64 && EntryOk(c.blocks, HeightEntry(c, height), height)
    ensures Inserted(c.blocks, AddBlock(c, b, false).blocks, b)
  {
    var s := LinkToParent(c.blocks, b);
    LinkShape(c.blocks, s, b);
    assert forall h {:trigger s[h]} :: h in s ==> SameButChildren(c.blocks[h], s[h]);
    KidsShape(c, s, height, b.hash);
    InsertShape(c.blocks, s, AddBlock(c, b, false).blocks, b, ChildrenIn(s, HeightEntry(c, height), b.hash));
  }

  lemma InsertKeepsChildren(s: Store, t: Store, b: Block, p: Hash)
    requires Inserted(s, t, b) && b.hash !in s && p in t && (p in s ==> ChildrenOk(s, p))
    ensures ChildrenOk(t, p)
  {
    if p in s {
      assert t[p].children == if p == b.parent then s[p].children + [b.hash] else s[p].children;
      AppendElement(s[p].children, b.hash);
      NotElement(s[p].children, b.hash);
      forall k | k in t[p].children ensures k in t && t[k].block.parent == p {
      }
    } else {
      forall k | k in t[p].children ensures k in t && t[k].block.parent == p {
        assert SameButChildren(s[k], t[k]);
      }
    }
  }

  lemma InsertKeepsEntry(s: Store, t: Store, b: Block, entry: seq<Hash>, height: nat)
    requires Inserted(s, t, b) && b.hash !in s && EntryOk(s, entry, height)
    ensures b.hash !in entry && EntryOk(t, if height == b.height then entry + [b.hash] else entry, height)
  {
    AppendElement(entry, b.hash);
    NotElement(entry, b.hash);
    assert forall h {:trigger t[h]} :: h in s ==> SameButChildren(s[h], t[h]);
  }

  lemma AddBlockKeeps(c: ChainData, b: Block)
    requires ChainOk(c) && b.hash != EMPTY_HASH && b.height < U64
    ensures ChainOk(AddBlock(c, b, false))
  {
    if b.hash !in c.blocks {
      var c' := AddBlock(c, b, false);
      var t := c'.blocks;
      AddedStore(c, b);
      forall p | p in t ensures ChildrenOk(t, p) {
        InsertKeepsChildren(c.blocks, t, b, p);
      }
      forall height ensures EntryOk(t, HeightEntry(c', height), height) {
        InsertKeepsEntry(c.blocks, t, b, HeightEntry(c, height), height);
        EntryAfterAdd(ChainData(t, c.heights), b.height, b.hash, height);
        assert HeightEntry(ChainData(t, c.heights), height) == HeightEntry(c, height);
      }
    }
  }

  lemma NotElement<T>(s: seq<T>, x: T)
    ensures x in Elements(s) <==> x in s
  {
  }

  lemma InsertKeepsLinks(s: Store, t: Store, b: Block)
    requires Inserted(s, t, b) && b.hash !in s && b.height < U64 && Complete(s) && Consistent(t)
    requires forall h :: h in s ==> s[h].block.height < U64
    ensures Complete(t)
  {
    forall h | h in t ensures LinkedUp(t, h) {
      if h != b.hash {
        assert SameButChildren(s[h], t[h]) && OneUp(t, h) && LinkedUp(s, h);
        var p := t[h].block.parent;
        if p in s {
          assert t[p].children == if p == b.parent then s[p].children + [b.hash] else s[p].children;
        }
      } else if b.parent in s {
        assert t[b.parent].children == s[b.parent].children + [b.hash];
      } else if b.parent == b.hash {
        assert OneUp(t, h);
      }
    }
  }

  // ---- any order ---------------------------------------------------------------------

  function AddAll(c: ChainData, bs: seq<Block>): ChainData
    decreases |bs|
  {
    if bs == [] then c else AddBlock(AddAll(c, bs[..|bs|-1]), bs[|bs|-1], false)
  }

  ghost predicate WellFormed(bs: seq<Block>) {
    forall i :: 0 <= i < |bs| ==> bs[i].hash != EMPTY_HASH && bs[i].height < U64
  }

  /** Hashes are injective: one hash, one block. */
  ghost predicate OneBlockPerHash(c: ChainData, bs: seq<Block>) {
    && (forall i, j :: 0 <= i < |bs| && 0 <= j < |bs| && bs[i].hash == bs[j].hash ==> bs[i] == bs[j])
    && (forall i :: 0 <= i < |bs| && bs[i].hash in c.blocks ==> c.blocks[bs[i].hash].block == bs[i])
  }

  /** `t` holds what `s` held, and the blocks of the list, fresh. */
  ghost predicate Grown(s: Store, t: Store, bs: seq<Block>) {
    && s.Keys <= t.Keys
    && (forall h {:trigger t[h]} :: h in s ==> SameButChildren(s[h], t[h]))
    && (forall h {:trigger t[h]} :: h in t && h !in s ==> Fresh(t[h], t[h].block) && t[h].block in bs && t[h].block.hash == h)
    && (forall b :: b in bs ==> b.hash in t && t[b.hash].block == b)
  }

  lemma GrownByOne(s: Store, t: Store, u: Store, bs: seq<Block>, b: Block)
    requires Grown(s, t, bs) && b.hash !in t && Inserted(t, u, b)
    ensures Grown(s, u, bs + [b])
  {
    forall h | h in s ensures h in u && SameButChildren(s[h], u[h]) {
      assert SameButChildren(s[h], t[h]);
    }
    forall h | h in u && h !in s ensures Fresh(u[h], u[h].block) && u[h].block in bs + [b] && u[h].block.hash == h {
      if h != b.hash {
        assert SameButChildren(t[h], u[h]) && Fresh(t[h], t[h].block);
      }
    }
    forall x | x in bs + [b] ensures x.hash in u && u[x.hash].block == x {
      if x in bs {
        assert SameButChildren(t[x.hash], u[x.hash]);
      }
    }
  }

  lemma {:induction false} AddAllKeeps(c: ChainData, bs: seq<Block>)
    requires ChainOk(c) && WellFormed(bs) && OneBlockPerHash(c, bs)
    ensures ChainOk(AddAll(c, bs)) && Grown(c.blocks, AddAll(c, bs).blocks, bs)
    decreases |bs|
  {
    hide ChainOk, Grown, AddBlock;
    if bs == [] {
      NotGrown(c.blocks);
    } else {
      var front, b := bs[..|bs|-1], bs[|bs|-1];
      assert forall i :: 0 <= i < |front| ==> front[i] == bs[i];
      AddAllKeeps(c, front);
      assert front + [b] == bs;
      AddOneKeeps(c, AddAll(c, front), front, b);
    }
  }

  lemma NotGrown(s: Store)
    ensures Grown(s, s, [])
  {
  }

  lemma AddOneKeeps(c: ChainData, e: ChainData, front: seq<Block>, b: Block)
    requires ChainOk(c) && ChainOk(e) && Grown(c.blocks, e.blocks, front) && WellFormed(front + [b]) && OneBlockPerHash(c, front + [b])
    ensures ChainOk(AddBlock(e, b, false)) && Grown(c.blocks, AddBlock(e, b, false).blocks, front + [b])
  {
    hide ChainOk, Grown;
    assert (front + [b])[|front|] == b;
    AddBlockKeeps(e, b);
    if b.hash !in e.blocks {
      AddedStore(e, b);
      GrownByOne(c.blocks, e.blocks, AddBlock(e, b, false).blocks, front, b);
    } else {
      StoredAlready(c, e.blocks, front, b);
    }
  }

  lemma StoredAlready(c: ChainData, t: Store, bs: seq<Block>, b: Block)
    requires OneBlockPerHash(c, bs + [b]) && Grown(c.blocks, t, bs) && b.hash in t
    ensures Grown(c.blocks, t, bs + [b])
  {
    if b.hash in c.blocks {
      assert SameButChildren(c.blocks[b.hash], t[b.hash]);
      assert (bs + [b])[|bs|] == b;
    } else {
      var i :| 0 <= i < |bs| && bs[i] == t[b.hash].block;
      assert (bs + [b])[i] == bs[i] && (bs + [b])[|bs|] == b;
    }
    forall x | x in bs + [b] ensures x.hash in t && t[x.hash].block == x {
    }
  }

  lemma {:induction false} AddAllLinks(c: ChainData, bs: seq<Block>)
    requires ChainOk(c) && Complete(c.blocks) && WellFormed(bs) && OneBlockPerHash(c, bs)
    requires Consistent(AddAll(c, bs).blocks)
    ensures Complete(AddAll(c, bs).blocks)
    decreases |bs|
  {
    if bs != [] {
      var front, b := bs[..|bs|-1], bs[|bs|-1];
      assert forall i :: 0 <= i < |front| ==> front[i] == bs[i];
      AddAllKeeps(c, front);
      var e := AddAll(c, front);
      if b.hash !in e.blocks {
        AddedStore(e, b);
        ConsistentBefore(e.blocks, AddAll(c, bs).blocks, b);
        AddAllLinks(c, front);
        InsertKeepsLinks(e.blocks, AddAll(c, bs).blocks, b);
      } else {
        AddAllLinks(c, front);
      }
    }
  }

  lemma ConsistentBefore(s: Store, t: Store, b: Block)
    requires Inserted(s, t, b) && Consistent(t)
    ensures Consistent(s)
  {
    forall h | h in s ensures OneUp(s, h) {
      assert SameButChildren(s[h], t[h]) && OneUp(t, h);
    }
  }

  ghost predicate SameChildrenOf(s: Store, t: Store, h: Hash)
    requires h in s && h in t
  {
    |s[h].children| == |t[h].children| && forall k :: k in s[h].children <==> k in t[h].children
  }

  ghost predicate SameEntry(c: ChainData, d: ChainData, height: nat) {
    |HeightEntry(c, height)| == |HeightEntry(d, height)| && forall h :: h in HeightEntry(c, height) <==> h in HeightEntry(d, height)
  }

  /** The same blocks with the same children and the same height entries, up to list order. */
  ghost predicate SameTree(c: ChainData, d: ChainData) {
    && c.blocks.Keys == d.blocks.Keys
    && (forall h {:trigger SameChildrenOf(c.blocks, d.blocks, h)} :: h in c.blocks ==>
      SameButChildren(c.blocks[h], d.blocks[h]) && SameChildrenOf(c.blocks, d.blocks, h))
    && (forall height {:trigger SameEntry(c, d, height)} :: SameEntry(c, d, height))
  }

  lemma SameElementsSameLength<T>(s: seq<T>, t: seq<T>)
    requires NoRepeats(s) && NoRepeats(t) && forall x :: x in s <==> x in t
    ensures |s| == |t|
  {
    LengthIsCount(s);
    LengthIsCount(t);
    assert Elements(s) == Elements(t) by {
      forall x ensures x in Elements(s) <==> x in Elements(t) {
        NotElement(s, x);
        NotElement(t, x);
      }
    }
  }

  lemma LengthIsCount<T>(s: seq<T>)
    requires NoRepeats(s)
    ensures |Elements(s)| == |s|
  {
    if s == [] {
      assert Elements(s) == {};
    } else {
      var front, x := s[..|s|-1], s[|s|-1];
      LengthIsCount(front);
      AppendElement(front, x);
      assert front + [x] == s;
      NotElement(front, x);
    }
  }

  /** Whatever the order of arrival, orphans included, height-consistent blocks end in the same
      tree. Repeated deliveries do not matter either. */
  lemma OrderDoesNotMatter(c: ChainData, bs: seq<Block>, cs: seq<Block>)
    requires ChainOk(c) && Complete(c.blocks)
    requires WellFormed(bs) && WellFormed(cs) && OneBlockPerHash(c, bs) && OneBlockPerHash(c, cs)
    requires forall b :: b in bs <==> b in cs
    requires Consistent(AddAll(c, bs).blocks)
    ensures SameTree(AddAll(c, bs), AddAll(c, cs))
  {
    var d, e := AddAll(c, bs), AddAll(c, cs);
    AddAllKeeps(c, bs);
    AddAllKeeps(c, cs);
    SameBlocksStored(c.blocks, d.blocks, e.blocks, bs, cs);
    SameConsistency(d.blocks, e.blocks);
    AddAllLinks(c, bs);
    AddAllLinks(c, cs);
    forall h | h in d.blocks ensures SameButChildren(d.blocks[h], e.blocks[h]) && SameChildrenOf(d.blocks, e.blocks, h) {
      assert ChildrenOk(d.blocks, h) && ChildrenOk(e.blocks, h);
      SameChildren(d.blocks, e.blocks, h);
    }
    forall height ensures SameEntry(d, e, height) {
      EntriesAgree(d.blocks, e.blocks, HeightEntry(d, height), HeightEntry(e, height), height);
    }
  }

  ghost predicate SameStored(s: Store, t: Store) {
    s.Keys == t.Keys && forall h {:trigger s[h]} {:trigger t[h]} :: h in s ==> SameButChildren(s[h], t[h])
  }

  lemma SameBlocksStored(s: Store, t: Store, u: Store, bs: seq<Block>, cs: seq<Block>)
    requires Grown(s, t, bs) && Grown(s, u, cs) && forall b :: b in bs <==> b in cs
    ensures SameStored(t, u)
  {
    forall h | h in t ensures h in u && SameButChildren(t[h], u[h]) {
      if h in s {
        assert SameButChildren(s[h], t[h]) && SameButChildren(s[h], u[h]);
      } else {
        assert t[h].block in cs;
        assert Fresh(t[h], t[h].block) && Fresh(u[h], u[h].block);
      }
    }
    forall h | h in u ensures h in t {
      if h !in s {
        assert u[h].block in bs;
      }
    }
  }

  lemma SameConsistency(s: Store, t: Store)
    requires SameStored(s, t) && Consistent(s)
    ensures Consistent(t)
  {
    forall h | h in t ensures OneUp(t, h) {
      assert SameButChildren(s[h], t[h]) && OneUp(s, h);
    }
  }

  lemma EntriesAgree(s: Store, t: Store, a: seq<Hash>, b: seq<Hash>, height: nat)
    requires SameStored(s, t) && EntryOk(s, a, height) && EntryOk(t, b, height)
    ensures |a| == |b| && forall h :: h in a <==> h in b
  {
    forall h ensures h in a <==> h in b {
      if h in s {
        assert SameButChildren(s[h], t[h]);
      }
    }
    SameElementsSameLength(a, b);
  }

  lemma SameChildren(s: Store, t: Store, h: Hash)
    requires SameStored(s, t) && h in s
    requires ChildrenOk(s, h) && ChildrenOk(t, h) && Complete(s) && Complete(t)
    ensures SameChildrenOf(s, t, h)
  {
    forall k ensures k in s[h].children <==> k in t[h].children {
      if k in s {
        assert SameButChildren(s[k], t[k]) && LinkedUp(s, k) && LinkedUp(t, k);
      }
    }
    SameElementsSameLength(s[h].children, t[h].children);
  }
}
