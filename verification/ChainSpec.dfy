/** The block store as a value: what each chain operation does to it (blockchain/chain.go). */
module ChainSpec {
  import opened Common
  import opened Validators
  import opened Votes
  import opened BlockTree

  const MAX_DISTANCE: nat := 2000

  /** The blocks by hash, and the hashes by height key. */
  datatype ChainData = ChainData(blocks: Store, heights: map<seq<nat>, seq<Hash>>)

  /** Seven bits per byte, lowest first; the top bit says that more bytes follow. */
  function Uvarint(x: nat): (r: seq<nat>)
    ensures r != []
  {
    if x < 128 then [x] else [x % 128 + 128] + Uvarint(x / 128)
  }

  /** "bh/" followed by the height. */
  function HeightKey(height: nat): seq<nat> {
    [0x62, 0x68, 0x2f] + Uvarint(height)
  }

  function HeightEntry(c: ChainData, height: nat): seq<Hash> {
    var key := HeightKey(height);
    if key in c.heights then c.heights[key] else []
  }

  function AddToHeightIndex(c: ChainData, height: nat, h: Hash): ChainData {
    var entry := HeightEntry(c, height);
    if h in entry then c else c.(heights := c.heights[HeightKey(height) := entry + [h]])
  }

  /** The hashes of an index entry whose block is stored and names `parent` as its parent. */
  function ChildrenIn(blocks: Store, hashes: seq<Hash>, parent: Hash): seq<Hash> {
    if hashes == [] then [] else
      var front := ChildrenIn(blocks, hashes[..|hashes|-1], parent);
      var h := hashes[|hashes|-1];
      if h in blocks && blocks[h].block.parent == parent then front + [h] else front
  }

  function LinkToParent(blocks: Store, b: Block): Store {
    if b.parent != EMPTY_HASH && b.parent in blocks
    then blocks[b.parent := blocks[b.parent].(children := blocks[b.parent].children + [b.hash])]
    else blocks
  }

  /** A block that is already stored changes nothing. A snapshot root is trusted and is not
      linked from its parent. */
  function AddBlock(c: ChainData, b: Block, snapshotRoot: bool): ChainData {
    if b.hash in c.blocks then c else
      var blocks := if snapshotRoot then c.blocks else LinkToParent(c.blocks, b);
      var kids := ChildrenIn(blocks, HeightEntry(c, (b.height + 1) % U64), b.hash);
      var ext := ExtBlock(b, kids, if snapshotRoot then Trusted else Pending, false);
      AddToHeightIndex(ChainData(blocks[b.hash := ext], c.heights), b.height, b.hash)
  }

  /** The store after the first `k` of the three saves of an insertion: the parent with its new
      link, the block, its height entry. */
  function AddSaved(c: ChainData, b: Block, k: nat): ChainData {
    if k == 0 || b.hash in c.blocks then c
    else if k == 1 then c.(blocks := LinkToParent(c.blocks, b))
    else if k == 2 then c.(blocks := AddBlock(c, b, false).blocks)
    else AddBlock(c, b, false)
  }

  lemma SavedWhole(c: ChainData, b: Block)
    ensures AddSaved(c, b, 3) == AddBlock(c, b, false)
  {
  }

  function SetStatus(blocks: Store, h: Hash, s: Status): Store {
    if h in blocks then blocks[h := blocks[h].(status := s)] else blocks
  }

  function SetUpdate(blocks: Store, h: Hash): Store {
    if h in blocks then blocks[h := blocks[h].(hasValidatorUpdate := true)] else blocks
  }

  ghost function NotFinalized(blocks: Store): set<Hash> {
    set h | h in blocks && !IsFinalized(blocks[h].status)
  }

  /** The blocks that finalizing from `h` marks, nearest first: up to the first block that is
      finalized already or not stored. */
  ghost function Walk(blocks: Store, h: Hash): seq<Hash>
    decreases NotFinalized(blocks)
  {
    if h == EMPTY_HASH || h !in blocks || IsFinalized(blocks[h].status) then []
    else
      var marked := SetStatus(blocks, h, IndirectlyFinalized);
      assert NotFinalized(marked) == NotFinalized(blocks) - {h};
      assert h in NotFinalized(blocks);
      [h] + Walk(marked, blocks[h].block.parent)
  }

  /** Only statuses of the blocks on the walk matter to the walk, and only their finality. */
  lemma {:induction false} WalkIgnoresRank(s: Store, t: Store, h: Hash)
    requires t.Keys == s.Keys
    requires forall g :: g in s ==> t[g].block == s[g].block && IsFinalized(t[g].status) == IsFinalized(s[g].status)
    ensures Walk(t, h) == Walk(s, h)
    decreases NotFinalized(s)
  {
    if !(h == EMPTY_HASH || h !in s || IsFinalized(s[h].status)) {
      var s', t' := SetStatus(s, h, IndirectlyFinalized), SetStatus(t, h, IndirectlyFinalized);
      assert NotFinalized(s') == NotFinalized(s) - {h} && h in NotFinalized(s);
      WalkIgnoresRank(s', t', s[h].block.parent);
    }
  }

  /** The walk goes on from the parent, whichever finalized status the block was given. */
  lemma WalkNext(s: Store, h: Hash, st: Status)
    requires h != EMPTY_HASH && h in s && !IsFinalized(s[h].status) && IsFinalized(st)
    ensures Walk(s, h) == [h] + Walk(SetStatus(s, h, st), s[h].block.parent)
    ensures NotFinalized(SetStatus(s, h, st)) < NotFinalized(s)
  {
    hide NotFinalized;
    var t, u := SetStatus(s, h, st), SetStatus(s, h, IndirectlyFinalized);
    OneFewer(s, h, st);
    assert Walk(s, h) == [h] + Walk(u, s[h].block.parent);
    assert forall g :: g in u ==> t[g].block == u[g].block && IsFinalized(t[g].status) == IsFinalized(u[g].status);
    WalkIgnoresRank(u, t, s[h].block.parent);
  }

  lemma OneFewer(s: Store, h: Hash, st: Status)
    requires h in s && !IsFinalized(s[h].status) && IsFinalized(st)
    ensures h in NotFinalized(s) && NotFinalized(SetStatus(s, h, st)) == NotFinalized(s) - {h}
  {
  }

  /** A walk down from `h`: each next block is the parent of the one before, none is finalized and
      none comes twice; it ends where there is no stored block left that is not finalized. */
  ghost predicate IsWalk(s: Store, h: Hash, hs: seq<Hash>) {
    && NoRepeats(hs) && (forall i :: 0 <= i < |hs| ==> OnWalk(s, hs[i]))
    && (forall i :: 0 <= i < |hs| - 1 ==> hs[i+1] == s[hs[i]].block.parent)
    && (hs == [] ==> !OnWalk(s, h))
    && (hs != [] ==> hs[0] == h && (!OnWalk(s, s[hs[|hs|-1]].block.parent) || s[hs[|hs|-1]].block.parent in hs))
  }

  ghost predicate OnWalk(s: Store, h: Hash) {
    h != EMPTY_HASH && h in s && s[h].status in {Pending, Valid, Invalid, Committed}
  }

  /** What finalizing marks is exactly the walk from the block to the nearest finalized one. */
  lemma {:induction false} WalkExactly(s: Store, h: Hash)
    ensures IsWalk(s, h, Walk(s, h))
    decreases NotFinalized(s)
  {
    if OnWalk(s, h) {
      WalkNext(s, h, IndirectlyFinalized);
      var t, p := SetStatus(s, h, IndirectlyFinalized), s[h].block.parent;
      WalkExactly(t, p);
      assert forall g :: OnWalk(t, g) <==> OnWalk(s, g) && g != h;
      WalkLonger(s, t, h, Walk(t, p));
    }
  }

  lemma WalkLonger(s: Store, t: Store, h: Hash, rest: seq<Hash>)
    requires OnWalk(s, h) && t == SetStatus(s, h, IndirectlyFinalized) && IsWalk(t, s[h].block.parent, rest)
    ensures IsWalk(s, h, [h] + rest)
  {
    var hs := [h] + rest;
    assert forall i :: 0 < i < |hs| ==> hs[i] == rest[i-1] && OnWalk(t, rest[i-1]);
    assert hs[|hs|-1] == if rest == [] then h else rest[|rest|-1];
    assert forall g :: g in rest ==> g in hs;
    assert h in hs;
  }

  /** The blocks of `hs` have become final, the first as told and the others indirectly; nothing
      else has changed. */
  ghost predicate Remarked(s: Store, t: Store, hs: seq<Hash>, first: Status) {
    && t.Keys == s.Keys
    && forall g {:trigger t[g]} :: g in s ==>
      t[g] == s[g].(status := if g !in hs then s[g].status else if g == hs[0] then first else IndirectlyFinalized)
  }

  lemma RemarkedNext(s: Store, t: Store, hs: seq<Hash>, first: Status)
    requires hs != [] && NoRepeats(hs) && hs[0] in s && Remarked(SetStatus(s, hs[0], first), t, hs[1..], IndirectlyFinalized)
    ensures Remarked(s, t, hs, first)
  {
    assert forall g :: g in hs <==> g == hs[0] || g in hs[1..];
    assert hs[0] !in hs[1..];
  }

  /** The k-th hash on the parent walk from `h`, as long as the blocks before it are stored. */
  ghost function Up(s: Store, h: Hash, k: nat): Option<Hash> {
    if k == 0 then Some(h) else
      var g := Up(s, h, k - 1);
      if g.Some? && g.value in s then Some(s[g.value].block.parent) else None
  }

  ghost predicate MetWithin(s: Store, a: Hash, d: Hash, n: nat) {
    exists k: nat :: k < n && Up(s, d, k) == Some(a)
  }

  lemma {:induction false} UpFromParent(s: Store, h: Hash, k: nat)
    ensures Up(s, h, k + 1) == if h in s then Up(s, s[h].block.parent, k) else None
  {
    if k > 0 {
      UpFromParent(s, h, k - 1);
    }
  }

  /** The bounded search answers whether one of the first `n` hashes on the walk is `a`. */
  lemma {:induction false} DescendantExactly(s: Store, a: Hash, d: Hash, n: nat)
    ensures IsDescendant(s, a, d, n) <==> MetWithin(s, a, d, n)
    decreases n
  {
    if n > 0 {
      assert Up(s, d, 0) == Some(d);
      if d in s {
        var p := s[d].block.parent;
        DescendantExactly(s, a, p, n - 1);
        if k: nat :| k < n - 1 && Up(s, p, k) == Some(a) {
          UpFromParent(s, d, k);
          assert Up(s, d, k + 1) == Some(a);
        }
      }
      if k: nat :| k < n && Up(s, d, k) == Some(a) && d != a {
        UpFromParent(s, d, k - 1);
        assert d in s && Up(s, s[d].block.parent, k - 1) == Some(a);
      }
    }
  }

  /** Whether `a` is met within the first `n` hashes on the parent walk from `d`. */
  function IsDescendant(blocks: Store, a: Hash, d: Hash, n: nat): bool
    decreases n
  {
    if n == 0 then false
    else if d == a then true
    else if d !in blocks then false
    else IsDescendant(blocks, a, blocks[d].block.parent, n - 1)
  }
}
