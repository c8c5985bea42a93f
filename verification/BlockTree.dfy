/** Blocks, their statuses and the ancestor relation (core/block.go, blockchain/chain.go). */
module BlockTree {
  import opened Votes

  type Tx = seq<nat>

  /** A block carries its own hash: hashes are injective, so a hash stands for one block. */
  datatype Block = Block(
    hash: Hash,
    parent: Hash,
    height: nat,
    epoch: nat,
    hcc: Hash,
    hccVotes: VoteSet,
    txs: seq<Tx>)

  datatype Status =
    | Pending
    | Valid
    | Invalid
    | Committed
    | DirectlyFinalized
    | IndirectlyFinalized
    | Trusted

  predicate IsFinalized(s: Status) {
    s.DirectlyFinalized? || s.IndirectlyFinalized? || s.Trusted?
  }

  predicate IsValid(s: Status) {
    !s.Pending? && !s.Invalid?
  }

  datatype ExtBlock = ExtBlock(block: Block, children: seq<Hash>, status: Status, hasValidatorUpdate: bool)

  type Store = map<Hash, ExtBlock>

  type Blocks = map<Hash, Block>

  /** `a` is `d` or is reached from `d` through parent links that go down one height each. */
  ghost predicate Anc(bs: Blocks, a: Hash, d: Hash)
    decreases if d in bs then bs[d].height else 0
  {
    a == d || (d in bs && bs[d].parent in bs && bs[bs[d].parent].height + 1 == bs[d].height && Anc(bs, a, bs[d].parent))
  }

  lemma {:induction false} AncHeight(bs: Blocks, a: Hash, d: Hash)
    requires a in bs && d in bs && Anc(bs, a, d)
    ensures bs[a].height <= bs[d].height
    ensures bs[a].height == bs[d].height ==> a == d
    decreases bs[d].height
  {
    if a != d {
      AncHeight(bs, a, bs[d].parent);
    }
  }

  lemma {:induction false} AncTransitive(bs: Blocks, a: Hash, b: Hash, c: Hash)
    requires Anc(bs, a, b) && Anc(bs, b, c)
    ensures Anc(bs, a, c)
    decreases if c in bs then bs[c].height else 0
  {
    if b != c {
      AncTransitive(bs, a, b, bs[c].parent);
    }
  }

  /** Two ancestors of one block lie on one chain. */
  lemma {:induction false} AncLinear(bs: Blocks, a: Hash, b: Hash, d: Hash)
    requires a in bs && b in bs && d in bs && Anc(bs, a, d) && Anc(bs, b, d)
    requires bs[a].height <= bs[b].height
    ensures Anc(bs, a, b)
    decreases bs[d].height
  {
    if b != d {
      AncHeight(bs, b, d);
      AncLinear(bs, a, b, bs[d].parent);
    }
  }

  lemma {:induction false} AncMonotone(bs: Blocks, more: Blocks, a: Hash, d: Hash)
    requires Anc(bs, a, d) && forall h :: h in bs ==> h in more && more[h] == bs[h]
    ensures Anc(more, a, d)
    decreases if d in bs then bs[d].height else 0
  {
    if a != d {
      AncMonotone(bs, more, a, bs[d].parent);
    }
  }
}
