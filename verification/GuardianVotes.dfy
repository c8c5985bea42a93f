/** Aggregated guardian votes and the engine that gossips them (core/guardian.go,
    consensus/guardian.go). */
module GuardianVotes {
  import opened Common
  import opened Bls

  type Hash = nat

  const EMPTY_HASH: Hash := 0
  const MAX_ROUND: nat := 10

  /** What is signed: the block and the pool. */
  type Message = (Hash, Hash)

  /** Multiplicities are 32 bits wide. */
  datatype Votes<+S> = Votes(block: Hash, gcp: Hash, multiplies: seq<nat>, signature: Option<S>)

  /** The guardians with stake: the hash of their pool and their keys. */
  datatype Guardians<+K> = Guardians(hash: Hash, keys: seq<K>)

  ghost predicate InRange(ms: seq<nat>) {
    forall i :: 0 <= i < |ms| ==> ms[i] < U32
  }

  // ---- counting signers --------------------------------------------------------------

  function Signers(ms: seq<nat>): nat {
    if ms == [] then 0 else Signers(ms[..|ms|-1]) + (if ms[|ms|-1] != 0 then 1 else 0)
  }

  method Abs<S>(v: Votes<S>) returns (n: nat)
    ensures n == Signers(v.multiplies)
  {
    n := 0;
    for i := 0 to |v.multiplies|
      invariant n == Signers(v.multiplies[..i])
    {
      assert v.multiplies[..i+1][..i] == v.multiplies[..i];
      if v.multiplies[i] != 0 {
        n := n + 1;
      }
    }
    assert v.multiplies[..|v.multiplies|] == v.multiplies;
  }

  ghost predicate SumOf(a: seq<nat>, b: seq<nat>, c: seq<nat>) {
    |c| == |a| <= |b| && forall i :: 0 <= i < |a| ==> c[i] == a[i] + b[i]
  }

  /** Nobody signed `b` who had not signed `a`. */
  ghost predicate Subset(a: seq<nat>, b: seq<nat>)
    requires |a| <= |b|
  {
    forall i :: 0 <= i < |a| && a[i] == 0 ==> b[i] == 0
  }

  ghost predicate Overflows(a: seq<nat>, b: seq<nat>)
    requires |a| <= |b|
  {
    exists i :: 0 <= i < |a| && a[i] + b[i] >= U32
  }

  /** Adding votes never loses a signer, and gains one exactly when they bring a new one. */
  lemma {:induction false} SumGrows(a: seq<nat>, b: seq<nat>, c: seq<nat>)
    requires SumOf(a, b, c)
    ensures Signers(a) <= Signers(c) && (Signers(a) < Signers(c) <==> !Subset(a, b))
    decreases a
  {
    if a != [] {
      var n := |a| - 1;
      SumGrows(a[..n], b, c[..n]);
      assert Subset(a, b) <==> Subset(a[..n], b) && (a[n] == 0 ==> b[n] == 0) by {
        if Subset(a[..n], b) && (a[n] == 0 ==> b[n] == 0) {
          forall i | 0 <= i < |a| && a[i] == 0 ensures b[i] == 0 {
            assert i < n ==> a[..n][i] == 0;
          }
        }
        if Subset(a, b) {
          forall i | 0 <= i < n && a[..n][i] == 0 ensures b[i] == 0 {
            assert a[i] == 0;
          }
        }
      }
    }
  }

  // ---- validity ----------------------------------------------------------------------

  ghost predicate ValidVotes<K(!new), S(!new)>(b: Scheme<Message, K, S>, v: Votes<S>, g: Guardians<K>) {
    && v.gcp == g.hash && |v.multiplies| == |g.keys| && v.signature.Some?
    && Verify(b, v.signature.value, (v.block, v.gcp), Weighted(b.keys, g.keys, v.multiplies, |g.keys|))
  }

  method Validate<K(!new), S(!new, ==)>(b: Scheme<Message, K, S>, v: Votes<S>, g: Guardians<K>) returns (ok: bool)
    requires IsScheme(b)
    ensures ok == ValidVotes(b, v, g)
  {
    if v.gcp != g.hash || |v.multiplies| != |g.keys| || v.signature.None? {
      return false;
    }
    var key := AggregateVec(b.keys, g.keys, v.multiplies);
    ok := Verify(b, v.signature.value, (v.block, v.gcp), key);
  }

  /** `r` is `v` with `w` added to it. */
  ghost predicate Merges<K, S>(b: Scheme<Message, K, S>, v: Votes<S>, w: Votes<S>, r: Votes<S>) {
    && v.signature.Some? && w.signature.Some? && r.block == v.block && r.gcp == v.gcp
    && SumOf(v.multiplies, w.multiplies, r.multiplies) && r.signature == Some(b.sigs.add(v.signature.value, w.signature.value))
  }

  datatype MergeResult<+S> = Merged(votes: Votes<S>) | NothingNew | Failed

  /** Votes for another block or pool, and sums past 32 bits, are refused; votes that bring nobody
      new are passed over; otherwise multiplicities and signatures are added. */
  method Merge<K, S>(b: Scheme<Message, K, S>, v: Votes<S>, w: Votes<S>) returns (r: MergeResult<S>)
    requires InRange(v.multiplies) && InRange(w.multiplies)
    requires |v.multiplies| <= |w.multiplies| && v.signature.Some? && w.signature.Some?
    ensures r.Failed? <==> v.block != w.block || v.gcp != w.gcp || Overflows(v.multiplies, w.multiplies)
    ensures r.NothingNew? <==> !r.Failed? && Subset(v.multiplies, w.multiplies)
    ensures r.Merged? ==> Merges(b, v, w, r.votes) && InRange(r.votes.multiplies)
  {
    if v.block != w.block || v.gcp != w.gcp {
      return Failed;
    }
    var ms := [];
    var isSubset := true;
    for i := 0 to |v.multiplies|
      invariant |ms| == i && forall j :: 0 <= j < i ==> ms[j] == v.multiplies[j] + w.multiplies[j] < U32
      invariant isSubset <==> forall j :: 0 <= j < i && v.multiplies[j] == 0 ==> w.multiplies[j] == 0
    {
      var sum := (v.multiplies[i] + w.multiplies[i]) % U32;
      if sum < v.multiplies[i] || sum < w.multiplies[i] {
        assert v.multiplies[i] + w.multiplies[i] >= U32;
        return Failed;
      }
      ms := ms + [sum];
      if v.multiplies[i] == 0 && w.multiplies[i] != 0 {
        isSubset := false;
      }
    }
    if isSubset {
      return NothingNew;
    }
    r := Merged(Votes(v.block, v.gcp, ms, Some(b.sigs.add(v.signature.value, w.signature.value))));
  }

  /** Merging two valid votes gives a valid vote, with more signers exactly when the second brings
      somebody new. */
  lemma MergedIsValid<K(!new), S(!new)>(b: Scheme<Message, K, S>, v: Votes<S>, w: Votes<S>, r: Votes<S>, g: Guardians<K>)
    requires IsScheme(b) && ValidVotes(b, v, g) && ValidVotes(b, w, g) && v.block == w.block
    requires Merges(b, v, w, r)
    ensures ValidVotes(b, r, g)
    ensures Signers(r.multiplies) >= Signers(v.multiplies)
    ensures Signers(r.multiplies) > Signers(v.multiplies) <==> !Subset(v.multiplies, w.multiplies)
  {
    SumGrows(v.multiplies, w.multiplies, r.multiplies);
    var n := |g.keys|;
    WeightedSum(b.keys, g.keys, v.multiplies, w.multiplies, r.multiplies, n);
    SignaturesAdd(b, (v.block, v.gcp), v.signature.value, Weighted(b.keys, g.keys, v.multiplies, n),
                  w.signature.value, Weighted(b.keys, g.keys, w.multiplies, n));
  }

  /** The vote with more signers; the first in a tie. */
  method Pick<S>(v: Votes<S>, w: Votes<S>) returns (r: Option<Votes<S>>)
    ensures r.None? <==> v.block != w.block || v.gcp != w.gcp
    ensures r.Some? ==> r.value == if Signers(w.multiplies) > Signers(v.multiplies) then w else v
  {
    if v.block != w.block || v.gcp != w.gcp {
      return None;
    }
    var m := Abs(v);
    var n := Abs(w);
    r := Some(if n > m then w else v);
  }

  // ---- signing -----------------------------------------------------------------------

  function NewVotes<K, S>(b: Scheme<Message, K, S>, block: Hash, g: Guardians<K>): Votes<S> {
    Votes(block, g.hash, seq(|g.keys|, i => 0), Some(b.sigs.zero))
  }

  /** The signer's own signature verifies under its own key. */
  function Signed<K, S>(b: Scheme<Message, K, S>, v: Votes<S>, key: K, i: nat): Votes<S>
    requires i < |v.multiplies| && v.signature.Some?
  {
    if v.multiplies[i] > 0 then v
    else v.(multiplies := v.multiplies[i := 1], signature := Some(b.sigs.add(v.signature.value, b.image((v.block, v.gcp), key))))
  }

  lemma NewIsValid<K(!new), S(!new)>(b: Scheme<Message, K, S>, block: Hash, g: Guardians<K>)
    requires IsScheme(b)
    ensures ValidVotes(b, NewVotes(b, block, g), g) && InRange(NewVotes(b, block, g).multiplies)
  {
    WeightedNobody(b.keys, g.keys, NewVotes(b, block, g).multiplies, |g.keys|);
    Image(b, (block, g.hash), b.keys.zero, b.keys.zero);
  }

  lemma SignedIsValid<K(!new), S(!new)>(b: Scheme<Message, K, S>, v: Votes<S>, g: Guardians<K>, i: nat)
    requires IsScheme(b) && ValidVotes(b, v, g) && InRange(v.multiplies) && i < |g.keys|
    ensures ValidVotes(b, Signed(b, v, g.keys[i], i), g) && InRange(Signed(b, v, g.keys[i], i).multiplies)
  {
    if v.multiplies[i] == 0 {
      var n := |g.keys|;
      var m := (v.block, v.gcp);
      WeightedAlone(b.keys, g.keys, i, n);
      WeightedSum(b.keys, g.keys, v.multiplies, Alone(n, i), v.multiplies[i := 1], n);
      SignaturesAdd(b, m, v.signature.value, Weighted(b.keys, g.keys, v.multiplies, n), b.image(m, g.keys[i]), g.keys[i]);
    }
  }

  // ---- the engine --------------------------------------------------------------------

  /** The best vote after `w` came in: merged unless a sum overflows or nobody in `w` is new. */
  ghost predicate MergedOrKept<K, S>(b: Scheme<Message, K, S>, v: Votes<S>, w: Votes<S>, r: Votes<S>) {
    && |v.multiplies| <= |w.multiplies|
    && if Overflows(v.multiplies, w.multiplies) || Subset(v.multiplies, w.multiplies) then r == v else Merges(b, v, w, r)
  }

  /** A vote that belongs to the current block and is valid. */
  ghost predicate Fits<K(!new), S(!new)>(b: Scheme<Message, K, S>, v: Votes<S>, block: Hash, g: Guardians<K>) {
    ValidVotes(b, v, g) && InRange(v.multiplies) && v.block == block
  }

  ghost predicate Rising(counts: seq<nat>) {
    forall i, j :: 0 <= i < j < |counts| ==> counts[i] < counts[j]
  }

  lemma RisesOn(counts: seq<nat>, n: nat)
    requires Rising(counts) && (counts != [] ==> counts[|counts|-1] < n)
    ensures Rising(counts + [n])
  {
    forall i, j | 0 <= i < j < |counts + [n]| ensures (counts + [n])[i] < (counts + [n])[j] {
      assert j == |counts| && i < j - 1 ==> counts[i] < counts[|counts|-1];
    }
  }

  class GuardianEngine<K(!new, ==), S(!new, ==)> {
    const scheme: Scheme<Message, K, S>
    const ownKey: K
    const passThrough: bool
    var block: Hash
    var round: nat
    var currVote: Option<Votes<S>>
    var nextVote: Option<Votes<S>>
    var guardians: Guardians<K>
    var signerIndex: Option<nat>
    /** How many had signed, each time the best vote for this block was replaced. */
    ghost var counts: seq<nat>

    ghost predicate Valid()
      reads this
    {
      && IsScheme(scheme)
      && (nextVote.Some? ==> Fits(scheme, nextVote.value, block, guardians))
      && (currVote.Some? ==> Fits(scheme, currVote.value, block, guardians))
      && Rising(counts) && (nextVote.Some? <==> counts != [])
      && (nextVote.Some? ==> counts[|counts|-1] == Signers(nextVote.value.multiplies))
    }

    constructor (scheme: Scheme<Message, K, S>, ownKey: K, passThrough: bool)
      requires IsScheme(scheme)
      ensures Valid() && block == EMPTY_HASH && nextVote.None?
    {
      this.scheme, this.ownKey, this.passThrough := scheme, ownKey, passThrough;
      block, round, currVote, nextVote, guardians, signerIndex, counts := EMPTY_HASH, 0, None, None, Guardians(0, []), None, [];
    }

    /** Where the engine's own key stands among the guardians. */
    method Index(g: Guardians<K>) returns (i: Option<nat>)
      ensures i.Some? ==> i.value < |g.keys| && g.keys[i.value] == ownKey
      ensures i.None? ==> ownKey !in g.keys
    {
      for k := 0 to |g.keys|
        invariant ownKey !in g.keys[..k]
      {
        if g.keys[k] == ownKey {
          return Some(k);
        }
      }
      assert g.keys[..|g.keys|] == g.keys;
      i := None;
    }

    /** A guardian starts a block with its own vote, anybody else with none. */
    method StartNewBlock(newBlock: Hash, g: Guardians<K>)
      requires Valid()
      modifies this
      ensures Valid() && block == newBlock && guardians == g && round == 1
      ensures nextVote.Some? <==> ownKey in g.keys
      ensures signerIndex.Some? <==> ownKey in g.keys
      ensures currVote == nextVote && (nextVote.Some? ==> Signers(nextVote.value.multiplies) == 1)
    {
      hide IsScheme, ValidVotes;
      block, round, guardians, counts := newBlock, 1, g, [];
      nextVote, currVote := None, None;
      signerIndex := Index(g);
      if signerIndex.Some? {
        NewIsValid(scheme, newBlock, g);
        SignedIsValid(scheme, NewVotes(scheme, newBlock, g), g, signerIndex.value);
        var vote := Signed(scheme, NewVotes(scheme, newBlock, g), ownKey, signerIndex.value);
        OneSigner(|g.keys|, signerIndex.value);
        nextVote, currVote := Some(vote), Some(vote);
        counts := [1];
      }
    }

    method StartNewRound()
      requires Valid()
      modifies this`round, this`currVote
      ensures Valid() && round == (if old(round) < 10 then old(round) + 1 else old(round))
      ensures currVote == if old(round) < 10 && nextVote.Some? then nextVote else old(currVote)
    {
      if round < MAX_ROUND {
        round := round + 1;
        if nextVote.Some? {
          currVote := nextVote;
        }
      }
    }

    method ValidateVote(vote: Votes<S>) returns (ok: bool)
      requires Valid()
      ensures ok == (block != EMPTY_HASH && vote.block == block && ValidVotes(scheme, vote, guardians))
    {
      if block == EMPTY_HASH || vote.block != block || vote.gcp != guardians.hash {
        return false;
      }
      ok := Validate(scheme, vote, guardians);
    }

    /** Whether a vote from the network is looked at. */
    ghost predicate Accepts(vote: Votes<S>)
      reads this
    {
      block != EMPTY_HASH && vote.block == block && ValidVotes(scheme, vote, guardians)
    }

    /** The best vote so far takes in a vote from the network. It stays valid, and it is replaced
        exactly by one with more signers: the vote itself where votes are only passed through, the
        two merged otherwise. */
    method ProcessVote(vote: Votes<S>)
      requires Valid() && InRange(vote.multiplies)
      modifies this`nextVote, this`counts
      ensures Valid()
      ensures !Accepts(vote) ==> nextVote == old(nextVote)
      ensures Accepts(vote) && old(nextVote).None? ==> nextVote == Some(vote)
      ensures Accepts(vote) && old(nextVote).Some? && signerIndex.None? && passThrough ==>
        nextVote == Some(if Signers(vote.multiplies) > Signers(old(nextVote).value.multiplies) then vote else old(nextVote).value)
      ensures Accepts(vote) && old(nextVote).Some? && !(signerIndex.None? && passThrough) ==>
        nextVote.Some? && MergedOrKept(scheme, old(nextVote).value, vote, nextVote.value)
      ensures nextVote != old(nextVote) && old(nextVote).Some? ==>
        nextVote.Some? && Signers(nextVote.value.multiplies) > Signers(old(nextVote).value.multiplies)
      ensures counts == old(counts) || (|counts| == |old(counts)| + 1 && old(counts) == counts[..|old(counts)|])
    {
      hide IsScheme, ValidVotes, Merges;
      var ok := ValidateVote(vote);
      if !ok {
        return;
      }
      if nextVote.None? {
        Replace(vote);
        return;
      }
      if signerIndex.None? && passThrough {
        var better := BetterVote(vote);
        if better {
          Replace(vote);
        }
      } else {
        var merged := MergeIn(vote);
        if merged.Merged? {
          Replace(merged.votes);
        }
      }
    }

    method Replace(vote: Votes<S>)
      requires Valid() && Fits(scheme, vote, block, guardians)
      requires nextVote.Some? ==> Signers(vote.multiplies) > Signers(nextVote.value.multiplies)
      modifies this`nextVote, this`counts
      ensures Valid() && nextVote == Some(vote) && counts == old(counts) + [Signers(vote.multiplies)]
    {
      RisesOn(counts, Signers(vote.multiplies));
      nextVote, counts := Some(vote), counts + [Signers(vote.multiplies)];
    }

    method BetterVote(vote: Votes<S>) returns (better: bool)
      requires Valid() && nextVote.Some? && Fits(scheme, vote, block, guardians)
      ensures better == (Signers(vote.multiplies) > Signers(nextVote.value.multiplies))
    {
      var candidate := Pick(nextVote.value, vote);
      better := candidate != nextVote;
    }

    method MergeIn(vote: Votes<S>) returns (r: MergeResult<S>)
      requires Valid() && nextVote.Some? && Fits(scheme, vote, block, guardians)
      ensures r.Merged? ==> Fits(scheme, r.votes, block, guardians) && Signers(r.votes.multiplies) > Signers(nextVote.value.multiplies)
      ensures |nextVote.value.multiplies| <= |vote.multiplies|
      ensures r.Merged? <==> !Overflows(nextVote.value.multiplies, vote.multiplies) && !Subset(nextVote.value.multiplies, vote.multiplies)
      ensures r.Merged? ==> Merges(scheme, nextVote.value, vote, r.votes)
    {
      r := Merge(scheme, nextVote.value, vote);
      if r.Merged? {
        MergedIsValid(scheme, nextVote.value, vote, r.votes, guardians);
      }
    }
  }

  lemma {:induction false} NoSigners(n: nat)
    ensures Signers(seq(n, i => 0)) == 0
  {
    if n > 0 {
      var s := seq(n, i => 0);
      assert s[..n-1] == seq(n - 1, i => 0);
      NoSigners(n - 1);
    }
  }

  lemma {:induction false} OneSigner(n: nat, i: nat)
    requires i < n
    ensures Signers(seq(n, k => 0)[i := 1]) == 1
  {
    var s := seq(n, k => 0)[i := 1];
    if i == n - 1 {
      assert s[..n-1] == seq(n - 1, k => 0);
      NoSigners(n - 1);
    } else {
      assert s[..n-1] == seq(n - 1, k => 0)[i := 1];
      OneSigner(n - 1, i);
    }
  }
}
