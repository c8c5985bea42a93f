/** Votes, vote sets and commit certificates (core/vote.go). */
module Votes {
  import opened Validators

  type Hash = nat

  const EMPTY_HASH: Hash := 0

  /** `authentic` says that the signature verifies over block, epoch and voter. The height
      is not covered by the signature. */
  datatype Vote = Vote(block: Hash, height: nat, epoch: nat, id: Address, authentic: bool)

  /** Vote sets key a vote by voter, block and epoch. */
  datatype VoteKey = VoteKey(id: Address, block: Hash, epoch: nat)

  type VoteSet = map<VoteKey, Vote>

  function Key(v: Vote): VoteKey {
    VoteKey(v.id, v.block, v.epoch)
  }

  ghost predicate WellKeyed(s: VoteSet) {
    forall k :: k in s ==> Key(s[k]) == k
  }

  function AddVote(s: VoteSet, v: Vote): VoteSet {
    s[Key(v) := v]
  }

  function AddVotes(s: VoteSet, vs: seq<Vote>): VoteSet
    decreases vs
  {
    if vs == [] then s else AddVotes(AddVote(s, vs[0]), vs[1..])
  }

  /** The votes saved under a block's hash. */
  function VotesFor(votes: map<Hash, VoteSet>, h: Hash): VoteSet {
    if h in votes then votes[h] else map[]
  }

  ghost function Voters(s: VoteSet): set<Address> {
    set k | k in s :: k.id
  }

  predicate Validate(v: Vote) {
    v.block != EMPTY_HASH && v.id != EMPTY_ADDRESS && v.authentic
  }

  ghost predicate OneVotePerVoter(s: VoteSet) {
    forall k, l :: k in s && l in s && k.id == l.id ==> k == l
  }

  /** `r` keeps, for every voter of `s`, exactly one of its votes of the highest epoch. */
  ghost predicate IsUniqueVoter(s: VoteSet, r: VoteSet) {
    && WellKeyed(r) && OneVotePerVoter(r) && Voters(r) == Voters(s)
    && (forall k :: k in r ==> k in s && r[k] == s[k])
    && (forall k, l :: k in s && l in r && k.id == l.id ==> k.epoch <= l.epoch)
  }

  /** Go iterates the map in any order; the latest vote of a voter replaces only older epochs. */
  method UniqueVoter(s: VoteSet) returns (r: VoteSet)
    requires WellKeyed(s)
    ensures IsUniqueVoter(s, r)
  {
    var latest: map<Address, Vote> := map[];
    var todo := s.Keys;
    while todo != {}
      invariant todo <= s.Keys
      invariant forall id :: id in latest ==> Key(latest[id]) in s.Keys - todo && s[Key(latest[id])] == latest[id]
      invariant forall id :: id in latest ==> latest[id].id == id
      invariant forall k :: k in s.Keys - todo ==> k.id in latest && k.epoch <= latest[k.id].epoch
      decreases todo
    {
      var k :| k in todo;
      var vote := s[k];
      if !(vote.id in latest && latest[vote.id].epoch >= vote.epoch) {
        latest := latest[vote.id := vote];
      }
      todo := todo - {k};
    }
    r := map[];
    var ids := latest.Keys;
    while ids != {}
      invariant ids <= latest.Keys
      invariant forall id :: id in latest.Keys - ids ==> Key(latest[id]) in r
      invariant forall k :: k in r ==> k.id in latest.Keys - ids && Key(latest[k.id]) == k && r[k] == latest[k.id]
      decreases ids
    {
      var id :| id in ids;
      r := AddVote(r, latest[id]);
      ids := ids - {id};
    }
    assert Voters(r) == Voters(s) by {
      forall k | k in s ensures k.id in Voters(r) {
        assert Key(latest[k.id]) in r;
        assert Key(latest[k.id]).id == k.id;
      }
    }
  }

  ghost function FilterSpec(s: VoteSet, vs: ValidatorSet): VoteSet {
    map k | k in s && k.id in Addresses(vs) :: s[k]
  }

  method FilterByValidators(s: VoteSet, vs: ValidatorSet) returns (r: VoteSet)
    requires WellKeyed(s)
    ensures r == FilterSpec(s, vs)
  {
    r := map[];
    var todo := s.Keys;
    while todo != {}
      invariant todo <= s.Keys
      invariant r.Keys == set k | k in s.Keys - todo && k.id in Addresses(vs)
      invariant forall k :: k in r ==> k in s && r[k] == s[k]
      decreases todo
    {
      var k :| k in todo;
      var v := GetValidator(vs, s[k].id);
      assert v.Some? <==> k.id in Addresses(vs);
      if v.Some? {
        r := AddVote(r, s[k]);
      }
      todo := todo - {k};
    }
  }

  method Merge(s: VoteSet, t: VoteSet) returns (r: VoteSet)
    requires WellKeyed(s) && WellKeyed(t)
    ensures WellKeyed(r) && Voters(r) == Voters(s) + Voters(t)
    ensures r == s + t
  {
    r := s;
    var todo := t.Keys;
    while todo != {}
      invariant todo <= t.Keys
      invariant r.Keys == s.Keys + (t.Keys - todo)
      invariant forall k :: k in r ==> if k in t.Keys - todo then r[k] == t[k] else k in s && r[k] == s[k]
      decreases todo
    {
      var k :| k in todo;
      r := AddVote(r, t[k]);
      todo := todo - {k};
    }
    assert r == s + t;
  }

  /** A certificate is accepted exactly when it holds one valid vote per voter, all for the
      certified block, no more votes than validators, and the voters hold a majority. */
  ghost predicate CertificateOk(votes: VoteSet, block: Hash, vs: ValidatorSet) {
    && votes != map[]
    && OneVotePerVoter(votes)
    && |votes| <= |vs|
    && (forall k :: k in votes ==> votes[k].block == block && Validate(votes[k]))
    && Majority(vs, Voters(votes))
  }

  /** The voters of a set, one entry per vote, in the order the map hands them out. */
  method VoterList(s: VoteSet) returns (ids: seq<Address>)
    requires WellKeyed(s) && OneVotePerVoter(s)
    ensures NoRepeats(ids) && Elements(ids) == Voters(s)
  {
    ids := [];
    var todo := s.Keys;
    while todo != {}
      invariant todo <= s.Keys
      invariant NoRepeats(ids) && Elements(ids) == set k | k in s.Keys - todo :: k.id
      decreases todo
    {
      var k :| k in todo;
      assert s[k].id !in Elements(ids);
      AppendElement(ids, s[k].id);
      ids := ids + [s[k].id];
      todo := todo - {k};
    }
  }

  lemma AppendElement<T>(s: seq<T>, x: T)
    ensures Elements(s + [x]) == Elements(s) + {x}
    ensures NoRepeats(s) && x !in Elements(s) ==> NoRepeats(s + [x])
  {
    assert forall i :: 0 <= i < |s| ==> (s + [x])[i] == s[i] && s[i] in Elements(s);
    assert (s + [x])[|s|] == x;
    forall y | y in Elements(s + [x]) ensures y in Elements(s) + {x} {
      var i :| 0 <= i < |s| + 1 && (s + [x])[i] == y;
      assert i < |s| ==> s[i] == y;
    }
    forall y | y in Elements(s) ensures y in Elements(s + [x]) {
      var i :| 0 <= i < |s| && s[i] == y;
      assert (s + [x])[i] == y;
    }
  }

  method AllValidFor(s: VoteSet, block: Hash) returns (r: bool)
    ensures r == forall k :: k in s ==> s[k].block == block && Validate(s[k])
  {
    var todo := s.Keys;
    while todo != {}
      invariant todo <= s.Keys
      invariant forall k :: k in s.Keys - todo ==> s[k].block == block && Validate(s[k])
      decreases todo
    {
      var k :| k in todo;
      if s[k].block != block || !Validate(s[k]) {
        return false;
      }
      todo := todo - {k};
    }
    r := true;
  }

  lemma SameVotersSameSize(s: VoteSet, r: VoteSet)
    requires IsUniqueVoter(s, r)
    ensures |r| <= |s|
    ensures |r| == |s| <==> OneVotePerVoter(s)
  {
    assert r.Keys <= s.Keys;
    SubsetSize(r.Keys, s.Keys);
    if |r| == |s| {
      assert r.Keys == s.Keys;
    }
    if OneVotePerVoter(s) {
      forall k | k in s ensures k in r {
        assert k.id in Voters(r);
        var l :| l in r && l.id == k.id;
        assert l in s;
      }
      assert r.Keys == s.Keys;
    }
  }

  lemma SubsetSize<T>(a: set<T>, b: set<T>)
    requires a <= b
    ensures |a| <= |b| && (|a| == |b| ==> a == b)
  {
    if a != {} {
      var x :| x in a;
      SubsetSize(a - {x}, b - {x});
    }
  }

  method CertificateIsValid(votes: VoteSet, block: Hash, vs: ValidatorSet) returns (r: bool)
    requires WellKeyed(votes) && Distinct(vs)
    ensures r == CertificateOk(votes, block, vs)
  {
    if |votes| == 0 {
      return false;
    }
    var filtered := UniqueVoter(votes);
    SameVotersSameSize(votes, filtered);
    if |filtered| != |votes| {
      return false;
    }
    assert filtered.Keys == votes.Keys by {
      SubsetSize(filtered.Keys, votes.Keys);
    }
    if |filtered| > |vs| {
      return false;
    }
    assert filtered == votes;
    var ok := AllValidFor(filtered, block);
    if !ok {
      return false;
    }
    var ids := VoterList(filtered);
    r := HasMajorityVotes(vs, ids);
  }

  lemma KeyCount(keys: set<VoteKey>, ids: set<Address>)
    requires forall k, l :: k in keys && l in keys && k.id == l.id ==> k == l
    requires forall k :: k in keys ==> k.id in ids
    ensures |keys| <= |ids|
  {
    if keys != {} {
      var k :| k in keys;
      KeyCount(keys - {k}, ids - {k.id});
    }
  }

  lemma AddressCount(vs: ValidatorSet)
    ensures |Addresses(vs)| <= |vs|
  {
    if vs == [] {
      assert Addresses(vs) == {};
    } else {
      AddressCount(vs[1..]);
      assert Addresses(vs) == Addresses(vs[1..]) + {vs[0].address} by {
        assert forall i :: 1 <= i < |vs| ==> vs[1..][i-1] == vs[i];
        forall x | x in Addresses(vs[1..]) ensures x in Addresses(vs) {
          var i :| 0 <= i < |vs[1..]| && vs[1..][i].address == x;
          assert vs[i + 1].address == x;
        }
      }
    }
  }

  lemma VotersFitValidators(s: VoteSet, vs: ValidatorSet)
    requires OneVotePerVoter(s) && Voters(s) <= Addresses(vs)
    ensures |s| <= |vs|
  {
    AddressCount(vs);
    assert forall k :: k in s.Keys ==> k.id in Voters(s);
    KeyCount(s.Keys, Addresses(vs));
  }

  /** Every vote in the index entry of `block` is a valid vote for it. */
  ghost predicate IndexEntryOk(s: VoteSet, block: Hash) {
    WellKeyed(s) && forall k :: k in s ==> s[k].block == block && Validate(s[k])
  }

  lemma {:induction false} VotesAccumulate(s: VoteSet, vs: seq<Vote>)
    requires WellKeyed(s)
    ensures WellKeyed(AddVotes(s, vs)) && Voters(s) <= Voters(AddVotes(s, vs))
    ensures forall v :: v in vs ==> Key(v) in AddVotes(s, vs)
    ensures s.Keys <= AddVotes(s, vs).Keys
    decreases vs
  {
    if vs != [] {
      var t := AddVote(s, vs[0]);
      assert forall k :: k in s ==> k in t;
      VotesAccumulate(t, vs[1..]);
      assert Key(vs[0]) in t;
    }
  }

  lemma AddVotesKeepEntry(s: VoteSet, vs: seq<Vote>, block: Hash)
    requires IndexEntryOk(s, block) && forall v :: v in vs ==> v.block == block && Validate(v)
    ensures IndexEntryOk(AddVotes(s, vs), block)
    decreases vs
  {
    if vs != [] {
      AddVotesKeepEntry(AddVote(s, vs[0]), vs[1..], block);
    }
  }

  /** The certificate a proposer attaches for its highest committed block is accepted by every
      receiver: the block had a majority when it was committed (`s`), any number of further
      valid votes may have arrived since (`later`), and the proposer reduces the entry to one
      latest vote per voter and drops non-validators. */
  lemma ProposedCertificateAccepted(s: VoteSet, later: seq<Vote>, unique: VoteSet, block: Hash, vs: ValidatorSet)
    requires IndexEntryOk(s, block) && Majority(vs, Voters(s))
    requires forall v :: v in later ==> v.block == block && Validate(v)
    requires IsUniqueVoter(AddVotes(s, later), unique)
    ensures CertificateOk(FilterSpec(unique, vs), block, vs)
  {
    var now := AddVotes(s, later);
    VotesAccumulate(s, later);
    AddVotesKeepEntry(s, later, block);
    var cert := FilterSpec(unique, vs);
    assert Voters(cert) <= Addresses(vs);
    VotersFitValidators(cert, vs);
    forall x | x in Voters(s) && x in Addresses(vs) ensures x in Voters(cert) {
      assert x in Voters(unique);
      var k :| k in unique && k.id == x;
      assert k in cert;
    }
    MajorityMonotone(vs, Voters(s), Voters(cert));
    if cert == map[] {
      assert Voters(cert) == {};
      NoStake(vs);
      assert false;
    }
  }
}
