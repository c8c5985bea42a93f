/** Validator sets and stake majorities (core/validator.go). */
module Validators {
  import opened Common
  type Address = nat

  const EMPTY_ADDRESS: Address := 0

  datatype Validator = Validator(address: Address, stake: nat)

  type ValidatorSet = seq<Validator>

  /** The pool hands out one validator per holder. */
  ghost predicate Distinct(vs: ValidatorSet) {
    forall i, j :: 0 <= i < j < |vs| ==> vs[i].address != vs[j].address
  }

  function SumStake(vs: ValidatorSet): nat {
    if vs == [] then 0 else vs[0].stake + SumStake(vs[1..])
  }

  /** Total stake of the validators whose address is in `who`. */
  ghost function StakeOf(vs: ValidatorSet, who: set<Address>): nat {
    if vs == [] then 0 else (if vs[0].address in who then vs[0].stake else 0) + StakeOf(vs[1..], who)
  }

  ghost function Addresses(vs: ValidatorSet): set<Address> {
    set i | 0 <= i < |vs| :: vs[i].address
  }

  /** More than two thirds of the stake, without rounding. */
  ghost predicate Majority(vs: ValidatorSet, who: set<Address>) {
    StakeOf(vs, who) * 3 > SumStake(vs) * 2
  }

  function GetValidator(vs: ValidatorSet, id: Address): (r: Option<Validator>)
    ensures r.Some? ==> r.value in vs && r.value.address == id
    ensures r.None? ==> forall v :: v in vs ==> v.address != id
  {
    if vs == [] then None
    else if vs[0].address == id then Some(vs[0])
    else GetValidator(vs[1..], id)
  }

  function StakeById(vs: ValidatorSet, id: Address): nat {
    var v := GetValidator(vs, id);
    if v.Some? then v.value.stake else 0
  }

  /** What the vote-counting loop adds up: once per vote, so a repeated voter is counted again. */
  function VotedStake(vs: ValidatorSet, ids: seq<Address>): nat {
    if ids == [] then 0 else VotedStake(vs, ids[..|ids|-1]) + StakeById(vs, ids[|ids|-1])
  }

  ghost predicate NoRepeats<T>(s: seq<T>) {
    forall i, j :: 0 <= i < j < |s| ==> s[i] != s[j]
  }

  ghost function Elements<T>(s: seq<T>): set<T> {
    set i | 0 <= i < |s| :: s[i]
  }

  method TotalStake(vs: ValidatorSet) returns (total: nat)
    ensures total == SumStake(vs)
  {
    total := 0;
    var i := 0;
    while i < |vs|
      invariant 0 <= i <= |vs|
      invariant total + SumStake(vs[i..]) == SumStake(vs)
    {
      total := total + vs[i].stake;
      i := i + 1;
    }
  }

  /** The majority test on a vote list. With one vote per voter it is the two-thirds test
      on the set of voters; the list may come in any order. */
  method HasMajorityVotes(vs: ValidatorSet, ids: seq<Address>) returns (r: bool)
    ensures r == (VotedStake(vs, ids) * 3 > SumStake(vs) * 2)
    ensures Distinct(vs) && NoRepeats(ids) ==> r == Majority(vs, Elements(ids))
  {
    var voted := 0;
    var i := 0;
    while i < |ids|
      invariant 0 <= i <= |ids|
      invariant voted == VotedStake(vs, ids[..i])
    {
      var v := GetValidator(vs, ids[i]);
      assert ids[..i+1][..i] == ids[..i];
      if v.Some? {
        voted := voted + v.value.stake;
      }
      i := i + 1;
    }
    assert ids[..i] == ids;
    var total := TotalStake(vs);
    r := voted * 3 > total * 2;
    if Distinct(vs) && NoRepeats(ids) {
      VotedStakeIsStakeOf(vs, ids);
    }
  }

  lemma StakeOfWithout(vs: ValidatorSet, who: set<Address>, id: Address)
    requires forall i :: 0 <= i < |vs| ==> vs[i].address != id
    ensures StakeOf(vs, who + {id}) == StakeOf(vs, who)
  {
    if vs != [] {
      StakeOfWithout(vs[1..], who, id);
    }
  }

  lemma StakeOfInsert(vs: ValidatorSet, who: set<Address>, id: Address)
    requires Distinct(vs) && id !in who
    ensures StakeOf(vs, who + {id}) == StakeOf(vs, who) + StakeById(vs, id)
  {
    if vs != [] {
      if vs[0].address == id {
        StakeOfWithout(vs[1..], who, id);
      } else {
        StakeOfInsert(vs[1..], who, id);
      }
    }
  }

  lemma {:induction false} VotedStakeIsStakeOf(vs: ValidatorSet, ids: seq<Address>)
    requires Distinct(vs) && NoRepeats(ids)
    ensures VotedStake(vs, ids) == StakeOf(vs, Elements(ids))
  {
    if ids == [] {
      assert Elements(ids) == {};
      NoStake(vs);
    } else {
      var front, id := ids[..|ids|-1], ids[|ids|-1];
      VotedStakeIsStakeOf(vs, front);
      assert Elements(ids) == Elements(front) + {id};
      StakeOfInsert(vs, Elements(front), id);
    }
  }

  lemma NoStake(vs: ValidatorSet)
    ensures StakeOf(vs, {}) == 0
  {
  }

  lemma StakeOfMonotone(vs: ValidatorSet, a: set<Address>, b: set<Address>)
    requires forall x :: x in a && x in Addresses(vs) ==> x in b
    ensures StakeOf(vs, a) <= StakeOf(vs, b) <= SumStake(vs)
  {
    if vs != [] {
      assert forall x :: x in Addresses(vs[1..]) ==> x in Addresses(vs) by {
        forall x | x in Addresses(vs[1..]) ensures x in Addresses(vs) {
          var i :| 0 <= i < |vs[1..]| && vs[1..][i].address == x;
          assert vs[i + 1].address == x;
        }
      }
      assert vs[0].address in Addresses(vs);
      StakeOfMonotone(vs[1..], a, b);
    }
  }

  lemma MajorityMonotone(vs: ValidatorSet, a: set<Address>, b: set<Address>)
    requires Majority(vs, a) && forall x :: x in a && x in Addresses(vs) ==> x in b
    ensures Majority(vs, b)
  {
    StakeOfMonotone(vs, a, b);
  }

  lemma {:induction false} StakeOverlap(vs: ValidatorSet, a: set<Address>, b: set<Address>)
    ensures StakeOf(vs, a) + StakeOf(vs, b) <= SumStake(vs) + StakeOf(vs, a * b)
  {
    if vs != [] {
      StakeOverlap(vs[1..], a, b);
    }
  }

  lemma StakeSplit(vs: ValidatorSet, a: set<Address>, honest: set<Address>)
    ensures StakeOf(vs, a) <= StakeOf(vs, a * honest) + StakeOf(vs, Addresses(vs) - honest)
  {
    StakeSplitWithin(vs, a, honest, Addresses(vs));
  }

  lemma StakeSplitWithin(vs: ValidatorSet, a: set<Address>, honest: set<Address>, all: set<Address>)
    requires forall i :: 0 <= i < |vs| ==> vs[i].address in all
    ensures StakeOf(vs, a) <= StakeOf(vs, a * honest) + StakeOf(vs, all - honest)
  {
    if vs != [] {
      StakeSplitWithin(vs[1..], a, honest, all);
    }
  }

  lemma StakeHasMember(vs: ValidatorSet, who: set<Address>) returns (x: Address)
    requires StakeOf(vs, who) > 0
    ensures x in who && x in Addresses(vs)
  {
    if vs[0].address in who {
      x := vs[0].address;
      assert vs[0].address in Addresses(vs);
    } else {
      x := StakeHasMember(vs[1..], who);
      var i :| 0 <= i < |vs[1..]| && vs[1..][i].address == x;
      assert vs[i + 1].address == x;
    }
  }

  /** The validators outside `honest` hold at most one third of the stake. */
  ghost predicate FaultBound(vs: ValidatorSet, honest: set<Address>) {
    StakeOf(vs, Addresses(vs) - honest) * 3 <= SumStake(vs)
  }

  /** Any two majorities share an honest validator. */
  lemma QuorumIntersection(vs: ValidatorSet, a: set<Address>, b: set<Address>, honest: set<Address>)
    returns (x: Address)
    requires Majority(vs, a) && Majority(vs, b) && FaultBound(vs, honest)
    ensures x in a && x in b && x in honest && x in Addresses(vs)
  {
    StakeOverlap(vs, a, b);
    StakeSplit(vs, a * b, honest);
    x := StakeHasMember(vs, a * b * honest);
  }

  /** Beyond a shared member: the honest part of a majority holds more than one third. */
  lemma HonestThird(vs: ValidatorSet, a: set<Address>, honest: set<Address>)
    requires Majority(vs, a) && FaultBound(vs, honest)
    ensures StakeOf(vs, a * honest) * 3 > SumStake(vs)
  {
    StakeSplit(vs, a, honest);
  }
}
