/** Stake pools as values: what deposits, withdrawals and returns do to them (core/validator.go,
    core/guardian.go). */
module PoolSpec {
  import opened Validators
  import opened Stakes

  type Pool = seq<Holder>

  /** The place of an address in the order of its checksummed text, in which upper and lower case
      depend on a hash of the address. */
  type Text = Address -> nat

  datatype Kind = ValidatorPool(text: Text) | GuardianPool

  const WEI: nat := 1_000_000_000_000_000_000
  const VALIDATOR_200K: nat := 14526120
  const GUARDIAN_1000: nat := 8411427

  function MinDeposit(kind: Kind, height: nat): nat {
    match kind
    case ValidatorPool(_) => if height >= VALIDATOR_200K then 200_000 * WEI else 2_000_000 * WEI
    case GuardianPool => if height >= GUARDIAN_1000 then 1_000 * WEI else 10_000 * WEI
  }

  // ---- well-formed pools and their totals --------------------------------------------

  /** Holders are unique, and so are the sources of each; nobody is kept without a stake. */
  ghost predicate PoolOk(p: Pool) {
    && (forall i, j :: 0 <= i < j < |p| ==> p[i].holder != p[j].holder)
    && (forall i :: 0 <= i < |p| ==> Unique(p[i].stakes) && p[i].stakes != [])
  }

  function PoolTotal(p: Pool): nat {
    if p == [] then 0 else Amounts(p[0].stakes) + PoolTotal(p[1..])
  }

  lemma {:induction false} PoolTotalConcat(a: Pool, b: Pool)
    ensures PoolTotal(a + b) == PoolTotal(a) + PoolTotal(b)
    decreases a
  {
    if a == [] {
      assert a + b == b;
    } else {
      assert (a + b)[1..] == a[1..] + b;
      PoolTotalConcat(a[1..], b);
    }
  }

  lemma PoolTotalAt(p: Pool, i: nat, h: Holder)
    requires i < |p|
    ensures PoolTotal(p[i := h]) == PoolTotal(p) - Amounts(p[i].stakes) + Amounts(h.stakes)
  {
    hide PoolTotal, Amounts;
    PoolTotalOne(h);
    PoolTotalOne(p[i]);
    assert p == p[..i] + ([p[i]] + p[i+1..]) && p[i := h] == p[..i] + ([h] + p[i+1..]);
    PoolTotalConcat(p[..i], [p[i]] + p[i+1..]);
    PoolTotalConcat(p[..i], [h] + p[i+1..]);
    PoolTotalConcat([p[i]], p[i+1..]);
    PoolTotalConcat([h], p[i+1..]);
  }

  lemma PoolTotalOne(h: Holder)
    ensures PoolTotal([h]) == Amounts(h.stakes)
  {
  }

  /** Splits a holder out of the middle. */
  lemma PoolTotalInsert(p: Pool, i: nat, h: Holder)
    requires i <= |p|
    ensures PoolTotal(p[..i] + [h] + p[i..]) == PoolTotal(p) + Amounts(h.stakes)
  {
    hide PoolTotal, Amounts;
    PoolTotalOne(h);
    assert p == p[..i] + p[i..] && p[..i] + [h] + p[i..] == p[..i] + ([h] + p[i..]);
    PoolTotalConcat(p[..i], p[i..]);
    PoolTotalConcat(p[..i], [h] + p[i..]);
    PoolTotalConcat([h], p[i..]);
  }

  // ---- order -------------------------------------------------------------------------

  /** Validator candidates: higher stake first, then higher text of the address. */
  predicate Before(text: Text, a: Holder, b: Holder) {
    ActiveStake(a.stakes) > ActiveStake(b.stakes) || (ActiveStake(a.stakes) == ActiveStake(b.stakes) && text(a.holder) >= text(b.holder))
  }

  ghost predicate Ranked(text: Text, p: Pool) {
    forall i, j :: 0 <= i < j < |p| ==> Before(text, p[i], p[j])
  }

  /** Guardians: by address, upwards. */
  ghost predicate ByAddress(p: Pool) {
    forall i, j :: 0 <= i < j < |p| ==> p[i].holder < p[j].holder
  }

  ghost predicate Arranged(kind: Kind, p: Pool) {
    if kind.ValidatorPool? then Ranked(kind.text, p) else ByAddress(p)
  }

  /** `q` holds the same candidates as `p`, in some order. */
  ghost predicate Reordered(p: Pool, q: Pool) {
    multiset(p) == multiset(q)
  }

  function Insert(text: Text, h: Holder, p: Pool): Pool {
    if p == [] then [h]
    else if Before(text, h, p[0]) then [h] + p
    else [p[0]] + Insert(text, h, p[1..])
  }

  function SortPool(text: Text, p: Pool): Pool {
    if p == [] then [] else Insert(text, p[0], SortPool(text, p[1..]))
  }

  lemma {:induction false} InsertReorders(text: Text, h: Holder, p: Pool)
    ensures multiset(Insert(text, h, p)) == multiset(p) + multiset{h}
  {
    hide Before;
    if p != [] {
      assert p == [p[0]] + p[1..];
      InsertReorders(text, h, p[1..]);
    }
  }

  lemma MembersOf(p: Pool, q: Pool, h: Holder, i: nat)
    requires multiset(q) == multiset(p) + multiset{h} && i < |q|
    ensures q[i] == h || exists j :: 0 <= j < |p| && p[j] == q[i]
  {
    assert q[i] in multiset(q);
    assert q[i] in multiset(p) || q[i] == h;
  }

  lemma {:induction false} InsertRanks(text: Text, h: Holder, p: Pool)
    requires Ranked(text, p)
    ensures Ranked(text, Insert(text, h, p))
  {
    hide Before;
    if p != [] {
      var rest := Insert(text, h, p[1..]);
      InsertRanks(text, h, p[1..]);
      InsertReorders(text, h, p[1..]);
      if Before(text, h, p[0]) {
        BeforeAll(text, h, p);
      } else {
        BeforeTotal(text, h, p[0]);
        forall i | 0 <= i < |rest| ensures Before(text, p[0], rest[i]) {
          MembersOf(p[1..], rest, h, i);
        }
      }
    }
  }

  lemma BeforeTotal(text: Text, a: Holder, b: Holder)
    ensures Before(text, a, b) || Before(text, b, a)
  {
  }

  lemma BeforeAll(text: Text, h: Holder, p: Pool)
    requires Ranked(text, p) && p != [] && Before(text, h, p[0])
    ensures forall i :: 0 <= i < |p| ==> Before(text, h, p[i])
  {
    forall i | 0 <= i < |p| ensures Before(text, h, p[i]) {
      assert i > 0 ==> Before(text, p[0], p[i]);
    }
  }

  lemma NothingToSort(text: Text)
    ensures Ranked(text, [])
  {
  }

  /** The richer first, and of equals the one with the higher text of the address. */
  ghost predicate RicherFirst(text: Text, p: Pool) {
    forall i, j :: 0 <= i < j < |p| ==>
      && ActiveStake(p[i].stakes) >= ActiveStake(p[j].stakes)
      && (ActiveStake(p[i].stakes) == ActiveStake(p[j].stakes) ==> text(p[i].holder) >= text(p[j].holder))
  }

  lemma RankedIsRicherFirst(text: Text, p: Pool)
    ensures Ranked(text, p) <==> RicherFirst(text, p)
  {
    hide ActiveStake;
    if Ranked(text, p) {
      forall i, j | 0 <= i < j < |p|
        ensures ActiveStake(p[i].stakes) >= ActiveStake(p[j].stakes)
        ensures ActiveStake(p[i].stakes) == ActiveStake(p[j].stakes) ==> text(p[i].holder) >= text(p[j].holder)
      {
        assert Before(text, p[i], p[j]);
      }
    }
  }

  /** Sorting ranks the candidates by stake and address text and loses none. */
  lemma SortRanks(text: Text, p: Pool)
    ensures RicherFirst(text, SortPool(text, p)) && Ranked(text, SortPool(text, p)) && Reordered(p, SortPool(text, p))
  {
    hide SortPool, RicherFirst, Ranked;
    Sorted(text, p);
    RankedIsRicherFirst(text, SortPool(text, p));
  }

  lemma {:induction false} Sorted(text: Text, p: Pool)
    ensures Ranked(text, SortPool(text, p)) && Reordered(p, SortPool(text, p))
  {
    hide Before, Insert, Ranked;
    if p == [] {
      NothingToSort(text);
    } else {
      Sorted(text, p[1..]);
      InsertRanks(text, p[0], SortPool(text, p[1..]));
      InsertReorders(text, p[0], SortPool(text, p[1..]));
      assert p == [p[0]] + p[1..];
    }
  }

  lemma {:induction false} InsertTotal(text: Text, h: Holder, p: Pool)
    ensures PoolTotal(Insert(text, h, p)) == PoolTotal(p) + Amounts(h.stakes)
  {
    if p != [] && !Before(text, h, p[0]) {
      InsertTotal(text, h, p[1..]);
      assert ([p[0]] + Insert(text, h, p[1..]))[1..] == Insert(text, h, p[1..]);
    } else if p != [] {
      assert ([h] + p)[1..] == p;
    }
  }

  lemma {:induction false} SortTotal(text: Text, p: Pool)
    ensures PoolTotal(SortPool(text, p)) == PoolTotal(p)
  {
    if p != [] {
      SortTotal(text, p[1..]);
      InsertTotal(text, p[0], SortPool(text, p[1..]));
    }
  }

  // ---- order and well-formedness -----------------------------------------------------

  ghost predicate NoHolder(p: Pool, a: Address) {
    forall i :: 0 <= i < |p| ==> p[i].holder != a
  }

  ghost predicate HolderOk(h: Holder) {
    Unique(h.stakes) && h.stakes != []
  }

  lemma ConsOk(h: Holder, p: Pool)
    ensures PoolOk([h] + p) <==> HolderOk(h) && NoHolder(p, h.holder) && PoolOk(p)
  {
    hide PoolOk, NoHolder, Unique;
    if PoolOk([h] + p) {
      UnCons(h, p);
    } else if HolderOk(h) && NoHolder(p, h.holder) && PoolOk(p) {
      Cons(h, p);
    }
  }

  lemma UnCons(h: Holder, p: Pool)
    requires PoolOk([h] + p)
    ensures HolderOk(h) && NoHolder(p, h.holder) && PoolOk(p)
  {
    hide Unique;
    var q := [h] + p;
    assert q[0] == h && forall i :: 0 <= i < |p| ==> q[i+1] == p[i];
    forall i | 0 <= i < |p| ensures p[i].holder != h.holder && HolderOk(p[i]) {
      assert q[0].holder != q[i+1].holder;
    }
    forall i, j | 0 <= i < j < |p| ensures p[i].holder != p[j].holder {
      assert q[i+1].holder != q[j+1].holder;
    }
  }

  lemma Cons(h: Holder, p: Pool)
    requires HolderOk(h) && NoHolder(p, h.holder) && PoolOk(p)
    ensures PoolOk([h] + p)
  {
    hide Unique;
    var q := [h] + p;
    assert q[0] == h && forall i :: 0 < i < |q| ==> q[i] == p[i-1];
  }

  lemma {:induction false} InsertOk(text: Text, h: Holder, p: Pool)
    requires PoolOk(p) && HolderOk(h) && NoHolder(p, h.holder)
    ensures PoolOk(Insert(text, h, p))
    ensures forall a :: a != h.holder && NoHolder(p, a) ==> NoHolder(Insert(text, h, p), a)
  {
    hide Before;
    if p == [] || Before(text, h, p[0]) {
      ConsOk(h, p);
    } else {
      assert p == [p[0]] + p[1..];
      ConsOk(p[0], p[1..]);
      InsertOk(text, h, p[1..]);
      ConsOk(p[0], Insert(text, h, p[1..]));
      forall a | a != h.holder && NoHolder(p, a) ensures NoHolder(Insert(text, h, p), a) {
        assert NoHolder(p[1..], a) && p[0].holder != a;
      }
    }
  }

  lemma {:induction false} SortOk(text: Text, p: Pool)
    requires PoolOk(p)
    ensures PoolOk(SortPool(text, p)) && forall a :: NoHolder(p, a) ==> NoHolder(SortPool(text, p), a)
  {
    if p != [] {
      assert p == [p[0]] + p[1..];
      ConsOk(p[0], p[1..]);
      SortOk(text, p[1..]);
      InsertOk(text, p[0], SortPool(text, p[1..]));
    }
  }

  // ---- the operations ----------------------------------------------------------------

  ghost function HolderIndex(p: Pool, a: Address): (k: nat)
    ensures k <= |p| && (k < |p| ==> p[k].holder == a) && forall i :: 0 <= i < k ==> p[i].holder != a
  {
    if p == [] || p[0].holder == a then 0 else 1 + HolderIndex(p[1..], a)
  }

  /** Where an address belongs among the guardians. */
  ghost function Place(p: Pool, a: Address): (k: nat)
    ensures k <= |p| && (forall i :: 0 <= i < k ==> p[i].holder < a) && (k < |p| ==> p[k].holder >= a)
  {
    if p == [] || p[0].holder >= a then 0 else 1 + Place(p[1..], a)
  }

  ghost function Kept(kind: Kind, p: Pool): Pool {
    if kind.ValidatorPool? then SortPool(kind.text, p) else p
  }

  ghost function Added(kind: Kind, p: Pool, h: Holder): Pool {
    if kind.ValidatorPool? then SortPool(kind.text, p + [h]) else p[..Place(p, h.holder)] + [h] + p[Place(p, h.holder)..]
  }

  ghost function Deposit(kind: Kind, p: Pool, source: Address, holder: Address, amount: int, height: nat): StakeResult<Pool> {
    var k := HolderIndex(p, holder);
    if amount < MinDeposit(kind, height) then Refused
    else if k == |p| then Done(Added(kind, p, Holder(holder, [NewStake(source, amount)])))
    else match Deposited(p[k].stakes, source, amount)
      case Refused => Refused
      case Done(s) => Done(Kept(kind, p[k := p[k].(stakes := s)]))
  }

  ghost function Withdraw(kind: Kind, p: Pool, source: Address, holder: Address, height: nat): StakeResult<Pool> {
    var k := HolderIndex(p, holder);
    if k == |p| then Refused
    else match Withdrawn(p[k].stakes, source, height)
      case Refused => Refused
      case Done(s) => Done(Kept(kind, p[k := p[k].(stakes := s)]))
  }

  /** The stakes that stay. */
  ghost function Staying(stakes: seq<Stake>, height: nat): seq<Stake> {
    if stakes == [] then [] else
      var front, last := Staying(stakes[..|stakes|-1], height), stakes[|stakes|-1];
      if Mature(last, height) then front else front + [last]
  }

  /** The stakes that go back to their sources, last one first. */
  ghost function Leaving(stakes: seq<Stake>, height: nat): seq<Stake> {
    if stakes == [] then [] else
      var rest, last := Leaving(stakes[..|stakes|-1], height), stakes[|stakes|-1];
      if Mature(last, height) then [last] + rest else rest
  }

  ghost function Remaining(p: Pool, height: nat): Pool {
    if p == [] then [] else
      var front, last := Remaining(p[..|p|-1], height), p[|p|-1];
      var s := Staying(last.stakes, height);
      if s == [] then front else front + [last.(stakes := s)]
  }

  ghost function Released(p: Pool, height: nat): seq<Stake> {
    if p == [] then [] else Leaving(p[|p|-1].stakes, height) + Released(p[..|p|-1], height)
  }

  // ---- exactly the mature stakes -----------------------------------------------------

  lemma {:induction false} StakesSplit(stakes: seq<Stake>, height: nat)
    ensures multiset(stakes) == multiset(Staying(stakes, height)) + multiset(Leaving(stakes, height))
    ensures forall s :: s in Leaving(stakes, height) ==> Mature(s, height)
    ensures forall s :: s in Staying(stakes, height) ==> !Mature(s, height)
  {
    if stakes != [] {
      var front, last := stakes[..|stakes|-1], stakes[|stakes|-1];
      StakesSplit(front, height);
      assert stakes == front + [last];
    }
  }

  lemma {:induction false} AmountsSplit(stakes: seq<Stake>, height: nat)
    ensures Amounts(stakes) == Amounts(Staying(stakes, height)) + Amounts(Leaving(stakes, height))
  {
    if stakes != [] {
      var front, last := stakes[..|stakes|-1], stakes[|stakes|-1];
      AmountsSplit(front, height);
      assert stakes == front + [last];
      AmountsSnoc(front, last);
      AmountsSnoc(Staying(front, height), last);
      AmountsConcat([last], Leaving(front, height));
      AmountsSnoc([], last);
    }
  }

  lemma AmountsSnoc(stakes: seq<Stake>, s: Stake)
    ensures Amounts(stakes + [s]) == Amounts(stakes) + s.amount && ([] + [s] == [s])
  {
    AmountsConcat(stakes, [s]);
  }

  lemma PoolSnoc(p: Pool, h: Holder)
    ensures PoolTotal(p + [h]) == PoolTotal(p) + Amounts(h.stakes)
  {
    PoolTotalConcat(p, [h]);
  }

  /** All stakes of a pool, holder by holder. */
  ghost function AllStakes(p: Pool): multiset<Stake> {
    if p == [] then multiset{} else AllStakes(p[..|p|-1]) + multiset(p[|p|-1].stakes)
  }

  /** A return hands out exactly the mature stakes, each once, and keeps exactly the others. */
  lemma {:induction false} ReturnSplits(p: Pool, height: nat)
    ensures AllStakes(p) == AllStakes(Remaining(p, height)) + multiset(Released(p, height))
    ensures forall s :: s in Released(p, height) ==> Mature(s, height)
    ensures forall s :: s in AllStakes(Remaining(p, height)) ==> !Mature(s, height)
  {
    if p != [] {
      var front, last := p[..|p|-1], p[|p|-1];
      ReturnSplits(front, height);
      StakesSplit(last.stakes, height);
      var s := Staying(last.stakes, height);
      if s != [] {
        var r := Remaining(front, height) + [last.(stakes := s)];
        assert r[..|r|-1] == Remaining(front, height);
      }
    }
  }

  lemma NothingPooled()
    ensures PoolTotal([]) == 0 && Amounts([]) == 0
  {
  }

  lemma {:induction false} ReturnConserves(p: Pool, height: nat)
    ensures PoolTotal(p) == PoolTotal(Remaining(p, height)) + Amounts(Released(p, height))
  {
    hide Amounts, PoolTotal, Leaving, Staying;
    NothingPooled();
    if p != [] {
      var front, last := p[..|p|-1], p[|p|-1];
      ReturnConserves(front, height);
      AmountsSplit(last.stakes, height);
      assert p == front + [last];
      PoolSnoc(front, last);
      AmountsConcat(Leaving(last.stakes, height), Released(front, height));
      PoolSnoc(Remaining(front, height), last.(stakes := Staying(last.stakes, height)));
    }
  }

  lemma {:induction false} StayingUnique(stakes: seq<Stake>, height: nat)
    requires Unique(stakes)
    ensures Unique(Staying(stakes, height)) && forall s :: s in Staying(stakes, height) ==> s in stakes
  {
    if stakes != [] {
      var front := stakes[..|stakes|-1];
      StayingUnique(front, height);
      forall s | s in Staying(front, height) ensures s in stakes && s.source != stakes[|stakes|-1].source {
        assert s in front;
        var i :| 0 <= i < |front| && front[i] == s;
        assert stakes[i] == s;
      }
    }
  }
}
