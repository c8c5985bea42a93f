/** Stake over whole runs of deposits, withdrawals and returns, and what the ledger pays out
    (core/validator.go, core/guardian.go, ledger/ledger.go). */
module PoolRuns {
  import opened Common
  import opened Validators
  import opened Stakes
  import opened PoolSpec

  datatype Op =
    | DepositOp(source: Address, holder: Address, amount: int, height: nat)
    | WithdrawOp(source: Address, holder: Address, height: nat)
    | ReturnOp(height: nat)

  /** A refused operation changes nothing. */
  ghost function Step(kind: Kind, p: Pool, op: Op): Pool {
    match op
    case DepositOp(s, h, amount, height) => var r := Deposit(kind, p, s, h, amount, height); if r.Done? then r.value else p
    case WithdrawOp(s, h, height) => var r := Withdraw(kind, p, s, h, height); if r.Done? then r.value else p
    case ReturnOp(height) => Kept(kind, Remaining(p, height))
  }

  ghost function PaidIn(kind: Kind, p: Pool, op: Op): nat {
    if op.DepositOp? && Deposit(kind, p, op.source, op.holder, op.amount, op.height).Done? && op.amount >= 0 then op.amount else 0
  }

  ghost function PaidOut(p: Pool, op: Op): seq<Stake> {
    if op.ReturnOp? then Released(p, op.height) else []
  }

  ghost predicate Good(kind: Kind, p: Pool) {
    PoolOk(p) && Arranged(kind, p)
  }

  // ---- one step ----------------------------------------------------------------------

  lemma KeptIs(kind: Kind, p: Pool)
    requires PoolOk(p) && (kind.GuardianPool? ==> ByAddress(p))
    ensures Good(kind, Kept(kind, p)) && PoolTotal(Kept(kind, p)) == PoolTotal(p) && Reordered(p, Kept(kind, p))
  {
    if kind.ValidatorPool? {
      SortRanks(kind.text, p);
      SortOk(kind.text, p);
      SortTotal(kind.text, p);
    }
  }

  lemma InsertedOk(p: Pool, k: nat, h: Holder)
    requires PoolOk(p) && k <= |p| && HolderOk(h) && NoHolder(p, h.holder)
    ensures PoolOk(p[..k] + [h] + p[k..])
  {
    var q := p[..k] + [h] + p[k..];
    forall i | 0 <= i < |q| ensures HolderOk(q[i]) && (i != k ==> q[i].holder != h.holder) {
      assert q[i] == if i < k then p[i] else if i == k then h else p[i-1];
    }
    forall i, j | 0 <= i < j < |q| ensures q[i].holder != q[j].holder {
      assert q[i] == if i < k then p[i] else if i == k then h else p[i-1];
      assert q[j] == if j < k then p[j] else if j == k then h else p[j-1];
    }
  }

  lemma AddedIs(kind: Kind, p: Pool, h: Holder)
    requires Good(kind, p) && HolderOk(h) && NoHolder(p, h.holder)
    ensures Good(kind, Added(kind, p, h)) && PoolTotal(Added(kind, p, h)) == PoolTotal(p) + Amounts(h.stakes)
    ensures forall x :: x in Added(kind, p, h) ==> x == h || x in p
  {
    if kind.ValidatorPool? {
      assert p[..|p|] + [h] + p[|p|..] == p + [h];
      InsertedOk(p, |p|, h);
      PoolSnoc(p, h);
      KeptIs(kind, p + [h]);
      forall x | x in Added(kind, p, h) ensures x == h || x in p {
        SameMembers(p + [h], Added(kind, p, h), x);
      }
    } else {
      var k := Place(p, h.holder);
      InsertedOk(p, k, h);
      PoolTotalInsert(p, k, h);
      InsertedInOrder(p, k, h);
    }
  }

  lemma AroundPlace(p: Pool, k: nat, a: Address)
    requires ByAddress(p) && k == Place(p, a) && NoHolder(p, a)
    ensures (forall i :: 0 <= i < k ==> p[i].holder < a) && (forall i :: k <= i < |p| ==> a < p[i].holder)
  {
    forall i | k <= i < |p| ensures a < p[i].holder {
      assert k < i ==> p[k].holder < p[i].holder;
    }
  }

  lemma InsertedInOrder(p: Pool, k: nat, h: Holder)
    requires ByAddress(p) && k == Place(p, h.holder) && NoHolder(p, h.holder)
    ensures ByAddress(p[..k] + [h] + p[k..])
  {
    var q := p[..k] + [h] + p[k..];
    AroundPlace(p, k, h.holder);
    hide Place;
    forall i, j | 0 <= i < j < |q| ensures q[i].holder < q[j].holder {
      var x, y := if i < k then i else i - 1, if j < k then j else j - 1;
      assert i != k ==> q[i] == p[x];
      assert j != k ==> q[j] == p[y];
    }
  }

  lemma SameMembers(p: Pool, q: Pool, x: Holder)
    requires Reordered(p, q)
    ensures x in p <==> x in q
  {
    assert x in multiset(p) <==> x in multiset(q);
  }

  lemma ReplacedOk(p: Pool, k: nat, stakes: seq<Stake>)
    requires PoolOk(p) && k < |p| && Unique(stakes) && stakes != []
    ensures PoolOk(p[k := p[k].(stakes := stakes)]) && (ByAddress(p) ==> ByAddress(p[k := p[k].(stakes := stakes)]))
  {
  }

  /** A deposit that is accepted adds its amount and nothing else. */
  lemma DepositOk(kind: Kind, p: Pool, source: Address, holder: Address, amount: int, height: nat)
    requires Good(kind, p) && Deposit(kind, p, source, holder, amount, height).Done?
    ensures
      var q := Deposit(kind, p, source, holder, amount, height).value;
      Good(kind, q) && PoolTotal(q) == PoolTotal(p) + amount && amount >= 0
  {
    var k := HolderIndex(p, holder);
    if k == |p| {
      var h := Holder(holder, [NewStake(source, amount)]);
      assert Amounts(h.stakes) == amount;
      AddedIs(kind, p, h);
    } else {
      var s := Deposited(p[k].stakes, source, amount).value;
      DepositAdds(p[k].stakes, source, amount);
      ReplacedOk(p, k, s);
      PoolTotalAt(p, k, p[k].(stakes := s));
      KeptIs(kind, p[k := p[k].(stakes := s)]);
    }
  }

  /** A withdrawal leaves the total as it is. */
  lemma WithdrawOk(kind: Kind, p: Pool, source: Address, holder: Address, height: nat)
    requires Good(kind, p) && Withdraw(kind, p, source, holder, height).Done?
    ensures
      var q := Withdraw(kind, p, source, holder, height).value;
      Good(kind, q) && PoolTotal(q) == PoolTotal(p)
  {
    var k := HolderIndex(p, holder);
    var s := Withdrawn(p[k].stakes, source, height).value;
    WithdrawKeeps(p[k].stakes, source, height);
    ReplacedOk(p, k, s);
    PoolTotalAt(p, k, p[k].(stakes := s));
    KeptIs(kind, p[k := p[k].(stakes := s)]);
  }

  lemma {:induction false} RemainingHolders(p: Pool, height: nat, a: Address)
    requires NoHolder(p, a)
    ensures NoHolder(Remaining(p, height), a)
  {
    if p != [] {
      RemainingHolders(p[..|p|-1], height, a);
    }
  }

  lemma {:induction false} RemainingBelow(p: Pool, height: nat, a: Address)
    requires forall i :: 0 <= i < |p| ==> p[i].holder < a
    ensures forall i :: 0 <= i < |Remaining(p, height)| ==> Remaining(p, height)[i].holder < a
  {
    if p != [] {
      RemainingBelow(p[..|p|-1], height, a);
    }
  }

  lemma SnocOk(p: Pool, h: Holder)
    requires PoolOk(p) && HolderOk(h) && NoHolder(p, h.holder)
    ensures PoolOk(p + [h])
  {
  }

  lemma {:induction false} RemainingOk(p: Pool, height: nat)
    requires PoolOk(p)
    ensures PoolOk(Remaining(p, height)) && (ByAddress(p) ==> ByAddress(Remaining(p, height)))
  {
    if p != [] {
      var front, last := p[..|p|-1], p[|p|-1];
      RemainingOk(front, height);
      RemainingHolders(front, height, last.holder);
      StayingUnique(last.stakes, height);
      if Staying(last.stakes, height) != [] {
        SnocOk(Remaining(front, height), last.(stakes := Staying(last.stakes, height)));
      }
      if ByAddress(p) {
        RemainingBelow(front, height, last.holder);
      }
    }
  }

  lemma StepOk(kind: Kind, p: Pool, op: Op)
    requires Good(kind, p)
    ensures Good(kind, Step(kind, p, op))
    ensures PoolTotal(Step(kind, p, op)) + Amounts(PaidOut(p, op)) == PoolTotal(p) + PaidIn(kind, p, op)
  {
    match op {
      case DepositOp(s, h, amount, height) =>
        if Deposit(kind, p, s, h, amount, height).Done? {
          DepositOk(kind, p, s, h, amount, height);
        }
      case WithdrawOp(s, h, height) =>
        if Withdraw(kind, p, s, h, height).Done? {
          WithdrawOk(kind, p, s, h, height);
        }
      case ReturnOp(height) =>
        RemainingOk(p, height);
        ReturnConserves(p, height);
        KeptIs(kind, Remaining(p, height));
    }
  }

  // ---- whole runs --------------------------------------------------------------------

  ghost predicate IsPoolRun(kind: Kind, run: seq<Pool>, ops: seq<Op>) {
    && |run| == |ops| + 1 && run[0] == []
    && forall i {:trigger ops[i]} :: 0 <= i < |ops| ==> run[i+1] == Step(kind, run[i], ops[i])
  }

  ghost function AllIn(kind: Kind, run: seq<Pool>, ops: seq<Op>, i: nat): nat
    requires i <= |ops| < |run|
  {
    if i == 0 then 0 else AllIn(kind, run, ops, i - 1) + PaidIn(kind, run[i-1], ops[i-1])
  }

  ghost function AllOut(run: seq<Pool>, ops: seq<Op>, i: nat): nat
    requires i <= |ops| < |run|
  {
    if i == 0 then 0 else AllOut(run, ops, i - 1) + Amounts(PaidOut(run[i-1], ops[i-1]))
  }

  /** At every point of every run: holders and sources are unique, the pool is in order, and what
      it holds is what was deposited less what was returned. */
  lemma {:induction false} StakeIsConserved(kind: Kind, run: seq<Pool>, ops: seq<Op>, i: nat)
    requires IsPoolRun(kind, run, ops) && i <= |ops|
    ensures Good(kind, run[i]) && PoolTotal(run[i]) + AllOut(run, ops, i) == AllIn(kind, run, ops, i)
  {
    if i > 0 {
      StakeIsConserved(kind, run, ops, i - 1);
      var op := ops[i-1];
      StepOk(kind, run[i-1], op);
    }
  }

  /** The holder's stake, as it stands in the pool. */
  ghost predicate Holds(p: Pool, a: Address, s: Stake) {
    exists h :: h in p && h.holder == a && s in h.stakes
  }

  lemma KeptHolds(kind: Kind, p: Pool, a: Address, s: Stake)
    requires PoolOk(p) && (kind.GuardianPool? ==> ByAddress(p)) && Holds(Kept(kind, p), a, s)
    ensures Holds(p, a, s)
  {
    KeptIs(kind, p);
    var h :| h in Kept(kind, p) && h.holder == a && s in h.stakes;
    SameMembers(p, Kept(kind, p), h);
  }

  /** A stake that is being withdrawn was so before, or this very step withdrew it. */
  ghost predicate HasCause(p: Pool, op: Op, a: Address, s: Stake) {
    Holds(p, a, s) || (op.WithdrawOp? && op.source == s.source && op.holder == a && s.returnHeight == ReturnHeight(op.height))
  }

  lemma ReplacedHolds(p: Pool, k: nat, stakes: seq<Stake>, a: Address, s: Stake)
    requires k < |p| && Holds(p[k := p[k].(stakes := stakes)], a, s)
    ensures Holds(p, a, s) || (a == p[k].holder && s in stakes)
  {
    var q := p[k := p[k].(stakes := stakes)];
    var h :| h in q && h.holder == a && s in h.stakes;
    var i :| 0 <= i < |q| && q[i] == h;
    if i != k {
      assert p[i] == h && h in p;
    }
  }

  lemma DepositCause(kind: Kind, p: Pool, op: Op, a: Address, s: Stake)
    requires Good(kind, p) && op.DepositOp? && Holds(Step(kind, p, op), a, s) && s.withdrawn
    ensures Holds(p, a, s)
  {
    hide Good, Kept, Holds, Added, Deposited;
    var r := Deposit(kind, p, op.source, op.holder, op.amount, op.height);
    if r.Done? {
      var k := HolderIndex(p, op.holder);
      if k == |p| {
        AddedCause(kind, p, op.holder, op.source, op.amount, a, s);
      } else {
        ToppedCause(kind, p, k, op.source, op.amount, a, s);
      }
    }
  }

  lemma AddedCause(kind: Kind, p: Pool, holder: Address, source: Address, amount: nat, a: Address, s: Stake)
    requires Good(kind, p) && NoHolder(p, holder) && Holds(Added(kind, p, Holder(holder, [NewStake(source, amount)])), a, s) && s.withdrawn
    ensures Holds(p, a, s)
  {
    hide Added, Good, PoolTotal, Amounts;
    var h := Holder(holder, [NewStake(source, amount)]);
    AddedIs(kind, p, h);
    var x :| x in Added(kind, p, h) && x.holder == a && s in x.stakes;
    assert x in p;
  }

  lemma ToppedCause(kind: Kind, p: Pool, k: nat, source: Address, amount: int, a: Address, s: Stake)
    requires Good(kind, p) && k < |p| && Deposited(p[k].stakes, source, amount).Done? && s.withdrawn
    requires Holds(Kept(kind, p[k := p[k].(stakes := Deposited(p[k].stakes, source, amount).value)]), a, s)
    ensures Holds(p, a, s)
  {
    hide Kept, Unique, ByAddress, Ranked;
    var stakes := Deposited(p[k].stakes, source, amount).value;
    DepositAdds(p[k].stakes, source, amount);
    ReplacedOk(p, k, stakes);
    KeptHolds(kind, p[k := p[k].(stakes := stakes)], a, s);
    ReplacedHolds(p, k, stakes, a, s);
    if a == p[k].holder && s in stakes {
      assert s in p[k].stakes && p[k] in p;
    }
  }

  lemma WithdrawCause(kind: Kind, p: Pool, op: Op, a: Address, s: Stake)
    requires Good(kind, p) && op.WithdrawOp? && Holds(Step(kind, p, op), a, s) && s.withdrawn
    ensures HasCause(p, op, a, s)
  {
    var r := Withdraw(kind, p, op.source, op.holder, op.height);
    if r.Done? {
      var k := HolderIndex(p, op.holder);
      var stakes := Withdrawn(p[k].stakes, op.source, op.height).value;
      WithdrawKeeps(p[k].stakes, op.source, op.height);
      ReplacedOk(p, k, stakes);
      KeptHolds(kind, p[k := p[k].(stakes := stakes)], a, s);
      ReplacedHolds(p, k, stakes, a, s);
      if a == p[k].holder && s in stakes && s !in p[k].stakes {
        assert s.source == op.source && s.returnHeight == ReturnHeight(op.height);
      } else if a == p[k].holder && s in p[k].stakes {
        assert p[k] in p;
      }
    }
  }

  lemma {:induction false} RemainingHolds(p: Pool, height: nat, a: Address, s: Stake)
    requires PoolOk(p) && Holds(Remaining(p, height), a, s)
    ensures Holds(p, a, s)
  {
    var h :| h in Remaining(p, height) && h.holder == a && s in h.stakes;
    var front, last := p[..|p|-1], p[|p|-1];
    if h in Remaining(front, height) {
      RemainingHolds(front, height, a, s);
      var x :| x in front && x.holder == a && s in x.stakes;
      assert x in p;
    } else {
      StayingUnique(last.stakes, height);
      assert last in p && s in last.stakes;
    }
  }

  lemma StepCause(kind: Kind, p: Pool, op: Op, a: Address, s: Stake)
    requires Good(kind, p) && Holds(Step(kind, p, op), a, s) && s.withdrawn
    ensures HasCause(p, op, a, s)
  {
    match op {
      case DepositOp(_, _, _, _) => DepositCause(kind, p, op, a, s);
      case WithdrawOp(_, _, _) => WithdrawCause(kind, p, op, a, s);
      case ReturnOp(height) =>
        RemainingOk(p, height);
        KeptHolds(kind, Remaining(p, height), a, s);
        RemainingHolds(p, height, a, s);
    }
  }

  lemma NothingHeld(a: Address, s: Stake)
    ensures !Holds([], a, s)
  {
  }

  /** Operation `j` is the accepted withdrawal that started the clock of the stake: the stake was
      not there as it is before, and has stood so with its holder ever since. */
  ghost predicate Withdrew(kind: Kind, run: seq<Pool>, ops: seq<Op>, j: nat, i: nat, a: Address, s: Stake)
    requires j < i <= |ops| < |run|
  {
    && ops[j].WithdrawOp? && ops[j].source == s.source && ops[j].holder == a && s.returnHeight == ReturnHeight(ops[j].height)
    && Withdraw(kind, run[j], ops[j].source, ops[j].holder, ops[j].height).Done?
    && !Holds(run[j], a, s) && forall k :: j < k <= i ==> Holds(run[k], a, s)
  }

  lemma ChangedIsDone(kind: Kind, p: Pool, op: Op, a: Address, s: Stake)
    requires op.WithdrawOp? && !Holds(p, a, s) && Holds(Step(kind, p, op), a, s)
    ensures Withdraw(kind, p, op.source, op.holder, op.height).Done?
  {
  }

  /** Every stake that is being withdrawn goes back to the one accepted withdrawal that made it so. */
  lemma {:induction false} WithdrawalIsRecorded(kind: Kind, run: seq<Pool>, ops: seq<Op>, i: nat, a: Address, s: Stake) returns (j: nat)
    requires IsPoolRun(kind, run, ops) && i <= |ops| && Holds(run[i], a, s) && s.withdrawn
    ensures j < i && Withdrew(kind, run, ops, j, i, a, s)
  {
    hide Step, Good, Holds;
    NothingHeld(a, s);
    var op := ops[i-1];
    StakeIsConserved(kind, run, ops, i - 1);
    StepCause(kind, run[i-1], op, a, s);
    if Holds(run[i-1], a, s) {
      j := WithdrawalIsRecorded(kind, run, ops, i - 1, a, s);
    } else {
      j := i - 1;
      ChangedIsDone(kind, run[i-1], op, a, s);
    }
  }

  lemma {:induction false} ReleasedIsHeld(p: Pool, height: nat, s: Stake) returns (a: Address)
    requires s in Released(p, height)
    ensures Holds(p, a, s) && Mature(s, height)
  {
    var front, last := p[..|p|-1], p[|p|-1];
    if s in Leaving(last.stakes, height) {
      StakesSplit(last.stakes, height);
      assert s in multiset(Leaving(last.stakes, height));
      assert s in multiset(last.stakes) && last in p;
      a := last.holder;
    } else {
      a := ReleasedIsHeld(front, height, s);
      var x :| x in front && x.holder == a && s in x.stakes;
      assert x in p;
    }
  }

  lemma ReleasedIsGone(kind: Kind, p: Pool, height: nat, a: Address, s: Stake)
    requires Good(kind, p) && Mature(s, height)
    ensures !Holds(Kept(kind, Remaining(p, height)), a, s)
  {
    if Holds(Kept(kind, Remaining(p, height)), a, s) {
      RemainingOk(p, height);
      KeptHolds(kind, Remaining(p, height), a, s);
      ReturnSplits(p, height);
      HeldIsCounted(Remaining(p, height), a, s);
    }
  }

  lemma {:induction false} HeldIsCounted(p: Pool, a: Address, s: Stake)
    requires Holds(p, a, s)
    ensures s in AllStakes(p)
  {
    var h :| h in p && h.holder == a && s in h.stakes;
    if h != p[|p|-1] {
      assert h in p[..|p|-1];
      HeldIsCounted(p[..|p|-1], a, s);
    }
  }

  /** A stake is paid out of the pool in which it has stood since the accepted withdrawal that made
      it so, at or after the height which that set, and is then gone: never within the locking
      period of its withdrawal, unless the period reaches past the range of heights. */
  lemma LockedUntilReturned(kind: Kind, run: seq<Pool>, ops: seq<Op>, i: nat, s: Stake) returns (j: nat, a: Address)
    requires IsPoolRun(kind, run, ops) && i < |ops| < |run| && s in PaidOut(run[i], ops[i])
    ensures j < i && Withdrew(kind, run, ops, j, i, a, s) && Mature(s, ops[i].height) && !Holds(run[i+1], a, s)
    ensures ops[j].height + LOCKING_PERIOD < U64 ==> ops[i].height >= ops[j].height + LOCKING_PERIOD
  {
    hide Released, Holds, Good, Withdraw;
    a := ReleasedIsHeld(run[i], ops[i].height, s);
    j := WithdrawalIsRecorded(kind, run, ops, i, a, s);
    StakeIsConserved(kind, run, ops, i);
    ReleasedIsGone(kind, run[i], ops[i].height, a, s);
  }

  // ---- the ledger --------------------------------------------------------------------

  type Balances = map<Address, nat>

  ghost function Sum(b: Balances): nat
    decreases |b|
  {
    if |b| == 0 then 0 else
      var a := AnyAccount(b);
      b[a] + Sum(b - {a})
  }

  ghost function AnyAccount(b: Balances): (a: Address)
    requires |b| > 0
    ensures a in b && |b - {a}| < |b|
  {
    var a :| a in b;
    assert (b - {a}).Keys == b.Keys - {a};
    a
  }

  lemma SumPick(b: Balances) returns (x: Address)
    requires |b| > 0
    ensures x in b && Sum(b) == b[x] + Sum(b - {x}) && |b - {x}| < |b|
  {
    x := AnyAccount(b);
  }

  lemma {:induction false} SumWithout(b: Balances, a: Address)
    requires a in b
    ensures Sum(b) == b[a] + Sum(b - {a})
    decreases |b|
  {
    hide Sum;
    var x := SumPick(b);
    if x != a {
      SumWithout(b - {x}, a);
      SumWithout(b - {a}, x);
      assert b - {x} - {a} == b - {a} - {x};
    }
  }

  lemma SumCredit(b: Balances, a: Address, amount: nat)
    requires a in b
    ensures Sum(b[a := b[a] + amount]) == Sum(b) + amount
  {
    SumWithout(b, a);
    SumWithout(b[a := b[a] + amount], a);
    assert b[a := b[a] + amount] - {a} == b - {a};
  }

  /** What one source gets back. */
  ghost function DueTo(returned: seq<Stake>, a: Address): nat {
    if returned == [] then 0 else (if returned[0].source == a then returned[0].amount else 0) + DueTo(returned[1..], a)
  }

  /** The ledger's loop over the returned stakes: every source gets exactly what is due to it. A
      missing source account is fatal, and there is no result. */
  method Credit(balances: Balances, returned: seq<Stake>) returns (paid: Option<Balances>)
    ensures paid.Some? <==> forall s :: s in returned ==> s.source in balances
    ensures paid.Some? ==>
      var r := paid.value;
      && r.Keys == balances.Keys && Sum(r) == Sum(balances) + Amounts(returned)
      && forall a :: a in balances ==> r[a] == balances[a] + DueTo(returned, a)
  {
    hide Sum, Amounts, DueTo;
    var r := balances;
    assert returned[0..] == returned;
    for i := 0 to |returned|
      invariant r.Keys == balances.Keys && Sum(r) + Amounts(returned[i..]) == Sum(balances) + Amounts(returned)
      invariant forall a :: a in balances ==> r[a] + DueTo(returned[i..], a) == balances[a] + DueTo(returned, a)
      invariant forall s :: s in returned[..i] ==> s.source in balances
    {
      var s := returned[i];
      if s.source !in balances {
        return None;
      }
      SumCredit(r, s.source, s.amount);
      DueFrom(returned, i);
      r := r[s.source := r[s.source] + s.amount];
    }
    NothingDue();
    assert returned[|returned|..] == [] && returned[..|returned|] == returned;
    paid := Some(r);
  }

  lemma DueFrom(returned: seq<Stake>, i: nat)
    requires i < |returned|
    ensures Amounts(returned[i..]) == returned[i].amount + Amounts(returned[i+1..])
    ensures forall a :: DueTo(returned[i..], a) == (if returned[i].source == a then returned[i].amount else 0) + DueTo(returned[i+1..], a)
  {
    assert returned[i..][1..] == returned[i+1..];
  }

  lemma NothingDue()
    ensures Amounts([]) == 0 && forall a :: DueTo([], a) == 0
  {
  }
}
