/** Stakes and their holders (core/stake.go). */
module Stakes {
  import opened Common
  import opened Validators

  const LOCKING_PERIOD: nat := 28800
  const NO_RETURN: nat := U64 - 1

  datatype Stake = Stake(source: Address, amount: nat, withdrawn: bool, returnHeight: nat)

  datatype Holder = Holder(holder: Address, stakes: seq<Stake>)

  datatype StakeResult<+T> = Done(value: T) | Refused

  function NewStake(source: Address, amount: nat): Stake {
    Stake(source, amount, false, NO_RETURN)
  }

  /** At most one stake per source. */
  ghost predicate Unique(stakes: seq<Stake>) {
    forall i, j :: 0 <= i < j < |stakes| ==> stakes[i].source != stakes[j].source
  }

  ghost predicate HasSource(stakes: seq<Stake>, source: Address) {
    exists i :: 0 <= i < |stakes| && stakes[i].source == source
  }

  function Amounts(stakes: seq<Stake>): nat {
    if stakes == [] then 0 else stakes[0].amount + Amounts(stakes[1..])
  }

  /** What counts as stake: the amounts that are not withdrawn. */
  function ActiveStake(stakes: seq<Stake>): nat {
    if stakes == [] then 0 else (if stakes[0].withdrawn then 0 else stakes[0].amount) + ActiveStake(stakes[1..])
  }

  method TotalStake(h: Holder) returns (total: nat)
    ensures total == ActiveStake(h.stakes)
  {
    total := 0;
    for i := 0 to |h.stakes|
      invariant total + ActiveStake(h.stakes[i..]) == ActiveStake(h.stakes)
    {
      if !h.stakes[i].withdrawn {
        total := total + h.stakes[i].amount;
      }
      assert h.stakes[i..][1..] == h.stakes[i+1..];
    }
  }

  // ---- sums --------------------------------------------------------------------------

  lemma {:induction false} AmountsConcat(a: seq<Stake>, b: seq<Stake>)
    ensures Amounts(a + b) == Amounts(a) + Amounts(b)
    decreases a
  {
    if a == [] {
      assert a + b == b;
    } else {
      assert (a + b)[1..] == a[1..] + b;
      AmountsConcat(a[1..], b);
    }
  }

  lemma AmountsAt(stakes: seq<Stake>, i: nat, s: Stake)
    requires i < |stakes|
    ensures Amounts(stakes[i := s]) == Amounts(stakes) - stakes[i].amount + s.amount
    ensures Amounts(stakes[..i] + stakes[i+1..]) == Amounts(stakes) - stakes[i].amount
  {
    assert stakes == stakes[..i] + ([stakes[i]] + stakes[i+1..]);
    assert stakes[i := s] == stakes[..i] + ([s] + stakes[i+1..]);
    AmountsConcat(stakes[..i], [stakes[i]] + stakes[i+1..]);
    AmountsConcat(stakes[..i], [s] + stakes[i+1..]);
    AmountsConcat([stakes[i]], stakes[i+1..]);
    AmountsConcat([s], stakes[i+1..]);
    AmountsConcat(stakes[..i], stakes[i+1..]);
  }

  lemma {:induction false} ActiveConcat(a: seq<Stake>, b: seq<Stake>)
    ensures ActiveStake(a + b) == ActiveStake(a) + ActiveStake(b)
    decreases a
  {
    if a == [] {
      assert a + b == b;
    } else {
      assert (a + b)[1..] == a[1..] + b;
      ActiveConcat(a[1..], b);
    }
  }

  /** What a stake counts for. */
  function Active(s: Stake): nat {
    if s.withdrawn then 0 else s.amount
  }

  lemma ActiveAt(stakes: seq<Stake>, i: nat, s: Stake)
    requires i < |stakes|
    ensures ActiveStake(stakes[i := s]) == ActiveStake(stakes) - Active(stakes[i]) + Active(s)
  {
    assert stakes == stakes[..i] + ([stakes[i]] + stakes[i+1..]);
    assert stakes[i := s] == stakes[..i] + ([s] + stakes[i+1..]);
    ActiveConcat(stakes[..i], [stakes[i]] + stakes[i+1..]);
    ActiveConcat(stakes[..i], [s] + stakes[i+1..]);
    ActiveConcat([stakes[i]], stakes[i+1..]);
    ActiveConcat([s], stakes[i+1..]);
  }

  // ---- deposits and withdrawals ------------------------------------------------------

  /** Where the source's stake stands, or the end. */
  ghost function IndexOf(stakes: seq<Stake>, source: Address): (k: nat)
    ensures k <= |stakes| && (k < |stakes| ==> stakes[k].source == source)
    ensures forall i :: 0 <= i < k ==> stakes[i].source != source
  {
    if stakes == [] || stakes[0].source == source then 0 else 1 + IndexOf(stakes[1..], source)
  }

  /** Adds to the source's stake or opens one; refused while the stake is being withdrawn. */
  ghost function Deposited(stakes: seq<Stake>, source: Address, amount: int): StakeResult<seq<Stake>> {
    var k := IndexOf(stakes, source);
    if amount < 0 then Refused
    else if k == |stakes| then Done(stakes + [NewStake(source, amount)])
    else if stakes[k].withdrawn then Refused
    else Done(stakes[k := stakes[k].(amount := stakes[k].amount + amount)])
  }

  method DepositStake(h: Holder, source: Address, amount: int) returns (r: StakeResult<Holder>)
    ensures r == match Deposited(h.stakes, source, amount) case Refused => Refused case Done(s) => Done(h.(stakes := s))
  {
    if amount < 0 {
      return Refused;
    }
    for i := 0 to |h.stakes|
      invariant forall j :: 0 <= j < i ==> h.stakes[j].source != source
    {
      if h.stakes[i].source == source {
        if h.stakes[i].withdrawn {
          return Refused;
        }
        return Done(h.(stakes := h.stakes[i := h.stakes[i].(amount := h.stakes[i].amount + amount)]));
      }
    }
    r := Done(h.(stakes := h.stakes + [NewStake(source, amount)]));
  }

  /** Heights are 64 bits wide. */
  function ReturnHeight(height: nat): nat {
    (height + LOCKING_PERIOD) % U64
  }

  ghost function Withdrawn(stakes: seq<Stake>, source: Address, height: nat): StakeResult<seq<Stake>> {
    var k := IndexOf(stakes, source);
    if k == |stakes| || stakes[k].withdrawn then Refused
    else Done(stakes[k := stakes[k].(withdrawn := true, returnHeight := ReturnHeight(height))])
  }

  method WithdrawStake(h: Holder, source: Address, height: nat) returns (r: StakeResult<Holder>)
    ensures r == match Withdrawn(h.stakes, source, height) case Refused => Refused case Done(s) => Done(h.(stakes := s))
  {
    for i := 0 to |h.stakes|
      invariant forall j :: 0 <= j < i ==> h.stakes[j].source != source
    {
      if h.stakes[i].source == source {
        if h.stakes[i].withdrawn {
          return Refused;
        }
        return Done(h.(stakes := h.stakes[i := h.stakes[i].(withdrawn := true, returnHeight := ReturnHeight(height))]));
      }
    }
    r := Refused;
  }

  /** Ready to go back to its source. */
  predicate Mature(s: Stake, height: nat) {
    s.withdrawn && height >= s.returnHeight
  }

  method ReturnStake(h: Holder, source: Address, height: nat) returns (r: StakeResult<(Holder, Stake)>)
    ensures
      var k := IndexOf(h.stakes, source);
      r == if k < |h.stakes| && Mature(h.stakes[k], height)
           then Done((h.(stakes := h.stakes[..k] + h.stakes[k+1..]), h.stakes[k])) else Refused
  {
    for i := 0 to |h.stakes|
      invariant forall j :: 0 <= j < i ==> h.stakes[j].source != source
    {
      if h.stakes[i].source == source {
        if !h.stakes[i].withdrawn || h.stakes[i].returnHeight > height {
          return Refused;
        }
        return Done((h.(stakes := h.stakes[..i] + h.stakes[i+1..]), h.stakes[i]));
      }
    }
    r := Refused;
  }

  // ---- what the operations keep ------------------------------------------------------

  /** A deposit raises the holder's total and what counts of it by its amount, and sources stay
      unique. */
  lemma DepositAdds(stakes: seq<Stake>, source: Address, amount: int)
    requires Unique(stakes) && Deposited(stakes, source, amount).Done?
    ensures
      var after := Deposited(stakes, source, amount).value;
      && Unique(after) && Amounts(after) == Amounts(stakes) + amount && HasSource(after, source) && after != []
      && ActiveStake(after) == ActiveStake(stakes) + amount
  {
    var k := IndexOf(stakes, source);
    var after := Deposited(stakes, source, amount).value;
    if k == |stakes| {
      AmountsConcat(stakes, [NewStake(source, amount)]);
      ActiveConcat(stakes, [NewStake(source, amount)]);
      assert after[|stakes|].source == source;
    } else {
      AmountsAt(stakes, k, after[k]);
      ActiveAt(stakes, k, after[k]);
      assert after[k].source == source;
    }
  }

  /** A withdrawal moves nothing out: it starts the clock, and the stake no longer counts. */
  lemma WithdrawKeeps(stakes: seq<Stake>, source: Address, height: nat)
    requires Unique(stakes) && Withdrawn(stakes, source, height).Done?
    ensures
      var after := Withdrawn(stakes, source, height).value;
      && Unique(after) && Amounts(after) == Amounts(stakes) && |after| == |stakes|
      && var k := IndexOf(stakes, source); k < |stakes| && ActiveStake(after) == ActiveStake(stakes) - stakes[k].amount
  {
    var k := IndexOf(stakes, source);
    AmountsAt(stakes, k, Withdrawn(stakes, source, height).value[k]);
    ActiveAt(stakes, k, Withdrawn(stakes, source, height).value[k]);
  }

  // ---- the lock-up -------------------------------------------------------------------

  /** No stake withdrawn at the height can mature before the locking period is over. */
  ghost predicate LockHolds(height: nat) {
    forall later: nat :: later < U64 && MayReturn(height, later) ==> later >= height + LOCKING_PERIOD
  }

  /** A stake withdrawn at one height may be returned at another. */
  predicate MayReturn(withdrawnAt: nat, height: nat) {
    height >= ReturnHeight(withdrawnAt)
  }

  /** The lock-up holds exactly for the heights from which it does not reach past 64 bits. */
  lemma LockHoldsUnlessItWraps(height: nat)
    requires height < U64
    ensures LockHolds(height) <==> height + LOCKING_PERIOD < U64
  {
    if height + LOCKING_PERIOD >= U64 {
      assert MayReturn(height, height + LOCKING_PERIOD - U64);
    }
  }

  /** Close to the end of the height range a stake can be returned at once. */
  lemma LockCanBeLost(source: Address, amount: nat)
    ensures
      var height := U64 - 1;
      var after := Withdrawn([NewStake(source, amount)], source, height);
      after.Done? && Mature(after.value[0], height) && !LockHolds(height)
  {
    LockHoldsUnlessItWraps(U64 - 1);
  }
}
