/** Who has staked what with whom, and what comes back of it (core/validator.go, core/guardian.go,
    core/stake.go). */
module PoolBooks {
  import opened Validators
  import opened Stakes
  import opened PoolSpec
  import opened PoolRuns

  /** All that the source has staked with one holder. */
  ghost function FromSource(stakes: seq<Stake>, source: Address): nat {
    if stakes == [] then 0 else (if stakes[0].source == source then stakes[0].amount else 0) + FromSource(stakes[1..], source)
  }

  /** All that `source` has staked with `holder`. */
  ghost function Booked(p: Pool, holder: Address, source: Address): nat {
    if p == [] then 0 else (if p[0].holder == holder then FromSource(p[0].stakes, source) else 0) + Booked(p[1..], holder, source)
  }

  ghost predicate HasStake(p: Pool, holder: Address, source: Address) {
    exists x :: Holds(p, holder, x) && x.source == source
  }

  /** The stake of `source` with `holder` is on its way out. */
  ghost predicate BeingWithdrawn(p: Pool, holder: Address, source: Address) {
    exists x :: Holds(p, holder, x) && x.source == source && x.withdrawn
  }

  /** Below two million for validators, two hundred thousand from height 14526120 on, and below ten
      thousand for guardians, one thousand from height 8411427 on. */
  ghost predicate TooSmall(kind: Kind, amount: int, height: nat) {
    match kind
    case ValidatorPool(_) =>
      amount < 200_000_000_000_000_000_000_000 || (height < 14526120 && amount < 2_000_000_000_000_000_000_000_000)
    case GuardianPool =>
      amount < 1_000_000_000_000_000_000_000 || (height < 8411427 && amount < 10_000_000_000_000_000_000_000)
  }

  // ---- a pool as a book of stakes ----------------------------------------------------

  /** One stake per holder and source. */
  lemma OneStake(p: Pool, holder: Address, x: Stake, y: Stake)
    requires PoolOk(p) && Holds(p, holder, x) && Holds(p, holder, y) && x.source == y.source
    ensures x == y
  {
    var g :| g in p && g.holder == holder && x in g.stakes;
    var h :| h in p && h.holder == holder && y in h.stakes;
    var i :| 0 <= i < |p| && p[i] == g;
    var j :| 0 <= j < |p| && p[j] == h;
    assert i == j;
    assert Unique(g.stakes);
  }

  lemma {:induction false} FromSourceIs(stakes: seq<Stake>, source: Address)
    requires Unique(stakes)
    ensures FromSource(stakes, source) == var k := IndexOf(stakes, source); if k < |stakes| then stakes[k].amount else 0
  {
    if stakes != [] {
      FromSourceIs(stakes[1..], source);
      if stakes[0].source == source {
        assert IndexOf(stakes[1..], source) == |stakes[1..]|;
      }
    }
  }

  lemma {:induction false} BookedIs(p: Pool, holder: Address, source: Address)
    requires PoolOk(p)
    ensures Booked(p, holder, source) == var k := HolderIndex(p, holder); if k < |p| then FromSource(p[k].stakes, source) else 0
  {
    if p != [] {
      assert p == [p[0]] + p[1..];
      ConsOk(p[0], p[1..]);
      BookedIs(p[1..], holder, source);
      if p[0].holder == holder {
        assert HolderIndex(p[1..], holder) == |p[1..]|;
      }
    }
  }

  /** The stake of the pair is what is booked for it. */
  lemma BookedStake(p: Pool, holder: Address, x: Stake)
    requires PoolOk(p) && Holds(p, holder, x)
    ensures Booked(p, holder, x.source) == x.amount
  {
    var h :| h in p && h.holder == holder && x in h.stakes;
    var i :| 0 <= i < |p| && p[i] == h;
    assert HolderIndex(p, holder) == i;
    var j :| 0 <= j < |h.stakes| && h.stakes[j] == x;
    assert IndexOf(h.stakes, x.source) == j;
    BookedIs(p, holder, x.source);
    FromSourceIs(h.stakes, x.source);
  }

  lemma NothingBooked(p: Pool, holder: Address, source: Address)
    requires PoolOk(p) && !HasStake(p, holder, source)
    ensures Booked(p, holder, source) == 0
  {
    BookedIs(p, holder, source);
    var k := HolderIndex(p, holder);
    if k < |p| {
      FromSourceIs(p[k].stakes, source);
      var j := IndexOf(p[k].stakes, source);
      if j < |p[k].stakes| {
        assert Holds(p, holder, p[k].stakes[j]);
      }
    }
  }

  /** The same stakes with the same holders. */
  ghost predicate SameStakes(p: Pool, q: Pool, holder: Address, source: Address) {
    forall x: Stake :: x.source == source ==> (Holds(p, holder, x) <==> Holds(q, holder, x))
  }

  lemma SameStakesSameBooks(p: Pool, q: Pool, holder: Address, source: Address)
    requires PoolOk(p) && PoolOk(q) && SameStakes(p, q, holder, source)
    ensures Booked(p, holder, source) == Booked(q, holder, source)
    ensures BeingWithdrawn(p, holder, source) == BeingWithdrawn(q, holder, source) && HasStake(p, holder, source) == HasStake(q, holder, source)
  {
    hide PoolOk, Holds, Booked;
    if x :| Holds(p, holder, x) && x.source == source {
      BookedStake(p, holder, x);
      BookedStake(q, holder, x);
    } else {
      NothingBooked(p, holder, source);
      NothingBooked(q, holder, source);
    }
  }

  // ---- what the operations do to the stakes ------------------------------------------

  lemma KeptSame(kind: Kind, p: Pool, a: Address, x: Stake)
    requires PoolOk(p) && (kind.GuardianPool? ==> ByAddress(p))
    ensures Holds(Kept(kind, p), a, x) <==> Holds(p, a, x)
  {
    KeptIs(kind, p);
    if Holds(p, a, x) {
      var h :| h in p && h.holder == a && x in h.stakes;
      SameMembers(p, Kept(kind, p), h);
    }
    if Holds(Kept(kind, p), a, x) {
      KeptHolds(kind, p, a, x);
    }
  }

  lemma ReplacedSame(p: Pool, k: nat, stakes: seq<Stake>, a: Address, x: Stake)
    requires PoolOk(p) && k < |p|
    ensures Holds(p[k := p[k].(stakes := stakes)], a, x) <==> if a == p[k].holder then x in stakes else Holds(p, a, x)
  {
    var q := p[k := p[k].(stakes := stakes)];
    assert q[k] in q;
    if Holds(q, a, x) {
      var h :| h in q && h.holder == a && x in h.stakes;
      var i :| 0 <= i < |q| && q[i] == h;
      assert i != k ==> p[i] in p;
    }
    if a != p[k].holder && Holds(p, a, x) {
      var h :| h in p && h.holder == a && x in h.stakes;
      var i :| 0 <= i < |p| && p[i] == h;
      assert q[i] in q;
    }
  }

  lemma AddedSame(kind: Kind, p: Pool, h: Holder, a: Address, x: Stake)
    requires Good(kind, p) && HolderOk(h) && NoHolder(p, h.holder)
    ensures Holds(Added(kind, p, h), a, x) <==> Holds(p, a, x) || (a == h.holder && x in h.stakes)
  {
    hide PoolTotal;
    AddedIs(kind, p, h);
    var q := Added(kind, p, h);
    AddedKeeps(kind, p, h);
    if Holds(p, a, x) {
      var g :| g in p && g.holder == a && x in g.stakes;
      assert g in q;
    }
  }

  lemma AddedKeeps(kind: Kind, p: Pool, h: Holder)
    ensures h in Added(kind, p, h) && forall g :: g in p ==> g in Added(kind, p, h)
  {
    if kind.ValidatorPool? {
      SortRanks(kind.text, p + [h]);
      forall g | g in p + [h] ensures g in Added(kind, p, h) {
        SameMembers(p + [h], Added(kind, p, h), g);
      }
      assert h in p + [h] && forall g :: g in p ==> g in p + [h];
    } else {
      var k := Place(p, h.holder);
      assert p == p[..k] + p[k..];
    }
  }

  lemma DepositedIs(stakes: seq<Stake>, source: Address, amount: int, x: Stake)
    requires Unique(stakes) && Deposited(stakes, source, amount).Done?
    ensures
      var after, k := Deposited(stakes, source, amount).value, IndexOf(stakes, source);
      x in after <==>
        if x.source != source then x in stakes
        else if k < |stakes| then x == stakes[k].(amount := stakes[k].amount + amount) && !x.withdrawn
        else x == Stake(source, amount, false, NO_RETURN)
  {
    var after, k := Deposited(stakes, source, amount).value, IndexOf(stakes, source);
    if k < |stakes| {
      assert after[k] in after && forall i :: 0 <= i < |stakes| && i != k ==> after[i] == stakes[i];
      if x in stakes && x.source != source {
        var i :| 0 <= i < |stakes| && stakes[i] == x;
        assert after[i] == x;
      }
      if x in after && x.source == source {
        var i :| 0 <= i < |after| && after[i] == x;
        assert i == k;
      }
    }
  }

  lemma PairAt(p: Pool, holder: Address, source: Address)
    requires PoolOk(p)
    ensures
      var k := HolderIndex(p, holder);
      if k == |p| then NoHolder(p, holder) && !HasStake(p, holder, source)
      else
        var j := IndexOf(p[k].stakes, source);
        if j == |p[k].stakes| then !HasStake(p, holder, source)
        else Holds(p, holder, p[k].stakes[j]) && BeingWithdrawn(p, holder, source) == p[k].stakes[j].withdrawn
  {
    var k := HolderIndex(p, holder);
    if k < |p| {
      var j := IndexOf(p[k].stakes, source);
      if j < |p[k].stakes| {
        var y := p[k].stakes[j];
        assert Holds(p, holder, y);
        forall x | Holds(p, holder, x) && x.source == source ensures x == y {
          OneStake(p, holder, x, y);
        }
      }
    }
  }

  /** A deposit is refused exactly if it is too small or the pair's stake is being withdrawn. */
  lemma DepositRefused(kind: Kind, p: Pool, source: Address, holder: Address, amount: int, height: nat)
    requires Good(kind, p)
    ensures Deposit(kind, p, source, holder, amount, height).Refused? <==> TooSmall(kind, amount, height) || BeingWithdrawn(p, holder, source)
  {
    hide Holds, Kept, Added, BeingWithdrawn, HasStake;
    PairAt(p, holder, source);
    NoStakeNotWithdrawn(p, holder, source);
    assert TooSmall(kind, amount, height) <==> amount < MinDeposit(kind, height);
  }

  lemma NoStakeNotWithdrawn(p: Pool, holder: Address, source: Address)
    ensures BeingWithdrawn(p, holder, source) ==> HasStake(p, holder, source)
  {
  }

  /** What an accepted deposit makes of the pool's stakes, where it opens a holder. */
  lemma OpenedStakes(kind: Kind, p: Pool, source: Address, holder: Address, amount: nat, a: Address, x: Stake)
    requires Good(kind, p) && NoHolder(p, holder)
    ensures
      var q := Added(kind, p, Holder(holder, [NewStake(source, amount)]));
      Holds(q, a, x) <==> if a == holder && x.source == source then x == NewStake(source, amount) else Holds(p, a, x)
  {
    hide Good, Added;
    AddedSame(kind, p, Holder(holder, [NewStake(source, amount)]), a, x);
  }

  lemma ToppedStakes(kind: Kind, p: Pool, k: nat, stakes: seq<Stake>, a: Address, x: Stake)
    requires Good(kind, p) && k < |p| && Unique(stakes) && stakes != []
    ensures
      var q := Kept(kind, p[k := p[k].(stakes := stakes)]);
      Holds(q, a, x) <==> if a == p[k].holder then x in stakes else Holds(p, a, x)
  {
    hide Kept, Holds;
    ReplacedOk(p, k, stakes);
    KeptSame(kind, p[k := p[k].(stakes := stakes)], a, x);
    ReplacedSame(p, k, stakes, a, x);
  }

  lemma OfHolder(p: Pool, k: nat, x: Stake)
    requires PoolOk(p) && k < |p|
    ensures Holds(p, p[k].holder, x) <==> x in p[k].stakes
  {
    assert p[k] in p;
  }

  /** The pair's one stake. */
  ghost predicate IsStake(p: Pool, holder: Address, source: Address, x: Stake) {
    x.source == source && forall y: Stake :: y.source == source ==> (Holds(p, holder, y) <==> y == x)
  }

  ghost predicate OthersSame(p: Pool, q: Pool, holder: Address, source: Address) {
    forall a, b :: a != holder || b != source ==> SameStakes(p, q, a, b)
  }

  lemma DepositStakes(kind: Kind, p: Pool, source: Address, holder: Address, amount: int, height: nat) returns (x: Stake)
    requires Good(kind, p) && Deposit(kind, p, source, holder, amount, height).Done?
    ensures
      var q := Deposit(kind, p, source, holder, amount, height).value;
      IsStake(q, holder, source, x) && x.amount == Booked(p, holder, source) + amount && !x.withdrawn && OthersSame(p, q, holder, source)
  {
    hide Good, Kept, Added, Holds, HasStake, Booked, Deposited;
    var q := Deposit(kind, p, source, holder, amount, height).value;
    GoodIsOk(kind, p);
    PairAt(p, holder, source);
    var k := HolderIndex(p, holder);
    if k == |p| {
      x := NewStake(source, amount);
      NothingBooked(p, holder, source);
      forall a, y ensures Holds(q, a, y) <==> if a == holder && y.source == source then y == x else Holds(p, a, y) {
        OpenedStakes(kind, p, source, holder, amount, a, y);
      }
    } else {
      x := ToppedBy(kind, p, k, source, amount);
    }
  }

  lemma GoodIsOk(kind: Kind, p: Pool)
    requires Good(kind, p)
    ensures PoolOk(p)
  {
  }

  lemma ToppedBy(kind: Kind, p: Pool, k: nat, source: Address, amount: int) returns (x: Stake)
    requires Good(kind, p) && k < |p| && Deposited(p[k].stakes, source, amount).Done?
    ensures
      var q := Kept(kind, p[k := p[k].(stakes := Deposited(p[k].stakes, source, amount).value)]);
      && IsStake(q, p[k].holder, source, x) && x.amount == Booked(p, p[k].holder, source) + amount && !x.withdrawn
      && OthersSame(p, q, p[k].holder, source)
  {
    hide Kept, Holds, HasStake, Booked, BeingWithdrawn;
    var stakes, holder := p[k].stakes, p[k].holder;
    var after := Deposited(stakes, source, amount).value;
    var q := Kept(kind, p[k := p[k].(stakes := after)]);
    DepositAdds(stakes, source, amount);
    PairAt(p, holder, source);
    assert HolderIndex(p, holder) == k;
    var j := IndexOf(stakes, source);
    if j < |stakes| {
      x := stakes[j].(amount := stakes[j].amount + amount);
      BookedStake(p, holder, stakes[j]);
    } else {
      x := Stake(source, amount, false, NO_RETURN);
      NothingBooked(p, holder, source);
    }
    forall a, y ensures Holds(q, a, y) <==> if a == holder && y.source == source then y == x else Holds(p, a, y) {
      ToppedStakes(kind, p, k, after, a, y);
      DepositedIs(stakes, source, amount, y);
      OfHolder(p, k, y);
    }
  }

  /** What is booked for the pair has risen by the amount, and no other pair has changed. */
  ghost predicate BooksAdd(p: Pool, q: Pool, holder: Address, source: Address, amount: int) {
    && (forall a, b :: Booked(q, a, b) == Booked(p, a, b) + if a == holder && b == source then amount else 0)
    && (forall a, b :: BeingWithdrawn(q, a, b) == BeingWithdrawn(p, a, b))
  }

  /** An accepted deposit raises what is booked for its pair by exactly its amount and changes no
      other pair. */
  lemma DepositBooks(kind: Kind, p: Pool, source: Address, holder: Address, amount: int, height: nat)
    requires Good(kind, p) && Deposit(kind, p, source, holder, amount, height).Done?
    ensures BooksAdd(p, Deposit(kind, p, source, holder, amount, height).value, holder, source, amount)
  {
    hide Deposit, Holds, Booked;
    var q := Deposit(kind, p, source, holder, amount, height).value;
    var x := DepositStakes(kind, p, source, holder, amount, height);
    DepositOk(kind, p, source, holder, amount, height);
    DepositRefused(kind, p, source, holder, amount, height);
    forall a, b
      ensures Booked(q, a, b) == Booked(p, a, b) + (if a == holder && b == source then amount else 0)
      ensures BeingWithdrawn(q, a, b) == BeingWithdrawn(p, a, b)
    {
      if a == holder && b == source {
        BookedStake(q, a, x);
      } else {
        SameStakesSameBooks(p, q, a, b);
      }
    }
  }

  lemma DepositBooked(kind: Kind, p: Pool, source: Address, holder: Address, amount: int, height: nat)
    requires Good(kind, p)
    ensures
      var r := Deposit(kind, p, source, holder, amount, height);
      && (r.Done? <==> !TooSmall(kind, amount, height) && !BeingWithdrawn(p, holder, source))
      && (r.Done? ==> BooksAdd(p, r.value, holder, source, amount))
  {
    DepositRefused(kind, p, source, holder, amount, height);
    if Deposit(kind, p, source, holder, amount, height).Done? {
      DepositBooks(kind, p, source, holder, amount, height);
    }
  }

  // ---- withdrawals -------------------------------------------------------------------

  lemma WithdrawnIs(stakes: seq<Stake>, source: Address, height: nat, x: Stake)
    requires Unique(stakes) && Withdrawn(stakes, source, height).Done?
    ensures
      var after, k := Withdrawn(stakes, source, height).value, IndexOf(stakes, source);
      x in after <==>
        if x.source == source
        then x == stakes[k].(withdrawn := true, returnHeight := (height + 28800) % 0x1_0000_0000_0000_0000)
        else x in stakes
  {
    var after, k := Withdrawn(stakes, source, height).value, IndexOf(stakes, source);
    assert after[k] in after && forall i :: 0 <= i < |stakes| && i != k ==> after[i] == stakes[i];
    if x in stakes && x.source != source {
      var i :| 0 <= i < |stakes| && stakes[i] == x;
      assert after[i] == x;
    }
    if x in after && x.source == source {
      var i :| 0 <= i < |after| && after[i] == x;
      assert i == k;
    }
  }

  lemma WithdrawStakes(kind: Kind, p: Pool, source: Address, holder: Address, height: nat) returns (x: Stake)
    requires Good(kind, p) && Withdraw(kind, p, source, holder, height).Done?
    ensures
      var q := Withdraw(kind, p, source, holder, height).value;
      && IsStake(q, holder, source, x) && x.amount == Booked(p, holder, source) && OthersSame(p, q, holder, source)
      && x.withdrawn && x.returnHeight == (height + 28800) % 0x1_0000_0000_0000_0000
  {
    hide Kept, Holds, HasStake, Booked, BeingWithdrawn;
    var k := HolderIndex(p, holder);
    var stakes := p[k].stakes;
    var after := Withdrawn(stakes, source, height).value;
    var q := Kept(kind, p[k := p[k].(stakes := after)]);
    WithdrawKeeps(stakes, source, height);
    PairAt(p, holder, source);
    var was := stakes[IndexOf(stakes, source)];
    BookedStake(p, holder, was);
    x := was.(withdrawn := true, returnHeight := (height + 28800) % 0x1_0000_0000_0000_0000);
    forall a, y ensures Holds(q, a, y) <==> if a == holder && y.source == source then y == x else Holds(p, a, y) {
      ToppedStakes(kind, p, k, after, a, y);
      WithdrawnIs(stakes, source, height, y);
      OfHolder(p, k, y);
    }
  }

  /** No amount has changed; the pair's stake is being withdrawn and is due 28800 blocks later,
      counted in 64 bits. */
  ghost predicate StartsClock(p: Pool, q: Pool, holder: Address, source: Address, height: nat) {
    && (forall a, b :: Booked(q, a, b) == Booked(p, a, b))
    && (forall a, b :: BeingWithdrawn(q, a, b) <==> BeingWithdrawn(p, a, b) || (a == holder && b == source))
    && (forall x :: Holds(q, holder, x) && x.source == source ==> x.returnHeight == (height + 28800) % 0x1_0000_0000_0000_0000)
  }

  /** A withdrawal is refused exactly if the pair has no stake or is withdrawing it already. It
      changes no amount and starts the clock of the pair's stake alone. */
  lemma WithdrawBooks(kind: Kind, p: Pool, source: Address, holder: Address, height: nat)
    requires Good(kind, p)
    ensures
      var r := Withdraw(kind, p, source, holder, height);
      && (r.Refused? <==> !HasStake(p, holder, source) || BeingWithdrawn(p, holder, source))
      && (r.Done? ==> StartsClock(p, r.value, holder, source, height))
  {
    hide Holds, Booked, HasStake;
    PairAt(p, holder, source);
    NoStakeNotWithdrawn(p, holder, source);
    SomeStake(p, holder, source);
    if Withdraw(kind, p, source, holder, height).Done? {
      hide Withdraw;
      var q := Withdraw(kind, p, source, holder, height).value;
      var x := WithdrawStakes(kind, p, source, holder, height);
      WithdrawOk(kind, p, source, holder, height);
      forall a, b
        ensures Booked(q, a, b) == Booked(p, a, b)
        ensures BeingWithdrawn(q, a, b) <==> BeingWithdrawn(p, a, b) || (a == holder && b == source)
      {
        if a == holder && b == source {
          BookedStake(q, a, x);
        } else {
          SameStakesSameBooks(p, q, a, b);
        }
      }
    }
  }

  lemma SomeStake(p: Pool, holder: Address, source: Address)
    ensures forall x :: Holds(p, holder, x) && x.source == source ==> HasStake(p, holder, source)
  {
  }

  // ---- returns -----------------------------------------------------------------------

  ghost predicate IsDue(x: Stake, height: nat) {
    x.withdrawn && x.returnHeight <= height
  }

  lemma {:induction false} StayingIs(stakes: seq<Stake>, height: nat, x: Stake)
    ensures x in Staying(stakes, height) <==> x in stakes && !IsDue(x, height)
    ensures x in Leaving(stakes, height) <==> x in stakes && IsDue(x, height)
  {
    if stakes != [] {
      StayingIs(stakes[..|stakes|-1], height, x);
      assert stakes == stakes[..|stakes|-1] + [stakes[|stakes|-1]];
    }
  }

  lemma {:induction false} RemainingIs(p: Pool, height: nat, a: Address, x: Stake)
    ensures Holds(Remaining(p, height), a, x) <==> Holds(p, a, x) && !IsDue(x, height)
  {
    if p != [] {
      var front, last := p[..|p|-1], p[|p|-1];
      RemainingIs(front, height, a, x);
      StayingIs(last.stakes, height, x);
      assert p == front + [last];
      HoldsSnoc(front, last, a, x);
      HoldsSnoc(Remaining(front, height), last.(stakes := Staying(last.stakes, height)), a, x);
    }
  }

  lemma HoldsSnoc(p: Pool, h: Holder, a: Address, x: Stake)
    ensures Holds(p + [h], a, x) <==> Holds(p, a, x) || (h.holder == a && x in h.stakes)
  {
    assert h in p + [h];
    if Holds(p, a, x) {
      var g :| g in p && g.holder == a && x in g.stakes;
      assert g in p + [h];
    }
  }

  lemma {:induction false} ReleasedIs(p: Pool, height: nat, x: Stake)
    ensures x in Released(p, height) <==> IsDue(x, height) && exists a :: Holds(p, a, x)
  {
    if p != [] {
      var front, last := p[..|p|-1], p[|p|-1];
      ReleasedIs(front, height, x);
      StayingIs(last.stakes, height, x);
      assert p == front + [last];
      forall a ensures Holds(p, a, x) <==> Holds(front, a, x) || (last.holder == a && x in last.stakes) {
        HoldsSnoc(front, last, a, x);
      }
      assert x in last.stakes ==> Holds(p, last.holder, x);
      if a :| Holds(front, a, x) {
        assert Holds(p, a, x);
      }
    }
  }

  /** The stakes that are withdrawn and due have left the pool, and no others; each source gets what
      it had staked with those holders from whom its stake is due. */
  ghost predicate Returns(p: Pool, q: Pool, returned: seq<Stake>, height: nat) {
    && (forall a, x :: Holds(q, a, x) <==> Holds(p, a, x) && !IsDue(x, height))
    && (forall x :: x in returned <==> IsDue(x, height) && exists a :: Holds(p, a, x))
    && (forall a, b :: Booked(q, a, b) == if PairDue(p, a, b, height) then 0 else Booked(p, a, b))
    && (forall b :: DueTo(returned, b) == BookedAndDue(p, p, b, height))
  }

  /** A return pays out, in full, exactly the stakes that are withdrawn and due, and leaves all other
      stakes as they are. */
  lemma ReturnBooks(kind: Kind, p: Pool, height: nat)
    requires Good(kind, p)
    ensures Returns(p, Kept(kind, Remaining(p, height)), Released(p, height), height)
  {
    hide Holds, Booked, Released, Remaining, Kept;
    var q := Kept(kind, Remaining(p, height));
    StepOk(kind, p, ReturnOp(height));
    RemainingOk(p, height);
    forall a, x ensures Holds(q, a, x) <==> Holds(p, a, x) && !IsDue(x, height) {
      KeptSame(kind, Remaining(p, height), a, x);
      RemainingIs(p, height, a, x);
    }
    forall x ensures x in Released(p, height) <==> IsDue(x, height) && exists a :: Holds(p, a, x) {
      ReleasedIs(p, height, x);
    }
    forall a, b ensures Booked(q, a, b) == if PairDue(p, a, b, height) then 0 else Booked(p, a, b) {
      PairReturned(p, q, height, a, b);
    }
    forall b ensures DueTo(Released(p, height), b) == BookedAndDue(p, p, b, height) {
      PaidToSource(p, b, height);
    }
  }

  ghost predicate PairDue(p: Pool, holder: Address, source: Address, height: nat) {
    exists x :: Holds(p, holder, x) && x.source == source && IsDue(x, height)
  }

  lemma PairReturned(p: Pool, q: Pool, height: nat, a: Address, b: Address)
    requires PoolOk(p) && PoolOk(q) && forall x :: Holds(q, a, x) <==> Holds(p, a, x) && !IsDue(x, height)
    ensures Booked(q, a, b) == if PairDue(p, a, b, height) then 0 else Booked(p, a, b)
  {
    hide Holds, Booked, PoolOk, IsDue;
    if PairDue(p, a, b, height) {
      var x :| Holds(p, a, x) && x.source == b && IsDue(x, height);
      if HasStake(q, a, b) {
        var y :| Holds(q, a, y) && y.source == b;
        OneStake(p, a, x, y);
      }
      NothingBooked(q, a, b);
    } else {
      SameStakesSameBooks(p, q, a, b);
    }
  }

  lemma {:induction false} DueConcat(a: seq<Stake>, b: seq<Stake>, source: Address)
    ensures DueTo(a + b, source) == DueTo(a, source) + DueTo(b, source)
    decreases a
  {
    if a == [] {
      assert a + b == b;
    } else {
      assert (a + b)[1..] == a[1..] + b;
      DueConcat(a[1..], b, source);
    }
  }

  lemma {:induction false} FromSourceSnoc(stakes: seq<Stake>, x: Stake, source: Address)
    ensures FromSource(stakes + [x], source) == FromSource(stakes, source) + if x.source == source then x.amount else 0
    decreases stakes
  {
    if stakes != [] {
      assert (stakes + [x])[1..] == stakes[1..] + [x];
      FromSourceSnoc(stakes[1..], x, source);
    } else {
      assert stakes + [x] == [x];
    }
  }

  ghost predicate SourceDue(stakes: seq<Stake>, source: Address, height: nat) {
    exists x :: x in stakes && x.source == source && IsDue(x, height)
  }

  lemma {:induction false} LeavingDue(stakes: seq<Stake>, source: Address, height: nat)
    requires Unique(stakes)
    ensures DueTo(Leaving(stakes, height), source) == if SourceDue(stakes, source, height) then FromSource(stakes, source) else 0
  {
    if stakes != [] {
      var front, last := stakes[..|stakes|-1], stakes[|stakes|-1];
      LeavingDue(front, source, height);
      assert stakes == front + [last] && last in stakes;
      FromSourceSnoc(front, last, source);
      if last.source == source {
        FromSourceIs(front, source);
        assert !SourceDue(front, source, height);
      }
      if x :| x in front && x.source == source && IsDue(x, height) {
        assert x in stakes;
      }
      assert DueTo([last], source) == if last.source == source then last.amount else 0;
      DueConcat([last], Leaving(front, height), source);
    }
  }

  /** What the source has staked with those of `hs` with whom its stake is due. */
  ghost function BookedAndDue(p: Pool, hs: Pool, source: Address, height: nat): nat {
    if hs == [] then 0 else
      var last := hs[|hs|-1].holder;
      (if PairDue(p, last, source, height) then Booked(p, last, source) else 0) + BookedAndDue(p, hs[..|hs|-1], source, height)
  }

  lemma {:induction false} PaidToSourceFrom(p: Pool, k: nat, source: Address, height: nat)
    requires PoolOk(p) && k <= |p|
    ensures DueTo(Released(p[..k], height), source) == BookedAndDue(p, p[..k], source, height)
  {
    if k > 0 {
      hide Booked, Holds, PoolOk;
      PaidToSourceFrom(p, k - 1, source, height);
      assert p[..k][..k-1] == p[..k-1];
      DueConcat(Leaving(p[k-1].stakes, height), Released(p[..k-1], height), source);
      HolderDue(p, k - 1, source, height);
    }
  }

  lemma HolderDue(p: Pool, k: nat, source: Address, height: nat)
    requires PoolOk(p) && k < |p|
    ensures DueTo(Leaving(p[k].stakes, height), source) == if PairDue(p, p[k].holder, source, height) then Booked(p, p[k].holder, source) else 0
  {
    LeavingDue(p[k].stakes, source, height);
    BookedIs(p, p[k].holder, source);
    assert HolderIndex(p, p[k].holder) == k;
    forall x ensures Holds(p, p[k].holder, x) <==> x in p[k].stakes {
      OfHolder(p, k, x);
    }
  }

  /** A return pays each source what it has staked with those holders from whom its stake is due. */
  lemma PaidToSource(p: Pool, source: Address, height: nat)
    requires PoolOk(p)
    ensures DueTo(Released(p, height), source) == BookedAndDue(p, p, source, height)
  {
    assert p[..|p|] == p;
    PaidToSourceFrom(p, |p|, source, height);
  }

  // ---- whole runs --------------------------------------------------------------------

  ghost predicate PaysOut(p: Pool, op: Op, holder: Address, source: Address) {
    exists x :: x in PaidOut(p, op) && Holds(p, holder, x) && x.source == source
  }

  /** What an operation adds for the pair: the amount of a deposit that is large enough, made while
      the pair's stake is not being withdrawn. */
  ghost function AddsFor(kind: Kind, p: Pool, op: Op, holder: Address, source: Address): int {
    if op.DepositOp? && op.holder == holder && op.source == source && !TooSmall(kind, op.amount, op.height) && !BeingWithdrawn(p, holder, source)
    then op.amount else 0
  }

  /** All deposits for the pair since its stake was last paid out. */
  ghost function SincePaid(kind: Kind, run: seq<Pool>, ops: seq<Op>, i: nat, holder: Address, source: Address): int
    requires i <= |ops| < |run|
  {
    if i == 0 || PaysOut(run[i-1], ops[i-1], holder, source) then 0
    else SincePaid(kind, run, ops, i - 1, holder, source) + AddsFor(kind, run[i-1], ops[i-1], holder, source)
  }

  lemma StepBooks(kind: Kind, p: Pool, op: Op, holder: Address, source: Address)
    requires Good(kind, p)
    ensures Booked(Step(kind, p, op), holder, source) ==
      if PaysOut(p, op, holder, source) then 0 else Booked(p, holder, source) + AddsFor(kind, p, op, holder, source)
  {
    hide Good, Booked, Holds, Deposit, Withdraw, Released, Remaining, Kept, TooSmall;
    match op {
      case DepositOp(s, h, amount, height) =>
        DepositRefused(kind, p, s, h, amount, height);
        if Deposit(kind, p, s, h, amount, height).Done? {
          DepositBooks(kind, p, s, h, amount, height);
        }
      case WithdrawOp(s, h, height) =>
        WithdrawBooks(kind, p, s, h, height);
      case ReturnOp(height) =>
        ReturnBooks(kind, p, height);
    }
  }

  /** At every point of every run each pair's stake is what was deposited for it since it was last
      paid out. */
  lemma {:induction false} StakeIsDeposits(kind: Kind, run: seq<Pool>, ops: seq<Op>, i: nat, holder: Address, source: Address)
    requires IsPoolRun(kind, run, ops) && i <= |ops|
    ensures Booked(run[i], holder, source) == SincePaid(kind, run, ops, i, holder, source)
  {
    hide Step, Booked, PaysOut, AddsFor, Good;
    if i == 0 {
      EmptyBooks(holder, source);
    } else {
      StakeIsDeposits(kind, run, ops, i - 1, holder, source);
      StakeIsConserved(kind, run, ops, i - 1);
      var op := ops[i-1];
      StepBooks(kind, run[i-1], op, holder, source);
    }
  }

  lemma EmptyBooks(holder: Address, source: Address)
    ensures Booked([], holder, source) == 0
  {
  }

  /** Over every run: a stake that is paid out to its source comes from a holder, and is exactly what
      the source has deposited for that holder since it was last paid out of there. */
  lemma PayoutIsDeposits(kind: Kind, run: seq<Pool>, ops: seq<Op>, i: nat, x: Stake)
    requires IsPoolRun(kind, run, ops) && i < |ops| < |run| && x in PaidOut(run[i], ops[i])
    ensures exists holder :: Holds(run[i], holder, x)
    ensures forall holder :: Holds(run[i], holder, x) ==> x.amount == SincePaid(kind, run, ops, i, holder, x.source)
  {
    hide SincePaid, Booked, Holds, Released;
    StakeIsConserved(kind, run, ops, i);
    ReleasedIs(run[i], ops[i].height, x);
    forall holder | Holds(run[i], holder, x) ensures x.amount == SincePaid(kind, run, ops, i, holder, x.source) {
      BookedStake(run[i], holder, x);
      StakeIsDeposits(kind, run, ops, i, holder, x.source);
    }
  }
}
