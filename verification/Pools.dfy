/** The stake pools as the objects they are (core/validator.go, core/guardian.go), and the ledger
    that pays returned stakes out (ledger/ledger.go). */
module Pools {
  import opened Common
  import opened Validators
  import opened Stakes
  import opened PoolSpec
  import opened PoolRuns
  import opened PoolBooks

  // ---- one holder --------------------------------------------------------------------

  lemma {:induction false} SplitAt(stakes: seq<Stake>, i: nat, height: nat)
    requires i < |stakes|
    ensures Staying(stakes[..i+1], height) == Staying(stakes[..i], height) + (if Mature(stakes[i], height) then [] else [stakes[i]])
    ensures Leaving(stakes[..i+1], height) == (if Mature(stakes[i], height) then [stakes[i]] else []) + Leaving(stakes[..i], height)
  {
    assert stakes[..i+1][..i] == stakes[..i];
  }

  lemma UniqueIndex(stakes: seq<Stake>, k: nat)
    requires Unique(stakes) && k < |stakes|
    ensures IndexOf(stakes, stakes[k].source) == k
  {
  }

  /** The stakes after those from `i` on have been gone through. */
  ghost predicate TakenFrom(all: seq<Stake>, i: nat, height: nat, now: seq<Stake>, kept: seq<Stake>, returned: seq<Stake>) {
    && i <= |all| && now == all[..i] + kept && Unique(now)
    && Staying(all, height) == Staying(all[..i], height) + kept
    && Leaving(all, height) == returned + Leaving(all[..i], height)
  }

  lemma TakenBegin(all: seq<Stake>, height: nat)
    requires Unique(all)
    ensures TakenFrom(all, |all|, height, all, [], [])
  {
    hide Unique;
    assert all[..|all|] == all && all + [] == all;
  }

  lemma TakenEnd(all: seq<Stake>, height: nat, now: seq<Stake>, kept: seq<Stake>, returned: seq<Stake>)
    requires TakenFrom(all, 0, height, now, kept, returned)
    ensures now == Staying(all, height) && returned == Leaving(all, height)
  {
    hide Unique;
    assert all[..0] == [];
  }

  lemma TakenAt(all: seq<Stake>, i: nat, height: nat, now: seq<Stake>, kept: seq<Stake>, returned: seq<Stake>)
    requires TakenFrom(all, i + 1, height, now, kept, returned)
    ensures i < |now| && now[i] == all[i] && IndexOf(now, all[i].source) == i && now[..i] == all[..i] && now[i+1..] == kept
  {
    hide Staying, Leaving;
    UniqueIndex(now, i);
  }

  lemma TakeOut(all: seq<Stake>, i: nat, height: nat, now: seq<Stake>, kept: seq<Stake>, returned: seq<Stake>)
    requires TakenFrom(all, i + 1, height, now, kept, returned) && Mature(all[i], height)
    ensures TakenFrom(all, i, height, all[..i] + kept, kept, returned + [all[i]])
  {
    hide Staying, Leaving, Unique, IndexOf;
    TakenAt(all, i, height, now, kept, returned);
    SplitAt(all, i, height);
    RemoveMiddle(all[..i], all[i], kept, now);
    Regroup(returned, [all[i]], Leaving(all[..i], height));
    assert Staying(all[..i], height) + [] == Staying(all[..i], height);
  }

  lemma LeaveIn(all: seq<Stake>, i: nat, height: nat, now: seq<Stake>, kept: seq<Stake>, returned: seq<Stake>)
    requires TakenFrom(all, i + 1, height, now, kept, returned) && !Mature(all[i], height)
    ensures TakenFrom(all, i, height, now, [all[i]] + kept, returned)
  {
    hide Staying, Leaving, Unique;
    SplitAt(all, i, height);
    assert all[..i+1] + kept == all[..i] + ([all[i]] + kept);
    Regroup(Staying(all[..i], height), [all[i]], kept);
    assert [] + Leaving(all[..i], height) == Leaving(all[..i], height);
  }

  /** Goes through the stakes from the last to the first, taking out the mature ones on the way. */
  method ReturnFrom(start: Holder, height: nat) returns (h: Holder, returned: seq<Stake>)
    requires Unique(start.stakes)
    ensures h == start.(stakes := Staying(start.stakes, height)) && returned == Leaving(start.stakes, height)
  {
    hide Staying, Leaving, Unique, TakenFrom, IndexOf;
    h, returned := start, [];
    ghost var kept: seq<Stake> := [];
    var sidx := |start.stakes|;
    TakenBegin(start.stakes, height);
    while sidx > 0
      invariant 0 <= sidx <= |start.stakes| && h == start.(stakes := h.stakes)
      invariant TakenFrom(start.stakes, sidx, height, h.stakes, kept, returned)
    {
      sidx := sidx - 1;
      TakenAt(start.stakes, sidx, height, h.stakes, kept, returned);
      var stake := h.stakes[sidx];
      if stake.withdrawn && height >= stake.returnHeight {
        TakeOut(start.stakes, sidx, height, h.stakes, kept, returned);
        var r := ReturnStake(h, stake.source, height);
        h := r.value.0;
        returned := returned + [r.value.1];
      } else {
        LeaveIn(start.stakes, sidx, height, h.stakes, kept, returned);
        kept := [stake] + kept;
      }
    }
    TakenEnd(start.stakes, height, h.stakes, kept, returned);
  }

  lemma RemoveMiddle(a: seq<Stake>, s: Stake, b: seq<Stake>, all: seq<Stake>)
    requires |all| == |a| + 1 + |b| && all[..|a|] == a && all[|a|] == s && all[|a|+1..] == b && Unique(all)
    ensures Unique(a + b)
  {
    forall i, j | 0 <= i < j < |a + b| ensures (a + b)[i].source != (a + b)[j].source {
      assert (a + b)[i] == all[if i < |a| then i else i + 1] && (a + b)[j] == all[if j < |a| then j else j + 1];
    }
  }

  // ---- a whole pool ------------------------------------------------------------------

  lemma {:induction false} PoolSplitAt(p: Pool, i: nat, height: nat)
    requires i < |p|
    ensures
      var s := Staying(p[i].stakes, height);
      Remaining(p[..i+1], height) == Remaining(p[..i], height) + (if s == [] then [] else [p[i].(stakes := s)])
    ensures Released(p[..i+1], height) == Leaving(p[i].stakes, height) + Released(p[..i], height)
  {
    assert p[..i+1][..i] == p[..i];
  }

  lemma FrontOk(p: Pool, i: nat)
    requires PoolOk(p) && i < |p|
    ensures Unique(p[i].stakes)
  {
  }

  /** The candidates after those from `i` on have been gone through. */
  ghost predicate ReturnedFrom(p: Pool, i: nat, height: nat, now: Pool, kept: Pool, returned: seq<Stake>) {
    && i <= |p| && now == p[..i] + kept
    && Remaining(p, height) == Remaining(p[..i], height) + kept
    && Released(p, height) == returned + Released(p[..i], height)
  }

  lemma ReturnedNext(p: Pool, i: nat, height: nat, now: Pool, kept: Pool, returned: seq<Stake>)
    requires i < |p| && ReturnedFrom(p, i + 1, height, now, kept, returned)
    ensures
      var s := Staying(p[i].stakes, height);
      var piece := if s == [] then [] else [p[i].(stakes := s)];
      && i < |now| && now[i] == p[i] && now[..i] + piece + now[i+1..] == p[..i] + (piece + kept)
      && ReturnedFrom(p, i, height, p[..i] + (piece + kept), piece + kept, returned + Leaving(p[i].stakes, height))
  {
    hide Staying, Leaving, Remaining, Released;
    var s := Staying(p[i].stakes, height);
    var piece := if s == [] then [] else [p[i].(stakes := s)];
    PoolSplitAt(p, i, height);
    Regroup(Remaining(p[..i], height), piece, kept);
    Regroup(returned, Leaving(p[i].stakes, height), Released(p[..i], height));
    assert now[..i] == p[..i] && now[i+1..] == kept;
    Regroup(p[..i], piece, kept);
  }

  /** The same, where the candidate is replaced or deleted in place. */
  lemma ReturnedInPlace(p: Pool, i: nat, height: nat, now: Pool, kept: Pool, returned: seq<Stake>)
    requires i < |p| && ReturnedFrom(p, i + 1, height, now, kept, returned)
    ensures
      var s := Staying(p[i].stakes, height);
      var h := p[i].(stakes := s);
      && i < |now| && now[i] == p[i]
      && (if s == [] then ReturnedFrom(p, i, height, now[..i] + now[i+1..], kept, returned + Leaving(p[i].stakes, height))
          else ReturnedFrom(p, i, height, now[i := h], [h] + kept, returned + Leaving(p[i].stakes, height)))
  {
    hide Staying, Leaving, Remaining, Released;
    ReturnedNext(p, i, height, now, kept, returned);
    var s := Staying(p[i].stakes, height);
    if s == [] {
      assert now[..i] + [] + now[i+1..] == now[..i] + now[i+1..] && [] + kept == kept;
    } else {
      var h := p[i].(stakes := s);
      assert now[..i] + [h] + now[i+1..] == now[i := h];
    }
  }

  class ValidatorCandidates {
    const text: Text
    var candidates: Pool

    ghost predicate Valid()
      reads this
    {
      Good(ValidatorPool(text), candidates)
    }

    constructor (text: Text)
      ensures Valid() && candidates == [] && this.text == text
    {
      this.text := text;
      candidates := [];
    }

    method FindHolder(holder: Address) returns (k: nat)
      ensures k == HolderIndex(candidates, holder)
    {
      k := 0;
      while k < |candidates| && candidates[k].holder != holder
        invariant k <= |candidates| && forall i :: 0 <= i < k ==> candidates[i].holder != holder
      {
        k := k + 1;
      }
    }

    /** A deposit is refused when it is too small or its stake is being withdrawn. */
    method DepositStake(source: Address, holder: Address, amount: int, height: nat) returns (ok: bool)
      requires Valid()
      modifies this
      ensures Valid()
      ensures
        var r := Deposit(ValidatorPool(text), old(candidates), source, holder, amount, height);
        ok == r.Done? && candidates == (if r.Done? then r.value else old(candidates))
      ensures ok <==> !TooSmall(ValidatorPool(text), amount, height) && !BeingWithdrawn(old(candidates), holder, source)
      ensures ok ==> BooksAdd(old(candidates), candidates, holder, source, amount)
    {
      DepositBooked(ValidatorPool(text), candidates, source, holder, amount, height);
      hide BooksAdd, BeingWithdrawn;
      if amount < MinDeposit(ValidatorPool(text), height) {
        return false;
      }
      var k := FindHolder(holder);
      if k == |candidates| {
        candidates := SortPool(text, candidates + [Holder(holder, [NewStake(source, amount)])]);
      } else {
        var h := Stakes.DepositStake(candidates[k], source, amount);
        if h.Refused? {
          return false;
        }
        candidates := SortPool(text, candidates[k := h.value]);
      }
      ok := true;
      DepositOk(ValidatorPool(text), old(candidates), source, holder, amount, height);
    }

    method WithdrawStake(source: Address, holder: Address, height: nat) returns (ok: bool)
      requires Valid()
      modifies this
      ensures Valid()
      ensures
        var r := Withdraw(ValidatorPool(text), old(candidates), source, holder, height);
        ok == r.Done? && candidates == (if r.Done? then r.value else old(candidates))
      ensures ok <==> HasStake(old(candidates), holder, source) && !BeingWithdrawn(old(candidates), holder, source)
      ensures ok ==> StartsClock(old(candidates), candidates, holder, source, height)
    {
      WithdrawBooks(ValidatorPool(text), candidates, source, holder, height);
      hide StartsClock, BeingWithdrawn, HasStake;
      var k := FindHolder(holder);
      if k == |candidates| {
        return false;
      }
      var h := Stakes.WithdrawStake(candidates[k], source, height);
      if h.Refused? {
        return false;
      }
      candidates := SortPool(text, candidates[k := h.value]);
      ok := true;
      WithdrawOk(ValidatorPool(text), old(candidates), source, holder, height);
    }

    /** Goes through the candidates from the last to the first; one left without stakes is
        deleted on the way. */
    method ReturnStakes(height: nat) returns (returned: seq<Stake>)
      requires Valid()
      modifies this
      ensures Valid() && candidates == Kept(ValidatorPool(text), Remaining(old(candidates), height))
      ensures returned == Released(old(candidates), height) && Returns(old(candidates), candidates, returned, height)
    {
      hide Returns, Staying, Leaving, Remaining, Released, ReturnedFrom;
      returned := [];
      ghost var p, kept := candidates, [];
      var cidx: nat := |candidates|;
      StartReturn(p, height);
      while cidx > 0
        invariant cidx <= |p| && ReturnedFrom(p, cidx, height, candidates, kept, returned)
      {
        cidx := cidx - 1;
        ReturnedInPlace(p, cidx, height, candidates, kept, returned);
        FrontOk(p, cidx);
        var h, stakes := ReturnFrom(candidates[cidx], height);
        returned := returned + stakes;
        if |h.stakes| == 0 {
          candidates := candidates[..cidx] + candidates[cidx+1..];
        } else {
          candidates := candidates[cidx := h];
          kept := [h] + kept;
        }
      }
      EndReturn(p, height, candidates, kept, returned);
      ReturnBooks(ValidatorPool(text), p, height);
      candidates := SortPool(text, candidates);
      StepOk(ValidatorPool(text), p, ReturnOp(height));
    }

    /** The leading candidates: nobody left out ranks before anybody taken. */
    method GetTopStakeHolders(max: nat) returns (top: Pool)
      requires Valid()
      ensures |top| == (if |candidates| > max then max else |candidates|) && top == candidates[..|top|]
      ensures forall h, g :: h in top && g in candidates[|top|..] ==>
        && ActiveStake(h.stakes) >= ActiveStake(g.stakes)
        && (ActiveStake(h.stakes) == ActiveStake(g.stakes) ==> text(h.holder) >= text(g.holder))
    {
      hide ActiveStake;
      var n := if |candidates| > max then max else |candidates|;
      top := candidates[..n];
      RankedIsRicherFirst(text, candidates);
    }
  }

  lemma StartReturn(p: Pool, height: nat)
    ensures ReturnedFrom(p, |p|, height, p, [], [])
  {
    assert p[..|p|] == p;
  }

  lemma EndReturn(p: Pool, height: nat, now: Pool, kept: Pool, returned: seq<Stake>)
    requires ReturnedFrom(p, 0, height, now, kept, returned)
    ensures now == Remaining(p, height) && returned == Released(p, height)
  {
  }

  lemma PlaceIs(p: Pool, a: Address, k: nat)
    requires k <= |p| && (forall i :: 0 <= i < k ==> p[i].holder < a) && (k < |p| ==> p[k].holder >= a)
    ensures k == Place(p, a)
  {
  }

  lemma HolderAt(p: Pool, k: nat)
    requires PoolOk(p) && k < |p|
    ensures HolderIndex(p, p[k].holder) == k
  {
  }

  lemma FindsOrNot(p: Pool, a: Address)
    requires ByAddress(p)
    ensures
      var k := Place(p, a);
      if k < |p| && p[k].holder == a then HolderIndex(p, a) == k else NoHolder(p, a) && HolderIndex(p, a) == |p|
  {
    var k := Place(p, a);
    forall i | k < i < |p| ensures p[i].holder > a {
      assert p[k].holder < p[i].holder;
    }
  }

  class GuardianCandidates {
    var guardians: Pool

    ghost predicate Valid()
      reads this
    {
      Good(GuardianPool, guardians)
    }

    constructor ()
      ensures Valid() && guardians == []
    {
      guardians := [];
    }

    /** Binary search for the first guardian at or after the address. */
    method Search(a: Address) returns (k: nat)
      requires ByAddress(guardians)
      ensures k == Place(guardians, a)
    {
      k := 0;
      var high := |guardians|;
      while k < high
        invariant k <= high <= |guardians|
        invariant (forall i :: 0 <= i < k ==> guardians[i].holder < a) && (forall i :: high <= i < |guardians| ==> guardians[i].holder >= a)
      {
        var mid := (k + high) / 2;
        if guardians[mid].holder < a {
          k := mid + 1;
        } else {
          high := mid;
        }
      }
      PlaceIs(guardians, a, k);
    }

    /** Inserts in order; a guardian that is there already is left alone. */
    method Add(h: Holder) returns (added: bool)
      requires ByAddress(guardians)
      modifies this
      ensures ByAddress(guardians) && (old(Valid()) && HolderOk(h) ==> Valid()) && added == old(NoHolder(guardians, h.holder))
      ensures guardians == if added then Added(GuardianPool, old(guardians), h) else old(guardians)
    {
      var k := Search(h.holder);
      FindsOrNot(guardians, h.holder);
      if k < |guardians| && guardians[k].holder == h.holder {
        assert !NoHolder(guardians, h.holder);
        return false;
      }
      InsertedInOrder(guardians, k, h);
      if Valid() && HolderOk(h) {
        AddedIs(GuardianPool, guardians, h);
      }
      guardians := guardians[..k] + [h] + guardians[k..];
      added := true;
    }

    method Remove(a: Address) returns (removed: bool)
      requires ByAddress(guardians)
      modifies this
      ensures ByAddress(guardians) && (old(Valid()) ==> Valid()) && removed == !old(NoHolder(guardians, a))
      ensures
        var k := HolderIndex(old(guardians), a);
        guardians == if removed && k < |old(guardians)| then old(guardians)[..k] + old(guardians)[k+1..] else old(guardians)
    {
      var k := Search(a);
      FindsOrNot(guardians, a);
      if k == |guardians| || guardians[k].holder != a {
        return false;
      }
      assert !NoHolder(guardians, a);
      if Valid() {
        RemovedOk(guardians, k);
      }
      guardians := guardians[..k] + guardians[k+1..];
      removed := true;
    }

    method Contains(a: Address) returns (found: bool)
      requires ByAddress(guardians)
      ensures found == !NoHolder(guardians, a)
    {
      var k := Search(a);
      FindsOrNot(guardians, a);
      found := k < |guardians| && guardians[k].holder == a;
    }

    method FindHolder(holder: Address) returns (k: nat)
      ensures k == HolderIndex(guardians, holder)
    {
      k := 0;
      while k < |guardians| && guardians[k].holder != holder
        invariant k <= |guardians| && forall i :: 0 <= i < k ==> guardians[i].holder != holder
      {
        k := k + 1;
      }
    }

    method DepositStake(source: Address, holder: Address, amount: int, height: nat) returns (ok: bool)
      requires Valid()
      modifies this
      ensures Valid()
      ensures
        var r := Deposit(GuardianPool, old(guardians), source, holder, amount, height);
        ok == r.Done? && guardians == (if r.Done? then r.value else old(guardians))
      ensures ok <==> !TooSmall(GuardianPool, amount, height) && !BeingWithdrawn(old(guardians), holder, source)
      ensures ok ==> BooksAdd(old(guardians), guardians, holder, source, amount)
    {
      DepositBooked(GuardianPool, guardians, source, holder, amount, height);
      hide BooksAdd, BeingWithdrawn;
      if amount < MinDeposit(GuardianPool, height) {
        return false;
      }
      var k := FindHolder(holder);
      if k == |guardians| {
        var added := Add(Holder(holder, [NewStake(source, amount)]));
      } else {
        var h := Stakes.DepositStake(guardians[k], source, amount);
        if h.Refused? {
          return false;
        }
        guardians := guardians[k := h.value];
      }
      ok := true;
      DepositOk(GuardianPool, old(guardians), source, holder, amount, height);
    }

    method WithdrawStake(source: Address, holder: Address, height: nat) returns (ok: bool)
      requires Valid()
      modifies this
      ensures Valid()
      ensures
        var r := Withdraw(GuardianPool, old(guardians), source, holder, height);
        ok == r.Done? && guardians == (if r.Done? then r.value else old(guardians))
      ensures ok <==> HasStake(old(guardians), holder, source) && !BeingWithdrawn(old(guardians), holder, source)
      ensures ok ==> StartsClock(old(guardians), guardians, holder, source, height)
    {
      WithdrawBooks(GuardianPool, guardians, source, holder, height);
      hide StartsClock, BeingWithdrawn, HasStake;
      var k := FindHolder(holder);
      if k == |guardians| {
        return false;
      }
      var h := Stakes.WithdrawStake(guardians[k], source, height);
      if h.Refused? {
        return false;
      }
      guardians := guardians[k := h.value];
      ok := true;
      WithdrawOk(GuardianPool, old(guardians), source, holder, height);
    }

    /** As for validator candidates, but a guardian left without stakes is removed by address. */
    method ReturnStakes(height: nat) returns (returned: seq<Stake>)
      requires Valid()
      modifies this
      ensures Valid() && guardians == Remaining(old(guardians), height) && returned == Released(old(guardians), height)
      ensures Returns(old(guardians), guardians, returned, height)
    {
      hide Returns, Staying, Leaving, Remaining, Released, PoolOk, ByAddress, Unique;
      returned := [];
      ghost var p, kept := guardians, [];
      var cidx: nat := |guardians|;
      StartReturn(p, height);
      while cidx > 0
        invariant cidx <= |p| && ReturnedFrom(p, cidx, height, guardians, kept, returned)
        invariant cidx <= |guardians| && Good(GuardianPool, guardians)
      {
        cidx := cidx - 1;
        ReturnedNext(p, cidx, height, guardians, kept, returned);
        FrontOk(p, cidx);
        var h, stakes := ReturnFrom(guardians[cidx], height);
        returned := returned + stakes;
        StayingUnique(guardians[cidx].stakes, height);
        SaveOrRemove(cidx, h);
        kept := if h.stakes == [] then kept else [h] + kept;
      }
      EndReturn(p, height, guardians, kept, returned);
      ReturnBooks(GuardianPool, p, height);
      StepOk(GuardianPool, p, ReturnOp(height));
    }

    /** Saves a guardian's remaining stakes, or removes them by address if none are left. */
    method SaveOrRemove(k: nat, h: Holder)
      requires Valid() && k < |guardians| && h.holder == guardians[k].holder && Unique(h.stakes)
      modifies this
      ensures Valid()
      ensures guardians == old(guardians)[..k] + (if h.stakes == [] then [] else [h]) + old(guardians)[k+1..]
    {
      hide PoolOk, ByAddress, Unique;
      if |h.stakes| == 0 {
        HolderAt(guardians, k);
        assert !NoHolder(guardians, h.holder);
        var removed := Remove(h.holder);
      } else {
        ReplacedOk(guardians, k, h.stakes);
        guardians := guardians[k := h];
      }
    }
  }

  lemma RemovedOk(p: Pool, k: nat)
    requires Good(GuardianPool, p) && k < |p|
    ensures Good(GuardianPool, p[..k] + p[k+1..])
  {
    var q := p[..k] + p[k+1..];
    forall i, j | 0 <= i < j < |q| ensures q[i].holder < q[j].holder {
      assert q[i] == p[if i < k then i else i + 1] && q[j] == p[if j < k then j else j + 1];
    }
    forall i | 0 <= i < |q| ensures HolderOk(q[i]) {
      assert q[i] == p[if i < k then i else i + 1];
    }
  }

  // ---- paying out --------------------------------------------------------------------

  /** Every source of a stake in the pool has an account. */
  ghost predicate Funded(p: Pool, b: Balances) {
    forall s :: s in AllStakes(p) ==> s.source in b
  }

  /** Every source has an account to be paid to. */
  ghost predicate AllPayable(returned: seq<Stake>, b: Balances) {
    forall s :: s in returned ==> s.source in b
  }

  lemma ReleasedFunded(p: Pool, b: Balances, height: nat)
    requires Funded(p, b)
    ensures forall s :: s in Released(p, height) ==> s.source in b && Mature(s, height)
  {
    ReturnSplits(p, height);
    forall s | s in Released(p, height) ensures s.source in b && Mature(s, height) {
      assert s in multiset(Released(p, height)) && s in AllStakes(p);
    }
  }

  class Ledger {
    const validators: ValidatorCandidates
    const guardians: GuardianCandidates
    var balances: Balances

    ghost predicate Valid()
      reads this, validators, guardians
    {
      validators.Valid() && guardians.Valid()
    }

    /** Every source of a stake has an account, as after deposits. */
    ghost predicate AllFunded()
      reads this, validators, guardians
    {
      Funded(validators.candidates, balances) && Funded(guardians.guardians, balances)
    }

    /** Everything there is: both pools and all accounts. */
    ghost function Wealth(): nat
      reads this, validators, guardians
    {
      PoolTotal(validators.candidates) + PoolTotal(guardians.guardians) + Sum(balances)
    }

    constructor (balances: Balances, text: Text)
      ensures Valid() && AllFunded() && Wealth() == Sum(balances) && fresh(validators) && fresh(guardians)
    {
      this.balances := balances;
      validators := new ValidatorCandidates(text);
      guardians := new GuardianCandidates();
    }

    /** Mature validator stakes leave the pool for their sources' accounts: nothing is lost or
        made. A missing account is fatal, and cannot happen while all stakes are funded. */
    method HandleValidatorStakeReturn(height: nat) returns (ok: bool)
      requires Valid()
      modifies this`balances, validators
      ensures Valid() && (ok <==> AllPayable(Released(old(validators.candidates), height), old(balances)))
      ensures if ok then Wealth() == old(Wealth()) else balances == old(balances)
      ensures old(AllFunded()) ==> ok && AllFunded()
      ensures validators.candidates == Kept(ValidatorPool(validators.text), Remaining(old(validators.candidates), height))
      ensures forall a :: a in balances <==> a in old(balances)
      ensures ok ==> forall a :: a in balances ==> balances[a] == old(balances)[a] + DueTo(Released(old(validators.candidates), height), a)
    {
      ghost var p, b := validators.candidates, balances;
      StepOk(ValidatorPool(validators.text), p, ReturnOp(height));
      var returned := validators.ReturnStakes(height);
      var paid := Credit(balances, returned);
      ok := paid.Some?;
      if ok {
        balances := paid.value;
      }
      if Funded(p, b) {
        ReleasedFunded(p, b, height);
        StillFunded(ValidatorPool(validators.text), p, height, b, balances);
      }
    }

    method HandleGuardianStakeReturn(height: nat) returns (ok: bool)
      requires Valid()
      modifies this`balances, guardians
      ensures Valid() && (ok <==> AllPayable(Released(old(guardians.guardians), height), old(balances)))
      ensures if ok then Wealth() == old(Wealth()) else balances == old(balances)
      ensures old(AllFunded()) ==> ok && AllFunded()
      ensures guardians.guardians == Remaining(old(guardians.guardians), height)
      ensures forall a :: a in balances <==> a in old(balances)
      ensures ok ==> forall a :: a in balances ==> balances[a] == old(balances)[a] + DueTo(Released(old(guardians.guardians), height), a)
    {
      hide Remaining, Released, DueTo, PoolTotal, Sum;
      NothingToReturn(height);
      if |guardians.guardians| == 0 {
        return true;
      }
      ghost var p, b := guardians.guardians, balances;
      StepOk(GuardianPool, p, ReturnOp(height));
      var returned := guardians.ReturnStakes(height);
      var paid := Credit(balances, returned);
      ok := paid.Some?;
      if ok {
        balances := paid.value;
      }
      if Funded(p, b) {
        ReleasedFunded(p, b, height);
        StillFunded(GuardianPool, p, height, b, balances);
      }
    }

    /** Both returns, one after the other: every account gets what either pool owed it. */
    method HandleDelayedStateUpdates(height: nat) returns (ok: bool)
      requires Valid()
      modifies this`balances, validators, guardians
      ensures Valid()
      ensures ok <==> AllPayable(Released(old(validators.candidates), height), old(balances)) && AllPayable(Released(old(guardians.guardians), height), old(balances))
      ensures old(AllFunded()) ==> ok && AllFunded()
      ensures ok ==>
        && Wealth() == old(Wealth())
        && validators.candidates == Kept(ValidatorPool(validators.text), Remaining(old(validators.candidates), height))
        && guardians.guardians == Remaining(old(guardians.guardians), height)
        && (forall a :: a in balances <==> a in old(balances))
        && (forall a :: a in balances ==>
          balances[a] == old(balances)[a] + DueTo(Released(old(validators.candidates), height), a) + DueTo(Released(old(guardians.guardians), height), a))
    {
      hide Remaining, Released, DueTo, PoolTotal, Sum, Kept;
      ok := HandleValidatorStakeReturn(height);
      if ok {
        ok := HandleGuardianStakeReturn(height);
      }
    }
  }

  lemma NothingToReturn(height: nat)
    ensures Remaining([], height) == [] && Released([], height) == [] && forall a :: DueTo([], a) == 0
  {
  }

  lemma {:induction false} SortedStakes(p: Pool, q: Pool)
    requires Reordered(p, q)
    ensures forall s :: s in AllStakes(q) ==> s in AllStakes(p)
  {
    forall s | s in AllStakes(q) ensures s in AllStakes(p) {
      var h := HolderWith(q, s);
      SameMembers(p, q, h);
      WithHolder(p, h, s);
    }
  }

  lemma {:induction false} HolderWith(p: Pool, s: Stake) returns (h: Holder)
    requires s in AllStakes(p)
    ensures h in p && s in h.stakes
  {
    var front, last := p[..|p|-1], p[|p|-1];
    if s in multiset(last.stakes) {
      h := last;
    } else {
      h := HolderWith(front, s);
    }
  }

  lemma {:induction false} WithHolder(p: Pool, h: Holder, s: Stake)
    requires h in p && s in h.stakes
    ensures s in AllStakes(p)
  {
    var front, last := p[..|p|-1], p[|p|-1];
    assert p == front + [last];
    if h == last {
      assert s in multiset(last.stakes);
    } else {
      WithHolder(front, h, s);
    }
  }

  lemma StillFunded(kind: Kind, p: Pool, height: nat, b: Balances, after: Balances)
    requires Good(kind, p) && Funded(p, b) && after.Keys == b.Keys
    ensures Funded(Kept(kind, Remaining(p, height)), after)
  {
    ReturnSplits(p, height);
    RemainingOk(p, height);
    KeptIs(kind, Remaining(p, height));
    SortedStakes(Remaining(p, height), Kept(kind, Remaining(p, height)));
  }
}
