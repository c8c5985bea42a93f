/** Choosing validators from the pool and a proposer among them (consensus/validator.go). */
module Proposer {
  import opened Common
  import opened Validators
  import opened Stakes
  import opened PoolSpec
  import opened Pools

  const MAX_UINT32: nat := 0xFFFF_FFFF
  const MAX_VALIDATORS: nat := 31

  // ---- scaling -----------------------------------------------------------------------

  /** What stakes are divided by so that their total fits 32 bits. */
  function Factor(total: nat): (f: nat)
    ensures f >= 1
  {
    total / MAX_UINT32 + 1
  }

  function ScaledSum(vs: ValidatorSet, f: nat): nat
    requires f > 0
  {
    if vs == [] then 0 else ScaledSum(vs[..|vs|-1], f) + vs[|vs|-1].stake / f
  }

  lemma DivBound(x: nat, f: nat, m: nat)
    requires f > 0 && x < m * f
    ensures x / f < m
  {
    if x / f >= m {
      MulMonotone(x / f, m, f);
    }
  }

  lemma MulMonotone(a: nat, b: nat, f: nat)
    requires a >= b
    ensures a * f >= b * f
  {
  }

  /** The scaled total is at least one and below the largest 32-bit number. */
  lemma ScaledTotalInRange(total: nat)
    requires total >= 1
    ensures 1 <= total / Factor(total) < MAX_UINT32
  {
    var f := Factor(total);
    DivBound(total, f, MAX_UINT32);
  }

  lemma DivMod(x: nat, f: nat)
    requires f > 0
    ensures x == f * (x / f) + x % f && x % f < f
  {
  }

  lemma {:induction false} MulGap(f: nat, a: nat, b: nat)
    requires a > b
    ensures f * a >= f * b + f
    decreases a
  {
    assert f * a == f * (a - 1) + f;
    if a > b + 1 {
      MulGap(f, a - 1, b);
    }
  }

  lemma QuotientOfSum(f: nat, qa: nat, ra: nat, qb: nat, rb: nat, q: nat, r: nat)
    requires ra < f && rb < f && r < f && f * q + r == f * qa + ra + f * qb + rb
    ensures qa + qb <= q <= qa + qb + 1
  {
    assert f * (qa + qb) == f * qa + f * qb;
    if q < qa + qb {
      MulGap(f, qa + qb, q);
    } else if q > qa + qb + 1 {
      MulGap(f, q, qa + qb + 1);
      MulGap(f, qa + qb + 1, qa + qb);
    }
  }

  lemma DivSum(a: nat, b: nat, f: nat)
    requires f > 0
    ensures a / f + b / f <= (a + b) / f <= a / f + b / f + 1
  {
    DivMod(a, f);
    DivMod(b, f);
    DivMod(a + b, f);
    QuotientOfSum(f, a / f, a % f, b / f, b % f, (a + b) / f, (a + b) % f);
  }

  lemma {:induction false} SumSnoc(vs: ValidatorSet)
    requires vs != []
    ensures SumStake(vs) == SumStake(vs[..|vs|-1]) + vs[|vs|-1].stake
    decreases vs
  {
    if |vs| > 1 {
      SumSnoc(vs[1..]);
      assert vs[1..][..|vs|-2] == vs[..|vs|-1][1..];
    }
  }

  /** Scaling one by one loses less than one unit per validator. */
  lemma {:induction false} ScaledSumFallsShort(vs: ValidatorSet, f: nat)
    requires f > 0 && vs != []
    ensures ScaledSum(vs, f) <= SumStake(vs) / f <= ScaledSum(vs, f) + |vs| - 1
  {
    var front, last := vs[..|vs|-1], vs[|vs|-1];
    SumSnoc(vs);
    if front == [] {
      assert SumStake(vs) == last.stake;
    } else {
      ScaledSumFallsShort(front, f);
      DivSum(SumStake(front), last.stake, f);
    }
  }

  // ---- drawing -----------------------------------------------------------------------

  /** The draw falls into the i-th validator's stretch of the scaled stakes. */
  ghost predicate Hits(vs: ValidatorSet, f: nat, r: nat, i: nat)
    requires f > 0
  {
    i < |vs| && ScaledSum(vs[..i], f) <= r < ScaledSum(vs[..i+1], f)
  }

  lemma OneMore(vs: ValidatorSet, f: nat, j: nat)
    requires f > 0 && 0 < j <= |vs|
    ensures ScaledSum(vs[..j-1], f) <= ScaledSum(vs[..j], f)
  {
    assert vs[..j][..j-1] == vs[..j-1];
  }

  lemma {:induction false} ScaledSumGrows(vs: ValidatorSet, f: nat, i: nat, j: nat)
    requires f > 0 && i <= j <= |vs|
    ensures ScaledSum(vs[..i], f) <= ScaledSum(vs[..j], f)
    decreases j
  {
    hide ScaledSum;
    if i < j {
      ScaledSumGrows(vs, f, i, j - 1);
      OneMore(vs, f, j);
    }
  }

  lemma HitsOnce(vs: ValidatorSet, f: nat, r: nat, i: nat, j: nat)
    requires f > 0 && Hits(vs, f, r, i) && Hits(vs, f, r, j)
    ensures i == j
  {
    if i < j {
      ScaledSumGrows(vs, f, i + 1, j);
    } else if j < i {
      ScaledSumGrows(vs, f, j + 1, i);
    }
  }

  /** Walks up the scaled stakes until they pass the draw. A draw below their sum picks the one
      validator whose stretch it falls into; any other draw picks nobody, which is fatal. */
  method GetProposer(vs: ValidatorSet, r: nat) returns (v: Option<Validator>, ghost at: nat)
    requires vs != [] && SumStake(vs) >= 1 && r < SumStake(vs) / Factor(SumStake(vs))
    ensures
      var f := SumStake(vs) / 0xFFFF_FFFF + 1;
      && (v.Some? <==> r < ScaledSum(vs, f))
      && (v.Some? ==> Hits(vs, f, r, at) && v.value == vs[at])
      && (v.Some? ==> forall i :: Hits(vs, f, r, i) ==> i == at)
  {
    var total := Validators.TotalStake(vs);
    var f := Factor(total);
    var curr := 0;
    at := 0;
    for i := 0 to |vs|
      invariant curr == ScaledSum(vs[..i], f) && curr <= r
    {
      assert vs[..i+1][..i] == vs[..i];
      curr := curr + vs[i].stake / f;
      if r < curr {
        at := i;
        ScaledSumGrows(vs, f, i + 1, |vs|);
        assert vs[..|vs|] == vs;
        assert Hits(vs, f, r, i);
        forall j | Hits(vs, f, r, j) ensures j == i {
          HitsOnce(vs, f, r, i, j);
        }
        return Some(vs[i]), i;
      }
    }
    assert vs[..|vs|] == vs;
    v := None;
  }

  /** Every draw picks a validator exactly when scaling loses nothing. */
  lemma AllDrawsPick(vs: ValidatorSet)
    requires vs != [] && SumStake(vs) >= 1
    ensures
      var f := Factor(SumStake(vs));
      (forall r: nat :: r < SumStake(vs) / f ==> Picks(vs, r)) <==> ScaledSum(vs, f) == SumStake(vs) / f
  {
    var f := Factor(SumStake(vs));
    ScaledSumFallsShort(vs, f);
    if ScaledSum(vs, f) < SumStake(vs) / f {
      assert !Picks(vs, ScaledSum(vs, f));
    }
  }

  ghost predicate Picks(vs: ValidatorSet, r: nat) {
    r < ScaledSum(vs, Factor(SumStake(vs)))
  }

  /** Two validators with 2^32 + 1 each: one draw in range picks neither. */
  lemma SomeDrawsFail()
    ensures
      var vs := [Validator(1, 0x1_0000_0001), Validator(2, 0x1_0000_0001)];
      2863311530 < SumStake(vs) / Factor(SumStake(vs)) && !Picks(vs, 2863311530)
  {
    var vs := [Validator(1, 0x1_0000_0001), Validator(2, 0x1_0000_0001)];
    assert vs[1..] == [vs[1]] && vs[..1] == [vs[0]] && [vs[0]][..0] == [];
    assert SumStake([vs[1]]) == 0x1_0000_0001 + SumStake([]);
    assert SumStake(vs) == 0x2_0000_0002 && Factor(0x2_0000_0002) == 3;
    assert ScaledSum([vs[0]], 3) == ScaledSum([], 3) + 0x1_0000_0001 / 3;
  }

  // ---- the validator set -------------------------------------------------------------

  ghost predicate ById(vs: ValidatorSet) {
    forall i, j :: 0 <= i < j < |vs| ==> vs[i].address < vs[j].address
  }

  function AddValidator(vs: ValidatorSet, v: Validator): ValidatorSet {
    if vs == [] || v.address < vs[0].address then [v] + vs else [vs[0]] + AddValidator(vs[1..], v)
  }

  lemma {:induction false} AddedById(vs: ValidatorSet, v: Validator)
    requires ById(vs) && forall x :: x in vs ==> x.address != v.address
    ensures ById(AddValidator(vs, v)) && |AddValidator(vs, v)| == |vs| + 1
    ensures forall x :: x in AddValidator(vs, v) <==> x == v || x in vs
  {
    if !(vs == [] || v.address < vs[0].address) {
      assert vs == [vs[0]] + vs[1..];
      AddedById(vs[1..], v);
      var rest := AddValidator(vs[1..], v);
      forall i | 0 <= i < |rest| ensures vs[0].address < rest[i].address {
        assert rest[i] in rest;
        assert rest[i] == v || rest[i] in vs[1..];
      }
    }
  }

  /** The validator that a candidate becomes. */
  ghost function AsValidator(h: Holder): Validator {
    Validator(h.holder, ActiveStake(h.stakes))
  }

  ghost predicate Chosen(p: Pool, v: Validator) {
    exists h :: h in p && v == AsValidator(h) && v.stake > 0
  }

  /** The leading candidates that have stake left, each once, by address. */
  method SelectValidators(pool: ValidatorCandidates) returns (vs: ValidatorSet)
    requires pool.Valid()
    ensures ById(vs) && Distinct(vs) && |vs| <= MAX_VALIDATORS
    ensures
      var n := if |pool.candidates| > MAX_VALIDATORS then MAX_VALIDATORS else |pool.candidates|;
      forall v :: v in vs <==> Chosen(pool.candidates[..n], v)
    ensures forall v, g :: v in vs && g in pool.candidates && Passed(vs, g) ==> v.stake >= ActiveStake(g.stakes)
    ensures forall g :: g in pool.candidates && Passed(vs, g) && ActiveStake(g.stakes) > 0 ==> |vs| == 31
  {
    var top := pool.GetTopStakeHolders(MAX_VALIDATORS);
    vs := [];
    for i := 0 to |top|
      invariant ById(vs) && |vs| <= i
      invariant forall v :: v in vs <==> Chosen(top[..i], v)
      invariant (forall j :: 0 <= j < i ==> ActiveStake(top[j].stakes) > 0) ==> |vs| == i
    {
      var stake := Stakes.TotalStake(top[i]);
      ChosenNext(top, i);
      if stake == 0 {
        continue;
      }
      forall x | x in vs ensures x.address != top[i].holder {
        NotYetChosen(pool.candidates, top, i, x);
      }
      AddedById(vs, Validator(top[i].holder, stake));
      vs := AddValidator(vs, Validator(top[i].holder, stake));
    }
    assert top[..|top|] == top;
    forall g | g in pool.candidates && Passed(vs, g)
      ensures forall v :: v in vs ==> v.stake >= ActiveStake(g.stakes)
      ensures ActiveStake(g.stakes) > 0 ==> |vs| == 31
    {
      PassedIsPoorer(pool.candidates, top, vs, g);
    }
  }

  /** The candidate is not among the validators. */
  ghost predicate Passed(vs: ValidatorSet, g: Holder) {
    forall v :: v in vs ==> v.address != g.holder
  }

  lemma PassedIsPoorer(all: Pool, top: Pool, vs: ValidatorSet, g: Holder)
    requires |top| <= |all| && top == all[..|top|] && (|top| == MAX_VALIDATORS || top == all)
    requires forall h, x :: h in top && x in all[|top|..] ==> ActiveStake(h.stakes) >= ActiveStake(x.stakes)
    requires forall v :: v in vs <==> Chosen(top, v)
    requires (forall j :: 0 <= j < |top| ==> ActiveStake(top[j].stakes) > 0) ==> |vs| == |top|
    requires g in all && Passed(vs, g)
    ensures forall v :: v in vs ==> v.stake >= ActiveStake(g.stakes)
    ensures ActiveStake(g.stakes) > 0 ==> |vs| == 31
  {
    hide ActiveStake;
    if ActiveStake(g.stakes) > 0 {
      assert g in top ==> Chosen(top, AsValidator(g));
      assert AsValidator(g) !in vs;
      assert all == top + all[|top|..];
      assert g in all[|top|..];
      forall v | v in vs ensures v.stake >= ActiveStake(g.stakes) {
        var h :| h in top && v == AsValidator(h) && v.stake > 0;
      }
      forall j | 0 <= j < |top| ensures ActiveStake(top[j].stakes) > 0 {
        assert top[j] in top;
      }
    }
  }

  lemma ChosenNext(p: Pool, i: nat)
    requires i < |p|
    ensures forall v :: Chosen(p[..i+1], v) <==> Chosen(p[..i], v) || (v == AsValidator(p[i]) && v.stake > 0)
  {
    assert p[..i+1] == p[..i] + [p[i]];
    forall v ensures Chosen(p[..i+1], v) <==> Chosen(p[..i], v) || (v == AsValidator(p[i]) && v.stake > 0) {
      if v == AsValidator(p[i]) && v.stake > 0 {
        assert p[i] in p[..i+1];
      }
    }
  }

  lemma NotYetChosen(all: Pool, p: Pool, i: nat, x: Validator)
    requires PoolOk(all) && |p| <= |all| && p == all[..|p|] && i < |p| && Chosen(p[..i], x)
    ensures x.address != p[i].holder
  {
    var h :| h in p[..i] && x == AsValidator(h) && x.stake > 0;
    var j :| 0 <= j < i && p[j] == h;
    assert all[j].holder != all[i].holder;
  }
}
