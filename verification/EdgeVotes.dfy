/** Aggregated elite edge node votes and their engine (core/elite_edge_node.go,
    consensus/elite_edge_node.go). */
module EdgeVotes {
  import opened Common
  import opened Bls

  type Hash = nat
  type Address = nat

  const EMPTY_HASH: Hash := 0
  const MAX_ROUND: nat := 20

  /** One multiplicity per address; what is signed is the block. */
  datatype Votes<+S> = Votes(block: Hash, multiplies: seq<nat>, addresses: seq<Address>, signature: Option<S>)

  /** The pool: who is drawn for the block, and everybody's key. */
  datatype EdgePool<!K> = EdgePool(selected: (Hash, Address) -> bool, key: Address -> K)

  ghost predicate Sorted(addrs: seq<Address>) {
    forall i, j :: 0 <= i < j < |addrs| ==> addrs[i] < addrs[j]
  }

  // ---- signers with multiplicities ---------------------------------------------------

  /** A signer and how often their signature is in the aggregate. */
  datatype Share = Share(who: Address, times: nat)

  ghost function Shares(addrs: seq<Address>, ms: seq<nat>): (r: seq<Share>)
    requires |addrs| == |ms|
    ensures |r| == |ms| && forall i :: 0 <= i < |r| ==> r[i] == Share(addrs[i], ms[i])
  {
    seq(|ms|, i requires 0 <= i < |ms| => Share(addrs[i], ms[i]))
  }

  ghost predicate Ascending(s: seq<Share>) {
    forall i, j :: 0 <= i < j < |s| ==> s[i].who < s[j].who
  }

  /** How often `who` is in the aggregate; not at all if they are not listed. */
  ghost function TimesOf(s: seq<Share>, who: Address): nat {
    if s == [] then 0 else (if s[0].who == who then s[0].times else 0) + TimesOf(s[1..], who)
  }

  ghost predicate Lists(s: seq<Share>, who: Address) {
    exists i :: 0 <= i < |s| && s[i].who == who
  }

  /** The two lists merged by address; nothing if some sum leaves 32 bits. */
  ghost function MergeShares(a: seq<Share>, b: seq<Share>): Option<seq<Share>>
    decreases |a| + |b|
  {
    if a == [] then Some(b)
    else if b == [] then Some(a)
    else if a[0].who == b[0].who then
      if a[0].times + b[0].times >= U32 then None
      else Put(Share(a[0].who, a[0].times + b[0].times), MergeShares(a[1..], b[1..]))
    else if a[0].who < b[0].who then Put(a[0], MergeShares(a[1..], b))
    else Put(b[0], MergeShares(a, b[1..]))
  }

  ghost function Put(x: Share, rest: Option<seq<Share>>): Option<seq<Share>> {
    if rest.None? then None else Some([x] + rest.value)
  }

  /** Some common signer's sum leaves 32 bits. */
  ghost predicate Overflows(a: seq<Share>, b: seq<Share>) {
    exists i, j :: 0 <= i < |a| && 0 <= j < |b| && a[i].who == b[j].who && a[i].times + b[j].times >= U32
  }

  ghost predicate Above(s: seq<Share>, low: Address) {
    forall i :: 0 <= i < |s| ==> low < s[i].who
  }

  lemma TailAscends(s: seq<Share>)
    requires Ascending(s) && s != []
    ensures Ascending(s[1..]) && Above(s[1..], s[0].who)
  {
  }

  lemma PutAscends(x: Share, rest: seq<Share>)
    requires Ascending(rest) && Above(rest, x.who)
    ensures Ascending([x] + rest)
  {
  }

  /** Merging sorted lists gives a sorted list, above whatever both are above. */
  lemma {:induction false} MergeAscends(a: seq<Share>, b: seq<Share>)
    requires Ascending(a) && Ascending(b) && MergeShares(a, b).Some?
    ensures Ascending(MergeShares(a, b).value)
    ensures forall low :: Above(a, low) && Above(b, low) ==> Above(MergeShares(a, b).value, low)
    decreases |a| + |b|
  {
    if a != [] && b != [] {
      TailAscends(a);
      TailAscends(b);
      if a[0].who == b[0].who {
        MergeAscends(a[1..], b[1..]);
        PutAscends(Share(a[0].who, a[0].times + b[0].times), MergeShares(a[1..], b[1..]).value);
      } else if a[0].who < b[0].who {
        MergeAscends(a[1..], b);
        AboveAll(b, a[0].who);
        PutAscends(a[0], MergeShares(a[1..], b).value);
      } else {
        MergeAscends(a, b[1..]);
        AboveAll(a, b[0].who);
        PutAscends(b[0], MergeShares(a, b[1..]).value);
      }
    }
  }

  lemma AboveAll(s: seq<Share>, low: Address)
    requires Ascending(s) && s != [] && low < s[0].who
    ensures Above(s, low)
  {
  }

  /** Multiplicities are added signer by signer. */
  lemma {:induction false} MergeAdds(a: seq<Share>, b: seq<Share>, who: Address)
    requires MergeShares(a, b).Some?
    ensures TimesOf(MergeShares(a, b).value, who) == TimesOf(a, who) + TimesOf(b, who)
    ensures Lists(MergeShares(a, b).value, who) <==> Lists(a, who) || Lists(b, who)
    decreases |a| + |b|
  {
    if a != [] && b != [] {
      ListsTail(a, who);
      ListsTail(b, who);
      if a[0].who == b[0].who {
        MergeAdds(a[1..], b[1..], who);
        PutParts(Share(a[0].who, a[0].times + b[0].times), MergeShares(a[1..], b[1..]).value, who);
      } else if a[0].who < b[0].who {
        MergeAdds(a[1..], b, who);
        PutParts(a[0], MergeShares(a[1..], b).value, who);
      } else {
        MergeAdds(a, b[1..], who);
        PutParts(b[0], MergeShares(a, b[1..]).value, who);
      }
    }
  }

  lemma ListsTail(s: seq<Share>, who: Address)
    requires s != []
    ensures Lists(s, who) <==> s[0].who == who || Lists(s[1..], who)
  {
    if Lists(s, who) {
      var i :| 0 <= i < |s| && s[i].who == who;
      assert i > 0 ==> s[1..][i-1].who == who;
    }
    if Lists(s[1..], who) {
      var i :| 0 <= i < |s[1..]| && s[1..][i].who == who;
      assert s[i+1].who == who;
    }
  }

  lemma PutParts(x: Share, rest: seq<Share>, who: Address)
    ensures TimesOf([x] + rest, who) == (if x.who == who then x.times else 0) + TimesOf(rest, who)
    ensures Lists([x] + rest, who) <==> x.who == who || Lists(rest, who)
  {
    assert ([x] + rest)[1..] == rest;
    ListsTail([x] + rest, who);
  }

  /** The merge fails exactly when some sum leaves 32 bits. */
  lemma {:induction false} MergeFails(a: seq<Share>, b: seq<Share>)
    requires Ascending(a) && Ascending(b)
    ensures MergeShares(a, b).None? <==> Overflows(a, b)
    decreases |a| + |b|
  {
    if a != [] && b != [] {
      TailAscends(a);
      TailAscends(b);
      if a[0].who == b[0].who {
        MergeFails(a[1..], b[1..]);
        OverflowBoth(a, b);
      } else if a[0].who < b[0].who {
        MergeFails(a[1..], b);
        AboveAll(b, a[0].who);
        OverflowLeft(a, b);
      } else {
        MergeFails(a, b[1..]);
        AboveAll(a, b[0].who);
        OverflowRight(a, b);
      }
    }
  }

  lemma HeadMeetsHead(a: seq<Share>, b: seq<Share>, i: nat, j: nat)
    requires i < |a| && j < |b| && a[i].who == b[j].who
    requires a[0].who == b[0].who && Above(a[1..], a[0].who) && Above(b[1..], b[0].who)
    ensures i == 0 <==> j == 0
  {
    assert i == 0 || a[i] == a[1..][i-1];
    assert j == 0 || b[j] == b[1..][j-1];
  }

  lemma OverflowBoth(a: seq<Share>, b: seq<Share>)
    requires a != [] && b != [] && a[0].who == b[0].who && Above(a[1..], a[0].who) && Above(b[1..], b[0].who)
    ensures Overflows(a, b) <==> a[0].times + b[0].times >= U32 || Overflows(a[1..], b[1..])
  {
    if Overflows(a, b) {
      var i, j :| 0 <= i < |a| && 0 <= j < |b| && a[i].who == b[j].who && a[i].times + b[j].times >= U32;
      HeadMeetsHead(a, b, i, j);
      if i > 0 {
        assert a[1..][i-1].who == b[1..][j-1].who;
      }
    }
    if Overflows(a[1..], b[1..]) {
      var i, j :| 0 <= i < |a[1..]| && 0 <= j < |b[1..]| && a[1..][i].who == b[1..][j].who && a[1..][i].times + b[1..][j].times >= U32;
      assert a[i+1].who == b[j+1].who;
    }
  }

  lemma OverflowLeft(a: seq<Share>, b: seq<Share>)
    requires a != [] && Above(b, a[0].who)
    ensures Overflows(a, b) <==> Overflows(a[1..], b)
  {
    if Overflows(a, b) {
      var i, j :| 0 <= i < |a| && 0 <= j < |b| && a[i].who == b[j].who && a[i].times + b[j].times >= U32;
      assert a[1..][i-1].who == b[j].who;
    }
    if Overflows(a[1..], b) {
      var i, j :| 0 <= i < |a[1..]| && 0 <= j < |b| && a[1..][i].who == b[j].who && a[1..][i].times + b[j].times >= U32;
      assert a[i+1].who == b[j].who;
    }
  }

  lemma OverflowRight(a: seq<Share>, b: seq<Share>)
    requires b != [] && Above(a, b[0].who)
    ensures Overflows(a, b) <==> Overflows(a, b[1..])
  {
    if Overflows(a, b) {
      var i, j :| 0 <= i < |a| && 0 <= j < |b| && a[i].who == b[j].who && a[i].times + b[j].times >= U32;
      assert a[i].who == b[1..][j-1].who;
    }
    if Overflows(a, b[1..]) {
      var i, j :| 0 <= i < |a| && 0 <= j < |b[1..]| && a[i].who == b[1..][j].who && a[i].times + b[1..][j].times >= U32;
      assert a[i].who == b[j+1].who;
    }
  }

  // ---- who is new --------------------------------------------------------------------

  /** Whether the merge takes an entry from `b` that has no counterpart in `a`. */
  ghost predicate BringsNew(a: seq<Share>, b: seq<Share>)
    decreases |a| + |b|
  {
    if b == [] then false
    else if a == [] then true
    else if a[0].who == b[0].who then BringsNew(a[1..], b[1..])
    else if a[0].who < b[0].who then BringsNew(a[1..], b)
    else true
  }

  lemma {:induction false} NewIsUnlisted(a: seq<Share>, b: seq<Share>)
    requires Ascending(a) && Ascending(b)
    ensures BringsNew(a, b) <==> exists who :: Lists(b, who) && !Lists(a, who)
    decreases |a| + |b|
  {
    if b == [] {
    } else if a == [] {
      assert Lists(b, b[0].who) && !Lists(a, b[0].who);
    } else {
      TailAscends(a);
      TailAscends(b);
      forall who ensures Lists(a, who) <==> a[0].who == who || Lists(a[1..], who) {
        ListsTail(a, who);
      }
      forall who ensures Lists(b, who) <==> b[0].who == who || Lists(b[1..], who) {
        ListsTail(b, who);
      }
      if a[0].who == b[0].who {
        NewIsUnlisted(a[1..], b[1..]);
        assert !Lists(b[1..], a[0].who);
      } else if a[0].who < b[0].who {
        NewIsUnlisted(a[1..], b);
        AboveAll(b, a[0].who);
        assert !Lists(b, a[0].who);
      } else {
        AboveAll(a, b[0].who);
        assert Lists(b, b[0].who) && !Lists(a, b[0].who);
      }
    }
  }

  lemma {:induction false} MergeLength(a: seq<Share>, b: seq<Share>)
    requires MergeShares(a, b).Some?
    ensures |MergeShares(a, b).value| >= |a| && (|MergeShares(a, b).value| > |a| <==> BringsNew(a, b))
    decreases |a| + |b|
  {
    if a != [] && b != [] {
      if a[0].who == b[0].who {
        MergeLength(a[1..], b[1..]);
      } else if a[0].who < b[0].who {
        MergeLength(a[1..], b);
      } else {
        MergeLength(a, b[1..]);
      }
    }
  }

  ghost function Weights(s: seq<Share>): nat {
    if s == [] then 0 else (if s[0].times != 0 then 1 else 0) + Weights(s[1..])
  }

  /** Whether the merge meets a weight of `b` where `a` has none. */
  ghost predicate AddsWeight(a: seq<Share>, b: seq<Share>)
    decreases |a| + |b|
  {
    if b == [] then false
    else if a == [] then Weights(b) > 0
    else if a[0].who == b[0].who then (a[0].times == 0 && b[0].times != 0) || AddsWeight(a[1..], b[1..])
    else if a[0].who < b[0].who then AddsWeight(a[1..], b)
    else b[0].times != 0 || AddsWeight(a, b[1..])
  }

  lemma {:induction false} MergeWeights(a: seq<Share>, b: seq<Share>)
    requires MergeShares(a, b).Some?
    ensures Weights(MergeShares(a, b).value) >= Weights(a) && (Weights(MergeShares(a, b).value) > Weights(a) <==> AddsWeight(a, b))
    decreases |a| + |b|
  {
    if a != [] && b != [] {
      if a[0].who == b[0].who {
        MergeWeights(a[1..], b[1..]);
        PutWeight(Share(a[0].who, a[0].times + b[0].times), MergeShares(a[1..], b[1..]).value);
      } else if a[0].who < b[0].who {
        MergeWeights(a[1..], b);
        PutWeight(a[0], MergeShares(a[1..], b).value);
      } else {
        MergeWeights(a, b[1..]);
        PutWeight(b[0], MergeShares(a, b[1..]).value);
      }
    }
  }

  lemma PutWeight(x: Share, rest: seq<Share>)
    ensures Weights([x] + rest) == (if x.times != 0 then 1 else 0) + Weights(rest)
  {
    assert ([x] + rest)[1..] == rest;
  }

  lemma {:induction false} NobodyBelow(s: seq<Share>, who: Address)
    requires Above(s, who)
    ensures TimesOf(s, who) == 0
  {
    if s != [] {
      assert s[0].who > who && forall i :: 0 <= i < |s[1..]| ==> s[1..][i] == s[i+1];
      NobodyBelow(s[1..], who);
    }
  }

  lemma {:induction false} WeighsSomething(s: seq<Share>, who: Address)
    requires TimesOf(s, who) > 0
    ensures Weights(s) > 0
  {
    if s[0].times == 0 {
      WeighsSomething(s[1..], who);
    }
  }

  lemma {:induction false} SomeWeight(s: seq<Share>)
    ensures Weights(s) > 0 <==> exists who :: TimesOf(s, who) > 0
  {
    if who :| TimesOf(s, who) > 0 {
      WeighsSomething(s, who);
    } else if Weights(s) > 0 {
      SomeWeight(s[1..]);
      assert s[0].times > 0 ==> TimesOf(s, s[0].who) > 0;
      var who :| TimesOf(s[1..], who) > 0;
      assert TimesOf(s, who) > 0;
    }
  }

  /** Signed in `b` and not in `a`. */
  ghost predicate OnlyIn(a: seq<Share>, b: seq<Share>, who: Address) {
    TimesOf(a, who) == 0 && TimesOf(b, who) > 0
  }

  lemma TimesOfHead(s: seq<Share>, who: Address)
    requires s != []
    ensures TimesOf(s, who) == (if s[0].who == who then s[0].times else 0) + TimesOf(s[1..], who)
  {
  }

  lemma UnsignedBoth(a: seq<Share>, b: seq<Share>)
    requires a != [] && b != [] && a[0].who == b[0].who
    requires TimesOf(a[1..], a[0].who) == 0 && TimesOf(b[1..], a[0].who) == 0
    ensures (exists who :: OnlyIn(a, b, who)) <==>
      (a[0].times == 0 && b[0].times > 0) || exists who :: OnlyIn(a[1..], b[1..], who)
  {
    hide TimesOf;
    var x := a[0].who;
    forall who
      ensures TimesOf(a, who) == (if who == x then a[0].times else 0) + TimesOf(a[1..], who)
      ensures TimesOf(b, who) == (if who == x then b[0].times else 0) + TimesOf(b[1..], who)
    {
      TimesOfHead(a, who);
      TimesOfHead(b, who);
    }
    if a[0].times == 0 && b[0].times > 0 {
      assert OnlyIn(a, b, x);
    }
    if who :| OnlyIn(a[1..], b[1..], who) {
      assert OnlyIn(a, b, who);
    }
    if who :| OnlyIn(a, b, who) {
      assert who != x ==> OnlyIn(a[1..], b[1..], who);
    }
  }

  /** A weight is added exactly when somebody who did not sign `a` signed `b`. */
  lemma {:induction false} WeightIsUnsigned(a: seq<Share>, b: seq<Share>)
    requires Ascending(a) && Ascending(b)
    ensures AddsWeight(a, b) <==> exists who :: OnlyIn(a, b, who)
    decreases |a| + |b|
  {
    hide Ascending;
    if b == [] {
    } else if a == [] {
      SomeWeight(b);
      if who :| TimesOf(b, who) > 0 {
        WeighsSomething(b, who);
        assert OnlyIn(a, b, who);
      }
    } else {
      TailAscends(a);
      TailAscends(b);
      if a[0].who == b[0].who {
        WeightIsUnsigned(a[1..], b[1..]);
        NobodyBelow(a[1..], a[0].who);
        NobodyBelow(b[1..], a[0].who);
        UnsignedBoth(a, b);
      } else if a[0].who < b[0].who {
        WeightIsUnsigned(a[1..], b);
        AboveAll(b, a[0].who);
        NobodyBelow(b, a[0].who);
        assert forall who :: OnlyIn(a, b, who) <==> OnlyIn(a[1..], b, who) by {
          assert forall who :: who != a[0].who ==> TimesOf(a, who) == TimesOf(a[1..], who);
        }
      } else {
        WeightIsUnsigned(a, b[1..]);
        AboveAll(a, b[0].who);
        NobodyBelow(a, b[0].who);
        NobodyBelow(b[1..], b[0].who);
        assert b[0].times != 0 <==> OnlyIn(a, b, b[0].who);
        assert forall who :: who != b[0].who ==> (OnlyIn(a, b, who) <==> OnlyIn(a, b[1..], who)) by {
          assert forall who :: who != b[0].who ==> TimesOf(b, who) == TimesOf(b[1..], who);
        }
        assert !OnlyIn(a, b[1..], b[0].who);
      }
    }
  }

  // ---- weighted keys -----------------------------------------------------------------

  ghost function KeySum<K>(g: Monoid<K>, key: Address -> K, s: seq<Share>): K {
    if s == [] then g.zero else g.add(Times(g, key(s[0].who), s[0].times), KeySum(g, key, s[1..]))
  }

  lemma {:induction false} KeySumSnoc<K(!new)>(g: Monoid<K>, key: Address -> K, s: seq<Share>, x: Share)
    requires IsMonoid(g)
    ensures KeySum(g, key, s + [x]) == g.add(KeySum(g, key, s), Times(g, key(x.who), x.times))
    decreases s
  {
    hide IsMonoid, Times;
    if s == [] {
      assert s + [x] == [x] && [x][1..] == [];
      Zero(g, Times(g, key(x.who), x.times));
    } else {
      assert (s + [x])[1..] == s[1..] + [x];
      KeySumSnoc(g, key, s[1..], x);
      Assoc(g, Times(g, key(s[0].who), s[0].times), KeySum(g, key, s[1..]), Times(g, key(x.who), x.times));
    }
  }

  /** What the aggregated key comes to. */
  lemma {:induction false} WeightedIsKeySum<K(!new)>(g: Monoid<K>, key: Address -> K, addrs: seq<Address>, ms: seq<nat>, keys: seq<K>, n: nat)
    requires IsMonoid(g) && |addrs| == |ms| == |keys| && n <= |ms| && forall i :: 0 <= i < |keys| ==> keys[i] == key(addrs[i])
    ensures Weighted(g, keys, ms, n) == KeySum(g, key, Shares(addrs, ms)[..n])
  {
    hide IsMonoid, Times;
    if n > 0 {
      WeightedIsKeySum(g, key, addrs, ms, keys, n - 1);
      var s := Shares(addrs, ms);
      assert s[..n] == s[..n-1] + [s[n-1]];
      KeySumSnoc(g, key, s[..n-1], s[n-1]);
    }
  }

  lemma AllKeySum<K(!new)>(g: Monoid<K>, key: Address -> K, addrs: seq<Address>, ms: seq<nat>, keys: seq<K>)
    requires IsMonoid(g) && |addrs| == |ms| == |keys| && forall i :: 0 <= i < |keys| ==> keys[i] == key(addrs[i])
    ensures Weighted(g, keys, ms, |keys|) == KeySum(g, key, Shares(addrs, ms))
  {
    hide IsMonoid, KeySum, Times, Weighted;
    WeightedIsKeySum(g, key, addrs, ms, keys, |keys|);
    assert Shares(addrs, ms)[..|keys|] == Shares(addrs, ms);
  }

  lemma KeySumPut<K>(g: Monoid<K>, key: Address -> K, x: Share, rest: seq<Share>)
    ensures KeySum(g, key, [x] + rest) == g.add(Times(g, key(x.who), x.times), KeySum(g, key, rest))
  {
    assert ([x] + rest)[1..] == rest;
  }

  /** The key of the merged vote is the sum of the keys. */
  lemma {:induction false} MergeKeySum<K(!new)>(g: Monoid<K>, key: Address -> K, a: seq<Share>, b: seq<Share>)
    requires IsMonoid(g) && MergeShares(a, b).Some?
    ensures KeySum(g, key, MergeShares(a, b).value) == g.add(KeySum(g, key, a), KeySum(g, key, b))
    decreases |a| + |b|
  {
    hide IsMonoid, Times;
    if a == [] {
      Zero(g, KeySum(g, key, b));
    } else if b == [] {
      Zero(g, KeySum(g, key, a));
    } else {
      var ka, kb := Times(g, key(a[0].who), a[0].times), Times(g, key(b[0].who), b[0].times);
      var sa, sb := KeySum(g, key, a[1..]), KeySum(g, key, b[1..]);
      if a[0].who == b[0].who {
        MergeKeySum(g, key, a[1..], b[1..]);
        KeySumPut(g, key, Share(a[0].who, a[0].times + b[0].times), MergeShares(a[1..], b[1..]).value);
        TimesAdd(g, key(a[0].who), a[0].times, b[0].times);
        Interchange(g, ka, kb, sa, sb);
      } else if a[0].who < b[0].who {
        MergeKeySum(g, key, a[1..], b);
        KeySumPut(g, key, a[0], MergeShares(a[1..], b).value);
        Assoc(g, ka, sa, KeySum(g, key, b));
      } else {
        MergeKeySum(g, key, a, b[1..]);
        KeySumPut(g, key, b[0], MergeShares(a, b[1..]).value);
        Comm(g, kb, g.add(KeySum(g, key, a), sb));
        Assoc(g, KeySum(g, key, a), sb, kb);
        Comm(g, sb, kb);
      }
    }
  }

  // ---- votes -------------------------------------------------------------------------

  ghost predicate Paired<S>(v: Votes<S>) {
    |v.addresses| == |v.multiplies| && forall i :: 0 <= i < |v.multiplies| ==> v.multiplies[i] < U32
  }

  ghost predicate ValidVotes<K(!new), S(!new)>(b: Scheme<Hash, K, S>, v: Votes<S>, pool: EdgePool<K>) {
    && v.signature.Some? && v.addresses != [] && |v.addresses| == |v.multiplies| && Sorted(v.addresses)
    && (forall i :: 0 <= i < |v.addresses| ==> pool.selected(v.block, v.addresses[i]))
    && Verify(b, v.signature.value, v.block, KeySum(b.keys, pool.key, Shares(v.addresses, v.multiplies)))
  }

  method Validate<K(!new), S(!new, ==)>(b: Scheme<Hash, K, S>, v: Votes<S>, pool: EdgePool<K>) returns (ok: bool)
    requires IsScheme(b)
    ensures ok == ValidVotes(b, v, pool)
  {
    hide IsScheme, IsMonoid, KeySum, Times, Shares, Weighted, Verify;
    MonoidsOf(b);
    if v.signature.None? || |v.addresses| == 0 || |v.addresses| != |v.multiplies| {
      return false;
    }
    for i := 0 to |v.addresses| - 1
      invariant Sorted(v.addresses[..i+1])
    {
      if v.addresses[i] >= v.addresses[i+1] {
        return false;
      }
      SortedSnoc(v.addresses, i + 1);
    }
    assert v.addresses[..|v.addresses|] == v.addresses;
    for i := 0 to |v.addresses|
      invariant forall j :: 0 <= j < i ==> pool.selected(v.block, v.addresses[j])
    {
      if !pool.selected(v.block, v.addresses[i]) {
        return false;
      }
    }
    var keys := seq(|v.addresses|, i requires 0 <= i < |v.addresses| => pool.key(v.addresses[i]));
    var key := AggregateVec(b.keys, keys, v.multiplies);
    AllKeySum(b.keys, pool.key, v.addresses, v.multiplies, keys);
    ok := Verify(b, v.signature.value, v.block, key);
  }

  lemma SortedSnoc(addrs: seq<Address>, n: nat)
    requires 1 <= n < |addrs| && Sorted(addrs[..n]) && addrs[n-1] < addrs[n]
    ensures Sorted(addrs[..n+1])
  {
    forall i, j | 0 <= i < j < n + 1 ensures addrs[i] < addrs[j] {
      assert j < n ==> addrs[..n][i] < addrs[..n][j];
      assert j == n && i < n - 1 ==> addrs[..n][i] < addrs[..n][n-1];
    }
  }

  datatype MergeResult<+S> = Merged(votes: Votes<S>) | NothingNew | Failed

  /** Where the two-pointer merge stands. */
  ghost predicate MergingAt(a: seq<Share>, b: seq<Share>, i: nat, j: nat, addrs: seq<Address>, ms: seq<nat>, isSubset: bool) {
    && i <= |a| && j <= |b| && |addrs| == |ms|
    && MergeShares(a, b) == Behind(Shares(addrs, ms), MergeShares(a[i..], b[j..]))
    && (BringsNew(a, b) <==> !isSubset || BringsNew(a[i..], b[j..]))
  }

  ghost function Behind(front: seq<Share>, rest: Option<seq<Share>>): Option<seq<Share>> {
    if rest.None? then None else Some(front + rest.value)
  }

  lemma MergeStart(a: seq<Share>, b: seq<Share>)
    ensures MergingAt(a, b, 0, 0, [], [], true)
  {
    assert a[0..] == a && b[0..] == b && Shares([], []) == [];
    if MergeShares(a, b).Some? {
      assert [] + MergeShares(a, b).value == MergeShares(a, b).value;
    }
  }

  /** One turn of the merge loop: the next entry, or an overflow. */
  lemma TakeBoth(a: seq<Share>, b: seq<Share>, i: nat, j: nat, addrs: seq<Address>, ms: seq<nat>, isSubset: bool)
    requires MergingAt(a, b, i, j, addrs, ms, isSubset) && i < |a| && j < |b| && a[i].who == b[j].who
    ensures a[i].times + b[j].times >= U32 ==> MergeShares(a, b).None?
    ensures a[i].times + b[j].times < U32 ==>
      MergingAt(a, b, i + 1, j + 1, addrs + [a[i].who], ms + [a[i].times + b[j].times], isSubset)
  {
    hide MergeShares, BringsNew, Behind, Put, Shares;
    HeadsMeet(a[i..], b[j..]);
    Cut(a, i);
    Cut(b, j);
    if a[i].times + b[j].times >= U32 {
      NothingBehind(Shares(addrs, ms));
    } else {
      PutBehind(addrs, ms, Share(a[i].who, a[i].times + b[j].times), MergeShares(a[i+1..], b[j+1..]));
    }
  }

  lemma Cut(s: seq<Share>, i: nat)
    requires i < |s|
    ensures s[i..][0] == s[i] && s[i..][1..] == s[i+1..]
  {
  }

  lemma HeadsMeet(a: seq<Share>, b: seq<Share>)
    requires a != [] && b != [] && a[0].who == b[0].who
    ensures BringsNew(a, b) == BringsNew(a[1..], b[1..])
    ensures MergeShares(a, b) == if a[0].times + b[0].times >= U32 then None
      else Put(Share(a[0].who, a[0].times + b[0].times), MergeShares(a[1..], b[1..]))
  {
  }

  lemma NothingBehind(front: seq<Share>)
    ensures Behind(front, None) == None
  {
  }

  lemma TakeLeft(a: seq<Share>, b: seq<Share>, i: nat, j: nat, addrs: seq<Address>, ms: seq<nat>, isSubset: bool)
    requires MergingAt(a, b, i, j, addrs, ms, isSubset) && i < |a| && j < |b| && a[i].who < b[j].who
    ensures MergingAt(a, b, i + 1, j, addrs + [a[i].who], ms + [a[i].times], isSubset)
  {
    Cut(a, i);
    Cut(b, j);
    PutBehind(addrs, ms, a[i], MergeShares(a[i+1..], b[j..]));
  }

  lemma TakeRight(a: seq<Share>, b: seq<Share>, i: nat, j: nat, addrs: seq<Address>, ms: seq<nat>, isSubset: bool)
    requires MergingAt(a, b, i, j, addrs, ms, isSubset) && i < |a| && j < |b| && a[i].who > b[j].who
    ensures MergingAt(a, b, i, j + 1, addrs + [b[j].who], ms + [b[j].times], false)
  {
    Cut(a, i);
    Cut(b, j);
    PutBehind(addrs, ms, b[j], MergeShares(a[i..], b[j+1..]));
  }

  lemma PutBehind(addrs: seq<Address>, ms: seq<nat>, x: Share, rest: Option<seq<Share>>)
    requires |addrs| == |ms|
    ensures Behind(Shares(addrs, ms), Put(x, rest)) == Behind(Shares(addrs + [x.who], ms + [x.times]), rest)
  {
    SharesSnoc(addrs, ms, x);
    if rest.Some? {
      Regroup(Shares(addrs, ms), [x], rest.value);
    }
  }

  lemma SharesSnoc(addrs: seq<Address>, ms: seq<nat>, x: Share)
    requires |addrs| == |ms|
    ensures Shares(addrs + [x.who], ms + [x.times]) == Shares(addrs, ms) + [x]
  {
  }

  lemma SharesRest(addrs: seq<Address>, ms: seq<nat>, more: seq<Address>, mores: seq<nat>, i: nat)
    requires |addrs| == |ms| && |more| == |mores| && i <= |more|
    ensures Shares(addrs + more[i..], ms + mores[i..]) == Shares(addrs, ms) + Shares(more, mores)[i..]
  {
  }

  /** When one list is used up, the rest of the other follows. */
  lemma MergeEnd(a: seq<Share>, b: seq<Share>, i: nat, j: nat, addrs: seq<Address>, ms: seq<nat>, isSubset: bool)
    requires MergingAt(a, b, i, j, addrs, ms, isSubset) && (i == |a| || j == |b|)
    ensures MergeShares(a, b) == Some(Shares(addrs, ms) + (if i == |a| then b[j..] else a[i..]))
    ensures BringsNew(a, b) <==> !isSubset || j < |b|
  {
    if i == |a| {
      assert a[i..] == [];
    } else {
      assert b[j..] == [];
    }
  }

  /** Merges two votes on one block, walking both sorted lists at once. */
  method Merge<K, S>(b: Scheme<Hash, K, S>, v: Votes<S>, w: Votes<S>) returns (r: MergeResult<S>)
    requires Paired(v) && Paired(w) && v.signature.Some? && w.signature.Some?
    ensures
      var x, y := Shares(v.addresses, v.multiplies), Shares(w.addresses, w.multiplies);
      && (r.Failed? <==> v.block != w.block || MergeShares(x, y).None?)
      && (r.NothingNew? <==> !r.Failed? && !BringsNew(x, y))
      && (r.Merged? ==> |r.votes.addresses| == |r.votes.multiplies| && MergeShares(x, y) == Some(Shares(r.votes.addresses, r.votes.multiplies)))
    ensures r.Merged? ==> Paired(r.votes) && r.votes.block == v.block && r.votes.signature == Some(b.sigs.add(v.signature.value, w.signature.value))
  {
    hide MergeShares, BringsNew, Behind;
    if v.block != w.block {
      return Failed;
    }
    ghost var x, y := Shares(v.addresses, v.multiplies), Shares(w.addresses, w.multiplies);
    var ms: seq<nat>, addrs: seq<Address> := [], [];
    var isSubset, i, j := true, 0, 0;
    MergeStart(x, y);
    while i < |v.addresses| && j < |w.addresses|
      invariant 0 <= i <= |v.addresses| && 0 <= j <= |w.addresses| && MergingAt(x, y, i, j, addrs, ms, isSubset)
      invariant forall k :: 0 <= k < |ms| ==> ms[k] < U32
      decreases |v.addresses| + |w.addresses| - i - j
    {
      if v.addresses[i] == w.addresses[j] {
        TakeBoth(x, y, i, j, addrs, ms, isSubset);
        var sum := (v.multiplies[i] + w.multiplies[j]) % U32;
        if sum < v.multiplies[i] || sum < w.multiplies[j] {
          return Failed;
        }
        addrs, ms := addrs + [v.addresses[i]], ms + [sum];
        i, j := i + 1, j + 1;
      } else if v.addresses[i] < w.addresses[j] {
        TakeLeft(x, y, i, j, addrs, ms, isSubset);
        addrs, ms := addrs + [v.addresses[i]], ms + [v.multiplies[i]];
        i := i + 1;
      } else {
        TakeRight(x, y, i, j, addrs, ms, isSubset);
        addrs, ms := addrs + [w.addresses[j]], ms + [w.multiplies[j]];
        j, isSubset := j + 1, false;
      }
    }
    MergeEnd(x, y, i, j, addrs, ms, isSubset);
    SharesRest(addrs, ms, v.addresses, v.multiplies, i);
    SharesRest(addrs, ms, w.addresses, w.multiplies, j);
    assert i == |x| && j == |y| ==> Shares(addrs, ms) + y[j..] == Shares(addrs, ms);
    if i < |v.addresses| {
      addrs, ms := addrs + v.addresses[i..], ms + v.multiplies[i..];
    }
    if j < |w.addresses| {
      addrs, ms, isSubset := addrs + w.addresses[j..], ms + w.multiplies[j..], false;
    }
    if isSubset {
      return NothingNew;
    }
    r := Merged(Votes(v.block, ms, addrs, Some(b.sigs.add(v.signature.value, w.signature.value))));
  }

  lemma SharesAscend(addrs: seq<Address>, ms: seq<nat>)
    requires |addrs| == |ms|
    ensures Ascending(Shares(addrs, ms)) <==> Sorted(addrs)
  {
    var s := Shares(addrs, ms);
    assert forall i :: 0 <= i < |s| ==> s[i].who == addrs[i];
  }

  /** `r` is `v` merged with `w`. */
  ghost predicate IsMerge<K, S>(b: Scheme<Hash, K, S>, v: Votes<S>, w: Votes<S>, r: Votes<S>) {
    && Paired(v) && Paired(w) && Paired(r) && v.signature.Some? && w.signature.Some?
    && r.block == v.block == w.block && r.signature == Some(b.sigs.add(v.signature.value, w.signature.value))
    && MergeShares(Shares(v.addresses, v.multiplies), Shares(w.addresses, w.multiplies)) == Some(Shares(r.addresses, r.multiplies))
  }

  /** Merging two valid votes gives a valid vote. */
  lemma MergedIsValid<K(!new), S(!new)>(b: Scheme<Hash, K, S>, v: Votes<S>, w: Votes<S>, r: Votes<S>, pool: EdgePool<K>)
    requires IsScheme(b) && ValidVotes(b, v, pool) && ValidVotes(b, w, pool) && IsMerge(b, v, w, r)
    ensures ValidVotes(b, r, pool)
  {
    hide IsScheme, MergeShares, KeySum;
    var x, y, z := Shares(v.addresses, v.multiplies), Shares(w.addresses, w.multiplies), Shares(r.addresses, r.multiplies);
    MonoidsOf(b);
    MergeKeySum(b.keys, pool.key, x, y);
    SignaturesAdd(b, v.block, v.signature.value, KeySum(b.keys, pool.key, x), w.signature.value, KeySum(b.keys, pool.key, y));
    SharesAscend(v.addresses, v.multiplies);
    SharesAscend(w.addresses, w.multiplies);
    MergeAscends(x, y);
    SharesAscend(r.addresses, r.multiplies);
    MergeLength(x, y);
    forall i | 0 <= i < |r.addresses| ensures pool.selected(r.block, r.addresses[i]) {
      assert z[i].who == r.addresses[i];
      MergeAdds(x, y, r.addresses[i]);
    }
  }

  lemma MonoidsOf<K(!new), S(!new)>(b: Scheme<Hash, K, S>)
    requires IsScheme(b)
    ensures IsMonoid(b.keys)
  {
  }

  /** How many addresses carry a weight. */
  method Abs<S>(v: Votes<S>) returns (n: nat)
    requires Paired(v)
    ensures n == Weights(Shares(v.addresses, v.multiplies))
  {
    n := 0;
    ghost var s := Shares(v.addresses, v.multiplies);
    for i := 0 to |v.multiplies|
      invariant n + Weights(s[i..]) == Weights(s)
    {
      assert s[i..][0] == s[i] && s[i..][1..] == s[i+1..];
      if v.multiplies[i] != 0 {
        n := n + 1;
      }
    }
  }

  /** What a merge does to the count: it rises exactly when `w` has a signer that `v` has not. */
  lemma MergedCount<K, S>(b: Scheme<Hash, K, S>, v: Votes<S>, w: Votes<S>, r: Votes<S>)
    requires IsMerge(b, v, w, r) && Sorted(v.addresses) && Sorted(w.addresses)
    ensures
      var x, y, z := Shares(v.addresses, v.multiplies), Shares(w.addresses, w.multiplies), Shares(r.addresses, r.multiplies);
      && Weights(x) <= Weights(z) && (Weights(x) < Weights(z) <==> exists who :: OnlyIn(x, y, who))
      && |v.addresses| <= |r.addresses| && (|v.addresses| < |r.addresses| <==> exists who :: Lists(y, who) && !Lists(x, who))
  {
    hide MergeShares, Weights, Lists, TimesOf;
    var x, y := Shares(v.addresses, v.multiplies), Shares(w.addresses, w.multiplies);
    SharesAscend(v.addresses, v.multiplies);
    SharesAscend(w.addresses, w.multiplies);
    MergeWeights(x, y);
    WeightIsUnsigned(x, y);
    MergeLength(x, y);
    NewIsUnlisted(x, y);
  }

  /** A vote that lists a second address with multiplicity zero is valid, so a merge can add an address
      without adding a signer. */
  lemma MergeCanAddNobody<K(!new), S(!new)>(b: Scheme<Hash, K, S>, pool: EdgePool<K>, block: Hash, x: Address, y: Address)
    requires IsScheme(b) && x < y && pool.selected(block, x) && pool.selected(block, y)
    ensures
      var sig := b.image(block, pool.key(x));
      var v, w := Votes(block, [1], [x], Some(sig)), Votes(block, [1, 0], [x, y], Some(sig));
      var r := Votes(block, [2, 0], [x, y], Some(b.sigs.add(sig, sig)));
      && ValidVotes(b, v, pool) && ValidVotes(b, w, pool) && IsMerge(b, v, w, r) && BringsNew(Shares([x], [1]), Shares([x, y], [1, 0]))
      && Weights(Shares(r.addresses, r.multiplies)) == Weights(Shares(v.addresses, v.multiplies))
  {
    hide IsScheme, KeySum, Times, Shares, MergeShares, Weights, BringsNew;
    MonoidsOf(b);
    OneIsValid(b, Votes(block, [1], [x], Some(b.image(block, pool.key(x)))), pool, x, 1);
    MultiplesOf(b.keys, pool.key(x));
    KeyOfTwo(b.keys, pool.key, x, y);
    NothingAdded(x, y);
  }

  lemma KeyOfTwo<K(!new)>(g: Monoid<K>, key: Address -> K, x: Address, y: Address)
    requires IsMonoid(g)
    ensures KeySum(g, key, Shares([x, y], [1, 0])) == key(x)
  {
    hide IsMonoid, Times;
    MultiplesOf(g, key(x));
    MultiplesOf(g, key(y));
    KeyOfOne(g, key, x, 1);
    assert Shares([x, y], [1, 0]) == Shares([x], [1]) + [Share(y, 0)];
    KeySumSnoc(g, key, Shares([x], [1]), Share(y, 0));
    Zero(g, key(x));
  }

  lemma OneIsValid<K(!new), S(!new)>(b: Scheme<Hash, K, S>, v: Votes<S>, pool: EdgePool<K>, who: Address, n: nat)
    requires IsScheme(b) && pool.selected(v.block, who) && v.addresses == [who] && v.multiplies == [n] && v.signature.Some?
    ensures ValidVotes(b, v, pool) <==> Verify(b, v.signature.value, v.block, Times(b.keys, pool.key(who), n))
  {
    hide IsScheme, KeySum, Times, Shares, Verify;
    MonoidsOf(b);
    KeyOfOne(b.keys, pool.key, who, n);
  }

  lemma NothingAdded(x: Address, y: Address)
    requires x < y
    ensures MergeShares(Shares([x], [1]), Shares([x, y], [1, 0])) == Some(Shares([x, y], [2, 0])) && BringsNew(Shares([x], [1]), Shares([x, y], [1, 0]))
    ensures Weights(Shares([x, y], [2, 0])) == Weights(Shares([x], [1])) == 1
  {
    var a, b := Shares([x], [1]), Shares([x, y], [1, 0]);
    assert a == [Share(x, 1)] && b == [Share(x, 1), Share(y, 0)] && a[1..] == [] && b[1..] == [Share(y, 0)];
    assert MergeShares([], [Share(y, 0)]) == Some([Share(y, 0)]);
    assert Shares([x, y], [2, 0]) == [Share(x, 2)] + [Share(y, 0)];
    PutWeight(Share(x, 2), [Share(y, 0)]);
  }

  lemma MultiplesOf<K(!new)>(g: Monoid<K>, k: K)
    requires IsMonoid(g)
    ensures Times(g, k, 0) == g.zero && Times(g, k, 1) == k
  {
    Zero(g, k);
  }

  lemma KeyOfOne<K(!new)>(g: Monoid<K>, key: Address -> K, who: Address, n: nat)
    requires IsMonoid(g)
    ensures KeySum(g, key, Shares([who], [n])) == Times(g, key(who), n)
  {
    hide IsMonoid, Times;
    var s := Shares([who], [n]);
    assert s[1..] == [];
    Zero(g, Times(g, key(who), n));
  }

  // ---- the engine --------------------------------------------------------------------

  /** A single edge node's vote. */
  datatype Vote<+S> = Vote(block: Hash, address: Address, signature: S)

  /** A vote whose own signature verifies becomes a valid aggregate with that one signer. */
  lemma ConvertedIsValid<K(!new), S(!new)>(b: Scheme<Hash, K, S>, vote: Vote<S>, pool: EdgePool<K>)
    requires IsScheme(b) && pool.selected(vote.block, vote.address)
    ensures ValidVotes(b, Convert(vote), pool) <==> Verify(b, vote.signature, vote.block, pool.key(vote.address))
  {
    hide IsScheme;
    MonoidsOf(b);
    OneIsValid(b, Convert(vote), pool, vote.address, 1);
    MultiplesOf(b.keys, pool.key(vote.address));
  }

  function Convert<S>(vote: Vote<S>): Votes<S> {
    Votes(vote.block, [1], [vote.address], Some(vote.signature))
  }

  ghost predicate Fits<K(!new), S(!new)>(b: Scheme<Hash, K, S>, v: Votes<S>, block: Hash, pool: EdgePool<K>) {
    ValidVotes(b, v, pool) && Paired(v) && v.block == block
  }

  ghost predicate Improves<K, S>(b: Scheme<Hash, K, S>, before: Votes<S>, vote: Votes<S>, after: Votes<S>) {
    && IsMerge(b, before, vote, after) && |after.addresses| > |before.addresses|
    && Weights(Shares(after.addresses, after.multiplies)) >= Weights(Shares(before.addresses, before.multiplies))
  }

  class EdgeEngine<K(!new), S(!new, ==)> {
    const scheme: Scheme<Hash, K, S>
    var block: Hash
    var round: nat
    var currVote: Option<Votes<S>>
    var nextVote: Option<Votes<S>>
    var pool: Option<EdgePool<K>>
    /** Aggregates waiting to be processed. */
    var incoming: seq<Votes<S>>

    ghost predicate Valid()
      reads this
    {
      && IsScheme(scheme)
      && (nextVote.Some? ==> pool.Some? && Fits(scheme, nextVote.value, block, pool.value))
      && (currVote.Some? ==> pool.Some? && Fits(scheme, currVote.value, block, pool.value))
    }

    constructor (scheme: Scheme<Hash, K, S>)
      requires IsScheme(scheme)
      ensures Valid() && block == EMPTY_HASH && nextVote.None?
    {
      this.scheme := scheme;
      block, round, currVote, nextVote, pool, incoming := EMPTY_HASH, 0, None, None, None, [];
    }

    method StartNewBlock(newBlock: Hash, newPool: EdgePool<K>)
      requires Valid()
      modifies this
      ensures Valid() && block == newBlock && pool == Some(newPool) && round == 1 && incoming == old(incoming)
      ensures nextVote.None? && currVote.None?
    {
      block, round, nextVote, currVote, pool := newBlock, 1, None, None, Some(newPool);
    }

    method StartNewRound()
      requires Valid()
      modifies this`round, this`currVote
      ensures Valid() && round == (if old(round) < 20 then old(round) + 1 else old(round))
      ensures currVote == if old(round) < 20 && nextVote.Some? then nextVote else old(currVote)
    {
      if round < MAX_ROUND {
        round := round + 1;
        if nextVote.Some? {
          currVote := nextVote;
        }
      }
    }

    /** What is queued for aggregation has a signer drawn for the block and a signature that
        verifies; as an aggregate it is valid. */
    method ProcessVote(vote: Vote<S>)
      requires Valid()
      modifies this`incoming
      ensures Valid()
      ensures
        var ok := pool.Some? && block != EMPTY_HASH && vote.block == block && pool.value.selected(block, vote.address)
          && Verify(scheme, vote.signature, block, pool.value.key(vote.address));
        incoming == (if ok then old(incoming) + [Convert(vote)] else old(incoming)) && (ok ==> Fits(scheme, Convert(vote), block, pool.value))
    {
      hide IsScheme, ValidVotes;
      if pool.None? || block == EMPTY_HASH || vote.block != block {
        return;
      }
      if !pool.value.selected(vote.block, vote.address) {
        return;
      }
      ConvertedIsValid(scheme, vote, pool.value);
      if !Verify(scheme, vote.signature, vote.block, pool.value.key(vote.address)) {
        return;
      }
      incoming := incoming + [Convert(vote)];
    }

    /** Whether an aggregate is looked at. */
    ghost predicate Accepts(vote: Votes<S>)
      reads this
    {
      pool.Some? && block != EMPTY_HASH && vote.block == block && ValidVotes(scheme, vote, pool.value)
    }

    method ValidateAggregatedVote(vote: Votes<S>) returns (ok: bool)
      requires Valid()
      ensures ok == Accepts(vote)
    {
      hide ValidVotes;
      if pool.None? || block == EMPTY_HASH || vote.block != block {
        return false;
      }
      ok := Validate(scheme, vote, pool.value);
    }

    /** The best vote takes in an aggregate. It stays valid, and when it is replaced it lists more
        addresses and counts at least as many signers. */
    method ProcessAggregatedVote(vote: Votes<S>)
      requires Valid() && forall i :: 0 <= i < |vote.multiplies| ==> vote.multiplies[i] < U32
      modifies this`nextVote
      ensures Valid()
      ensures !Accepts(vote) ==> nextVote == old(nextVote)
      ensures Accepts(vote) && old(nextVote).None? ==> nextVote == Some(vote)
      ensures Accepts(vote) && old(nextVote).Some? ==>
        && nextVote.Some? && |vote.addresses| == |vote.multiplies|
        && var x, y := Shares(old(nextVote).value.addresses, old(nextVote).value.multiplies), Shares(vote.addresses, vote.multiplies);
        if Overflows(x, y) || !BringsNew(x, y) then nextVote == old(nextVote) else Improves(scheme, old(nextVote).value, vote, nextVote.value)
    {
      hide IsScheme, ValidVotes, MergeShares, BringsNew, Weights, Overflows, Sorted;
      var ok := ValidateAggregatedVote(vote);
      if !ok {
        return;
      }
      ValidIsPaired(scheme, vote, pool.value);
      if nextVote.None? {
        nextVote := Some(vote);
        return;
      }
      ValidIsPaired(scheme, nextVote.value, pool.value);
      SharesAscend(nextVote.value.addresses, nextVote.value.multiplies);
      SharesAscend(vote.addresses, vote.multiplies);
      MergeFails(Shares(nextVote.value.addresses, nextVote.value.multiplies), Shares(vote.addresses, vote.multiplies));
      var candidate := Merge(scheme, nextVote.value, vote);
      if candidate.Merged? {
        MergedIsValid(scheme, nextVote.value, vote, candidate.votes, pool.value);
        MergedCount(scheme, nextVote.value, vote, candidate.votes);
        MergeLength(Shares(nextVote.value.addresses, nextVote.value.multiplies), Shares(vote.addresses, vote.multiplies));
        nextVote := Some(candidate.votes);
      }
    }
  }

  lemma ValidIsPaired<K(!new), S(!new)>(b: Scheme<Hash, K, S>, v: Votes<S>, pool: EdgePool<K>)
    requires ValidVotes(b, v, pool)
    ensures v.signature.Some? && |v.addresses| == |v.multiplies| && Sorted(v.addresses)
  {
  }
}
