/** Block headers as bytes: three layouts, one per fork (core/block.go). Items stand for their
    encodings, which RlpSpec shows to be interchangeable. */
module Header {
  import opened Common
  import opened RlpSpec
  import opened RlpDecode

  const THETA2: nat := 5877350
  const THETA3: nat := 10968061

  type Bytes = seq<Byte>

  datatype Vote = Vote(block: Bytes, height: nat, epoch: nat, id: Bytes, signature: Option<Bytes>)

  /** A vote set holds one vote for each voter, block and epoch. */
  datatype VoteKey = VoteKey(id: Bytes, block: Bytes, epoch: nat)

  type Votes = map<VoteKey, Vote>

  function KeyOf(v: Vote): VoteKey { VoteKey(v.id, v.block, v.epoch) }

  datatype Aggregate = Aggregate(block: Bytes, gcp: Bytes, multiplies: seq<nat>, signature: Bytes)

  datatype EdgeAggregate = EdgeAggregate(block: Bytes, multiplies: seq<nat>, addresses: seq<Bytes>, signature: Bytes)

  datatype Header = Header(
    chainId: Bytes,
    epoch: nat,
    height: nat,
    parent: Bytes,
    hccVotes: Option<Votes>,
    hccBlock: Bytes,
    txHash: Bytes,
    receiptHash: Bytes,
    bloom: Bytes,
    stateHash: Bytes,
    timestamp: Option<nat>,
    proposer: Bytes,
    signature: Option<Bytes>,
    guardianVotes: Option<Aggregate>,
    edgeVotes: Option<EdgeAggregate>)

  // ---- well-formed values ------------------------------------------------------------

  predicate IsHash(b: Bytes) { |b| == 32 }

  predicate IsAddress(b: Bytes) { |b| == 20 }

  predicate VoteOk(v: Vote) {
    IsHash(v.block) && v.height < U64 && v.epoch < U64 && IsAddress(v.id)
  }

  ghost predicate VotesOk(m: Votes) {
    forall k :: k in m ==> KeyOf(m[k]) == k && VoteOk(m[k])
  }

  /** No voter has two votes in the set, as in a certificate of an honest proposer. */
  ghost predicate OnePerVoter(m: Votes) {
    forall j, k :: j in m && k in m && m[j].id == m[k].id ==> j == k
  }

  predicate Uint32s(ms: seq<nat>) {
    forall i :: 0 <= i < |ms| ==> ms[i] < 0x1_0000_0000
  }

  /** An aggregate with a signature in it that the curve library accepts. */
  ghost predicate AggregateOk(a: Aggregate, accepted: Bytes -> bool) {
    IsHash(a.block) && IsHash(a.gcp) && Uint32s(a.multiplies) && a.signature != [] && accepted(a.signature)
  }

  ghost predicate EdgeOk(a: EdgeAggregate, accepted: Bytes -> bool) {
    && IsHash(a.block) && Uint32s(a.multiplies) && a.signature != [] && accepted(a.signature)
    && forall i :: 0 <= i < |a.addresses| ==> IsAddress(a.addresses[i])
  }

  ghost predicate HeaderOk(h: Header, accepted: Bytes -> bool) {
    && h.epoch < U64 && h.height < U64 && IsHash(h.parent) && IsHash(h.hccBlock) && IsHash(h.txHash) && IsHash(h.receiptHash)
    && |h.bloom| == 256 && IsHash(h.stateHash) && IsAddress(h.proposer)
    && (h.hccVotes.Some? ==> VotesOk(h.hccVotes.value))
    && (h.guardianVotes.Some? ==> AggregateOk(h.guardianVotes.value, accepted))
    && (h.edgeVotes.Some? ==> EdgeOk(h.edgeVotes.value, accepted))
  }

  // ---- items -------------------------------------------------------------------------

  function IntItem(v: nat): Item { Str(IntString(v)) }

  /** A missing signature or time is written like an empty one. */
  function OptBytes(b: Option<Bytes>): Item { Str(if b.Some? then b.value else []) }

  function VoteItem(v: Vote): Item {
    Item.List([Str(v.block), IntItem(v.height), IntItem(v.epoch), Str(v.id), OptBytes(v.signature)])
  }

  function VoteItems(vs: seq<Vote>): seq<Item> {
    if vs == [] then [] else [VoteItem(vs[0])] + VoteItems(vs[1..])
  }

  function IntItems(ms: seq<nat>): seq<Item> {
    if ms == [] then [] else [IntItem(ms[0])] + IntItems(ms[1..])
  }

  function StrItems(bs: seq<Bytes>): seq<Item> {
    if bs == [] then [] else [Str(bs[0])] + StrItems(bs[1..])
  }

  /** `vs` are the votes of `m`, lowest voter first. Votes of one voter may stand in any order: the
      set is walked in no fixed order before it is sorted by voter. */
  ghost predicate Lists(vs: seq<Vote>, m: Votes)
    decreases vs
  {
    if vs == [] then m == map[] else
      && KeyOf(vs[0]) in m && m[KeyOf(vs[0])] == vs[0] && Lowest(vs[0].id, m)
      && Lists(vs[1..], m - {KeyOf(vs[0])})
  }

  ghost predicate Lowest(id: Bytes, m: Votes) {
    forall k :: k in m ==> FromBigEndian(id) <= FromBigEndian(m[k].id)
  }

  lemma LowestExists(m: Votes) returns (k: VoteKey)
    requires |m| > 0
    ensures k in m && Lowest(m[k].id, m)
    decreases |m|
  {
    var j :| j in m;
    k := j;
    if |m - {j}| > 0 {
      var other := LowestExists(m - {j});
      k := if FromBigEndian(m[j].id) <= FromBigEndian(m[other].id) then j else other;
      assert forall i :: i in m ==> i == j || i in m - {j};
    } else {
      assert forall i :: i in m && i != j ==> i in m - {j};
    }
  }

  /** Puts a vote of a lowest voter in front. */
  lemma ListsCons(m: Votes, k: VoteKey, rest: seq<Vote>)
    requires VotesOk(m) && k in m && Lowest(m[k].id, m) && Lists(rest, m - {k})
    ensures Lists([m[k]] + rest, m)
  {
    assert ([m[k]] + rest)[1..] == rest;
  }

  lemma {:induction false} SomeOrder(m: Votes) returns (vs: seq<Vote>)
    requires VotesOk(m)
    ensures Lists(vs, m)
    decreases |m|
  {
    vs := [];
    if |m| > 0 {
      var k := LowestExists(m);
      var rest := SomeOrder(m - {k});
      ListsCons(m, k, rest);
      vs := [m[k]] + rest;
    }
  }

  function HccItem(vs: seq<Vote>, block: Bytes): Item {
    Item.List([Item.List(VoteItems(vs)), Str(block)])
  }

  function AggregateItem(a: Aggregate): Item {
    Item.List([Str(a.block), Str(a.gcp), Item.List(IntItems(a.multiplies)), Str(a.signature)])
  }

  function EdgeItem(a: EdgeAggregate): Item {
    Item.List([Str(a.block), Item.List(IntItems(a.multiplies)), Item.List(StrItems(a.addresses)), Str(a.signature)])
  }

  /** What "c0" stands for. */
  const NOTHING: Item := Item.List([])

  function GuardianItem(h: Header): Item {
    if h.guardianVotes.None? then NOTHING else AggregateItem(h.guardianVotes.value)
  }

  function EdgeNodeItem(h: Header): Item {
    if h.edgeVotes.None? then NOTHING else EdgeItem(h.edgeVotes.value)
  }

  ghost function VotesOf(h: Header): Votes {
    if h.hccVotes.Some? then h.hccVotes.value else map[]
  }

  /** The fields that every fork writes, with the certificate's votes in the order `vs`. */
  function CommonItems(h: Header, vs: seq<Vote>): seq<Item> {
    [Str(h.chainId), IntItem(h.epoch), IntItem(h.height), Str(h.parent), HccItem(vs, h.hccBlock), Str(h.txHash),
     Str(h.receiptHash), Str(h.bloom), Str(h.stateHash), IntItem(if h.timestamp.Some? then h.timestamp.value else 0),
     Str(h.proposer), OptBytes(h.signature)]
  }

  function HeaderItem(h: Header, vs: seq<Vote>): Item {
    Item.List(CommonItems(h, vs)
      + (if h.height >= THETA2 then [GuardianItem(h)] else [])
      + (if h.height >= THETA3 then [EdgeNodeItem(h)] else []))
  }

  function EncodeHeader(h: Header, vs: seq<Vote>): Bytes {
    Encode(HeaderItem(h, vs))
  }

  // ---- reading items -----------------------------------------------------------------

  function IntOf(x: Item, maxBytes: nat): Result<nat> {
    if x.List? then Err(ExpectedString)
    else if |x.bytes| > maxBytes then Err(UintOverflow)
    else if x.bytes != [] && x.bytes[0] == 0 then Err(CanonInt)
    else Ok(FromBigEndian(x.bytes))
  }

  function ArrayOf(x: Item, n: nat): Result<Bytes> {
    if x.List? then Err(ExpectedString)
    else if |x.bytes| != n then Err(UintOverflow)
    else Ok(x.bytes)
  }

  function VoteOf(x: Item): Result<Vote> {
    if !x.List? then Err(ExpectedList)
    else if |x.items| < 5 then Err(EOL)
    else if |x.items| > 5 then Err(NotAtEOL)
    else
      var block, height, epoch, id := ArrayOf(x.items[0], 32), IntOf(x.items[1], 8), IntOf(x.items[2], 8), ArrayOf(x.items[3], 20);
      if block.Err? then Err(block.error)
      else if height.Err? then Err(height.error)
      else if epoch.Err? then Err(epoch.error)
      else if id.Err? then Err(id.error)
      else if x.items[4].List? then Err(ExpectedString)
      else Ok(Vote(block.value, height.value, epoch.value, id.value, Some(x.items[4].bytes)))
  }

  /** Adds the votes one by one, as the decoder does. */
  function VotesFrom(m: Votes, xs: seq<Item>): Result<Votes>
    decreases xs
  {
    if xs == [] then Ok(m) else
      var v := VoteOf(xs[0]);
      if v.Err? then Err(v.error) else VotesFrom(m[KeyOf(v.value) := v.value], xs[1..])
  }

  /** An empty vote list is read as none at all. */
  function HccOf(x: Item): Result<(Option<Votes>, Bytes)> {
    if !x.List? then Err(ExpectedList)
    else if |x.items| < 2 then Err(EOL)
    else if |x.items| > 2 then Err(NotAtEOL)
    else
      var block := ArrayOf(x.items[1], 32);
      if x.items[0] == NOTHING || x.items[0] == Str([]) then
        if block.Err? then Err(block.error) else Ok((None, block.value))
      else if !x.items[0].List? then Err(ExpectedList)
      else
        var votes := VotesFrom(map[], x.items[0].items);
        if votes.Err? then Err(votes.error)
        else if block.Err? then Err(block.error)
        else Ok((Some(votes.value), block.value))
  }

  function IntsOf(xs: seq<Item>): Option<seq<nat>> {
    if xs == [] then Some([]) else
      var first, rest := IntOf(xs[0], 4), IntsOf(xs[1..]);
      if first.Err? || rest.None? then None else Some([first.value] + rest.value)
  }

  function AddressesOf(xs: seq<Item>): Option<seq<Bytes>> {
    if xs == [] then Some([]) else
      var first, rest := ArrayOf(xs[0], 20), AddressesOf(xs[1..]);
      if first.Err? || rest.None? then None else Some([first.value] + rest.value)
  }

  function AggregateOf(x: Item, accepted: Bytes -> bool): Option<Aggregate> {
    if !x.List? || |x.items| != 4 || !x.items[2].List? || !x.items[3].Str? then None else
      var block, gcp, ms := ArrayOf(x.items[0], 32), ArrayOf(x.items[1], 32), IntsOf(x.items[2].items);
      var sig := x.items[3].bytes;
      if block.Err? || gcp.Err? || ms.None? || !(sig == [] || accepted(sig)) then None
      else Some(Aggregate(block.value, gcp.value, ms.value, sig))
  }

  function EdgeOf(x: Item, accepted: Bytes -> bool): Option<EdgeAggregate> {
    if !x.List? || |x.items| != 4 || !x.items[1].List? || !x.items[2].List? || !x.items[3].Str? then None else
      var block, ms, ids := ArrayOf(x.items[0], 32), IntsOf(x.items[1].items), AddressesOf(x.items[2].items);
      var sig := x.items[3].bytes;
      if block.Err? || ms.None? || ids.None? || !(sig == [] || accepted(sig)) then None
      else Some(EdgeAggregate(block.value, ms.value, ids.value, sig))
  }

  // ---- round trips of the parts ------------------------------------------------------

  lemma IntBack(v: nat, maxBytes: nat)
    requires v < Power256(maxBytes) && maxBytes > 0
    ensures IntOf(IntItem(v), maxBytes) == Ok(v)
  {
    if v > 0 {
      NoLeadingZero(v);
      FromBigEndianOf(v);
      BigEndianLength(v, maxBytes);
    }
  }

  lemma Uint64Back(v: nat)
    requires v < U64
    ensures IntOf(IntItem(v), 8) == Ok(v)
  {
    assert Power256(8) == U64;
    IntBack(v, 8);
  }

  lemma Uint32Back(v: nat)
    requires v < 0x1_0000_0000
    ensures IntOf(IntItem(v), 4) == Ok(v)
  {
    assert Power256(4) == 0x1_0000_0000;
    IntBack(v, 4);
  }

  lemma {:induction false} Uint32sBack(ms: seq<nat>)
    requires Uint32s(ms)
    ensures IntsOf(IntItems(ms)) == Some(ms)
  {
    hide IntOf, IntItem;
    if ms != [] {
      Uint32Back(ms[0]);
      assert IntItems(ms)[1..] == IntItems(ms[1..]);
      Uint32sBack(ms[1..]);
      assert ms == [ms[0]] + ms[1..];
    }
  }

  lemma {:induction false} AddressesBack(bs: seq<Bytes>)
    requires forall i :: 0 <= i < |bs| ==> IsAddress(bs[i])
    ensures AddressesOf(StrItems(bs)) == Some(bs)
  {
    if bs != [] {
      assert StrItems(bs)[1..] == StrItems(bs[1..]);
      AddressesBack(bs[1..]);
      assert bs == [bs[0]] + bs[1..];
    }
  }

  lemma VoteBack(v: Vote)
    requires VoteOk(v)
    ensures VoteOf(VoteItem(v)) == Ok(Signed(v))
  {
    Uint64Back(v.height);
    Uint64Back(v.epoch);
  }

  function Signed(v: Vote): Vote {
    v.(signature := Some(if v.signature.Some? then v.signature.value else []))
  }

  ghost function AllSigned(m: Votes): Votes {
    map k | k in m :: Signed(m[k])
  }

  /** The votes of a certificate come back in whatever order they were written, whatever was there
      before them. */
  lemma {:induction false} VotesBack(vs: seq<Vote>, m: Votes, before: Votes)
    requires VotesOk(m) && Lists(vs, m) && m.Keys !! before.Keys
    ensures VotesFrom(before, VoteItems(vs)) == Ok(before + AllSigned(m))
    decreases vs
  {
    hide VoteOf, VoteItem, VotesFrom, AllSigned, FromBigEndian, Lowest;
    if vs == [] {
      NoVotes(before);
    } else {
      var k := KeyOf(vs[0]);
      VoteBack(vs[0]);
      VotesBack(vs[1..], m - {k}, before[k := Signed(vs[0])]);
      VotesFromCons(before, VoteItem(vs[0]), VoteItems(vs[1..]), Signed(vs[0]));
      SignedParts(m, before, k);
    }
  }

  lemma NoVotes(before: Votes)
    ensures VotesFrom(before, VoteItems([])) == Ok(before + AllSigned(map[]))
  {
    assert before + AllSigned(map[]) == before;
  }

  lemma VotesFromCons(m: Votes, x: Item, xs: seq<Item>, v: Vote)
    requires VoteOf(x) == Ok(v)
    ensures VotesFrom(m, [x] + xs) == VotesFrom(m[KeyOf(v) := v], xs)
  {
    assert ([x] + xs)[1..] == xs;
  }

  lemma SignedParts(m: Votes, before: Votes, k: VoteKey)
    requires k in m && m.Keys !! before.Keys
    ensures before[k := Signed(m[k])] + AllSigned(m - {k}) == before + AllSigned(m)
    ensures AllSigned(m) - {k} == AllSigned(m - {k}) && AllSigned(m)[k] == Signed(m[k])
  {
  }

  lemma {:induction false} SameNumber(a: Bytes, b: Bytes)
    requires |a| == |b| && FromBigEndian(a) == FromBigEndian(b)
    ensures a == b
  {
    if a != [] {
      var n := |a| - 1;
      assert a == a[..n] + [a[n]] && b == b[..n] + [b[n]];
      SameNumber(a[..n], b[..n]);
    }
  }

  /** With one vote per voter there is one order, and filling in empty signatures does not change
      what is written. */
  lemma {:induction false} OneOrder(vs: seq<Vote>, us: seq<Vote>, m: Votes, t: Votes)
    requires VotesOk(m) && OnePerVoter(m) && (t == m || t == AllSigned(m))
    requires Lists(vs, m) && Lists(us, t)
    ensures VoteItems(us) == VoteItems(vs)
    decreases vs
  {
    hide FromBigEndian;
    assert t.Keys == m.Keys;
    if vs == [] {
      assert us == [];
    } else {
      var k := KeyOf(vs[0]);
      assert us != [] by { assert k in t; }
      var j := KeyOf(us[0]);
      assert m[j].id == us[0].id && t[k].id == vs[0].id;
      SameNumber(vs[0].id, us[0].id);
      assert j == k;
      SignedParts(m, map[], k);
      OneOrder(vs[1..], us[1..], m - {k}, t - {k});
    }
  }

  /** With two votes of one voter there are two orders, and they are written differently. */
  lemma {:induction false} TwoOrders(m: Votes) returns (vs: seq<Vote>, us: seq<Vote>)
    requires VotesOk(m) && !OnePerVoter(m)
    ensures Lists(vs, m) && Lists(us, m) && VoteItems(vs) != VoteItems(us)
    decreases |m|
  {
    hide VoteItem, VoteOf, FromBigEndian, Lists;
    var k := LowestExists(m);
    if j :| j in m && j != k && m[j].id == m[k].id {
      var first := SomeOrder(m - {k});
      var second := SomeOrder(m - {j});
      ListsCons(m, k, first);
      ListsCons(m, j, second);
      VoteBack(m[k]);
      VoteBack(m[j]);
      vs, us := [m[k]] + first, [m[j]] + second;
      assert VoteItems(vs)[0] == VoteItem(m[k]) && VoteItems(us)[0] == VoteItem(m[j]);
    } else {
      var i, j :| i in m && j in m && m[i].id == m[j].id && i != j;
      assert i in m - {k} && j in m - {k};
      var first, second := TwoOrders(m - {k});
      ListsCons(m, k, first);
      ListsCons(m, k, second);
      vs, us := [m[k]] + first, [m[k]] + second;
      assert vs[1..] == first && us[1..] == second;
      assert VoteItems(vs)[1..] == VoteItems(first) && VoteItems(us)[1..] == VoteItems(second);
    }
  }

  lemma AggregateBack(a: Aggregate, accepted: Bytes -> bool)
    requires AggregateOk(a, accepted)
    ensures AggregateOf(AggregateItem(a), accepted) == Some(a) && AggregateItem(a) != NOTHING
  {
    Uint32sBack(a.multiplies);
  }

  lemma EdgeBack(a: EdgeAggregate, accepted: Bytes -> bool)
    requires EdgeOk(a, accepted)
    ensures EdgeOf(EdgeItem(a), accepted) == Some(a) && EdgeItem(a) != NOTHING
  {
    Uint32sBack(a.multiplies);
    AddressesBack(a.addresses);
  }

  // ---- the header --------------------------------------------------------------------

  /** What comes back: nil and empty read alike, and a fork drops what it does not write. */
  ghost function Normal(h: Header): Header {
    h.(hccVotes := if h.hccVotes.None? || h.hccVotes.value == map[] then None else Some(AllSigned(h.hccVotes.value)),
       timestamp := Some(if h.timestamp.Some? then h.timestamp.value else 0),
       signature := Some(if h.signature.Some? then h.signature.value else []),
       guardianVotes := if h.height >= THETA2 then h.guardianVotes else None,
       edgeVotes := if h.height >= THETA3 then h.edgeVotes else None)
  }

  /** A stream inside a list, item by item. */
  class Cursor {
    const items: seq<Item>
    var at: nat

    ghost predicate Valid()
      reads this
    {
      at <= |items|
    }

    constructor (items: seq<Item>)
      ensures Valid() && this.items == items && at == 0
    {
      this.items, at := items, 0;
    }

    method Next() returns (r: Result<Item>)
      requires Valid()
      modifies this
      ensures Valid() && r == if old(at) < |items| then Ok(items[old(at)]) else Err(EOL)
      ensures at == if r.Ok? then old(at) + 1 else old(at)
    {
      if at == |items| {
        return Err(EOL);
      }
      r := Ok(items[at]);
      at := at + 1;
    }

    method Uint() returns (r: Result<nat>)
      requires Valid()
      modifies this
      ensures Valid() && (old(at) < |items| ==> r == IntOf(items[old(at)], 8) && at == old(at) + 1)
      ensures old(at) >= |items| ==> r.Err?
    {
      var x := Next();
      r := if x.Err? then Err(x.error) else IntOf(x.value, 8);
    }

    method Array(n: nat) returns (r: Result<Bytes>)
      requires Valid()
      modifies this
      ensures Valid() && (old(at) < |items| ==> r == ArrayOf(items[old(at)], n) && at == old(at) + 1)
      ensures old(at) >= |items| ==> r.Err?
    {
      var x := Next();
      r := if x.Err? then Err(x.error) else ArrayOf(x.value, n);
    }

    /** An integer of any size. */
    method BigInt() returns (r: Result<nat>)
      requires Valid()
      modifies this
      ensures Valid() && (old(at) < |items| ==> r == BigIntOf(items[old(at)]) && at == old(at) + 1)
      ensures old(at) >= |items| ==> r.Err?
    {
      var x := Next();
      r := if x.Err? then Err(x.error) else BigIntOf(x.value);
    }

    method String() returns (r: Result<Bytes>)
      requires Valid()
      modifies this
      ensures Valid() && (old(at) < |items| ==> r == StringOf(items[old(at)]) && at == old(at) + 1)
      ensures old(at) >= |items| ==> r.Err?
    {
      var x := Next();
      r := if x.Err? then Err(x.error) else StringOf(x.value);
    }
  }

  function BigIntOf(x: Item): Result<nat> {
    if x.List? then Err(ExpectedString) else IntOf(x, |x.bytes|)
  }

  function StringOf(x: Item): Result<Bytes> {
    if x.List? then Err(ExpectedString) else Ok(x.bytes)
  }

  /** How many fields a header of the given height has. */
  function FieldCount(height: nat): nat {
    12 + (if height >= THETA2 then 1 else 0) + (if height >= THETA3 then 1 else 0)
  }

  /** What the bytes of an aggregate are read as. Errors are passed over, which leaves a half-read
      value `partial`. */
  function GuardianOf(x: Item, accepted: Bytes -> bool, partial: Aggregate): Option<Aggregate> {
    if x == NOTHING then None
    else if AggregateOf(x, accepted).Some? then AggregateOf(x, accepted)
    else Some(partial)
  }

  function EdgeNodesOf(x: Item, accepted: Bytes -> bool, partial: EdgeAggregate): Option<EdgeAggregate> {
    if x == NOTHING then None
    else if EdgeOf(x, accepted).Some? then EdgeOf(x, accepted)
    else Some(partial)
  }

  datatype Curve = Curve(accepted: Bytes -> bool, halfGuardian: Aggregate, halfEdge: EdgeAggregate)

  /** The consensus fields and the content fields are there, each of its type. */
  predicate ConsensusOk(xs: seq<Item>) {
    |xs| >= 5 && StringOf(xs[0]).Ok? && IntOf(xs[1], 8).Ok? && IntOf(xs[2], 8).Ok? && ArrayOf(xs[3], 32).Ok? && HccOf(xs[4]).Ok?
  }

  predicate ContentOk(xs: seq<Item>) {
    && |xs| >= 12 && ArrayOf(xs[5], 32).Ok? && ArrayOf(xs[6], 32).Ok? && ArrayOf(xs[7], 256).Ok? && ArrayOf(xs[8], 32).Ok?
    && BigIntOf(xs[9]).Ok? && ArrayOf(xs[10], 20).Ok? && StringOf(xs[11]).Ok?
  }

  predicate FieldsOk(xs: seq<Item>) {
    ConsensusOk(xs) && ContentOk(xs)
  }

  const BLANK: Header := Header([], 0, 0, [], None, [], [], [], [], [], None, [], None, None, None)

  function ConsensusFrom(xs: seq<Item>): Header
    requires ConsensusOk(xs)
  {
    BLANK.(chainId := StringOf(xs[0]).value, epoch := IntOf(xs[1], 8).value, height := IntOf(xs[2], 8).value,
           parent := ArrayOf(xs[3], 32).value, hccVotes := HccOf(xs[4]).value.0, hccBlock := HccOf(xs[4]).value.1)
  }

  function ContentFrom(h: Header, xs: seq<Item>): Header
    requires ContentOk(xs)
  {
    h.(txHash := ArrayOf(xs[5], 32).value, receiptHash := ArrayOf(xs[6], 32).value, bloom := ArrayOf(xs[7], 256).value,
       stateHash := ArrayOf(xs[8], 32).value, timestamp := Some(BigIntOf(xs[9]).value), proposer := ArrayOf(xs[10], 20).value,
       signature := Some(StringOf(xs[11]).value))
  }

  /** The header without its aggregates. */
  function CommonFrom(xs: seq<Item>): Header
    requires FieldsOk(xs)
  {
    ContentFrom(ConsensusFrom(xs), xs)
  }

  function HeaderFrom(xs: seq<Item>, curve: Curve): Header
    requires FieldsOk(xs) && |xs| == FieldCount(CommonFrom(xs).height)
  {
    var h := CommonFrom(xs);
    h.(guardianVotes := if h.height >= THETA2 then GuardianOf(xs[12], curve.accepted, curve.halfGuardian) else None,
       edgeVotes := if h.height >= THETA3 then EdgeNodesOf(xs[13], curve.accepted, curve.halfEdge) else None)
  }

  /** The header that an item is read as, if it is one. */
  function HeaderOf(x: Item, curve: Curve): Option<Header> {
    if x.List? && FieldsOk(x.items) && |x.items| == FieldCount(CommonFrom(x.items).height)
    then Some(HeaderFrom(x.items, curve)) else None
  }

  lemma HccBack(votes: Option<Votes>, vs: seq<Vote>, block: Bytes)
    requires (votes.Some? ==> VotesOk(votes.value)) && Lists(vs, if votes.Some? then votes.value else map[]) && IsHash(block)
    ensures HccOf(HccItem(vs, block)) ==
      Ok((if votes.None? || votes.value == map[] then None else Some(AllSigned(votes.value)), block))
  {
    hide VotesFrom, VoteOf, AllSigned, Lowest;
    if votes.Some? && votes.value != map[] {
      VotesBack(vs, votes.value, map[]);
      assert map[] + AllSigned(votes.value) == AllSigned(votes.value);
    }
  }

  lemma TimeBack(v: nat)
    ensures IntOf(IntItem(v), |IntString(v)|) == Ok(v) && FromBigEndian(IntString(v)) == v
  {
    if v > 0 {
      NoLeadingZero(v);
      FromBigEndianOf(v);
    }
  }

  lemma ItemsAt(h: Header, vs: seq<Vote>)
    ensures
      var xs := HeaderItem(h, vs).items;
      && |xs| == FieldCount(h.height) && xs[..12] == CommonItems(h, vs)
      && (h.height >= THETA2 ==> xs[12] == GuardianItem(h)) && (h.height >= THETA3 ==> xs[13] == EdgeNodeItem(h))
  {
  }

  lemma CommonBack(h: Header, vs: seq<Vote>, accepted: Bytes -> bool, xs: seq<Item>)
    requires HeaderOk(h, accepted) && Lists(vs, VotesOf(h)) && |xs| >= 12 && xs[..12] == CommonItems(h, vs)
    ensures FieldsOk(xs) && IntOf(xs[1], 8).value == h.epoch && IntOf(xs[2], 8).value == h.height
    ensures HccOf(xs[4]).value == (Normal(h).hccVotes, h.hccBlock) && Some(BigIntOf(xs[9]).value) == Normal(h).timestamp
    ensures forall i :: 0 <= i < 12 ==> xs[i] == CommonItems(h, vs)[i]
  {
    hide HccOf, HccItem, AllSigned, Lists, FromBigEndian, IntString, AggregateOk, EdgeOk;
    assert forall i :: 0 <= i < 12 ==> xs[i] == xs[..12][i];
    Uint64Back(h.epoch);
    Uint64Back(h.height);
    HccBack(h.hccVotes, vs, h.hccBlock);
    TimeBack(if h.timestamp.Some? then h.timestamp.value else 0);
  }

  /** Every header, at every height, is read back from what is written for it. */
  lemma HeaderBack(h: Header, vs: seq<Vote>, curve: Curve)
    requires HeaderOk(h, curve.accepted) && Lists(vs, VotesOf(h))
    ensures HeaderOf(HeaderItem(h, vs), curve) == Some(Normal(h))
  {
    hide HccOf, HccItem, AggregateOf, EdgeOf, AggregateItem, EdgeItem, AllSigned, Lists, FromBigEndian, IntString, AggregateOk, EdgeOk, FieldsOk, IntOf, BigIntOf;
    var xs := HeaderItem(h, vs).items;
    ItemsAt(h, vs);
    CommonBack(h, vs, curve.accepted, xs);
    if h.guardianVotes.Some? {
      AggregateBack(h.guardianVotes.value, curve.accepted);
    }
    if h.edgeVotes.Some? {
      EdgeBack(h.edgeVotes.value, curve.accepted);
    }
    assert HeaderFrom(xs, curve) == Normal(h);
  }

  lemma NormalSameItem(h: Header, vs: seq<Vote>, us: seq<Vote>, curve: Curve)
    requires HeaderOk(h, curve.accepted) && OnePerVoter(VotesOf(h)) && Lists(vs, VotesOf(h)) && Lists(us, VotesOf(Normal(h)))
    ensures HeaderItem(Normal(h), us) == HeaderItem(h, vs)
  {
    hide AggregateItem, EdgeItem, AllSigned, Lists, VoteItems, FromBigEndian, IntString, AggregateOk, EdgeOk;
    var m := VotesOf(h);
    assert VotesOf(Normal(h)) == m || VotesOf(Normal(h)) == AllSigned(m);
    OneOrder(vs, us, m, VotesOf(Normal(h)));
  }

  /** All orders of the votes give the same bytes. */
  ghost predicate OneEncoding(h: Header) {
    forall vs, us :: Lists(vs, VotesOf(h)) && Lists(us, VotesOf(h)) ==> EncodeHeader(h, vs) == EncodeHeader(h, us)
  }

  /** A header has one encoding, and so one hash, exactly when no voter has two votes in its
      certificate. */
  lemma HashIsDetermined(h: Header, accepted: Bytes -> bool)
    requires HeaderOk(h, accepted) && forall vs :: Lists(vs, VotesOf(h)) ==> |EncodeHeader(h, vs)| < U64
    ensures OneEncoding(h) <==> OnePerVoter(VotesOf(h))
  {
    hide AggregateOk, EdgeOk, Lists, VoteItems, Encode, Parse, Lowest;
    var m := VotesOf(h);
    if OnePerVoter(m) {
      forall vs, us | Lists(vs, m) && Lists(us, m) ensures EncodeHeader(h, vs) == EncodeHeader(h, us) {
        OneOrder(vs, us, m, m);
      }
    } else {
      var vs, us := TwoOrders(m);
      SameBytesSameItem(HeaderItem(h, vs), HeaderItem(h, us));
      assert HeaderItem(h, vs).items[4] == HccItem(vs, h.hccBlock) && HeaderItem(h, us).items[4] == HccItem(us, h.hccBlock);
    }
  }

  lemma SameBytesSameItem(x: Item, y: Item)
    requires |Encode(x)| < U64 && |Encode(y)| < U64
    ensures Encode(x) == Encode(y) ==> x == y
  {
    hide Encode, Parse;
    ParseEncode(x, []);
    ParseEncode(y, []);
    assert Encode(x) + [] == Encode(x) && Encode(y) + [] == Encode(y);
  }

  /** Fills the fields in one by one. */
  method DecodeConsensus(s: Cursor) returns (r: Result<Header>)
    requires s.Valid() && s.at == 0
    modifies s
    ensures s.Valid() && (r.Ok? <==> ConsensusOk(s.items))
    ensures r.Ok? ==> r.value == ConsensusFrom(s.items) && s.at == 5
  {
    hide IntOf, HccOf, ArrayOf, StringOf;
    var h := BLANK;
    var chainId := s.String();
    if chainId.Err? { return Err(chainId.error); }
    h := h.(chainId := chainId.value);
    var epoch := s.Uint();
    if epoch.Err? { return Err(epoch.error); }
    h := h.(epoch := epoch.value);
    var height := s.Uint();
    if height.Err? { return Err(height.error); }
    h := h.(height := height.value);
    var parent := s.Array(32);
    if parent.Err? { return Err(parent.error); }
    h := h.(parent := parent.value);
    var next := s.Next();
    if next.Err? { return Err(next.error); }
    var hcc := HccOf(next.value);
    if hcc.Err? { return Err(hcc.error); }
    r := Ok(h.(hccVotes := hcc.value.0, hccBlock := hcc.value.1));
  }

  method DecodeContent(start: Header, s: Cursor) returns (r: Result<Header>)
    requires s.Valid() && s.at == 5
    modifies s
    ensures s.Valid() && (r.Ok? <==> ContentOk(s.items))
    ensures r.Ok? ==> r.value == ContentFrom(start, s.items) && s.at == 12
  {
    hide BigIntOf, ArrayOf, StringOf;
    var h := start;
    var txHash := s.Array(32);
    if txHash.Err? { return Err(txHash.error); }
    h := h.(txHash := txHash.value);
    var receiptHash := s.Array(32);
    if receiptHash.Err? { return Err(receiptHash.error); }
    h := h.(receiptHash := receiptHash.value);
    var bloom := s.Array(256);
    if bloom.Err? { return Err(bloom.error); }
    h := h.(bloom := bloom.value);
    var stateHash := s.Array(32);
    if stateHash.Err? { return Err(stateHash.error); }
    h := h.(stateHash := stateHash.value);
    var timestamp := s.BigInt();
    if timestamp.Err? { return Err(timestamp.error); }
    h := h.(timestamp := Some(timestamp.value));
    var proposer := s.Array(20);
    if proposer.Err? { return Err(proposer.error); }
    h := h.(proposer := proposer.value);
    var signature := s.String();
    if signature.Err? { return Err(signature.error); }
    r := Ok(h.(signature := Some(signature.value)));
  }
}
