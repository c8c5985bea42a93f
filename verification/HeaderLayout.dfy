/** Where each field of a header stands (core/block.go, core/vote.go, core/guardian.go, core/elite_edge_node.go),
    said on the items that are written and read. */
module HeaderLayout {
  import opened Common
  import opened RlpSpec
  import opened Header

  // ---- what an item is ---------------------------------------------------------------

  /** A number in as few bytes as possible, and at most `size` of them. */
  ghost predicate IsNumber(x: Item, v: nat, size: nat) {
    x.Str? && |x.bytes| <= size && (x.bytes != [] ==> x.bytes[0] != 0) && FromBigEndian(x.bytes) == v
  }

  /** A string of exactly `size` bytes. */
  ghost predicate IsString(x: Item, b: Bytes, size: nat) {
    x == Str(b) && |b| == size
  }

  /** A list of block, height, epoch, voter and signature. */
  ghost predicate IsVote(x: Item, v: Vote) {
    && x.List? && |x.items| == 5 && IsString(x.items[0], v.block, 32) && IsNumber(x.items[1], v.height, 8)
    && IsNumber(x.items[2], v.epoch, 8) && IsString(x.items[3], v.id, 20)
    && v.signature.Some? && x.items[4] == Str(v.signature.value)
  }

  ghost predicate AreVotes(xs: seq<Item>, vs: seq<Vote>) {
    |xs| == |vs| && forall i :: 0 <= i < |xs| ==> IsVote(xs[i], vs[i])
  }

  ghost predicate AreNumbers(xs: seq<Item>, ms: seq<nat>) {
    |xs| == |ms| && forall i :: 0 <= i < |xs| ==> IsNumber(xs[i], ms[i], 4)
  }

  ghost predicate AreAddresses(xs: seq<Item>, bs: seq<Bytes>) {
    |xs| == |bs| && forall i :: 0 <= i < |xs| ==> IsString(xs[i], bs[i], 20)
  }

  /** A list of block, guardian pool hash, multiplicities and signature. */
  ghost predicate IsAggregate(x: Item, a: Aggregate) {
    && x.List? && |x.items| == 4 && IsString(x.items[0], a.block, 32) && IsString(x.items[1], a.gcp, 32)
    && x.items[2].List? && AreNumbers(x.items[2].items, a.multiplies) && x.items[3] == Str(a.signature)
  }

  /** A list of block, multiplicities, edge node addresses and signature. */
  ghost predicate IsEdgeAggregate(x: Item, a: EdgeAggregate) {
    && x.List? && |x.items| == 4 && IsString(x.items[0], a.block, 32)
    && x.items[1].List? && AreNumbers(x.items[1].items, a.multiplies)
    && x.items[2].List? && AreAddresses(x.items[2].items, a.addresses) && x.items[3] == Str(a.signature)
  }

  // ---- what is written ---------------------------------------------------------------

  /** The vote with a signature, an empty one if it has none. */
  ghost function WithSignature(v: Vote): Vote {
    v.(signature := if v.signature.None? then Some([]) else v.signature)
  }

  /** The certificate: its votes in the order of `vs`, then its block. */
  ghost predicate IsCertificate(x: Item, vs: seq<Vote>, block: Bytes) {
    && x.List? && |x.items| == 2 && x.items[0].List? && IsString(x.items[1], block, 32)
    && |x.items[0].items| == |vs| && forall i :: 0 <= i < |vs| ==> IsVote(x.items[0].items[i], WithSignature(vs[i]))
  }

  /** The twelve fields of every layout, in their places. */
  ghost predicate IsLaidOut(xs: seq<Item>, h: Header, vs: seq<Vote>) {
    && |xs| >= 12
    && xs[0] == Str(h.chainId) && IsNumber(xs[1], h.epoch, 8) && IsNumber(xs[2], h.height, 8) && IsString(xs[3], h.parent, 32)
    && IsCertificate(xs[4], vs, h.hccBlock)
    && IsString(xs[5], h.txHash, 32) && IsString(xs[6], h.receiptHash, 32) && IsString(xs[7], h.bloom, 256) && IsString(xs[8], h.stateHash, 32)
    && xs[9].Str? && IsNumber(xs[9], if h.timestamp.Some? then h.timestamp.value else 0, |xs[9].bytes|)
    && IsString(xs[10], h.proposer, 20) && xs[11] == Str(if h.signature.Some? then h.signature.value else [])
  }

  /** From height 5877350 on a guardian aggregate, and from 10968061 on an edge node aggregate as
      well; an empty list stands for none. */
  ghost predicate HasAggregates(xs: seq<Item>, h: Header) {
    && |xs| == (if h.height < 5877350 then 12 else if h.height < 10968061 then 13 else 14)
    && (h.height >= 5877350 ==> if h.guardianVotes.None? then xs[12] == Item.List([]) else IsAggregate(xs[12], h.guardianVotes.value))
    && (h.height >= 10968061 ==> if h.edgeVotes.None? then xs[13] == Item.List([]) else IsEdgeAggregate(xs[13], h.edgeVotes.value))
  }

  lemma NumberWritten(v: nat, size: nat)
    requires v < Power256(size) && size > 0
    ensures IsNumber(IntItem(v), v, size)
  {
    if v > 0 {
      NoLeadingZero(v);
      FromBigEndianOf(v);
      BigEndianLength(v, size);
    }
  }

  lemma WordWritten(v: nat)
    ensures v < U64 ==> IsNumber(IntItem(v), v, 8)
    ensures v < 0x1_0000_0000 ==> IsNumber(IntItem(v), v, 4)
  {
    assert Power256(8) == U64 && Power256(4) == 0x1_0000_0000;
    if v < U64 {
      NumberWritten(v, 8);
    }
    if v < 0x1_0000_0000 {
      NumberWritten(v, 4);
    }
  }

  lemma VoteWritten(v: Vote)
    requires VoteOk(v)
    ensures IsVote(VoteItem(v), WithSignature(v))
  {
    hide IsNumber, IntItem;
    WordWritten(v.height);
    WordWritten(v.epoch);
  }

  lemma {:induction false} VotesWritten(vs: seq<Vote>)
    requires forall i :: 0 <= i < |vs| ==> VoteOk(vs[i])
    ensures |VoteItems(vs)| == |vs| && forall i :: 0 <= i < |vs| ==> IsVote(VoteItems(vs)[i], WithSignature(vs[i]))
  {
    hide VoteItem, IsVote, WithSignature;
    if vs != [] {
      VoteWritten(vs[0]);
      VotesWritten(vs[1..]);
    }
  }

  lemma {:induction false} NumbersWritten(ms: seq<nat>)
    requires Uint32s(ms)
    ensures AreNumbers(IntItems(ms), ms)
  {
    hide IsNumber, IntItem;
    if ms != [] {
      WordWritten(ms[0]);
      NumbersWritten(ms[1..]);
    }
  }

  lemma {:induction false} AddressesWritten(bs: seq<Bytes>)
    requires forall i :: 0 <= i < |bs| ==> IsAddress(bs[i])
    ensures AreAddresses(StrItems(bs), bs)
  {
    if bs != [] {
      AddressesWritten(bs[1..]);
    }
  }

  lemma AggregateWritten(a: Aggregate, accepted: Bytes -> bool)
    requires AggregateOk(a, accepted)
    ensures IsAggregate(AggregateItem(a), a)
  {
    hide AreNumbers, IntItems;
    NumbersWritten(a.multiplies);
  }

  lemma EdgeWritten(a: EdgeAggregate, accepted: Bytes -> bool)
    requires EdgeOk(a, accepted)
    ensures IsEdgeAggregate(EdgeItem(a), a)
  {
    hide AreNumbers, IntItems, AreAddresses, StrItems;
    NumbersWritten(a.multiplies);
    AddressesWritten(a.addresses);
  }

  lemma {:induction false} ListedAreOk(vs: seq<Vote>, m: Votes)
    requires VotesOk(m) && Lists(vs, m)
    ensures forall i :: 0 <= i < |vs| ==> VoteOk(vs[i])
    decreases vs
  {
    hide Lowest, VoteOk;
    if vs != [] {
      ListedAreOk(vs[1..], m - {KeyOf(vs[0])});
    }
  }

  lemma FieldsWritten(h: Header, vs: seq<Vote>, accepted: Bytes -> bool)
    requires HeaderOk(h, accepted) && Lists(vs, VotesOf(h))
    ensures IsLaidOut(CommonItems(h, vs), h, vs)
  {
    hide IsNumber, IntItem, IsVote, Lists, VoteItems, WithSignature, AggregateOk, EdgeOk;
    WordWritten(h.epoch);
    WordWritten(h.height);
    NoVotesListed(h, vs, accepted);
    VotesWritten(vs);
    TimeWritten(if h.timestamp.Some? then h.timestamp.value else 0);
  }

  lemma NoVotesListed(h: Header, vs: seq<Vote>, accepted: Bytes -> bool)
    requires HeaderOk(h, accepted) && Lists(vs, VotesOf(h))
    ensures forall i :: 0 <= i < |vs| ==> VoteOk(vs[i])
  {
    ListedAreOk(vs, VotesOf(h));
  }

  lemma TimeWritten(v: nat)
    ensures IntItem(v).Str? && IsNumber(IntItem(v), v, |IntItem(v).bytes|)
  {
    TimeBack(v);
    if v > 0 {
      NoLeadingZero(v);
    }
  }

  lemma AggregatesWritten(h: Header, vs: seq<Vote>, accepted: Bytes -> bool)
    requires HeaderOk(h, accepted)
    ensures HasAggregates(HeaderItem(h, vs).items, h)
  {
    hide IsAggregate, IsEdgeAggregate, AggregateItem, EdgeItem, AggregateOk, EdgeOk, CommonItems;
    ItemsAt(h, vs);
    if h.guardianVotes.Some? {
      AggregateWritten(h.guardianVotes.value, accepted);
    }
    if h.edgeVotes.Some? {
      EdgeWritten(h.edgeVotes.value, accepted);
    }
  }

  /** What is written for a header, at every height, has each field in its place. */
  lemma HeaderIsLaidOut(h: Header, vs: seq<Vote>, accepted: Bytes -> bool)
    requires HeaderOk(h, accepted) && Lists(vs, VotesOf(h)) && |EncodeHeader(h, vs)| < U64
    ensures
      var x := Parse(EncodeHeader(h, vs));
      && x.Some? && x.value.1 == |EncodeHeader(h, vs)| && x.value.0.List?
      && IsLaidOut(x.value.0.items, h, vs) && HasAggregates(x.value.0.items, h)
  {
    hide Encode, Parse, HeaderOk, Lists, IsLaidOut, HasAggregates, CommonItems;
    ParseEncode(HeaderItem(h, vs), []);
    assert Encode(HeaderItem(h, vs)) + [] == Encode(HeaderItem(h, vs));
    FieldsWritten(h, vs, accepted);
    AggregatesWritten(h, vs, accepted);
    ItemsAt(h, vs);
    LaidOutLonger(CommonItems(h, vs), HeaderItem(h, vs).items, h, vs);
  }

  lemma LaidOutLonger(xs: seq<Item>, ys: seq<Item>, h: Header, vs: seq<Vote>)
    requires IsLaidOut(xs, h, vs) && |xs| == 12 <= |ys| && ys[..12] == xs
    ensures IsLaidOut(ys, h, vs)
  {
    hide IsNumber, IsCertificate, IsString;
    assert forall i :: 0 <= i < 12 ==> ys[i] == ys[..12][i];
  }

  /** Header bytes survive storage: decoding what was encoded and encoding it again gives the same
      bytes, so the hash of the header is stable; and the bytes have each field in its place. */
  lemma HeaderBytesSurvive(h: Header, vs: seq<Vote>, us: seq<Vote>, curve: Curve)
    requires HeaderOk(h, curve.accepted) && Lists(vs, VotesOf(h)) && |EncodeHeader(h, vs)| < U64
    ensures
      var x := Parse(EncodeHeader(h, vs));
      && x.Some? && x.value.1 == |EncodeHeader(h, vs)| && x.value.0.List?
      && IsLaidOut(x.value.0.items, h, vs) && HasAggregates(x.value.0.items, h)
    ensures
      var read := HeaderOf(Parse(EncodeHeader(h, vs)).value.0, curve);
      && read == Some(Normal(h))
      && (OnePerVoter(VotesOf(h)) && Lists(us, VotesOf(read.value)) ==> EncodeHeader(read.value, us) == EncodeHeader(h, vs))
  {
    hide Encode, Parse, HeaderOf, HeaderItem, Normal, HeaderOk, Lists, OnePerVoter, VotesOf, IsLaidOut, HasAggregates;
    HeaderIsLaidOut(h, vs, curve.accepted);
    ParseEncode(HeaderItem(h, vs), []);
    assert Encode(HeaderItem(h, vs)) + [] == Encode(HeaderItem(h, vs));
    HeaderBack(h, vs, curve);
    if OnePerVoter(VotesOf(h)) && Lists(us, VotesOf(Normal(h))) {
      NormalSameItem(h, vs, us, curve);
    }
  }

  // ---- what is read ------------------------------------------------------------------

  /** The map holds, for every voter, block and epoch that occur, the last of the votes. */
  ghost predicate HoldsLast(vs: seq<Vote>, m: Votes) {
    && (forall i :: 0 <= i < |vs| ==> VoteKey(vs[i].id, vs[i].block, vs[i].epoch) in m)
    && forall k :: k in m ==> exists i: nat :: IsLast(vs, i, k) && m[k] == vs[i]
  }

  ghost predicate IsLast(vs: seq<Vote>, i: nat, k: VoteKey) {
    i < |vs| && VoteKey(vs[i].id, vs[i].block, vs[i].epoch) == k && forall j :: i < j < |vs| ==> VoteKey(vs[j].id, vs[j].block, vs[j].epoch) != k
  }

  /** The certificate that an item is read as: no votes for an empty list or string. */
  ghost predicate ReadsCertificate(x: Item, votes: Option<Votes>, block: Bytes) {
    && x.List? && |x.items| == 2 && IsString(x.items[1], block, 32)
    && if x.items[0] == Item.List([]) || x.items[0] == Str([]) then votes.None?
      else x.items[0].List? && votes.Some? && exists vs :: AreVotes(x.items[0].items, vs) && HoldsLast(vs, votes.value)
  }

  /** The header that the first twelve items are read as, without its aggregates. */
  ghost predicate ReadsFields(xs: seq<Item>, h: Header) {
    && |xs| >= 12
    && xs[0] == Str(h.chainId) && IsNumber(xs[1], h.epoch, 8) && IsNumber(xs[2], h.height, 8) && IsString(xs[3], h.parent, 32)
    && ReadsCertificate(xs[4], h.hccVotes, h.hccBlock)
    && IsString(xs[5], h.txHash, 32) && IsString(xs[6], h.receiptHash, 32) && IsString(xs[7], h.bloom, 256) && IsString(xs[8], h.stateHash, 32)
    && xs[9].Str? && h.timestamp.Some? && IsNumber(xs[9], h.timestamp.value, |xs[9].bytes|)
    && IsString(xs[10], h.proposer, 20) && h.signature.Some? && xs[11] == Str(h.signature.value)
    && h.guardianVotes.None? && h.edgeVotes.None?
  }

  lemma NumberRead(x: Item, v: nat, size: nat)
    ensures IntOf(x, size) == Ok(v) <==> IsNumber(x, v, size)
  {
  }

  lemma StringRead(x: Item, b: Bytes, size: nat)
    ensures ArrayOf(x, size) == Ok(b) <==> IsString(x, b, size)
    ensures StringOf(x) == Ok(b) <==> x == Str(b)
  {
  }

  lemma VoteRead(x: Item, v: Vote)
    ensures VoteOf(x) == Ok(v) <==> IsVote(x, v)
  {
    hide IsNumber, IsString, IntOf, ArrayOf;
    if x.List? && |x.items| == 5 {
      StringRead(x.items[0], v.block, 32);
      NumberRead(x.items[1], v.height, 8);
      NumberRead(x.items[2], v.epoch, 8);
      StringRead(x.items[3], v.id, 20);
    }
  }

  /** What is left of `before` once the votes are added one by one. */
  ghost predicate Added(before: Votes, vs: seq<Vote>, m: Votes) {
    && (forall i :: 0 <= i < |vs| ==> VoteKey(vs[i].id, vs[i].block, vs[i].epoch) in m)
    && (forall k :: k in before ==> k in m)
    && forall k :: k in m ==> (exists i: nat :: IsLast(vs, i, k) && m[k] == vs[i]) || (Unnamed(vs, k) && k in before && m[k] == before[k])
  }

  ghost predicate Unnamed(vs: seq<Vote>, k: VoteKey) {
    forall i :: 0 <= i < |vs| ==> VoteKey(vs[i].id, vs[i].block, vs[i].epoch) != k
  }

  lemma AddedFirst(before: Votes, v: Vote, vs: seq<Vote>, m: Votes)
    requires Added(before[VoteKey(v.id, v.block, v.epoch) := v], vs, m)
    ensures Added(before, [v] + vs, m)
  {
    var all := [v] + vs;
    assert forall i :: 0 <= i < |vs| ==> all[i+1] == vs[i];
    forall k | k in m ensures (exists i: nat :: IsLast(all, i, k) && m[k] == all[i]) || (Unnamed(all, k) && k in before && m[k] == before[k]) {
      if i: nat :| IsLast(vs, i, k) && m[k] == vs[i] {
        assert forall j :: i + 1 < j < |all| ==> all[j] == vs[j-1];
        assert IsLast(all, i + 1, k);
      } else {
        assert forall j :: 0 < j < |all| ==> all[j] == vs[j-1];
        if k == VoteKey(v.id, v.block, v.epoch) {
          assert IsLast(all, 0, k);
        }
      }
    }
    forall i | 0 <= i < |all| ensures VoteKey(all[i].id, all[i].block, all[i].epoch) in m {
      assert i > 0 ==> all[i] == vs[i-1];
    }
  }

  lemma {:induction false} VotesRead(before: Votes, xs: seq<Item>) returns (vs: seq<Vote>)
    requires VotesFrom(before, xs).Ok?
    ensures AreVotes(xs, vs) && Added(before, vs, VotesFrom(before, xs).value)
    decreases xs
  {
    hide VoteOf, IsVote, Added;
    if xs == [] {
      vs := [];
      NothingAdded(before);
    } else {
      var v := VoteOf(xs[0]).value;
      var rest := VotesRead(before[KeyOf(v) := v], xs[1..]);
      vs := [v] + rest;
      VoteRead(xs[0], v);
      AddedFirst(before, v, rest, VotesFrom(before, xs).value);
    }
  }

  lemma NothingAdded(before: Votes)
    ensures Added(before, [], before)
  {
  }

  lemma {:induction false} VotesReadable(before: Votes, xs: seq<Item>, vs: seq<Vote>)
    requires AreVotes(xs, vs)
    ensures VotesFrom(before, xs).Ok?
    decreases xs
  {
    hide VoteOf, IsVote;
    if xs != [] {
      VoteRead(xs[0], vs[0]);
      VotesReadable(before[KeyOf(vs[0]) := vs[0]], xs[1..], vs[1..]);
    }
  }

  lemma {:induction false} SameVotes(xs: seq<Item>, vs: seq<Vote>, us: seq<Vote>)
    requires AreVotes(xs, vs) && AreVotes(xs, us)
    ensures vs == us
  {
    hide IsVote;
    forall i | 0 <= i < |xs| ensures vs[i] == us[i] {
      VoteRead(xs[i], vs[i]);
      VoteRead(xs[i], us[i]);
    }
  }

  lemma SameMap(vs: seq<Vote>, m: Votes, t: Votes)
    requires HoldsLast(vs, m) && HoldsLast(vs, t)
    ensures m == t
  {
    forall k | k in m ensures k in t && m[k] == t[k] {
      var i: nat :| IsLast(vs, i, k) && m[k] == vs[i];
      assert k in t;
      var j: nat :| IsLast(vs, j, k) && t[k] == vs[j];
    }
    forall k | k in t ensures k in m {
      var i: nat :| IsLast(vs, i, k) && t[k] == vs[i];
    }
  }

  lemma AddedToNone(vs: seq<Vote>, m: Votes)
    requires Added(map[], vs, m)
    ensures HoldsLast(vs, m)
  {
  }

  lemma CertificateRead(x: Item, votes: Option<Votes>, block: Bytes)
    ensures HccOf(x) == Ok((votes, block)) <==> ReadsCertificate(x, votes, block)
  {
    hide AreVotes, HoldsLast, VotesFrom, IsString, ArrayOf;
    if x.List? && |x.items| == 2 {
      StringRead(x.items[1], block, 32);
      if x.items[0].List? && x.items[0] != Item.List([]) {
        VotesExactly(x.items[0].items, votes);
      }
    }
  }

  lemma VotesExactly(xs: seq<Item>, votes: Option<Votes>)
    ensures votes.Some? && VotesFrom(map[], xs) == Ok(votes.value) <==>
      votes.Some? && exists vs :: AreVotes(xs, vs) && HoldsLast(vs, votes.value)
  {
    hide VotesFrom, AreVotes, HoldsLast, Added;
    if VotesFrom(map[], xs).Ok? {
      var us := VotesRead(map[], xs);
      AddedToNone(us, VotesFrom(map[], xs).value);
      if votes.Some? {
        if vs :| AreVotes(xs, vs) && HoldsLast(vs, votes.value) {
          SameVotes(xs, vs, us);
          SameMap(us, votes.value, VotesFrom(map[], xs).value);
        }
      }
    } else if votes.Some? {
      if vs :| AreVotes(xs, vs) && HoldsLast(vs, votes.value) {
        VotesReadable(map[], xs, vs);
      }
    }
  }

  /** The items are a header's fields exactly if each is what its place calls for, and each field of
      the header is then what stands in its place. */
  lemma FieldsExactly(xs: seq<Item>, h: Header)
    ensures FieldsOk(xs) && CommonFrom(xs) == h <==> ReadsFields(xs, h)
  {
    hide IsNumber, IsString, IntOf, ArrayOf, StringOf, HccOf, ReadsCertificate, BigIntOf;
    if |xs| >= 12 {
      ConsensusExactly(xs, h);
      ContentExactly(xs, h);
    }
  }

  lemma ConsensusExactly(xs: seq<Item>, h: Header)
    requires |xs| >= 12
    ensures
      && StringOf(xs[0]) == Ok(h.chainId) && IntOf(xs[1], 8) == Ok(h.epoch) && IntOf(xs[2], 8) == Ok(h.height)
      && ArrayOf(xs[3], 32) == Ok(h.parent) && HccOf(xs[4]) == Ok((h.hccVotes, h.hccBlock))
      <==>
      && xs[0] == Str(h.chainId) && IsNumber(xs[1], h.epoch, 8) && IsNumber(xs[2], h.height, 8)
      && IsString(xs[3], h.parent, 32) && ReadsCertificate(xs[4], h.hccVotes, h.hccBlock)
  {
    hide IsNumber, IsString, IntOf, ArrayOf, StringOf, HccOf, ReadsCertificate;
    StringRead(xs[0], h.chainId, 0);
    NumberRead(xs[1], h.epoch, 8);
    NumberRead(xs[2], h.height, 8);
    StringRead(xs[3], h.parent, 32);
    CertificateRead(xs[4], h.hccVotes, h.hccBlock);
  }

  lemma ContentExactly(xs: seq<Item>, h: Header)
    requires |xs| >= 12
    ensures
      && ArrayOf(xs[5], 32) == Ok(h.txHash) && ArrayOf(xs[6], 32) == Ok(h.receiptHash) && ArrayOf(xs[7], 256) == Ok(h.bloom)
      && ArrayOf(xs[8], 32) == Ok(h.stateHash) && h.timestamp.Some? && BigIntOf(xs[9]) == Ok(h.timestamp.value)
      && ArrayOf(xs[10], 20) == Ok(h.proposer) && h.signature.Some? && StringOf(xs[11]) == Ok(h.signature.value)
      <==>
      && IsString(xs[5], h.txHash, 32) && IsString(xs[6], h.receiptHash, 32) && IsString(xs[7], h.bloom, 256) && IsString(xs[8], h.stateHash, 32)
      && xs[9].Str? && h.timestamp.Some? && IsNumber(xs[9], h.timestamp.value, |xs[9].bytes|)
      && IsString(xs[10], h.proposer, 20) && h.signature.Some? && xs[11] == Str(h.signature.value)
  {
    hide IsNumber, IsString, IntOf, ArrayOf, StringOf;
    StringRead(xs[5], h.txHash, 32);
    StringRead(xs[6], h.receiptHash, 32);
    StringRead(xs[7], h.bloom, 256);
    StringRead(xs[8], h.stateHash, 32);
    if xs[9].Str? && h.timestamp.Some? {
      NumberRead(xs[9], h.timestamp.value, |xs[9].bytes|);
    }
    StringRead(xs[10], h.proposer, 20);
    if h.signature.Some? {
      StringRead(xs[11], h.signature.value, 0);
    }
  }

  lemma {:induction false} NumbersRead(xs: seq<Item>, ms: seq<nat>)
    ensures IntsOf(xs) == Some(ms) <==> AreNumbers(xs, ms)
  {
    hide IsNumber, IntOf;
    if xs != [] && ms != [] {
      NumberRead(xs[0], ms[0], 4);
      NumbersRead(xs[1..], ms[1..]);
      assert ms == [ms[0]] + ms[1..];
      assert forall i :: 1 <= i < |xs| ==> xs[i] == xs[1..][i-1];
      assert forall i :: 1 <= i < |ms| ==> ms[i] == ms[1..][i-1];
    }
  }

  lemma {:induction false} AddressesRead(xs: seq<Item>, bs: seq<Bytes>)
    ensures AddressesOf(xs) == Some(bs) <==> AreAddresses(xs, bs)
  {
    hide IsString, ArrayOf;
    if xs != [] && bs != [] {
      StringRead(xs[0], bs[0], 20);
      AddressesRead(xs[1..], bs[1..]);
      assert bs == [bs[0]] + bs[1..];
      assert forall i :: 1 <= i < |xs| ==> xs[i] == xs[1..][i-1];
      assert forall i :: 1 <= i < |bs| ==> bs[i] == bs[1..][i-1];
    }
  }

  /** An item is read as a guardian aggregate exactly if it is laid out as one and its signature, if
      there is any, is one that the curve library accepts. */
  lemma AggregateExactly(x: Item, accepted: Bytes -> bool, a: Aggregate)
    ensures AggregateOf(x, accepted) == Some(a) <==> IsAggregate(x, a) && (a.signature == [] || accepted(a.signature))
  {
    hide IsString, ArrayOf, IntsOf, AreNumbers;
    if x.List? && |x.items| == 4 {
      StringRead(x.items[0], a.block, 32);
      StringRead(x.items[1], a.gcp, 32);
      if x.items[2].List? {
        NumbersRead(x.items[2].items, a.multiplies);
      }
    }
  }

  lemma EdgeAggregateExactly(x: Item, accepted: Bytes -> bool, a: EdgeAggregate)
    ensures EdgeOf(x, accepted) == Some(a) <==> IsEdgeAggregate(x, a) && (a.signature == [] || accepted(a.signature))
  {
    hide IsString, ArrayOf, IntsOf, AreNumbers, AddressesOf, AreAddresses;
    if x.List? && |x.items| == 4 {
      StringRead(x.items[0], a.block, 32);
      if x.items[1].List? {
        NumbersRead(x.items[1].items, a.multiplies);
      }
      if x.items[2].List? {
        AddressesRead(x.items[2].items, a.addresses);
      }
    }
  }
}
