/** Block headers read from bytes (core/block.go): the common fields as values, the aggregates raw, with
    the errors inside them passed over. Which accepted headers are written as the same bytes again. */
module HeaderBytes {
  import opened Common
  import opened RlpSpec
  import opened RlpDecode
  import opened Header
  import opened HeaderLayout

  /** Which signatures the curve library accepts, and what a failed decoding leaves of an aggregate. */
  datatype Library = Library(accepted: Bytes -> bool, halfGuardian: Bytes -> Aggregate, halfEdge: Bytes -> EdgeAggregate)

  // ---- what the bytes say ------------------------------------------------------------

  /** The first `k` items and the number of bytes they take. */
  function ParseSome(b: Bytes, k: nat): (r: Option<(seq<Item>, nat)>)
    ensures r.Some? ==> |r.value.0| == k && r.value.1 <= |b|
  {
    if k == 0 then Some(([], 0)) else
      var front := ParseSome(b, k - 1);
      if front.None? then None else
        var next := Parse(b[front.value.1..]);
        if next.None? then None else Some((front.value.0 + [next.value.0], front.value.1 + next.value.1))
  }

  /** The length of the first value, whatever is in it. */
  function RawLength(b: Bytes): (r: Option<nat>)
    ensures r.Some? ==> 0 < r.value <= |b|
  {
    var h := HeadOf(b);
    if h.None? then None else Some(h.value.tag + h.value.size)
  }

  datatype Parts = Parts(fields: seq<Item>, raws: seq<Bytes>)

  /** `k` raw values and nothing behind them. */
  function RawsOf(b: Bytes, k: nat): (r: Option<seq<Bytes>>)
    ensures r.Some? ==> |r.value| == k
    decreases k
  {
    if k == 0 then if b == [] then Some([]) else None else
      var n := RawLength(b);
      if n.None? then None else
        var rest := RawsOf(b[n.value..], k - 1);
        if rest.None? then None else Some([b[..n.value]] + rest.value)
  }

  function PartsOf(c: Bytes): (r: Option<Parts>)
    ensures r.Some? ==> FieldsOk(r.value.fields) && |r.value.raws| == FieldCount(CommonFrom(r.value.fields).height) - 12
  {
    var xs := ParseSome(c, 12);
    if xs.None? || !FieldsOk(xs.value.0) then None else
      var raws := RawsOf(c[xs.value.1..], FieldCount(CommonFrom(xs.value.0).height) - 12);
      if raws.None? then None else Some(Parts(xs.value.0, raws.value))
  }

  /** The aggregate, if the raw value is one from its first byte to its last. */
  function CleanGuardian(raw: Bytes, lib: Library): Option<Aggregate> {
    var x := Parse(raw);
    if x.Some? && x.value.1 == |raw| then AggregateOf(x.value.0, lib.accepted) else None
  }

  function CleanEdge(raw: Bytes, lib: Library): Option<EdgeAggregate> {
    var x := Parse(raw);
    if x.Some? && x.value.1 == |raw| then EdgeOf(x.value.0, lib.accepted) else None
  }

  function GuardianRead(raw: Bytes, lib: Library): Option<Aggregate> {
    if raw == [0xC0] then None
    else if CleanGuardian(raw, lib).Some? then CleanGuardian(raw, lib)
    else Some(lib.halfGuardian(raw))
  }

  function EdgeRead(raw: Bytes, lib: Library): Option<EdgeAggregate> {
    if raw == [0xC0] then None
    else if CleanEdge(raw, lib).Some? then CleanEdge(raw, lib)
    else Some(lib.halfEdge(raw))
  }

  function HeaderRead(p: Parts, lib: Library): Header
    requires FieldsOk(p.fields) && |p.raws| == FieldCount(CommonFrom(p.fields).height) - 12
  {
    var h := CommonFrom(p.fields);
    h.(guardianVotes := if h.height >= THETA2 then GuardianRead(p.raws[0], lib) else None,
       edgeVotes := if h.height >= THETA3 then EdgeRead(p.raws[1], lib) else None)
  }

  /** The content of the list that the bytes are. */
  function ContentOf(b: Bytes): Option<Bytes> {
    var h := HeadOf(b);
    if h.Some? && h.value.kind.List? && h.value.tag + h.value.size == |b| then Some(b[h.value.tag..]) else None
  }

  function PartsAt(b: Bytes): (r: Option<Parts>)
    ensures r.Some? ==> FieldsOk(r.value.fields) && |r.value.raws| == FieldCount(CommonFrom(r.value.fields).height) - 12
  {
    var c := ContentOf(b);
    if c.None? then None else PartsOf(c.value)
  }

  function HeaderAt(b: Bytes, lib: Library): Option<Header> {
    var p := PartsAt(b);
    if p.None? then None else Some(HeaderRead(p.value, lib))
  }

  // ---- the pieces are the bytes ------------------------------------------------------

  lemma {:induction false} SomeEncoded(b: Bytes, k: nat)
    requires ParseSome(b, k).Some?
    ensures EncodeAll(ParseSome(b, k).value.0) == b[..ParseSome(b, k).value.1]
  {
    hide Parse, Encode;
    if k > 0 {
      SomeEncoded(b, k - 1);
      var n := ParseSome(b, k - 1).value.1;
      EncodeParse(b[n..]);
      EncodeAllLast(ParseSome(b, k - 1).value.0, Parse(b[n..]).value.0);
      var m := Parse(b[n..]).value.1;
      assert b[..n] + b[n..][..m] == b[..n + m];
    }
  }

  lemma {:induction false} EncodeAllLast(xs: seq<Item>, x: Item)
    ensures EncodeAll(xs + [x]) == EncodeAll(xs) + Encode(x)
    decreases xs
  {
    hide Encode;
    if xs == [] {
      assert [x][1..] == [] && [] + [x] == [x];
    } else {
      EncodeAllLast(xs[1..], x);
      assert (xs + [x])[1..] == xs[1..] + [x];
    }
  }

  lemma {:induction false} EncodeAllConcat(xs: seq<Item>, ys: seq<Item>)
    ensures EncodeAll(xs + ys) == EncodeAll(xs) + EncodeAll(ys)
    decreases ys
  {
    hide Encode;
    if ys == [] {
      assert xs + ys == xs;
    } else {
      assert xs + ys == xs + [ys[0]] + ys[1..];
      EncodeAllConcat(xs + [ys[0]], ys[1..]);
      EncodeAllLast(xs, ys[0]);
    }
  }

  function Joined(raws: seq<Bytes>): Bytes {
    if raws == [] then [] else raws[0] + Joined(raws[1..])
  }

  lemma {:induction false} RawsJoined(b: Bytes, k: nat)
    requires RawsOf(b, k).Some?
    ensures Joined(RawsOf(b, k).value) == b
    decreases k
  {
    hide HeadOf;
    if k > 0 {
      var n := RawLength(b).value;
      RawsJoined(b[n..], k - 1);
      assert b == b[..n] + b[n..];
    }
  }

  // ---- what was read is written the same ---------------------------------------------

  lemma IntForth(x: Item, maxBytes: nat)
    requires IntOf(x, maxBytes).Ok?
    ensures IntItem(IntOf(x, maxBytes).value) == x
  {
    hide FromBigEndian, BigEndian;
    IntStringOf(x.bytes);
  }

  lemma IntStringOf(b: Bytes)
    requires b == [] || b[0] != 0
    ensures IntString(FromBigEndian(b)) == b
  {
    hide BigEndian;
    if b != [] {
      hide FromBigEndian;
      BigEndianOf(b);
    }
  }

  lemma VoteForth(x: Item)
    requires VoteOf(x).Ok?
    ensures VoteItem(VoteOf(x).value) == x
  {
    hide IntOf, IntItem;
    IntForth(x.items[1], 8);
    IntForth(x.items[2], 8);
  }

  lemma {:induction false} IntsForth(xs: seq<Item>)
    requires IntsOf(xs).Some?
    ensures IntItems(IntsOf(xs).value) == xs
  {
    hide IntOf, IntItem;
    if xs != [] {
      IntForth(xs[0], 4);
      IntsForth(xs[1..]);
      assert IntsOf(xs).value[1..] == IntsOf(xs[1..]).value;
    }
  }

  lemma {:induction false} AddressesForth(xs: seq<Item>)
    requires AddressesOf(xs).Some?
    ensures StrItems(AddressesOf(xs).value) == xs
  {
    if xs != [] {
      AddressesForth(xs[1..]);
      assert AddressesOf(xs).value[1..] == AddressesOf(xs[1..]).value;
    }
  }

  lemma AggregateForth(x: Item, accepted: Bytes -> bool)
    requires AggregateOf(x, accepted).Some?
    ensures AggregateItem(AggregateOf(x, accepted).value) == x
  {
    hide IntsOf, IntItems;
    IntsForth(x.items[2].items);
  }

  lemma EdgeForth(x: Item, accepted: Bytes -> bool)
    requires EdgeOf(x, accepted).Some?
    ensures EdgeItem(EdgeOf(x, accepted).value) == x
  {
    hide IntsOf, IntItems, AddressesOf, StrItems;
    IntsForth(x.items[1].items);
    AddressesForth(x.items[2].items);
  }

  /** All the common fields but the certificate are written as they were read. */
  lemma FieldsForth(xs: seq<Item>, h: Header, us: seq<Vote>)
    requires FieldsOk(xs) && |xs| == 12 && h == CommonFrom(xs).(guardianVotes := h.guardianVotes, edgeVotes := h.edgeVotes)
    ensures CommonItems(h, us) == xs[4 := HccItem(us, h.hccBlock)]
  {
    hide IntOf, IntItem, HccOf, HccItem, FromBigEndian;
    IntForth(xs[1], 8);
    IntForth(xs[2], 8);
    TimeForth(xs[9]);
  }

  lemma TimeForth(x: Item)
    requires BigIntOf(x).Ok?
    ensures IntItem(BigIntOf(x).value) == x
  {
    hide FromBigEndian, BigEndian;
    IntStringOf(x.bytes);
  }

  // ---- the aggregates ----------------------------------------------------------------

  /** The raw value is "c0" or a whole aggregate, or what is left of it happens to be written so. */
  ghost predicate SameGuardian(raw: Bytes, lib: Library) {
    raw == [0xC0] || CleanGuardian(raw, lib).Some? || Encode(AggregateItem(lib.halfGuardian(raw))) == raw
  }

  ghost predicate SameEdge(raw: Bytes, lib: Library) {
    raw == [0xC0] || CleanEdge(raw, lib).Some? || Encode(EdgeItem(lib.halfEdge(raw))) == raw
  }

  lemma NothingEncoded()
    ensures Encode(NOTHING) == [0xC0]
  {
    assert EncodeAll([]) == [];
  }

  lemma GuardianForth(raw: Bytes, lib: Library)
    ensures
      var a := GuardianRead(raw, lib);
      Encode(if a.None? then NOTHING else AggregateItem(a.value)) == raw <==> SameGuardian(raw, lib)
  {
    hide Parse, Encode, AggregateOf, AggregateItem;
    NothingEncoded();
    if CleanGuardian(raw, lib).Some? {
      EncodeParse(raw);
      AggregateForth(Parse(raw).value.0, lib.accepted);
      assert raw[..|raw|] == raw;
    }
  }

  lemma EdgeNodeForth(raw: Bytes, lib: Library)
    ensures
      var a := EdgeRead(raw, lib);
      Encode(if a.None? then NOTHING else EdgeItem(a.value)) == raw <==> SameEdge(raw, lib)
  {
    hide Parse, Encode, EdgeOf, EdgeItem;
    NothingEncoded();
    if CleanEdge(raw, lib).Some? {
      EncodeParse(raw);
      EdgeForth(Parse(raw).value.0, lib.accepted);
      assert raw[..|raw|] == raw;
    }
  }

  // ---- the votes ---------------------------------------------------------------------

  /** Lowest voter first, and no two votes of one voter for one block in one epoch. */
  ghost predicate Ordered(vs: seq<Vote>) {
    forall i, j :: 0 <= i < j < |vs| ==> FromBigEndian(vs[i].id) <= FromBigEndian(vs[j].id) && KeyOf(vs[i]) != KeyOf(vs[j])
  }

  function VotesIn(xs: seq<Item>): Option<seq<Vote>> {
    if xs == [] then Some([]) else
      var first, rest := VoteOf(xs[0]), VotesIn(xs[1..]);
      if first.Err? || rest.None? then None else Some([first.value] + rest.value)
  }

  /** The certificate's votes are a list, of votes in order. */
  ghost predicate InOrder(x: Item) {
    x.List? && |x.items| == 2 && x.items[0].List? && VotesIn(x.items[0].items).Some? && Ordered(VotesIn(x.items[0].items).value)
  }

  lemma {:induction false} VotesForth(xs: seq<Item>)
    requires VotesIn(xs).Some?
    ensures VoteItems(VotesIn(xs).value) == xs
  {
    hide VoteOf, VoteItem;
    if xs != [] {
      VoteForth(xs[0]);
      VotesForth(xs[1..]);
      assert VotesIn(xs).value[1..] == VotesIn(xs[1..]).value;
    }
  }

  function MapOf(vs: seq<Vote>): Votes {
    if vs == [] then map[] else MapOf(vs[1..])[KeyOf(vs[0]) := vs[0]]
  }

  lemma {:induction false} MapHolds(vs: seq<Vote>, k: VoteKey)
    ensures k in MapOf(vs) ==> exists i :: 0 <= i < |vs| && vs[i] == MapOf(vs)[k] && KeyOf(vs[i]) == k
  {
    if vs != [] && k != KeyOf(vs[0]) && k in MapOf(vs) {
      MapHolds(vs[1..], k);
      var i :| 0 <= i < |vs[1..]| && vs[1..][i] == MapOf(vs[1..])[k] && KeyOf(vs[1..][i]) == k;
      assert vs[i+1] == vs[1..][i];
    }
  }

  lemma {:induction false} OrderedLists(vs: seq<Vote>)
    requires Ordered(vs)
    ensures Lists(vs, MapOf(vs))
  {
    hide FromBigEndian, Ordered;
    if vs != [] {
      var rest, m, k := vs[1..], MapOf(vs), KeyOf(vs[0]);
      OrderedRest(vs);
      OrderedLists(rest);
      forall j | j in m ensures FromBigEndian(vs[0].id) <= FromBigEndian(m[j].id) && (j in MapOf(rest) ==> j != k) {
        MapHolds(rest, j);
        OrderedFirst(vs);
      }
      assert m - {k} == MapOf(rest);
    }
  }

  lemma OrderedRest(vs: seq<Vote>)
    requires Ordered(vs) && vs != []
    ensures Ordered(vs[1..])
  {
  }

  lemma OrderedFirst(vs: seq<Vote>)
    requires Ordered(vs) && vs != []
    ensures forall i :: 0 <= i < |vs[1..]| ==> FromBigEndian(vs[0].id) <= FromBigEndian(vs[1..][i].id) && KeyOf(vs[1..][i]) != KeyOf(vs[0])
  {
    forall i | 0 <= i < |vs[1..]| ensures FromBigEndian(vs[0].id) <= FromBigEndian(vs[1..][i].id) && KeyOf(vs[1..][i]) != KeyOf(vs[0]) {
      assert vs[1..][i] == vs[i+1];
    }
  }

  lemma {:induction false} ListsHold(vs: seq<Vote>, m: Votes, i: nat)
    requires Lists(vs, m) && i < |vs|
    ensures KeyOf(vs[i]) in m && m[KeyOf(vs[i])] == vs[i]
    decreases vs
  {
    if i > 0 {
      ListsHold(vs[1..], m - {KeyOf(vs[0])}, i - 1);
    }
  }

  lemma {:induction false} ListsOrdered(vs: seq<Vote>, m: Votes)
    requires Lists(vs, m)
    ensures Ordered(vs)
    decreases vs
  {
    hide FromBigEndian;
    if vs != [] {
      var rest, less := vs[1..], m - {KeyOf(vs[0])};
      ListsOrdered(rest, less);
      forall i, j | 0 <= i < j < |vs|
        ensures FromBigEndian(vs[i].id) <= FromBigEndian(vs[j].id) && KeyOf(vs[i]) != KeyOf(vs[j])
      {
        ListsHold(rest, less, j - 1);
        if i > 0 {
          assert rest[i-1] == vs[i] && rest[j-1] == vs[j];
        }
      }
    }
  }

  lemma {:induction false} FromIsMap(before: Votes, xs: seq<Item>)
    requires VotesIn(xs).Some? && Ordered(VotesIn(xs).value)
    ensures VotesFrom(before, xs) == Ok(before + MapOf(VotesIn(xs).value))
    decreases xs
  {
    hide VoteOf, FromBigEndian, Ordered;
    if xs == [] {
      assert before + map[] == before;
    } else {
      var vs := VotesIn(xs).value;
      assert vs[1..] == VotesIn(xs[1..]).value;
      OrderedRest(vs);
      FromIsMap(before[KeyOf(vs[0]) := vs[0]], xs[1..]);
      if KeyOf(vs[0]) in MapOf(vs[1..]) {
        MapHolds(vs[1..], KeyOf(vs[0]));
        OrderedFirst(vs);
      }
      assert before[KeyOf(vs[0]) := vs[0]] + MapOf(vs[1..]) == before + MapOf(vs);
    }
  }

  lemma {:induction false} FromNeedsVotes(before: Votes, xs: seq<Item>)
    requires VotesFrom(before, xs).Ok?
    ensures VotesIn(xs).Some?
    decreases xs
  {
    hide VoteOf;
    if xs != [] {
      FromNeedsVotes(before[KeyOf(VoteOf(xs[0]).value) := VoteOf(xs[0]).value], xs[1..]);
    }
  }

  /** A vote that is read back keeps its key. */
  lemma SameKey(v: Vote)
    requires VoteOf(VoteItem(v)).Ok?
    ensures KeyOf(VoteOf(VoteItem(v)).value) == KeyOf(v)
  {
    FromBigEndianOf(v.epoch);
  }

  lemma {:induction false} SameOrder(us: seq<Vote>)
    requires VotesIn(VoteItems(us)).Some?
    ensures |VotesIn(VoteItems(us)).value| == |us|
    ensures forall i :: 0 <= i < |us| ==> KeyOf(VotesIn(VoteItems(us)).value[i]) == KeyOf(us[i])
  {
    hide VoteOf, VoteItem;
    if us != [] {
      assert VoteItems(us)[1..] == VoteItems(us[1..]);
      SameOrder(us[1..]);
      SameKey(us[0]);
    }
  }

  lemma KeysDecide(us: seq<Vote>, vs: seq<Vote>)
    requires |us| == |vs| && (forall i :: 0 <= i < |us| ==> KeyOf(vs[i]) == KeyOf(us[i])) && Ordered(us)
    ensures Ordered(vs)
  {
    forall i, j | 0 <= i < j < |vs| ensures FromBigEndian(vs[i].id) <= FromBigEndian(vs[j].id) && KeyOf(vs[i]) != KeyOf(vs[j]) {
      assert KeyOf(vs[i]) == KeyOf(us[i]) && KeyOf(vs[j]) == KeyOf(us[j]);
    }
  }

  /** The certificate can be written as it was read exactly when its votes were in order. */
  lemma OrderExactly(x: Item)
    requires HccOf(x).Ok?
    ensures
      var m := if HccOf(x).value.0.Some? then HccOf(x).value.0.value else map[];
      (exists us :: Lists(us, m) && HccItem(us, HccOf(x).value.1) == x) <==> InOrder(x)
  {
    hide VotesFrom, VotesIn, VoteItems, Lists, Ordered, MapOf;
    var m := if HccOf(x).value.0.Some? then HccOf(x).value.0.value else map[];
    if us :| Lists(us, m) && HccItem(us, HccOf(x).value.1) == x {
      ListsOrdered(us, m);
      ReadVotes(x);
      SameOrder(us);
      KeysDecide(us, VotesIn(VoteItems(us)).value);
    }
    if InOrder(x) {
      var vs := VotesIn(x.items[0].items).value;
      OrderedLists(vs);
      FromIsMap(map[], x.items[0].items);
      assert map[] + MapOf(vs) == MapOf(vs);
      VotesForth(x.items[0].items);
      NoneRead();
      assert Lists(vs, m) && HccItem(vs, HccOf(x).value.1) == x;
    }
  }

  lemma ReadVotes(x: Item)
    requires HccOf(x).Ok? && x.items[0].List?
    ensures VotesIn(x.items[0].items).Some?
  {
    if x.items[0] != NOTHING {
      FromNeedsVotes(map[], x.items[0].items);
    }
  }

  lemma NoneRead()
    ensures VotesIn([]) == Some([]) && MapOf([]) == map[]
  {
  }

  // ---- bytes and parts ---------------------------------------------------------------

  lemma {:induction false} SomeOfEncoded(xs: seq<Item>, rest: Bytes, k: nat)
    requires k <= |xs| && |EncodeAll(xs)| < U64
    ensures ParseSome(EncodeAll(xs) + rest, k) == Some((xs[..k], |EncodeAll(xs[..k])|))
    decreases k
  {
    hide Parse, Encode, EncodeAll;
    if k > 0 {
      SomeOfEncoded(xs, rest, k - 1);
      assert xs == xs[..k-1] + ([xs[k-1]] + xs[k..]) && xs[..k] == xs[..k-1] + [xs[k-1]];
      NextOfEncoded(xs[..k-1], xs[k-1], xs[k..], rest);
      EncodeAllLast(xs[..k-1], xs[k-1]);
    } else {
      assert xs[..0] == [] && EncodeAll([]) == [] by { NoneEncoded(); }
    }
  }

  lemma NoneEncoded()
    ensures EncodeAll([]) == []
  {
  }

  lemma NextOfEncoded(front: seq<Item>, x: Item, back: seq<Item>, rest: Bytes)
    requires |EncodeAll(front + ([x] + back))| < U64
    ensures
      var b, n := EncodeAll(front + ([x] + back)) + rest, |EncodeAll(front)|;
      n <= |b| && Parse(b[n..]) == Some((x, |Encode(x)|))
  {
    hide Parse, Encode, EncodeAll;
    var a, behind := EncodeAll(front), EncodeAll(back) + rest;
    EncodeAllConcat(front, [x] + back);
    EncodeAllCons(x, back);
    assert EncodeAll(front + ([x] + back)) + rest == a + (Encode(x) + behind);
    assert (a + (Encode(x) + behind))[|a|..] == Encode(x) + behind;
    ParseEncode(x, behind);
  }

  lemma RawOfEncoded(x: Item, rest: Bytes)
    requires |Encode(x)| < U64
    ensures RawLength(Encode(x) + rest) == Some(|Encode(x)|)
  {
    hide Encode;
    ParseEncode(x, rest);
    ParsedLength(Encode(x) + rest);
  }

  lemma ParsedLength(b: Bytes)
    requires Parse(b).Some?
    ensures RawLength(b) == Some(Parse(b).value.1)
  {
    hide HeadOf;
  }

  function EachEncoded(xs: seq<Item>): seq<Bytes> {
    if xs == [] then [] else [Encode(xs[0])] + EachEncoded(xs[1..])
  }

  lemma {:induction false} RawsOfEncoded(xs: seq<Item>)
    requires |EncodeAll(xs)| < U64
    ensures RawsOf(EncodeAll(xs), |xs|) == Some(EachEncoded(xs))
    decreases xs
  {
    hide Encode, RawLength;
    if xs != [] {
      var first, rest := Encode(xs[0]), EncodeAll(xs[1..]);
      RawOfEncoded(xs[0], rest);
      assert (first + rest)[..|first|] == first && (first + rest)[|first|..] == rest;
      RawsOfEncoded(xs[1..]);
    }
  }

  lemma {:induction false} EachJoined(xs: seq<Item>)
    ensures Joined(EachEncoded(xs)) == EncodeAll(xs)
  {
    hide Encode;
    if xs != [] {
      EachJoined(xs[1..]);
      assert EachEncoded(xs)[1..] == EachEncoded(xs[1..]);
    }
  }

  /** The items behind the common fields. */
  function Tail(h: Header): seq<Item> {
    (if h.height >= THETA2 then [GuardianItem(h)] else []) + (if h.height >= THETA3 then [EdgeNodeItem(h)] else [])
  }

  lemma ItemsInTwo(h: Header, us: seq<Vote>)
    ensures HeaderItem(h, us) == Item.List(CommonItems(h, us) + Tail(h)) && |Tail(h)| == FieldCount(h.height) - 12
    ensures EncodeAll(CommonItems(h, us) + Tail(h)) == EncodeAll(CommonItems(h, us)) + EncodeAll(Tail(h))
  {
    hide Encode, EncodeAll, HccItem;
    EncodeAllConcat(CommonItems(h, us), Tail(h));
  }

  /** A list is determined by its content, and its content by the list. */
  lemma ListIs(b: Bytes, xs: seq<Item>)
    requires |b| < U64 && ContentOf(b).Some?
    ensures Encode(Item.List(xs)) == b <==> EncodeAll(xs) == ContentOf(b).value
  {
    hide Parse, EncodeAll, HeadOf;
    var h, c, ys := HeadOf(b).value, ContentOf(b).value, EncodeAll(xs);
    HeaderOfHead(b, h);
    assert b == b[..h.tag] + c && |c| == h.size;
    if Encode(Item.List(xs)) == b {
      HeadOfHeader(0xC0, ys, []);
      assert RlpSpec.Header(0xC0, |ys|) + ys + [] == b;
    }
  }

  lemma ContentIs(c: Bytes, p: Parts)
    requires PartsOf(c) == Some(p)
    ensures c == EncodeAll(p.fields) + Joined(p.raws) && |p.fields| == 12
  {
    hide ParseSome, RawsOf, EncodeAll, FieldsOk, CommonFrom;
    SomeEncoded(c, 12);
    var n := ParseSome(c, 12).value.1;
    RawsJoined(c[n..], |p.raws|);
    assert c == c[..n] + c[n..];
  }

  /** The parts of an encoded header. */
  lemma PartsOfEncoded(c: Bytes, h: Header, us: seq<Vote>)
    requires |c| < U64 && PartsOf(c).Some? && c == EncodeAll(CommonItems(h, us)) + EncodeAll(Tail(h))
    requires CommonFrom(PartsOf(c).value.fields).height == h.height
    ensures PartsOf(c) == Some(Parts(CommonItems(h, us), EachEncoded(Tail(h))))
  {
    hide ParseSome, RawsOf, EncodeAll, FieldsOk, CommonFrom, Tail, CommonItems;
    var xs := CommonItems(h, us);
    TwelveItems(h, us);
    SomeOfEncoded(xs, EncodeAll(Tail(h)), 12);
    assert xs[..12] == xs;
    RawsOfEncoded(Tail(h));
    assert c[|EncodeAll(xs)|..] == EncodeAll(Tail(h));
    ItemsInTwo(h, us);
  }

  lemma TwelveItems(h: Header, us: seq<Vote>)
    ensures |CommonItems(h, us)| == 12
  {
  }

  /** The accepted bytes are those of the header, with the votes in the order `us`, exactly when the
      certificate and the raw aggregates are. */
  lemma WrittenBackIf(b: Bytes, lib: Library, us: seq<Vote>)
    requires |b| < U64 && HeaderAt(b, lib).Some?
    ensures
      var p, h := PartsAt(b).value, HeaderAt(b, lib).value;
      EncodeHeader(h, us) == b <==> p.fields[4] == HccItem(us, h.hccBlock) && p.raws == EachEncoded(Tail(h))
  {
    hide HccItem, Encode, EncodeAll, ContentOf, PartsOf, FieldsOk, CommonFrom, Tail, CommonItems, Joined, EachEncoded, GuardianRead, EdgeRead;
    var c, p, h := ContentOf(b).value, PartsAt(b).value, HeaderAt(b, lib).value;
    ContentIs(c, p);
    ItemsInTwo(h, us);
    ListIs(b, CommonItems(h, us) + Tail(h));
    FieldsForth(p.fields, h, us);
    EachJoined(Tail(h));
    ContentShorter(b);
    if EncodeHeader(h, us) == b {
      SameHeight(p, lib);
      PartsOfEncoded(c, h, us);
    }
    if p.fields[4] == HccItem(us, h.hccBlock) && p.raws == EachEncoded(Tail(h)) {
      assert p.fields[4 := HccItem(us, h.hccBlock)] == p.fields;
    }
  }

  lemma ContentShorter(b: Bytes)
    requires ContentOf(b).Some?
    ensures |ContentOf(b).value| <= |b|
  {
    hide HeadOf;
  }

  lemma SameHeight(p: Parts, lib: Library)
    requires FieldsOk(p.fields) && |p.raws| == FieldCount(CommonFrom(p.fields).height) - 12
    ensures HeaderRead(p, lib).height == CommonFrom(p.fields).height && HeaderRead(p, lib).hccVotes == CommonFrom(p.fields).hccVotes
  {
  }

  lemma TailIs(p: Parts, lib: Library)
    requires FieldsOk(p.fields) && |p.raws| == FieldCount(CommonFrom(p.fields).height) - 12
    ensures
      var h := HeaderRead(p, lib);
      p.raws == EachEncoded(Tail(h)) <==>
        (h.height >= THETA2 ==> SameGuardian(p.raws[0], lib)) && (h.height >= THETA3 ==> SameEdge(p.raws[1], lib))
  {
    hide FieldsOk, CommonFrom, Encode, GuardianRead, EdgeRead, SameGuardian, SameEdge, AggregateItem, EdgeItem;
    var h := HeaderRead(p, lib);
    if h.height >= THETA2 {
      GuardianForth(p.raws[0], lib);
    }
    if h.height >= THETA3 {
      EdgeNodeForth(p.raws[1], lib);
    }
    TailEncoded(h);
  }

  lemma TailEncoded(h: Header)
    ensures |EachEncoded(Tail(h))| == FieldCount(h.height) - 12
    ensures h.height >= THETA2 ==> EachEncoded(Tail(h))[0] == Encode(GuardianItem(h))
    ensures h.height >= THETA3 ==> EachEncoded(Tail(h))[1] == Encode(EdgeNodeItem(h))
  {
    hide Encode, GuardianItem, EdgeNodeItem;
    TwoEncoded(GuardianItem(h), EdgeNodeItem(h));
    if h.height >= THETA3 {
      assert Tail(h) == [GuardianItem(h), EdgeNodeItem(h)];
    } else if h.height >= THETA2 {
      assert Tail(h) == [GuardianItem(h)];
    } else {
      assert Tail(h) == [];
    }
  }

  lemma TwoEncoded(x: Item, y: Item)
    ensures EachEncoded([x]) == [Encode(x)] && EachEncoded([x, y]) == [Encode(x), Encode(y)] && EachEncoded([]) == []
  {
    hide Encode;
    assert [x][1..] == [] && [x, y][1..] == [y] && [y][1..] == [];
    assert EachEncoded([y]) == [Encode(y)] + EachEncoded([]);
  }

  /** Exactly which accepted header bytes are what is written for the header again: those whose votes
      stand in order, and whose aggregates are "c0" or are read without an error, unless what a failed
      reading leaves happens to be written like its bytes. */
  lemma WrittenBackExactly(b: Bytes, lib: Library)
    requires |b| < U64 && HeaderAt(b, lib).Some?
    ensures
      var p, h := PartsAt(b).value, HeaderAt(b, lib).value;
      (exists us :: Lists(us, VotesOf(h)) && EncodeHeader(h, us) == b) <==>
        && InOrder(p.fields[4])
        && (h.height >= THETA2 ==> SameGuardian(p.raws[0], lib)) && (h.height >= THETA3 ==> SameEdge(p.raws[1], lib))
  {
    hide HccItem, EncodeHeader, PartsAt, SameGuardian, SameEdge, InOrder, Lists, Tail, EachEncoded, HccOf;
    var p, h := PartsAt(b).value, HeaderAt(b, lib).value;
    SameHeight(p, lib);
    OrderExactly(p.fields[4]);
    TailIs(p, lib);
    forall us ensures EncodeHeader(h, us) == b <==> p.fields[4] == HccItem(us, h.hccBlock) && p.raws == EachEncoded(Tail(h)) {
      WrittenBackIf(b, lib, us);
    }
  }

  // ---- a header comes back from its bytes --------------------------------------------

  lemma CleanBack(h: Header, lib: Library)
    requires HeaderOk(h, lib.accepted) && |EncodeAll(Tail(h))| < U64
    ensures h.height >= THETA2 ==> GuardianRead(Encode(GuardianItem(h)), lib) == h.guardianVotes
    ensures h.height >= THETA3 ==> EdgeRead(Encode(EdgeNodeItem(h)), lib) == h.edgeVotes
  {
    hide Encode, Parse, AggregateOk, EdgeOk, AggregateItem, EdgeItem, AggregateOf, EdgeOf, HeaderOk;
    TailShort(h);
    NothingEncoded();
    if h.height >= THETA2 && h.guardianVotes.Some? {
      assert AggregateOk(h.guardianVotes.value, lib.accepted) by { VotesAreOk(h, lib); }
      AggregateBack(h.guardianVotes.value, lib.accepted);
      WholeItem(AggregateItem(h.guardianVotes.value));
    }
    if h.height >= THETA3 && h.edgeVotes.Some? {
      assert EdgeOk(h.edgeVotes.value, lib.accepted) by { VotesAreOk(h, lib); }
      EdgeBack(h.edgeVotes.value, lib.accepted);
      WholeItem(EdgeItem(h.edgeVotes.value));
    }
  }

  lemma VotesAreOk(h: Header, lib: Library)
    requires HeaderOk(h, lib.accepted)
    ensures h.guardianVotes.Some? ==> AggregateOk(h.guardianVotes.value, lib.accepted)
    ensures h.edgeVotes.Some? ==> EdgeOk(h.edgeVotes.value, lib.accepted)
  {
  }

  lemma TailShort(h: Header)
    requires |EncodeAll(Tail(h))| < U64
    ensures h.height >= THETA2 ==> |Encode(GuardianItem(h))| < U64
    ensures h.height >= THETA3 ==> |Encode(EdgeNodeItem(h))| < U64
  {
    hide Encode, GuardianItem, EdgeNodeItem;
    EachJoined(Tail(h));
    TailEncoded(h);
  }

  /** An encoding is one item from its first byte to its last, and "c0" is nothing. */
  lemma WholeItem(x: Item)
    requires |Encode(x)| < U64
    ensures Parse(Encode(x)) == Some((x, |Encode(x)|)) && (Encode(x) == [0xC0] ==> x == NOTHING)
  {
    hide Encode, Parse;
    ParseEncode(x, []);
    assert Encode(x) + [] == Encode(x);
    NothingEncoded();
    ParseEncode(NOTHING, []);
    assert Encode(NOTHING) + [] == Encode(NOTHING);
  }

  /** Every well-formed header, at every height, is read back from its bytes. */
  lemma BytesBack(h: Header, vs: seq<Vote>, lib: Library)
    requires HeaderOk(h, lib.accepted) && Lists(vs, VotesOf(h)) && |EncodeHeader(h, vs)| < U64
    ensures HeaderAt(EncodeHeader(h, vs), lib) == Some(Normal(h))
  {
    hide HeaderOk, Lists, Encode, EncodeAll, FieldsOk, CommonFrom, Tail, CommonItems, GuardianRead, EdgeRead, HccOf, IntOf, HeadOf, Normal, PartsOf;
    var xs, b := CommonItems(h, vs), EncodeHeader(h, vs);
    TwelveItems(h, vs);
    assert xs[..12] == xs;
    CommonBack(h, vs, lib.accepted, xs);
    FieldsAre(h, vs, lib, xs);
    ItemsInTwo(h, vs);
    EncodedContent(xs + Tail(h));
    var c := EncodeAll(xs) + EncodeAll(Tail(h));
    PartsAre(c, h, xs);
    CleanBack(h, lib);
    TailEncoded(h);
    ReadIs(h, vs, lib, Parts(xs, EachEncoded(Tail(h))));
  }

  lemma FieldsAre(h: Header, vs: seq<Vote>, lib: Library, xs: seq<Item>)
    requires HeaderOk(h, lib.accepted) && Lists(vs, VotesOf(h)) && xs == CommonItems(h, vs) && FieldsOk(xs)
    requires IntOf(xs[1], 8).value == h.epoch && IntOf(xs[2], 8).value == h.height
    requires HccOf(xs[4]).value == (Normal(h).hccVotes, h.hccBlock) && Some(BigIntOf(xs[9]).value) == Normal(h).timestamp
    ensures CommonFrom(xs) == Normal(h).(guardianVotes := None, edgeVotes := None) && CommonFrom(xs).height == h.height
  {
    hide HccOf, IntOf, BigIntOf, Lists, IntItem, HccItem, AllSigned, AggregateOk, EdgeOk;
  }

  lemma EncodedContent(ys: seq<Item>)
    requires |Encode(Item.List(ys))| < U64
    ensures ContentOf(Encode(Item.List(ys))) == Some(EncodeAll(ys))
  {
    hide EncodeAll, HeadOf;
    HeadOfHeader(0xC0, EncodeAll(ys), []);
    assert RlpSpec.Header(0xC0, |EncodeAll(ys)|) + EncodeAll(ys) + [] == Encode(Item.List(ys));
  }

  lemma PartsAre(c: Bytes, h: Header, xs: seq<Item>)
    requires |c| < U64 && c == EncodeAll(xs) + EncodeAll(Tail(h)) && |xs| == 12 && FieldsOk(xs) && CommonFrom(xs).height == h.height
    ensures PartsOf(c) == Some(Parts(xs, EachEncoded(Tail(h))))
  {
    hide ParseSome, RawsOf, EncodeAll, FieldsOk, CommonFrom;
    SomeOfEncoded(xs, EncodeAll(Tail(h)), 12);
    assert xs[..12] == xs;
    RawsOfEncoded(Tail(h));
    assert c[|EncodeAll(xs)|..] == EncodeAll(Tail(h));
  }

  lemma ReadIs(h: Header, vs: seq<Vote>, lib: Library, p: Parts)
    requires FieldsOk(p.fields) && CommonFrom(p.fields) == Normal(h).(guardianVotes := None, edgeVotes := None)
    requires |p.raws| == FieldCount(h.height) - 12
    requires h.height >= THETA2 ==> GuardianRead(p.raws[0], lib) == h.guardianVotes
    requires h.height >= THETA3 ==> EdgeRead(p.raws[1], lib) == h.edgeVotes
    ensures HeaderRead(p, lib) == Normal(h)
  {
    hide FieldsOk, CommonFrom, GuardianRead, EdgeRead, AllSigned;
  }

  /** A header of the middle layout whose aggregate is a byte behind a tag it must not have: the bytes
      are no encoding, and are accepted all the same. */
  lemma AcceptedUnparsed(h: Header, vs: seq<Vote>, lib: Library)
    requires HeaderOk(h, lib.accepted) && Lists(vs, VotesOf(h)) && THETA2 <= h.height < THETA3
    requires |EncodeAll(CommonItems(h, vs))| + 100 < U64
    ensures
      var c := EncodeAll(CommonItems(h, vs)) + [0x81, 0x05];
      var b := RlpSpec.Header(0xC0, |c|) + c;
      HeaderAt(b, lib).Some? && Parse(b).None?
  {
    hide HeaderOk, Lists, Encode, EncodeAll, FieldsOk, CommonFrom, CommonItems, HccOf, IntOf, Normal, PartsOf, ContentOf, Parse, ParseAll, RlpSpec.Header, HeaderRead;
    var xs, raw := CommonItems(h, vs), [0x81, 0x05];
    var c := EncodeAll(xs) + raw;
    var b := RlpSpec.Header(0xC0, |c|) + c;
    TwelveItems(h, vs);
    assert xs[..12] == xs;
    CommonBack(h, vs, lib.accepted, xs);
    FieldsAre(h, vs, lib, xs);
    WithRaw(c, xs, raw);
    ContentBehind(b, c);
    StopsInside(xs);
    ParsedContent(b, c);
  }

  lemma WithRaw(c: Bytes, xs: seq<Item>, raw: Bytes)
    requires c == EncodeAll(xs) + raw && raw == [0x81, 0x05] && |xs| == 12 && FieldsOk(xs) && |EncodeAll(xs)| < U64
    requires THETA2 <= CommonFrom(xs).height < THETA3
    ensures PartsOf(c) == Some(Parts(xs, [raw]))
  {
    hide ParseSome, RawsOf, EncodeAll, FieldsOk, CommonFrom;
    SomeOfEncoded(xs, raw, 12);
    assert xs[..12] == xs && c[|EncodeAll(xs)|..] == raw;
    OneRaw(raw);
  }

  lemma ContentBehind(b: Bytes, c: Bytes)
    requires |c| < U64 && b == RlpSpec.Header(0xC0, |c|) + c
    ensures ContentOf(b) == Some(c)
  {
    hide HeadOf;
    HeadOfHeader(0xC0, c, []);
    assert RlpSpec.Header(0xC0, |c|) + c + [] == b && b[|RlpSpec.Header(0xC0, |c|)|..] == c;
  }

  lemma OneRaw(raw: Bytes)
    requires raw == [0x81, 0x05]
    ensures RawsOf(raw, 1) == Some([raw]) && Parse(raw).None?
  {
    assert HeadOf(raw) == Some(Head(String, 1, 1)) && !Minimal(raw, Head(String, 1, 1));
    assert raw[2..] == [] && raw[..2] == raw && RawLength(raw) == Some(2);
    assert RawsOf(raw[2..], 0) == Some([]) && [raw] + [] == [raw];
  }

  lemma ParsedContent(b: Bytes, c: Bytes)
    requires ContentOf(b) == Some(c) && ParseAll(c).None?
    ensures Parse(b).None?
  {
    hide HeadOf, ParseAll;
    var h := HeadOf(b).value;
    assert b[h.tag..h.tag + h.size] == c;
  }

  lemma {:induction false} StopsInside(xs: seq<Item>)
    requires |EncodeAll(xs)| < U64
    ensures ParseAll(EncodeAll(xs) + [0x81, 0x05]).None?
    decreases xs
  {
    hide Parse, Encode;
    var raw := [0x81, 0x05];
    if xs == [] {
      assert EncodeAll(xs) + raw == raw;
      OneRaw(raw);
    } else {
      var first, rest := Encode(xs[0]), EncodeAll(xs[1..]);
      assert EncodeAll(xs) + raw == first + (rest + raw);
      ParseEncode(xs[0], rest + raw);
      assert (first + (rest + raw))[|first|..] == rest + raw;
      StopsInside(xs[1..]);
    }
  }

  // ---- the decoder -------------------------------------------------------------------

  /** The stream is `n` bytes into the content `c` of its only list. */
  ghost predicate Inside(s: Stream, c: Bytes, from: nat, n: nat)
    reads s
  {
    && s.Valid() && s.kind.None? && |s.stack| == 1 && s.ends == [from + |c|] && from + |c| <= |s.input|
    && n <= |c| && s.pos == from + n && c == s.input[from..from + |c|]
  }

  lemma InsideAhead(s: Stream, c: Bytes, from: nat, n: nat)
    requires Inside(s, c, from, n)
    ensures s.Ahead() == c[n..] && s.Bound() == from + |c| && s.From() == from + n
  {
  }

  method ReadItems(s: Stream, k: nat, ghost c: Bytes, ghost from: nat) returns (r: Result<seq<Item>>)
    requires Inside(s, c, from, 0)
    modifies s
    ensures r.Ok? <==> ParseSome(c, k).Some?
    ensures r.Ok? ==> ParseSome(c, k).value.0 == r.value && Inside(s, c, from, ParseSome(c, k).value.1)
  {
    hide Parse, Moved, Nested, HeadOf;
    var items := [];
    for i := 0 to k
      invariant ParseSome(c, i).Some? && ParseSome(c, i).value.0 == items && Inside(s, c, from, ParseSome(c, i).value.1)
    {
      ghost var n, stack, pos := ParseSome(c, i).value.1, s.stack, s.pos;
      InsideAhead(s, c, from, n);
      var x := s.DecodeInterface();
      if x.Err? {
        NothingParsed();
        NoMore(c, i + 1, k);
        return Err(x.error);
      }
      SameDepth(stack, pos, s.stack, s.pos);
      items := items + [x.value];
    }
    r := Ok(items);
  }

  lemma NothingParsed()
    ensures Parse([]).None?
  {
  }

  lemma {:induction false} NoMore(b: Bytes, i: nat, k: nat)
    requires i <= k && ParseSome(b, i).None?
    ensures ParseSome(b, k).None?
    decreases k
  {
    if i < k {
      NoMore(b, i, k - 1);
    }
  }

  method ReadRaws(s: Stream, k: nat, ghost c: Bytes, ghost from: nat, ghost n: nat) returns (r: Result<seq<Bytes>>)
    requires Inside(s, c, from, n) && |s.input| < U64
    modifies s
    ensures r.Ok? <==> RawsOf(c[n..], k).Some?
    ensures r.Ok? ==> r.value == RawsOf(c[n..], k).value
    ensures r.Ok? ==> Inside(s, c, from, |c|) || (s.stack == [] && s.kind.None? && s.pos == from + |c|)
    decreases k
  {
    hide HeadOf, Moved;
    InsideAhead(s, c, from, n);
    if k == 0 {
      EndOfList(s, c, from, n);
      var err := s.ListEnd();
      return if err.Some? then Err(err.value) else Ok([]);
    }
    ghost var stack, pos := s.stack, s.pos;
    var raw := s.Raw();
    if raw.Err? {
      return Err(raw.error);
    }
    SameDepth(stack, pos, s.stack, s.pos);
    ghost var m := RawLength(c[n..]).value;
    RawIs(s.input, c, from, n, m);
    var rest := ReadRaws(s, k - 1, c, from, n + m);
    r := if rest.Err? then rest else Ok([raw.value] + rest.value);
  }

  lemma RawIs(input: Bytes, c: Bytes, from: nat, n: nat, m: nat)
    requires from + |c| <= |input| && c == input[from..from + |c|] && n + m <= |c|
    ensures input[from + n..from + n + m] == c[n..][..m] && c[n..][m..] == c[n + m..]
  {
  }

  lemma EndOfList(s: Stream, c: Bytes, from: nat, n: nat)
    requires Inside(s, c, from, n)
    ensures s.stack[0].pos == s.stack[0].size <==> n == |c|
  {
  }

  lemma ContentAt(b: Bytes, c: Bytes, from: nat)
    requires HeadOf(b).Some? && HeadOf(b).value.kind.List? && from == HeadOf(b).value.tag && c == b[from..from + HeadOf(b).value.size]
    ensures ContentOf(b) == if from + |c| == |b| then Some(c) else None
  {
    hide HeadOf;
    assert b[from..|b|] == b[from..];
  }

  method DecodeFields(items: seq<Item>) returns (r: Result<Header>)
    ensures r.Ok? <==> FieldsOk(items)
    ensures r.Ok? ==> r.value == CommonFrom(items)
  {
    hide ConsensusOk, ContentOk, ConsensusFrom, ContentFrom;
    var cursor := new Cursor(items);
    var front := DecodeConsensus(cursor);
    if front.Err? { return front; }
    r := DecodeContent(front.value, cursor);
  }

  /** The common fields one by one, as many raw aggregates as the height asks for, and the end of the
      list. */
  method ReadParts(s: Stream, ghost c: Bytes, ghost from: nat) returns (r: Result<(Header, seq<Bytes>)>)
    requires Inside(s, c, from, 0) && |s.input| < U64
    modifies s
    ensures r.Ok? <==> PartsOf(c).Some?
    ensures r.Ok? ==> s.pos == from + |c| && r.value == (CommonFrom(PartsOf(c).value.fields), PartsOf(c).value.raws)
  {
    hide ParseSome, RawsOf, FieldsOk, CommonFrom;
    var items := ReadItems(s, 12, c, from);
    if items.Err? { return Err(items.error); }
    var h := DecodeFields(items.value);
    if h.Err? { return Err(h.error); }
    var raws := ReadRaws(s, FieldCount(h.value.height) - 12, c, from, ParseSome(c, 12).value.1);
    r := if raws.Err? then Err(raws.error) else Ok((h.value, raws.value));
  }

  /** The raw value is, from its first byte to its last, the aggregate, with a signature that the
      library accepts if it has any. */
  ghost predicate IsClean(raw: Bytes, lib: Library, a: Aggregate) {
    && Parse(raw).Some? && Parse(raw).value.1 == |raw| && IsAggregate(Parse(raw).value.0, a)
    && (a.signature == [] || lib.accepted(a.signature))
  }

  ghost predicate IsCleanEdge(raw: Bytes, lib: Library, a: EdgeAggregate) {
    && Parse(raw).Some? && Parse(raw).value.1 == |raw| && IsEdgeAggregate(Parse(raw).value.0, a)
    && (a.signature == [] || lib.accepted(a.signature))
  }

  /** The byte 0xC0 is read as no aggregate, and any other raw value as the aggregate that it is or
      as what the failed decoding leaves of it. */
  ghost predicate ReadsGuardian(raw: Bytes, lib: Library, g: Option<Aggregate>) {
    if raw == [0xC0] then g.None? else
      g.Some? && (IsClean(raw, lib, g.value) || (g.value == lib.halfGuardian(raw) && forall a :: !IsClean(raw, lib, a)))
  }

  ghost predicate ReadsEdge(raw: Bytes, lib: Library, g: Option<EdgeAggregate>) {
    if raw == [0xC0] then g.None? else
      g.Some? && (IsCleanEdge(raw, lib, g.value) || (g.value == lib.halfEdge(raw) && forall a :: !IsCleanEdge(raw, lib, a)))
  }

  lemma GuardianExactly(raw: Bytes, lib: Library)
    ensures ReadsGuardian(raw, lib, GuardianRead(raw, lib))
  {
    hide Parse, AggregateOf, IsAggregate;
    if Parse(raw).Some? {
      forall a ensures AggregateOf(Parse(raw).value.0, lib.accepted) == Some(a) <==>
        IsAggregate(Parse(raw).value.0, a) && (a.signature == [] || lib.accepted(a.signature))
      {
        AggregateExactly(Parse(raw).value.0, lib.accepted, a);
      }
    }
  }

  lemma EdgeNodesExactly(raw: Bytes, lib: Library)
    ensures ReadsEdge(raw, lib, EdgeRead(raw, lib))
  {
    hide Parse, EdgeOf, IsEdgeAggregate;
    if Parse(raw).Some? {
      forall a ensures EdgeOf(Parse(raw).value.0, lib.accepted) == Some(a) <==>
        IsEdgeAggregate(Parse(raw).value.0, a) && (a.signature == [] || lib.accepted(a.signature))
      {
        EdgeAggregateExactly(Parse(raw).value.0, lib.accepted, a);
      }
    }
  }

  /** Each field of the header is what stands in its place: twelve items, and behind them one raw
      value from height 5877350 on and two from height 10968061 on. */
  ghost predicate ReadsHeader(p: Parts, lib: Library, h: Header) {
    && |p.fields| == 12 && ReadsFields(p.fields, h.(guardianVotes := None, edgeVotes := None))
    && |p.raws| == (if h.height < 5877350 then 0 else if h.height < 10968061 then 1 else 2)
    && (if h.height < 5877350 then h.guardianVotes.None? else ReadsGuardian(p.raws[0], lib, h.guardianVotes))
    && (if h.height < 10968061 then h.edgeVotes.None? else ReadsEdge(p.raws[1], lib, h.edgeVotes))
  }

  lemma HeaderReadExactly(b: Bytes, lib: Library)
    ensures HeaderAt(b, lib).Some? ==> PartsAt(b).Some? && ReadsHeader(PartsAt(b).value, lib, HeaderAt(b, lib).value)
  {
    hide FieldsOk, CommonFrom, ReadsFields, GuardianRead, EdgeRead, ReadsGuardian, ReadsEdge, ParseSome, RawsOf;
    if PartsAt(b).Some? {
      var p := PartsAt(b).value;
      FieldsExactly(p.fields, CommonFrom(p.fields));
      NoAggregatesYet(p.fields);
      forall raw | raw in p.raws ensures ReadsGuardian(raw, lib, GuardianRead(raw, lib)) && ReadsEdge(raw, lib, EdgeRead(raw, lib)) {
        GuardianExactly(raw, lib);
        EdgeNodesExactly(raw, lib);
      }
    }
  }

  lemma NoAggregatesYet(xs: seq<Item>)
    requires FieldsOk(xs)
    ensures CommonFrom(xs) == CommonFrom(xs).(guardianVotes := None, edgeVotes := None)
  {
  }

  /** The list with its parts, and the end of the input. */
  method DecodeHeader(b: Bytes, lib: Library) returns (r: Result<Header>)
    requires |b| < U64
    ensures r.Ok? <==> HeaderAt(b, lib).Some?
    ensures r.Ok? ==> HeaderAt(b, lib) == Some(r.value) && PartsAt(b).Some? && ReadsHeader(PartsAt(b).value, lib, r.value)
  {
    HeaderReadExactly(b, lib);
    hide ReadsHeader;
    hide HeadOf, PartsOf, GuardianRead, EdgeRead, Moved, ContentOf, FieldsOk, CommonFrom;
    var s := new Stream(b);
    assert s.Ahead() == b;
    NoContent(b);
    var size := s.OpenList();
    if size.Err? { return Err(size.error); }
    ghost var from, c := s.pos, b[s.pos..s.pos + size.value];
    ContentAt(b, c, from);
    InsideStart(s, c, from);
    var parts := ReadParts(s, c, from);
    if parts.Err? { return Err(parts.error); }
    if s.pos < |b| { return Err(MoreThanOneValue); }
    var h, raws := parts.value.0, parts.value.1;
    r := Ok(h.(guardianVotes := if h.height >= THETA2 then GuardianRead(raws[0], lib) else None,
               edgeVotes := if h.height >= THETA3 then EdgeRead(raws[1], lib) else None));
  }

  lemma NoContent(b: Bytes)
    ensures HeadOf(b).None? || !HeadOf(b).value.kind.List? ==> ContentOf(b).None?
  {
    hide HeadOf;
  }

  lemma InsideStart(s: Stream, c: Bytes, from: nat)
    requires s.Valid() && s.kind.None? && s.pos == from && s.Bound() == from + |c| && |s.stack| == 1 && |s.ends| == 1
    requires from + |c| <= |s.input| && c == s.input[from..from + |c|]
    ensures Inside(s, c, from, 0)
  {
  }
}
