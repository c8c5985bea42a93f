/** The encoder: string data in one buffer, list headers put in at the end (rlp/encode.go). */
module RlpEncode {
  import opened Common
  import opened RlpSpec

  // ---- numbers and headers -----------------------------------------------------------

  /** The least number of bytes that hold `i`. */
  method IntSize(i: nat) returns (size: nat)
    ensures size == |BigEndian(i)|
  {
    size := 1;
    var rest := i;
    while true
      invariant size >= 1 && |BigEndian(i)| == size - 1 + |BigEndian(rest)|
      decreases rest
    {
      if rest / 256 == 0 {
        return;
      }
      rest := rest / 256;
      size := size + 1;
    }
  }

  method HeadSize(size: nat) returns (r: nat)
    ensures r == |Header(0xC0, size)| == |Header(0x80, size)|
  {
    if size < 56 {
      return 1;
    }
    var n := IntSize(size);
    r := 1 + n;
  }

  /** The low `k` bytes of `i`, highest first. */
  function LowBytes(i: nat, k: nat): seq<Byte> {
    if k == 0 then [] else LowBytes(i / 256, k - 1) + [i % 256]
  }

  lemma {:induction false} BigEndianIsLowBytes(i: nat, k: nat)
    requires k >= 1 && i < Power256(k) && (k == 1 || Power256(k - 1) <= i)
    ensures BigEndian(i) == LowBytes(i, k)
  {
    assert k == 1 ==> Power256(1) == 256 * Power256(0) && LowBytes(i / 256, 0) == [];
    if k > 1 {
      assert Power256(k) == 256 * Power256(k - 1) && Power256(k - 1) == 256 * Power256(k - 2);
      assert i >= 256 && i / 256 < Power256(k - 1) && Power256(k - 2) <= i / 256;
      BigEndianIsLowBytes(i / 256, k - 1);
    }
  }

  /** `i` shifted right by `k` bytes. */
  function Shift(i: nat, k: nat): nat {
    if k == 0 then i else Shift(i / 256, k - 1)
  }

  lemma {:induction false} LowBytesAt(i: nat, k: nat)
    ensures |LowBytes(i, k)| == k && forall j :: 0 <= j < k ==> LowBytes(i, k)[j] == Shift(i, k - 1 - j) % 256
  {
    if k > 0 {
      LowBytesAt(i / 256, k - 1);
    }
  }

  /** What the `k` bytes of `i` are when it needs exactly `k`. */
  lemma BytesOf(i: nat, k: nat)
    requires 1 <= k <= 8 && i < Power256(k) && (k == 1 || Power256(k - 1) <= i)
    ensures |BigEndian(i)| == k && forall j :: 0 <= j < k ==> BigEndian(i)[j] == Shift(i, k - 1 - j) % 256
  {
    BigEndianIsLowBytes(i, k);
    LowBytesAt(i, k);
  }

  lemma CopyOne(before: seq<Byte>, at: nat, s: seq<Byte>, j: nat)
    requires at + |s| <= |before| && j < |s|
    ensures (before[..at] + s[..j] + before[at + j..])[at + j := s[j]] == before[..at] + s[..j+1] + before[at + j + 1..]
  {
  }

  /** Go's copy: `s` into `b` from `at` on. */
  method Copy(b: array<Byte>, at: nat, s: seq<Byte>)
    requires at + |s| <= b.Length
    modifies b
    ensures b[..] == old(b[..at]) + s + old(b[at + |s|..])
  {
    ghost var before := b[..];
    for j := 0 to |s|
      invariant b[..] == before[..at] + s[..j] + before[at + j..]
    {
      CopyOne(before, at, s, j);
      b[at + j] := s[j];
    }
  }

  /** The bytes that are written for `i`, by magnitude. */
  function IntBytes(i: nat): seq<Byte> {
    if i < 0x100 then [i % 256]
    else if i < 0x1_0000 then [Shift(i, 1) % 256, i % 256]
    else if i < 0x100_0000 then [Shift(i, 2) % 256, Shift(i, 1) % 256, i % 256]
    else if i < 0x1_0000_0000 then [Shift(i, 3) % 256, Shift(i, 2) % 256, Shift(i, 1) % 256, i % 256]
    else if i < 0x100_0000_0000 then [Shift(i, 4) % 256, Shift(i, 3) % 256, Shift(i, 2) % 256, Shift(i, 1) % 256, i % 256]
    else if i < 0x1_0000_0000_0000 then [Shift(i, 5) % 256, Shift(i, 4) % 256, Shift(i, 3) % 256, Shift(i, 2) % 256, Shift(i, 1) % 256, i % 256]
    else if i < 0x100_0000_0000_0000 then [Shift(i, 6) % 256, Shift(i, 5) % 256, Shift(i, 4) % 256, Shift(i, 3) % 256, Shift(i, 2) % 256, Shift(i, 1) % 256, i % 256]
    else [Shift(i, 7) % 256, Shift(i, 6) % 256, Shift(i, 5) % 256, Shift(i, 4) % 256, Shift(i, 3) % 256, Shift(i, 2) % 256, Shift(i, 1) % 256, i % 256]
  }

  lemma ShortInts(i: nat)
    requires i < 0x1_0000_0000
    ensures IntBytes(i) == BigEndian(i)
  {
    BytesOf(i, if i < 0x100 then 1 else if i < 0x1_0000 then 2 else if i < 0x100_0000 then 3 else 4);
  }

  lemma LongInts(i: nat)
    requires 0x1_0000_0000 <= i < U64
    ensures IntBytes(i) == BigEndian(i)
  {
    assert Power256(4) == 0x1_0000_0000 && Power256(5) == 0x100_0000_0000 && Power256(6) == 0x1_0000_0000_0000;
    assert Power256(7) == 0x100_0000_0000_0000 && Power256(8) == U64;
    if i < 0x1_0000_0000_0000 {
      BytesOf(i, if i < 0x100_0000_0000 then 5 else 6);
    } else {
      BytesOf(i, if i < 0x100_0000_0000_0000 then 7 else 8);
    }
  }

  /** Writes `i` at `at`, highest byte first, with as few bytes as possible. */
  method PutInt(b: array<Byte>, at: nat, i: nat) returns (size: nat)
    requires i < U64 && at + |BigEndian(i)| <= b.Length
    modifies b
    ensures size == |BigEndian(i)|
    ensures b[..] == old(b[..at]) + BigEndian(i) + old(b[at + size..])
  {
    var bytes := IntBytes(i);
    assert bytes == BigEndian(i) by {
      if i < 0x1_0000_0000 { ShortInts(i); } else { LongInts(i); }
    }
    Copy(b, at, bytes);
    size := |bytes|;
  }

  lemma TagFirst(s: seq<Byte>, t: seq<Byte>, at: nat, tag: Byte, be: seq<Byte>)
    requires at + 1 + |be| <= |s| && t == s[..at + 1] + be + s[at + 1 + |be|..]
    ensures t[at := tag] == s[..at] + ([tag] + be) + s[at + 1 + |be|..]
  {
  }

  /** Writes a header at `at`. */
  method PutHead(b: array<Byte>, at: nat, smallTag: Byte, largeTag: Byte, size: nat) returns (n: nat)
    requires size < U64 && largeTag == smallTag + 55 && smallTag <= 0xC0 && at + |Header(smallTag, size)| <= b.Length
    modifies b
    ensures n == |Header(smallTag, size)|
    ensures b[..] == old(b[..at]) + Header(smallTag, size) + old(b[at + n..])
  {
    hide BigEndian;
    ghost var s := b[..];
    ghost var be := if size < 56 then [] else BigEndian(size);
    n := 1;
    var tag: Byte := 0;
    if size < 56 {
      tag := smallTag + size;
    } else {
      SizeFits(size);
      var sizeSize := PutInt(b, at + 1, size);
      tag := largeTag + sizeSize;
      n := sizeSize + 1;
    }
    assert Header(smallTag, size) == [tag] + be;
    ghost var t := b[..];
    assert t == s[..at + 1] + be + s[at + 1 + |be|..];
    b[at] := tag;
    assert b[..] == t[at := tag];
    TagFirst(s, t, at, tag, be);
  }

  // ---- what the buffer holds ---------------------------------------------------------

  /** Where a list header belongs in the string data, and the size it will announce. */
  datatype ListHead = ListHead(offset: nat, size: nat)

  /** The string data of an item: its encoding without any list header. */
  ghost function Data(x: Item): seq<Byte> {
    match x
    case Str(_) => Encode(x)
    case List(xs) => DataAll(xs)
  }

  ghost function DataAll(xs: seq<Item>): seq<Byte> {
    if xs == [] then [] else DataAll(xs[..|xs|-1]) + Data(xs[|xs|-1])
  }

  /** Its list headers, outermost first, with the data starting at `at`. */
  ghost function Heads(x: Item, at: nat): seq<ListHead>
    decreases x, 0
  {
    match x
    case Str(_) => []
    case List(xs) => [ListHead(at, |EncodeAll(xs)|)] + HeadsAll(xs, at)
  }

  ghost function HeadsAll(xs: seq<Item>, at: nat): seq<ListHead>
    decreases xs, 1
  {
    if xs == [] then [] else
      var front, last := xs[..|xs|-1], xs[|xs|-1];
      HeadsAll(front, at) + Heads(last, at + |DataAll(front)|)
  }

  /** The bytes that its list headers will take. */
  ghost function HeadBytes(x: Item): nat {
    match x
    case Str(_) => 0
    case List(xs) => |Header(0xC0, |EncodeAll(xs)|)| + HeadBytesAll(xs)
  }

  ghost function HeadBytesAll(xs: seq<Item>): nat {
    if xs == [] then 0 else HeadBytesAll(xs[..|xs|-1]) + HeadBytes(xs[|xs|-1])
  }

  ghost function Slice(s: seq<Byte>, from: nat, to: nat): seq<Byte> {
    if from <= to <= |s| then s[from..to] else []
  }

  /** String data from `from` on with the headers put in where they belong. */
  ghost function Woven(str: seq<Byte>, heads: seq<ListHead>, from: nat): seq<Byte>
    decreases |heads|
  {
    if heads == [] then Slice(str, from, |str|)
    else Slice(str, from, heads[0].offset) + (Header(0xC0, heads[0].size) + Woven(str, heads[1..], heads[0].offset))
  }

  lemma {:induction false} EncodeAllSnoc(xs: seq<Item>, x: Item)
    ensures EncodeAll(xs + [x]) == EncodeAll(xs) + Encode(x)
    decreases xs
  {
    if xs == [] {
      assert xs + [x] == [x] && EncodeAll([x][1..]) == [];
    } else {
      assert (xs + [x])[0] == xs[0] && (xs + [x])[1..] == xs[1..] + [x];
      EncodeAllSnoc(xs[1..], x);
    }
  }

  /** Data and headers together have the size of the encoding. */
  lemma {:induction false} SizeOfParts(x: Item)
    ensures |Encode(x)| == |Data(x)| + HeadBytes(x)
    decreases x, 0
  {
    if x.List? {
      SizeOfPartsAll(x.items);
    }
  }

  lemma {:induction false} SizeOfPartsAll(xs: seq<Item>)
    ensures |EncodeAll(xs)| == |DataAll(xs)| + HeadBytesAll(xs)
    decreases xs, 1
  {
    if xs != [] {
      var front, last := xs[..|xs|-1], xs[|xs|-1];
      SizeOfPartsAll(front);
      SizeOfParts(last);
      EncodeAllSnoc(front, last);
      assert xs == front + [last];
    }
  }

  // ---- putting the headers in gives the encoding -------------------------------------

  ghost predicate Between(heads: seq<ListHead>, from: nat, to: nat) {
    forall i :: 0 <= i < |heads| ==> from <= heads[i].offset <= to
  }

  lemma BetweenConcat(a: seq<ListHead>, b: seq<ListHead>, from: nat, mid: nat, to: nat)
    requires Between(a, from, mid) && Between(b, mid, to) && from <= mid <= to
    ensures Between(a + b, from, to) && (Ordered(a) && Ordered(b) ==> Ordered(a + b))
  {
  }

  ghost predicate Ordered(heads: seq<ListHead>) {
    forall i, j :: 0 <= i < j < |heads| ==> heads[i].offset <= heads[j].offset
  }

  lemma {:induction false} HeadsInPlace(x: Item, at: nat)
    ensures Between(Heads(x, at), at, at + |Data(x)|) && Ordered(Heads(x, at))
    decreases x, 0
  {
    if x.List? {
      HeadsAllInPlace(x.items, at);
      BetweenConcat([ListHead(at, |EncodeAll(x.items)|)], HeadsAll(x.items, at), at, at, at + |Data(x)|);
    }
  }

  lemma {:induction false} HeadsAllInPlace(xs: seq<Item>, at: nat)
    ensures Between(HeadsAll(xs, at), at, at + |DataAll(xs)|) && Ordered(HeadsAll(xs, at))
    decreases xs, 1
  {
    if xs != [] {
      var front, last := xs[..|xs|-1], xs[|xs|-1];
      var mid := at + |DataAll(front)|;
      HeadsAllInPlace(front, at);
      HeadsInPlace(last, mid);
      BetweenConcat(HeadsAll(front, at), Heads(last, mid), at, mid, at + |DataAll(xs)|);
    }
  }

  lemma SliceSplit(s: seq<Byte>, from: nat, mid: nat, to: nat)
    requires from <= mid <= to <= |s|
    ensures Slice(s, from, to) == Slice(s, from, mid) + Slice(s, mid, to)
  {
  }

  lemma Assoc<T>(a: seq<T>, b: seq<T>, c: seq<T>)
    ensures (a + b) + c == a + (b + c)
  {
  }

  /** String data before the first header is passed on as it is. */
  lemma WovenSkips(str: seq<Byte>, heads: seq<ListHead>, from: nat, to: nat)
    requires from <= to <= |str| && Between(heads, to, |str|)
    ensures Woven(str, heads, from) == Slice(str, from, to) + Woven(str, heads, to)
  {
    if heads == [] {
      SliceSplit(str, from, to, |str|);
    } else {
      var end := heads[0].offset;
      SliceSplit(str, from, to, end);
      Assoc(Slice(str, from, to), Slice(str, to, end), Header(0xC0, heads[0].size) + Woven(str, heads[1..], end));
    }
  }

  lemma WovenRest(str: seq<Byte>, from: nat)
    requires from <= |str|
    ensures Woven(str, [], from) == str[from..]
  {
  }

  lemma WovenHead(str: seq<Byte>, h: ListHead, rest: seq<ListHead>)
    requires h.offset <= |str|
    ensures Woven(str, [h] + rest, h.offset) == Header(0xC0, h.size) + Woven(str, rest, h.offset)
  {
    assert ([h] + rest)[1..] == rest;
    assert Slice(str, h.offset, h.offset) == [];
  }

  lemma {:induction false} WovenItem(x: Item, str: seq<Byte>, at: nat, more: seq<ListHead>)
    requires at + |Data(x)| <= |str| && Slice(str, at, at + |Data(x)|) == Data(x) && Between(more, at + |Data(x)|, |str|)
    ensures Woven(str, Heads(x, at) + more, at) == Encode(x) + Woven(str, more, at + |Data(x)|)
    decreases x, 0
  {
    hide Woven, Slice, Between, EncodeAll, DataAll, HeadsAll, Header;
    match x {
      case Str(_) =>
        assert Heads(x, at) + more == more;
        WovenSkips(str, more, at, at + |Data(x)|);
      case List(xs) =>
        var h, rest := ListHead(at, |EncodeAll(xs)|), HeadsAll(xs, at) + more;
        WovenAll(xs, str, at, more);
        WovenHead(str, h, rest);
        Assoc([h], HeadsAll(xs, at), more);
        Assoc(Header(0xC0, h.size), EncodeAll(xs), Woven(str, more, at + |Data(x)|));
    }
  }

  lemma {:induction false} WovenAll(xs: seq<Item>, str: seq<Byte>, at: nat, more: seq<ListHead>)
    requires at + |DataAll(xs)| <= |str| && Slice(str, at, at + |DataAll(xs)|) == DataAll(xs) && Between(more, at + |DataAll(xs)|, |str|)
    ensures Woven(str, HeadsAll(xs, at) + more, at) == EncodeAll(xs) + Woven(str, more, at + |DataAll(xs)|)
    decreases xs, 2
  {
    hide Woven, Slice, Between, Encode, EncodeAll, Data, DataAll, Heads, HeadsAll;
    if xs == [] {
      NoParts(at);
      assert [] + more == more && [] + Woven(str, more, at) == Woven(str, more, at);
    } else {
      var front, last := xs[..|xs|-1], xs[|xs|-1];
      UnSnoc(xs, at);
      WovenSnoc(xs, front, last, str, at, at + |DataAll(front)|, more);
    }
  }

  lemma NoParts(at: nat)
    ensures DataAll([]) == [] && EncodeAll([]) == [] && HeadsAll([], at) == []
  {
  }

  /** The parts of a nonempty list of items, by its last one. */
  lemma UnSnoc(xs: seq<Item>, at: nat)
    requires xs != []
    ensures
      var front, last := xs[..|xs|-1], xs[|xs|-1];
      && DataAll(xs) == DataAll(front) + Data(last) && EncodeAll(xs) == EncodeAll(front) + Encode(last)
      && HeadsAll(xs, at) == HeadsAll(front, at) + Heads(last, at + |DataAll(front)|)
  {
    EncodeAllSnoc(xs[..|xs|-1], xs[|xs|-1]);
    assert xs == xs[..|xs|-1] + [xs[|xs|-1]];
  }

  lemma {:induction false} WovenSnoc(xs: seq<Item>, front: seq<Item>, last: Item, str: seq<Byte>, at: nat, mid: nat, more: seq<ListHead>)
    requires xs != [] && front == xs[..|xs|-1] && last == xs[|xs|-1] && mid == at + |DataAll(front)| && mid + |Data(last)| <= |str|
    requires Slice(str, at, mid + |Data(last)|) == DataAll(front) + Data(last) && Between(more, mid + |Data(last)|, |str|)
    ensures Woven(str, (HeadsAll(front, at) + Heads(last, mid)) + more, at)
         == (EncodeAll(front) + Encode(last)) + Woven(str, more, mid + |Data(last)|)
    decreases xs, 1
  {
    hide Woven, Slice, Between, Encode, EncodeAll, Data, DataAll, Heads, HeadsAll;
    var end := mid + |Data(last)|;
    SliceHalves(str, at, mid, end, DataAll(front), Data(last));
    HeadsInPlace(last, mid);
    BetweenConcat(Heads(last, mid), more, mid, end, |str|);
    WovenItem(last, str, mid, more);
    WovenAll(front, str, at, Heads(last, mid) + more);
    Assoc(HeadsAll(front, at), Heads(last, mid), more);
    Assoc(EncodeAll(front), Encode(last), Woven(str, more, end));
  }

  lemma SliceHalves(str: seq<Byte>, from: nat, mid: nat, to: nat, a: seq<Byte>, b: seq<Byte>)
    requires from <= mid <= to <= |str| && mid - from == |a| && to - mid == |b| && Slice(str, from, to) == a + b
    ensures Slice(str, from, mid) == a && Slice(str, mid, to) == b
  {
    var s := str[from..to];
    assert str[from..mid] == s[..|a|] && str[mid..to] == s[|a|..];
  }

  /** Putting the headers of finished items in gives their encoding. */
  lemma WovenIsEncoding(xs: seq<Item>)
    ensures Woven(DataAll(xs), HeadsAll(xs, 0), 0) == EncodeAll(xs)
  {
    hide Woven, Encode, EncodeAll, Data, DataAll, Heads, HeadsAll;
    WovenAll(xs, DataAll(xs), 0, []);
    WovenRest(DataAll(xs), |DataAll(xs)|);
    assert HeadsAll(xs, 0) + [] == HeadsAll(xs, 0);
  }

  ghost predicate SizesUpTo(heads: seq<ListHead>, size: nat) {
    forall i :: 0 <= i < |heads| ==> heads[i].size <= size
  }

  lemma {:induction false} HeadSizes(x: Item, at: nat)
    ensures SizesUpTo(Heads(x, at), |Encode(x)|)
    decreases x, 0
  {
    if x.List? {
      HeadSizesAll(x.items, at);
    }
  }

  lemma {:induction false} HeadSizesAll(xs: seq<Item>, at: nat)
    ensures SizesUpTo(HeadsAll(xs, at), |EncodeAll(xs)|)
    decreases xs, 1
  {
    if xs != [] {
      var front, last := xs[..|xs|-1], xs[|xs|-1];
      HeadSizesAll(front, at);
      HeadSizes(last, at + |DataAll(front)|);
      EncodeAllSnoc(front, last);
      assert xs == front + [last];
    }
  }

  // ---- open lists --------------------------------------------------------------------

  /** `frames[0]` are the finished items at top level, `frames[k]` those of the k-th open list. */
  ghost function FrameData(frames: seq<seq<Item>>): seq<Byte> {
    if frames == [] then [] else FrameData(frames[..|frames|-1]) + DataAll(frames[|frames|-1])
  }

  ghost function FrameHeadBytes(frames: seq<seq<Item>>): nat {
    if frames == [] then 0 else FrameHeadBytes(frames[..|frames|-1]) + HeadBytesAll(frames[|frames|-1])
  }

  /** The header of an open list remembers, as its size, the header bytes before it. */
  ghost function FrameHeads(frames: seq<seq<Item>>): seq<ListHead> {
    if frames == [] then [] else
      var outer := frames[..|frames|-1];
      FrameHeads(outer) + OpenHead(outer) + HeadsAll(frames[|frames|-1], |FrameData(outer)|)
  }

  ghost function OpenHead(outer: seq<seq<Item>>): seq<ListHead> {
    if outer == [] then [] else [ListHead(|FrameData(outer)|, FrameHeadBytes(outer))]
  }

  /** The finished item joins the innermost frame. */
  ghost function Joined(frames: seq<seq<Item>>, x: Item): seq<seq<Item>>
    requires frames != []
  {
    frames[..|frames|-1] + [frames[|frames|-1] + [x]]
  }

  lemma SnocParts(xs: seq<Item>, x: Item, at: nat)
    ensures DataAll(xs + [x]) == DataAll(xs) + Data(x)
    ensures HeadsAll(xs + [x], at) == HeadsAll(xs, at) + Heads(x, at + |DataAll(xs)|)
    ensures HeadBytesAll(xs + [x]) == HeadBytesAll(xs) + HeadBytes(x)
  {
    assert (xs + [x])[..|xs|] == xs;
  }

  lemma JoinedData(frames: seq<seq<Item>>, x: Item)
    requires frames != []
    ensures FrameData(Joined(frames, x)) == FrameData(frames) + Data(x)
    ensures FrameHeadBytes(Joined(frames, x)) == FrameHeadBytes(frames) + HeadBytes(x)
  {
    hide FrameData, FrameHeads, FrameHeadBytes, OpenHead, Data, DataAll, Heads, HeadsAll, HeadBytes, HeadBytesAll;
    var outer, last := frames[..|frames|-1], frames[|frames|-1];
    assert frames == outer + [last];
    FrameParts(outer, last);
    FrameParts(outer, last + [x]);
    SnocParts(last, x, 0);
    Assoc(FrameData(outer), DataAll(last), Data(x));
  }

  lemma JoinedHeads(frames: seq<seq<Item>>, x: Item)
    requires frames != []
    ensures FrameHeads(Joined(frames, x)) == FrameHeads(frames) + Heads(x, |FrameData(frames)|)
  {
    hide FrameData, FrameHeads, FrameHeadBytes, OpenHead, Data, DataAll, Heads, HeadsAll, HeadBytes, HeadBytesAll;
    var outer, last := frames[..|frames|-1], frames[|frames|-1];
    assert frames == outer + [last];
    FrameParts(outer, last);
    FrameParts(outer, last + [x]);
    SnocParts(last, x, |FrameData(outer)|);
    Assoc(FrameHeads(outer) + OpenHead(outer), HeadsAll(last, |FrameData(outer)|), Heads(x, |FrameData(frames)|));
  }

  lemma JoinedParts(frames: seq<seq<Item>>, x: Item)
    requires frames != []
    ensures FrameData(Joined(frames, x)) == FrameData(frames) + Data(x)
    ensures FrameHeads(Joined(frames, x)) == FrameHeads(frames) + Heads(x, |FrameData(frames)|)
    ensures FrameHeadBytes(Joined(frames, x)) == FrameHeadBytes(frames) + HeadBytes(x)
  {
    JoinedData(frames, x);
    JoinedHeads(frames, x);
  }

  /** Closing the innermost list: its own header gets its size, nothing else changes. */
  lemma ClosedHeads(outer: seq<seq<Item>>, items: seq<Item>, heads: seq<ListHead>)
    requires outer != [] && heads == FrameHeads(outer + [items])
    ensures
      var lh, at := |FrameHeads(outer)|, |FrameData(outer)|;
      && lh < |heads| && heads[lh] == ListHead(at, FrameHeadBytes(outer))
      && heads[lh := ListHead(at, |EncodeAll(items)|)] == FrameHeads(outer) + Heads(Item.List(items), at)
  {
    FrameParts(outer, items);
    ReplaceMiddle(FrameHeads(outer), OpenHead(outer)[0], HeadsAll(items, |FrameData(outer)|), ListHead(|FrameData(outer)|, |EncodeAll(items)|));
  }

  lemma ReplaceMiddle(a: seq<ListHead>, h: ListHead, b: seq<ListHead>, g: ListHead)
    ensures (a + [h] + b)[|a|] == h && (a + [h] + b)[|a| := g] == a + ([g] + b)
  {
  }

  lemma FrameParts(outer: seq<seq<Item>>, last: seq<Item>)
    ensures FrameData(outer + [last]) == FrameData(outer) + DataAll(last)
    ensures FrameHeads(outer + [last]) == FrameHeads(outer) + OpenHead(outer) + HeadsAll(last, |FrameData(outer)|)
    ensures FrameHeadBytes(outer + [last]) == FrameHeadBytes(outer) + HeadBytesAll(last)
  {
    assert (outer + [last])[..|outer|] == outer;
  }

  /** One turn of the loop that puts the headers in. */
  lemma WovenNext(str: seq<Byte>, heads: seq<ListHead>, i: nat, from: nat, done: seq<Byte>, all: seq<Byte>)
    requires i < |heads| && from <= heads[i].offset <= |str| && done + Woven(str, heads[i..], from) == all
    ensures
      var h, rest := heads[i], Woven(str, heads[i+1..], heads[i].offset);
      ((done + str[from..h.offset]) + Header(0xC0, h.size)) + rest == all
  {
    var h, rest := heads[i], Woven(str, heads[i+1..], heads[i].offset);
    assert heads[i..][0] == h && heads[i..][1..] == heads[i+1..];
    Assoc(done + str[from..h.offset], Header(0xC0, h.size), rest);
    Assoc(done, str[from..h.offset], Header(0xC0, h.size) + rest);
  }

  /** String data and then a list header. */
  method PutPiece(out: array<Byte>, at: nat, data: seq<Byte>, size: nat) returns (n: nat)
    requires size < U64 && at + |data| + |Header(0xC0, size)| <= out.Length
    modifies out
    ensures n == |data| + |Header(0xC0, size)|
    ensures out[..at + n] == (old(out[..at]) + data) + Header(0xC0, size)
  {
    hide Header;
    ghost var before := out[..at];
    Copy(out, at, data);
    assert out[..at + |data|] == before + data;
    var k := PutHead(out, at + |data|, 0xC0, 0xF7, size);
    n := |data| + k;
    assert out[..at + n] == (before + data) + Header(0xC0, size);
  }

  /** Fills a buffer of the given size with the string data and the headers. */
  method Weave(str: seq<Byte>, heads: seq<ListHead>, size: nat, ghost all: seq<Byte>) returns (out: array<Byte>)
    requires Woven(str, heads, 0) == all && |all| == size < U64
    requires Ordered(heads) && Between(heads, 0, |str|) && SizesUpTo(heads, size)
    ensures fresh(out) && out[..] == all
  {
    hide Woven, Header;
    out := new Byte[size];
    var strpos: nat, pos: nat := 0, 0;
    assert heads[0..] == heads && out[..0] + all == all;
    for i := 0 to |heads|
      invariant strpos <= |str| && pos <= out.Length && forall j :: i <= j < |heads| ==> strpos <= heads[j].offset
      invariant out[..pos] + Woven(str, heads[i..], strpos) == all
    {
      var head := heads[i];
      WovenNext(str, heads, i, strpos, out[..pos], all);
      var n := PutPiece(out, pos, str[strpos..head.offset], head.size);
      strpos := head.offset;
      pos := pos + n;
    }
    assert heads[|heads|..] == [];
    WovenRest(str, strpos);
    ghost var done := out[..pos];
    assert done + str[strpos..] == all;
    Copy(out, pos, str[strpos..]);
    assert out[..] == done + str[strpos..];
  }

  class EncBuf {
    var str: seq<Byte>
    var lheads: seq<ListHead>
    var lhsize: nat
    const sizebuf: array<Byte>
    ghost var frames: seq<seq<Item>>

    ghost predicate Valid()
      reads this
    {
      && frames != [] && sizebuf.Length == 9
      && str == FrameData(frames) && lheads == FrameHeads(frames) && lhsize == FrameHeadBytes(frames)
    }

    constructor ()
      ensures Valid() && frames == [[]] && fresh(sizebuf)
    {
      str, lheads, lhsize := [], [], 0;
      sizebuf := new Byte[9];
      frames := [[]];
    }

    method EncodeStringHeader(size: nat)
      requires size < U64 && sizebuf.Length == 9
      modifies this`str, sizebuf
      ensures str == old(str) + Header(0x80, size)
    {
      if size < 56 {
        str := str + [0x80 + size];
      } else {
        SizeFits(size);
        var sizeSize := PutInt(sizebuf, 1, size);
        assert sizebuf[1..sizeSize + 1] == BigEndian(size);
        sizebuf[0] := 0xB7 + sizeSize;
        assert sizebuf[..sizeSize + 1] == [0xB7 + sizeSize] + sizebuf[1..sizeSize + 1];
        str := str + sizebuf[..sizeSize + 1];
      }
    }

    method EncodeString(b: seq<Byte>)
      requires Valid() && |b| < U64
      modifies this`str, this`frames, sizebuf
      ensures Valid() && frames == Joined(old(frames), Str(b))
    {
      JoinedParts(frames, Str(b));
      if |b| == 1 && b[0] <= 0x7F {
        str := str + [b[0]];
        assert [b[0]] == b;
      } else {
        EncodeStringHeader(|b|);
        str := str + b;
        assert str == old(str) + (Header(0x80, |b|) + b);
      }
      frames := Joined(frames, Str(b));
    }

    /** Opens a list; the result says which header is its own. */
    method OpenList() returns (lh: nat)
      requires Valid()
      modifies this`lheads, this`frames
      ensures Valid() && frames == old(frames) + [[]] && lh == |old(lheads)| == |FrameHeads(old(frames))|
    {
      lh := |lheads|;
      lheads := lheads + [ListHead(|str|, lhsize)];
      ghost var all := frames + [[]];
      assert all[..|all|-1] == frames;
      frames := all;
    }

    /** Closes the innermost list: its header gets the size of everything written since. */
    method CloseList(lh: nat)
      requires Valid() && |frames| >= 2 && lh == |FrameHeads(frames[..|frames|-1])|
      modifies this`lheads, this`lhsize, this`frames
      ensures Valid()
      ensures frames == Joined(old(frames)[..|old(frames)|-1], Item.List(old(frames)[|old(frames)|-1]))
    {
      ghost var outer, items := frames[..|frames|-1], frames[|frames|-1];
      assert frames == outer + [items];
      SizeOfPartsAll(items);
      FrameParts(outer, items);
      ClosedHeads(outer, items, lheads);
      JoinedParts(outer, Item.List(items));
      var size := Size() - lheads[lh].offset - lheads[lh].size;
      assert size == |EncodeAll(items)|;
      lheads := lheads[lh := ListHead(lheads[lh].offset, size)];
      var n := HeadSize(size);
      lhsize := lhsize + n;
      frames := Joined(outer, Item.List(items));
    }

    function Size(): nat
      reads this
    {
      |str| + lhsize
    }

    /** The finished encoding: string data with the headers put in. */
    method ToBytes() returns (out: array<Byte>)
      requires Valid() && |frames| == 1 && |EncodeAll(frames[0])| < U64
      ensures fresh(out) && out[..] == EncodeAll(frames[0]) && out.Length == Size()
    {
      Finished(frames);
      out := Weave(str, lheads, Size(), EncodeAll(frames[0]));
    }

    /** Writes an item: strings as they come, lists between opening and closing. */
    method EncodeItem(x: Item)
      requires Valid() && |Encode(x)| < U64
      modifies this, sizebuf
      ensures Valid() && frames == Joined(old(frames), x)
      decreases x, 0
    {
      match x
      case Str(b) => EncodeString(b);
      case List(xs) =>
        var lh := OpenList();
        ghost var before := frames;
        EncodeItems(xs);
        assert frames[..|frames|-1] == old(frames) && [] + xs == xs;
        CloseList(lh);
    }

    method EncodeItems(xs: seq<Item>)
      requires Valid() && |EncodeAll(xs)| < U64
      modifies this, sizebuf
      ensures Valid() && frames == old(frames)[..|old(frames)|-1] + [old(frames)[|old(frames)|-1] + xs]
      decreases xs, 1
    {
      hide FrameData, FrameHeads, FrameHeadBytes, Encode, EncodeAll;
      ghost var outer, last := frames[..|frames|-1], frames[|frames|-1];
      assert last + xs[..0] == last;
      for i := 0 to |xs|
        invariant Valid() && frames == outer + [last + xs[..i]]
      {
        ItemFits(xs, i);
        EncodeItem(xs[i]);
        assert last + xs[..i] + [xs[i]] == last + xs[..i+1];
      }
      assert xs[..|xs|] == xs;
    }
  }

  lemma {:induction false} ItemFits(xs: seq<Item>, i: nat)
    requires i < |xs|
    ensures |Encode(xs[i])| <= |EncodeAll(xs)|
    decreases xs
  {
    if i > 0 {
      ItemFits(xs[1..], i - 1);
    }
  }

  /** With no list open, the headers are those of the finished items. */
  lemma Finished(frames: seq<seq<Item>>)
    requires |frames| == 1
    ensures FrameData(frames) == DataAll(frames[0]) && FrameHeads(frames) == HeadsAll(frames[0], 0)
    ensures |DataAll(frames[0])| + FrameHeadBytes(frames) == |EncodeAll(frames[0])|
    ensures Woven(FrameData(frames), FrameHeads(frames), 0) == EncodeAll(frames[0])
    ensures Between(FrameHeads(frames), 0, |FrameData(frames)|) && Ordered(FrameHeads(frames)) && SizesUpTo(FrameHeads(frames), |EncodeAll(frames[0])|)
  {
    assert frames == [] + [frames[0]];
    FrameParts([], frames[0]);
    WovenIsEncoding(frames[0]);
    HeadsAllInPlace(frames[0], 0);
    HeadSizesAll(frames[0], 0);
    SizeOfPartsAll(frames[0]);
  }

  /** The encoder computes the encoding. */
  method EncodeToBytes(x: Item) returns (out: array<Byte>)
    requires |Encode(x)| < U64
    ensures fresh(out) && out[..] == Encode(x)
  {
    var eb := new EncBuf();
    eb.EncodeItem(x);
    assert eb.frames == [[x]];
    assert EncodeAll([x]) == Encode(x) + EncodeAll([x][1..]);
    out := eb.ToBytes();
  }
}
