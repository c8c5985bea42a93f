/** Recursive Length Prefix as Appendix B of the Ethereum Yellow Paper defines it, and the
    recursive parser that it calls for. */
module RlpSpec {
  import opened Common
  type Byte = b: nat | b < 256

  datatype Error =
    | EOL
    | EOF
    | UnexpectedEOF
    | CanonInt
    | CanonSize
    | ElemTooLarge
    | ValueTooLarge
    | ExpectedString
    | ExpectedList
    | UintOverflow
    | NotInList
    | NotAtEOL
    | MoreThanOneValue

  datatype Result<+T> = Ok(value: T) | Err(error: Error)

  datatype Item = Str(bytes: seq<Byte>) | List(items: seq<Item>)

  // ---- numbers -----------------------------------------------------------------------

  /** Big-endian, as few bytes as possible, but at least one. */
  function BigEndian(n: nat): (r: seq<Byte>)
    ensures r != []
  {
    if n < 256 then [n] else BigEndian(n / 256) + [n % 256]
  }

  function FromBigEndian(s: seq<Byte>): nat {
    if s == [] then 0 else FromBigEndian(s[..|s|-1]) * 256 + s[|s|-1]
  }

  function Power256(k: nat): nat {
    if k == 0 then 1 else 256 * Power256(k - 1)
  }

  // ---- encoding ----------------------------------------------------------------------

  /** The header of a string (`tag` 0x80) or list (`tag` 0xC0) of the given content size. */
  function Header(tag: nat, size: nat): (r: seq<Byte>)
    ensures r != []
  {
    if size < 56 then [(tag + size) % 256]
    else [(tag + 55 + |BigEndian(size)|) % 256] + BigEndian(size)
  }

  function Encode(x: Item): (r: seq<Byte>)
    ensures r != []
  {
    match x
    case Str(b) => if |b| == 1 && b[0] < 128 then b else Header(0x80, |b|) + b
    case List(xs) => Header(0xC0, |EncodeAll(xs)|) + EncodeAll(xs)
  }

  function EncodeAll(xs: seq<Item>): seq<Byte> {
    if xs == [] then [] else Encode(xs[0]) + EncodeAll(xs[1..])
  }

  /** `e` is a tag and then the content: up to 55 bytes are counted in the tag itself, more in the one
      to eight bytes behind it, which are as few as possible. */
  ghost predicate IsTagged(e: seq<Byte>, short: nat, content: seq<Byte>) {
    if |content| <= 55 then |e| > 0 && e[0] == short + |content| && e[1..] == content else
      exists k :: 1 <= k <= 8 && CountedIn(e, k, short, content)
  }

  ghost predicate CountedIn(e: seq<Byte>, k: nat, short: nat, content: seq<Byte>) {
    |e| == 1 + k + |content| && e[0] == short + 55 + k && (k > 0 ==> e[1] != 0) && FromBigEndian(e[1..1+k]) == |content| && e[1+k..] == content
  }

  lemma HeaderTags(tag: nat, content: seq<Byte>)
    requires |content| < U64 && tag in {0x80, 0xC0}
    ensures IsTagged(Header(tag, |content|) + content, tag, content)
  {
    var size := |content|;
    var e := Header(tag, size) + content;
    if size >= 56 {
      var be := BigEndian(size);
      NoLeadingZero(size);
      FromBigEndianOf(size);
      assert Power256(8) == U64;
      BigEndianLength(size, 8);
      assert e == [(tag + 55 + |be|) % 256] + be + content;
      assert e[1..1 + |be|] == be && e[1 + |be|..] == content;
      assert CountedIn(e, |be|, tag, content);
    }
  }

  /** A single byte below 128 is its own encoding. Any other string is tagged from 0x80 on, and a list
      is what its items are written as, one after the other, tagged from 0xC0 on. */
  lemma EncodedExactly(x: Item)
    requires |Encode(x)| < U64
    ensures match x
      case Str(b) => if |b| == 1 && b[0] < 0x80 then Encode(x) == b else IsTagged(Encode(x), 0x80, b)
      case List(xs) => IsTagged(Encode(x), 0xC0, EncodeAll(xs))
  {
    hide IsTagged;
    match x {
      case Str(b) =>
        HeaderTags(0x80, b);
      case List(xs) =>
        HeaderTags(0xC0, EncodeAll(xs));
    }
  }

  /** Four known encodings: nothing, an empty list, "dog", and a list of "cat" and "dog". */
  lemma KnownEncodings()
    ensures Encode(Str([])) == [0x80] && Encode(Item.List([])) == [0xC0]
    ensures Encode(Str([0x64, 0x6F, 0x67])) == [0x83, 0x64, 0x6F, 0x67]
    ensures Encode(Item.List([Str([0x63, 0x61, 0x74]), Str([0x64, 0x6F, 0x67])])) == [0xC8, 0x83, 0x63, 0x61, 0x74, 0x83, 0x64, 0x6F, 0x67]
  {
    var cat, dog := Str([0x63, 0x61, 0x74]), Str([0x64, 0x6F, 0x67]);
    assert EncodeAll([]) == [];
    assert [cat, dog][1..] == [dog] && [dog][1..] == [];
    assert EncodeAll([dog]) == Encode(dog) + EncodeAll([]);
    assert EncodeAll([cat, dog]) == Encode(cat) + EncodeAll([dog]);
  }

  // ---- parsing -----------------------------------------------------------------------

  datatype Kind = Byte | String | List

  /** The kind of the first value, the size of its tag and of its content. A single byte is its
      own content and has no tag. */
  datatype Head = Head(kind: Kind, tag: nat, size: nat)

  /** A size of `len` bytes: no leading zero and no smaller than 56. */
  function SizeOf(b: seq<Byte>, len: nat): Option<nat>
    requires len > 0
  {
    if len > |b| then None
    else if b[0] == 0 || FromBigEndian(b[..len]) < 56 then None
    else Some(FromBigEndian(b[..len]))
  }

  function Fitting(b: seq<Byte>, h: Head): Option<Head> {
    if h.tag + h.size <= |b| then Some(h) else None
  }

  /** What the tag byte `t` with `rest` behind it announces. */
  function TagFrom(t: Byte, rest: seq<Byte>): (r: Option<Head>)
    ensures r.Some? ==> r.value.tag <= 1 + |rest| && 0 < r.value.tag + r.value.size && (r.value.kind.Byte? <==> r.value.tag == 0) && (r.value.kind.Byte? ==> r.value.size == 1)
  {
    if t < 0x80 then Some(Head(Kind.Byte, 0, 1))
    else if t < 0xB8 then Some(Head(String, 1, t - 0x80))
    else if t < 0xC0 then
      var size := SizeOf(rest, t - 0xB7);
      if size.None? then None else Some(Head(String, t - 0xB6, size.value))
    else if t < 0xF8 then Some(Head(Kind.List, 1, t - 0xC0))
    else
      var size := SizeOf(rest, t - 0xF7);
      if size.None? then None else Some(Head(Kind.List, t - 0xF6, size.value))
  }

  function TagOf(b: seq<Byte>): Option<Head> {
    if b == [] then None else TagFrom(b[0], b[1..])
  }

  /** The tag, if what it announces is there. */
  function HeadOf(b: seq<Byte>): (r: Option<Head>)
    ensures r.Some? ==> 0 < r.value.tag + r.value.size <= |b| && (r.value.kind.Byte? <==> r.value.tag == 0) && (r.value.kind.Byte? ==> r.value.size == 1)
  {
    var tag := TagOf(b);
    if tag.None? then None else Fitting(b, tag.value)
  }

  /** A string of one byte below 128 must not have a tag. */
  predicate Minimal(b: seq<Byte>, h: Head)
    requires h.tag + h.size <= |b|
  {
    !(h.kind.String? && h.size == 1 && b[h.tag] < 128)
  }

  /** The first value and the number of bytes it takes, or nothing if there is no canonical
      value at the start of `b`. */
  function Parse(b: seq<Byte>): (r: Option<(Item, nat)>)
    ensures r.Some? ==> 0 < r.value.1 <= |b|
    decreases |b|, 0
  {
    var head := HeadOf(b);
    if head.None? || !Minimal(b, head.value) then None else
      var h := head.value;
      var content := b[h.tag..h.tag + h.size];
      if !h.kind.List? then Some((Str(content), h.tag + h.size)) else
        var items := ParseAll(content);
        if items.None? then None else Some((Item.List(items.value), h.tag + h.size))
  }

  function ParseAll(b: seq<Byte>): Option<seq<Item>>
    decreases |b|, 1
  {
    if b == [] then Some([]) else
      var first := Parse(b);
      if first.None? then None else
        var rest := ParseAll(b[first.value.1..]);
        if rest.None? then None else Some([first.value.0] + rest.value)
  }

  // ---- numbers again -----------------------------------------------------------------

  lemma {:induction false} FromBigEndianOf(n: nat)
    ensures FromBigEndian(BigEndian(n)) == n
  {
    if n >= 256 {
      FromBigEndianOf(n / 256);
      var s := BigEndian(n);
      assert s[..|s|-1] == BigEndian(n / 256);
    }
  }

  lemma {:induction false} NoLeadingZero(n: nat)
    requires n > 0
    ensures BigEndian(n)[0] != 0
  {
    if n >= 256 {
      NoLeadingZero(n / 256);
    }
  }

  lemma {:induction false} BigEndianOf(s: seq<Byte>)
    requires s != [] && (|s| == 1 || s[0] != 0)
    ensures BigEndian(FromBigEndian(s)) == s && (s[0] != 0 ==> FromBigEndian(s) > 0)
  {
    if |s| == 1 {
      assert s[..0] == [];
    } else {
      var front := s[..|s|-1];
      BigEndianOf(front);
      var n := FromBigEndian(s);
      assert n / 256 == FromBigEndian(front) && n % 256 == s[|s|-1];
      assert s == front + [s[|s|-1]];
    }
  }

  /** `k` bytes are enough exactly for the numbers below 256 to the `k`. */
  lemma {:induction false} BigEndianLength(n: nat, k: nat)
    requires k > 0
    ensures |BigEndian(n)| <= k <==> n < Power256(k)
    decreases k
  {
    if n >= 256 {
      if k > 1 {
        BigEndianLength(n / 256, k - 1);
        assert n / 256 < Power256(k - 1) <==> n < 256 * Power256(k - 1);
      } else {
        assert Power256(1) == 256 * Power256(0);
      }
    } else {
      PowerPositive(k - 1);
    }
  }

  lemma {:induction false} PowerPositive(k: nat)
    ensures Power256(k) >= 1
  {
    if k > 0 {
      PowerPositive(k - 1);
    }
  }

  lemma SizeFits(n: nat)
    ensures |BigEndian(n)| <= 8 <==> n < U64
  {
    assert Power256(8) == U64;
    BigEndianLength(n, 8);
  }

  // ---- decoding undoes encoding ------------------------------------------------------

  lemma HeadOfHeader(tag: nat, content: seq<Byte>, rest: seq<Byte>)
    requires (tag == 0x80 || tag == 0xC0) && |content| < U64
    ensures HeadOf(Header(tag, |content|) + content + rest) ==
            Some(Head(if tag == 0x80 then String else Kind.List, |Header(tag, |content|)|, |content|))
  {
    hide BigEndian, FromBigEndian;
    var size := |content|;
    var b := Header(tag, size) + content + rest;
    if size >= 56 {
      hide SizeOf;
      var be := BigEndian(size);
      SizeFits(size);
      assert b[1..] == be + (content + rest);
      assert b[0] == tag + 55 + |be|;
      SizeAfter(size, content + rest);
    }
  }

  lemma SizeAfter(size: nat, rest: seq<Byte>)
    requires 56 <= size < U64
    ensures BigEndian(size) != [] && SizeOf(BigEndian(size) + rest, |BigEndian(size)|) == Some(size)
  {
    hide BigEndian, FromBigEndian;
    SizeFits(size);
    NoLeadingZero(size);
    FromBigEndianOf(size);
    var be := BigEndian(size);
    assert (be + rest)[..|be|] == be;
  }

  /** Whatever follows it, an encoded item is read back, to its last byte. */
  lemma {:induction false} ParseEncode(x: Item, rest: seq<Byte>)
    requires |Encode(x)| < U64
    ensures Parse(Encode(x) + rest) == Some((x, |Encode(x)|))
    decreases x
  {
    match x {
      case Str(s) =>
        if !(|s| == 1 && s[0] < 128) {
          HeadOfHeader(0x80, s, rest);
          var h := Header(0x80, |s|);
          assert Encode(x) + rest == h + s + rest;
          assert (h + s + rest)[|h|..|h| + |s|] == s;
          assert |s| == 1 ==> (h + s + rest)[|h|] == s[0];
        } else {
          assert (s + rest)[0..1] == s;
        }
      case List(xs) =>
        var content := EncodeAll(xs);
        var h := Header(0xC0, |content|);
        HeadOfHeader(0xC0, content, rest);
        assert Encode(x) + rest == h + content + rest;
        assert (h + content + rest)[|h|..|h| + |content|] == content;
        ParseEncodeAll(xs);
    }
  }

  lemma {:induction false} ParseEncodeAll(xs: seq<Item>)
    requires |EncodeAll(xs)| < U64
    ensures ParseAll(EncodeAll(xs)) == Some(xs)
    decreases xs
  {
    if xs != [] {
      var first, rest := Encode(xs[0]), EncodeAll(xs[1..]);
      ParseEncode(xs[0], rest);
      ParseEncodeAll(xs[1..]);
      assert (first + rest)[|first|..] == rest;
      assert xs == [xs[0]] + xs[1..];
    }
  }

  // ---- only canonical input is accepted ----------------------------------------------

  lemma HeaderOfHead(b: seq<Byte>, h: Head)
    requires HeadOf(b) == Some(h) && !h.kind.Byte?
    ensures Header(if h.kind.String? then 0x80 else 0xC0, h.size) == b[..h.tag]
  {
    hide BigEndian, FromBigEndian;
    var tag := if h.kind.String? then 0x80 else 0xC0;
    if b[0] < 0xB8 || 0xC0 <= b[0] < 0xF8 {
      assert b[..1] == [b[0]];
    } else {
      var len := b[0] - tag - 55;
      var be := b[1..][..len];
      assert be[0] == b[1..][0];
      BigEndianOf(be);
      assert b[..h.tag] == [b[0]] + be;
    }
  }

  /** Whatever is accepted is the encoding of the item it is read as. */
  lemma {:induction false} EncodeParse(b: seq<Byte>)
    requires Parse(b).Some?
    ensures Encode(Parse(b).value.0) == b[..Parse(b).value.1]
    decreases |b|, 0
  {
    var h := HeadOf(b).value;
    if h.kind.List? {
      EncodeParseAll(b[h.tag..h.tag + h.size]);
      ListAtHead(b, h, ParseAll(b[h.tag..h.tag + h.size]).value);
    } else {
      StringAtHead(b, h);
    }
  }

  lemma ListAtHead(b: seq<Byte>, h: Head, xs: seq<Item>)
    requires HeadOf(b) == Some(h) && h.kind.List? && EncodeAll(xs) == b[h.tag..h.tag + h.size]
    ensures Encode(Item.List(xs)) == b[..h.tag + h.size]
  {
    hide HeadOf, Header, EncodeAll;
    HeaderOfHead(b, h);
    assert b[..h.tag + h.size] == b[..h.tag] + b[h.tag..h.tag + h.size];
  }

  lemma StringAtHead(b: seq<Byte>, h: Head)
    requires HeadOf(b) == Some(h) && Minimal(b, h) && !h.kind.List?
    ensures Encode(Str(b[h.tag..h.tag + h.size])) == b[..h.tag + h.size]
  {
    var content := b[h.tag..h.tag + h.size];
    if h.kind.Byte? {
      assert b[..1] == content;
    } else {
      HeaderOfHead(b, h);
      assert b[..h.tag + h.size] == b[..h.tag] + content;
      assert h.size == 1 ==> content[0] == b[h.tag];
    }
  }

  lemma {:induction false} EncodeParseAll(b: seq<Byte>)
    requires ParseAll(b).Some?
    ensures EncodeAll(ParseAll(b).value) == b
    decreases |b|, 1
  {
    hide Parse, Encode;
    if b != [] {
      var n := Parse(b).value.1;
      EncodeParse(b);
      EncodeParseAll(b[n..]);
      EncodeAllCons(Parse(b).value.0, ParseAll(b[n..]).value);
      assert b == b[..n] + b[n..];
    }
  }

  lemma EncodeAllCons(x: Item, xs: seq<Item>)
    ensures EncodeAll([x] + xs) == Encode(x) + EncodeAll(xs)
  {
    assert ([x] + xs)[1..] == xs;
  }

  /** Distinct items have distinct encodings, and no encoding is the start of another. */
  lemma EncodingIsPrefixFree(x: Item, y: Item, rest: seq<Byte>)
    requires |Encode(x)| < U64 && |Encode(y)| < U64 && Encode(x) == Encode(y) + rest
    ensures x == y && rest == []
  {
    ParseEncode(x, []);
    ParseEncode(y, rest);
    assert Encode(x) + [] == Encode(x);
  }
}
