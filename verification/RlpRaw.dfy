/** Reading values out of a byte slice without decoding them (rlp/raw.go). */
module RlpRaw {
  import opened Common
  import opened RlpSpec

  lemma FromPrefix(b: seq<Byte>, k: nat)
    requires k < |b|
    ensures FromBigEndian(b[..k+1]) == FromBigEndian(b[..k]) * 256 + b[k]
  {
    assert b[..k+1][..k] == b[..k];
  }

  /** The bytes put together, highest first. */
  function Joined(b: seq<Byte>, slen: nat): nat
    requires 1 <= slen <= 8 && slen <= |b|
  {
    match slen
    case 1 => b[0]
    case 2 => 0x100 * (b[0] as int) + (b[1] as int)
    case 3 => 0x1_0000 * (b[0] as int) + 0x100 * (b[1] as int) + (b[2] as int)
    case 4 => 0x100_0000 * (b[0] as int) + 0x1_0000 * (b[1] as int) + 0x100 * (b[2] as int) + (b[3] as int)
    case 5 => 0x1_0000_0000 * (b[0] as int) + 0x100_0000 * (b[1] as int) + 0x1_0000 * (b[2] as int) + 0x100 * (b[3] as int) + (b[4] as int)
    case 6 => 0x100_0000_0000 * (b[0] as int) + 0x1_0000_0000 * (b[1] as int) + 0x100_0000 * (b[2] as int) + 0x1_0000 * (b[3] as int) + 0x100 * (b[4] as int) + (b[5] as int)
    case 7 =>
      0x1_0000_0000_0000 * (b[0] as int) + 0x100_0000_0000 * (b[1] as int) + 0x1_0000_0000 * (b[2] as int) + 0x100_0000 * (b[3] as int)
      + 0x1_0000 * (b[4] as int) + 0x100 * (b[5] as int) + (b[6] as int)
    case 8 =>
      0x100_0000_0000_0000 * (b[0] as int) + 0x1_0000_0000_0000 * (b[1] as int) + 0x100_0000_0000 * (b[2] as int) + 0x1_0000_0000 * (b[3] as int)
      + 0x100_0000 * (b[4] as int) + 0x1_0000 * (b[5] as int) + 0x100 * (b[6] as int) + (b[7] as int)
  }

  lemma {:induction false} JoinedIsBigEndian(b: seq<Byte>, slen: nat)
    requires 1 <= slen <= 8 && slen <= |b|
    ensures Joined(b, slen) == FromBigEndian(b[..slen])
  {
    FromPrefix(b, slen - 1);
    if slen == 1 {
      assert b[..0] == [];
    } else {
      JoinedIsBigEndian(b, slen - 1);
    }
  }

  /** The size that follows a long tag. */
  function ReadSize(b: seq<Byte>, slen: nat): (r: Result<nat>)
    requires 1 <= slen <= 8
    ensures r.Ok? <==> SizeOf(b, slen).Some?
    ensures r.Ok? ==> SizeOf(b, slen) == Some(r.value)
  {
    if slen > |b| then Err(UnexpectedEOF) else
      JoinedIsBigEndian(b, slen);
      var s := Joined(b, slen);
      if s < 56 || b[0] == 0 then Err(CanonSize) else Ok(s)
  }

  /** Kind, tag size and content size of the first value. */
  function ReadKind(b: seq<Byte>): (r: Result<Head>)
    ensures r.Ok? <==> HeadOf(b).Some? && Minimal(b, HeadOf(b).value)
    ensures r.Ok? ==> HeadOf(b) == Some(r.value)
  {
    if b == [] then Err(UnexpectedEOF)
    else if b[0] < 0x80 then Ok(Head(Kind.Byte, 0, 1))
    else if b[0] < 0xB8 then
      if b[0] == 0x81 && |b| > 1 && b[1] < 128 then Err(CanonSize) else Limited(b, Head(String, 1, b[0] - 0x80))
    else if b[0] < 0xC0 then
      var size := ReadSize(b[1..], b[0] - 0xB7);
      if size.Err? then Err(size.error) else Limited(b, Head(String, b[0] - 0xB6, size.value))
    else if b[0] < 0xF8 then Limited(b, Head(Kind.List, 1, b[0] - 0xC0))
    else
      var size := ReadSize(b[1..], b[0] - 0xF7);
      if size.Err? then Err(size.error) else Limited(b, Head(Kind.List, b[0] - 0xF6, size.value))
  }

  /** Values larger than the input are rejected. */
  function Limited(b: seq<Byte>, h: Head): (r: Result<Head>)
    ensures r.Ok? <==> Fitting(b, h).Some?
    ensures r.Ok? ==> r.value == h
  {
    if h.size > |b| - h.tag then Err(ValueTooLarge) else Ok(h)
  }

  datatype Piece = Piece(kind: Kind, content: seq<Byte>, rest: seq<Byte>)

  /** The first value's content and what follows it; together with the tag they are the input. */
  function Split(b: seq<Byte>): (r: Result<Piece>)
    ensures r.Ok? ==> |r.value.content| + |r.value.rest| <= |b| && r.value.rest == b[|b| - |r.value.rest|..]
  {
    var head := ReadKind(b);
    if head.Err? then Err(head.error) else
      var h := head.value;
      Ok(Piece(h.kind, b[h.tag..h.tag + h.size], b[h.tag + h.size..]))
  }

  function SplitString(b: seq<Byte>): (r: Result<(seq<Byte>, seq<Byte>)>)
    ensures r.Ok? ==> |r.value.0| + |r.value.1| <= |b| && r.value.1 == b[|b| - |r.value.1|..]
  {
    var p := Split(b);
    if p.Err? then Err(p.error)
    else if p.value.kind.List? then Err(ExpectedString)
    else Ok((p.value.content, p.value.rest))
  }

  function SplitList(b: seq<Byte>): (r: Result<(seq<Byte>, seq<Byte>)>)
    ensures r.Ok? ==> |r.value.0| + |r.value.1| < |b| && r.value.1 == b[|b| - |r.value.1|..]
  {
    var p := Split(b);
    if p.Err? then Err(p.error)
    else if !p.value.kind.List? then Err(ExpectedList)
    else Ok((p.value.content, p.value.rest))
  }

  /** Splitting an encoding gives back the item's content and everything behind it. */
  lemma SplitEncoded(x: Item, rest: seq<Byte>)
    requires |Encode(x)| < U64
    ensures x.Str? ==> SplitString(Encode(x) + rest) == Ok((x.bytes, rest)) && SplitList(Encode(x) + rest) == Err(ExpectedList)
    ensures x.List? ==> SplitList(Encode(x) + rest) == Ok((EncodeAll(x.items), rest)) && SplitString(Encode(x) + rest) == Err(ExpectedString)
  {
    if x.Str? && |x.bytes| == 1 && x.bytes[0] < 128 {
      assert (x.bytes + rest)[0..1] == x.bytes && (x.bytes + rest)[1..] == rest;
    } else {
      var content := if x.Str? then x.bytes else EncodeAll(x.items);
      var h := Header(if x.Str? then 0x80 else 0xC0, |content|);
      var b := Encode(x) + rest;
      HeadOfHeader(if x.Str? then 0x80 else 0xC0, content, rest);
      assert b == h + content + rest;
      assert b[|h|..|h| + |content|] == content && b[|h| + |content|..] == rest;
      assert |content| == 1 ==> b[|h|] == content[0];
    }
  }

  // ---- counting ----------------------------------------------------------------------

  /** How many values stand one behind the other. */
  function Count(b: seq<Byte>): Result<nat>
    decreases |b|
  {
    if b == [] then Ok(0) else
      var head := ReadKind(b);
      if head.Err? then Err(head.error) else
        var rest := Count(b[head.value.tag + head.value.size..]);
        if rest.Err? then Err(rest.error) else Ok(1 + rest.value)
  }

  method CountValues(input: seq<Byte>) returns (r: Result<nat>)
    ensures r == Count(input)
  {
    var b, i := input, 0;
    while b != []
      invariant Count(input) == if Count(b).Err? then Count(b) else Ok(i + Count(b).value)
      decreases |b|
    {
      var head := ReadKind(b);
      if head.Err? {
        return Err(head.error);
      }
      b := b[head.value.tag + head.value.size..];
      i := i + 1;
    }
    r := Ok(i);
  }

  /** The encodings of `n` items, one behind the other, count as `n`. */
  lemma {:induction false} CountEncoded(xs: seq<Item>)
    requires |EncodeAll(xs)| < U64
    ensures Count(EncodeAll(xs)) == Ok(|xs|)
    decreases xs
  {
    if xs != [] {
      var first, rest := Encode(xs[0]), EncodeAll(xs[1..]);
      CountEncoded(xs[1..]);
      FirstEncoded(xs[0], rest);
      assert (first + rest)[|first|..] == rest;
    }
  }

  lemma FirstEncoded(x: Item, rest: seq<Byte>)
    requires |Encode(x)| < U64
    ensures ReadKind(Encode(x) + rest).Ok? && ReadKind(Encode(x) + rest).value.tag + ReadKind(Encode(x) + rest).value.size == |Encode(x)|
  {
    ParseEncode(x, rest);
  }

  /** `Raw` of the stream reader takes the bytes up to `h.tag + h.size` whenever there is a head
      `h`. The slice reader finds the same extent and refuses exactly a low byte behind a tag. */
  lemma RawAndSplit(b: seq<Byte>)
    ensures Split(b).Ok? <==> HeadOf(b).Some? && !(|b| >= 2 && b[0] == 0x81 && b[1] < 128)
    ensures Split(b).Ok? ==>
      var h := HeadOf(b).value;
      Split(b).value == Piece(h.kind, b[h.tag..h.tag + h.size], b[h.tag + h.size..])
    ensures HeadOf(b).Some? && Split(b).Err? ==> Split(b) == Err(CanonSize) && HeadOf(b) == Some(Head(String, 1, 1))
  {
  }

  /** The recursive parser accepts what the slice reader accepts, unless it fails inside a list;
      both find the same extent. */
  lemma ReadersAgree(b: seq<Byte>)
    ensures Parse(b).Some? <==> Split(b).Ok? && (Split(b).value.kind.List? ==> ParseAll(Split(b).value.content).Some?)
    ensures Parse(b).Some? ==> Split(b).value.rest == b[Parse(b).value.1..]
    ensures Parse(b).Some? && Parse(b).value.0.Str? ==> Split(b).value.content == Parse(b).value.0.bytes
    ensures Parse(b).Some? && Parse(b).value.0.List? ==> Split(b).value.content == EncodeAll(Parse(b).value.0.items)
  {
    hide HeadOf, ReadKind, ParseAll, EncodeAll;
    if HeadOf(b).Some? && HeadOf(b).value.kind.List? {
      var h := HeadOf(b).value;
      if ParseAll(b[h.tag..h.tag + h.size]).Some? {
        EncodeParseAll(b[h.tag..h.tag + h.size]);
      }
    }
  }
}
